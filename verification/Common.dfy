/** Shared vocabulary of the kernel model. */
module Common {
  datatype Option<+T> = None | Some(value: T)

  const PAGE_SIZE: nat := 4096

  // 2^64, the modulus of size_t and of addresses.
  const WORD: nat := 0x1_0000_0000_0000_0000

  function Min(a: int, b: int): int { if a <= b then a else b }

  function Max(a: int, b: int): int { if a >= b then a else b }

  /** s without its first occurrence of x. */
  function Without<X(==)>(s: seq<X>, x: X): seq<X> {
    if s == [] then [] else if s[0] == x then s[1..] else [s[0]] + Without(s[1..], x)
  }

  ghost predicate NoDup<X>(s: seq<X>) { forall i, j | 0 <= i < j < |s| :: s[i] != s[j] }

  /** align_up(x, PAGE_SIZE). */
  function AlignUp(x: nat): nat { (x + (PAGE_SIZE - 1)) / PAGE_SIZE * PAGE_SIZE }

  /** align_down(x, PAGE_SIZE). */
  function AlignDown(x: nat): nat { x / PAGE_SIZE * PAGE_SIZE }

  /**
   A fact written as `forall z | Unfolding(z) :: ...`, with this trigger, is folded: proofs that do not
   mention Unfolding carry it along without looking inside.
   */
  predicate Unfolding(z: nat) { true }
}
