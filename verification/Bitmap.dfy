/** The allocation bitmap: bits packed into bytes, range updates and the first-fit scan. */
module Bitmaps {
  import opened Common

  // ---- One byte ----

  predicate BitOf(b: bv8, k: nat)
    requires k < 8
  {
    (b >> k) & 1 == 1
  }

  lemma {:induction false} OneBit(k: nat, j: nat)
    requires k < 8 && j < 8
    ensures BitOf(1 << k, j) == (j == k)
  {
    if k == 0 {} else if k == 1 {} else if k == 2 {} else if k == 3 {}
    else if k == 4 {} else if k == 5 {} else if k == 6 {} else {}
  }

  lemma {:induction false} OrBit(b: bv8, m: bv8, j: nat)
    requires j < 8
    ensures BitOf(b | m, j) == (BitOf(b, j) || BitOf(m, j))
  {
    if j == 0 {} else if j == 1 {} else if j == 2 {} else if j == 3 {}
    else if j == 4 {} else if j == 5 {} else if j == 6 {} else {}
  }

  lemma {:induction false} AndBit(b: bv8, m: bv8, j: nat)
    requires j < 8
    ensures BitOf(b & m, j) == (BitOf(b, j) && BitOf(m, j))
  {
    if j == 0 {} else if j == 1 {} else if j == 2 {} else if j == 3 {}
    else if j == 4 {} else if j == 5 {} else if j == 6 {} else {}
  }

  lemma {:induction false} NotBit(m: bv8, j: nat)
    requires j < 8
    ensures BitOf(!m, j) == !BitOf(m, j)
  {
    if j == 0 {} else if j == 1 {} else if j == 2 {} else if j == 3 {}
    else if j == 4 {} else if j == 5 {} else if j == 6 {} else {}
  }

  lemma {:induction false} AndNotBit(b: bv8, m: bv8, j: nat)
    requires j < 8
    ensures BitOf(b & !m, j) == (BitOf(b, j) && !BitOf(m, j))
  {
    var n := !m;
    assert BitOf(n, j) == !BitOf(m, j) by { NotBit(m, j); }
    AndBit(b, n, j);
  }

  /** map[byte] |= 1 << k: bit k becomes 1, the other seven stay. */
  method SetBit(b: bv8, k: nat) returns (r: bv8)
    requires k < 8
    ensures forall j: nat | j < 8 :: BitOf(r, j) == (j == k || BitOf(b, j))
  {
    r := b | (1 << k);
    forall j: nat | j < 8 ensures BitOf(r, j) == (j == k || BitOf(b, j)) {
      OneBit(k, j);
      OrBit(b, 1 << k, j);
    }
  }

  /** map[byte] &= ~(1 << k): bit k becomes 0, the other seven stay. */
  method UnsetBit(b: bv8, k: nat) returns (r: bv8)
    requires k < 8
    ensures forall j: nat | j < 8 :: BitOf(r, j) == (j != k && BitOf(b, j))
  {
    r := b & !(1 << k);
    forall j: nat | j < 8 ensures BitOf(r, j) == (j != k && BitOf(b, j)) {
      OneBit(k, j);
      AndNotBit(b, 1 << k, j);
    }
  }

  // ---- Bit sequences ----

  /** The n bits from i on exist and are all clear. */
  predicate ClearRun(s: seq<bool>, i: nat, n: nat) {
    i + n <= |s| && forall j :: i <= j < i + n ==> !s[j]
  }

  /** The least start of a clear run of n bits at or after `from`. */
  function FirstFit(s: seq<bool>, from: nat, n: nat): Option<nat>
    decreases |s| - from
  {
    if from + n > |s| then None
    else if ClearRun(s, from, n) then Some(from)
    else if from == |s| then None
    else FirstFit(s, from + 1, n)
  }

  /** s with the n bits from i on set to v; a range that ends at or past the last bit is ignored. */
  function WithRange(s: seq<bool>, i: nat, n: nat, v: bool): seq<bool> {
    if n + i >= |s| then s
    else seq(|s|, k requires 0 <= k < |s| => if i <= k < i + n then v else s[k])
  }

  /** The scan answers with the least clear run, and with None exactly when there is none. */
  lemma {:induction false} FirstFitIsLeast(s: seq<bool>, from: nat, n: nat)
    ensures FirstFit(s, from, n).None? <==> forall i | from <= i :: !ClearRun(s, i, n)
    ensures FirstFit(s, from, n).Some? ==>
              var r := FirstFit(s, from, n).value;
              from <= r && ClearRun(s, r, n) && forall i | from <= i < r :: !ClearRun(s, i, n)
    decreases |s| - from
  {
    if from + n <= |s| && !ClearRun(s, from, n) && from < |s| {
      FirstFitIsLeast(s, from + 1, n);
    }
  }

  /** Starting at `later` instead of `from` finds the same run when no run starts in between. */
  lemma {:induction false} FirstFitSkips(s: seq<bool>, from: nat, later: nat, n: nat)
    requires from <= later
    requires forall i | from <= i < later :: !ClearRun(s, i, n)
    ensures FirstFit(s, from, n) == FirstFit(s, later, n)
    decreases later - from
  {
    FirstFitIsLeast(s, from, n);
    FirstFitIsLeast(s, later, n);
    if FirstFit(s, from, n).Some? {
      assert ClearRun(s, FirstFit(s, from, n).value, n);
    }
  }

  /** A set bit fewer than n places after `from` sends the scan past it. */
  lemma {:induction false} FirstFitPassesSetBit(s: seq<bool>, from: nat, at: nat, n: nat)
    requires from <= at < |s| && s[at] && at < from + n
    ensures FirstFit(s, from, n) == FirstFit(s, at + 1, n)
  {
    FirstFitSkips(s, from, at + 1, n);
  }

  /** The place after the first set bit at or after `from`. */
  function AfterSet(s: seq<bool>, from: nat): Option<nat>
    decreases |s| - from
  {
    if from >= |s| then None else if s[from] then Some(from + 1) else AfterSet(s, from + 1)
  }

  lemma {:induction false} AfterSetIs(s: seq<bool>, from: nat)
    ensures AfterSet(s, from).None? ==> forall k | from <= k < |s| :: !s[k]
    ensures AfterSet(s, from).Some? ==>
              var r := AfterSet(s, from).value;
              from < r <= |s| && s[r - 1] && forall k | from <= k < r - 1 :: !s[k]
    decreases |s| - from
  {
    if from < |s| && !s[from] { AfterSetIs(s, from + 1); }
  }

  // ---- The scan ----

  /** The bits from `from` to i are passed, those from `start` on are clear and fewer than n, and nothing was found. */
  ghost predicate Scanned(s: seq<bool>, from: nat, n: nat, start: nat, i: nat) {
    && from <= start <= i && (n > 0 ==> i - start < n) && (forall k | start <= k < i && k < |s| :: !s[k])
    && if n > 0 then FirstFit(s, from, n) == FirstFit(s, start, n) else AfterSet(s, from) == AfterSet(s, i)
  }

  lemma {:induction false} ScanStep(s: seq<bool>, from: nat, n: nat, start: nat, i: nat)
    requires Scanned(s, from, n, start, i) && i < |s|
    ensures if s[i] then (if n == 0 then AfterSet(s, from) == Some(i + 1) else Scanned(s, from, n, i + 1, i + 1))
            else if n > 0 && i + 1 - start == n then FirstFit(s, from, n) == Some(start)
            else Scanned(s, from, n, start, i + 1)
  {
    if n > 0 && s[i] { FirstFitPassesSetBit(s, start, i, n); }
    if n > 0 && !s[i] && i + 1 - start == n { assert ClearRun(s, start, n); }
  }

  lemma {:induction false} ScanEnd(s: seq<bool>, from: nat, n: nat, start: nat, i: nat)
    requires Scanned(s, from, n, start, i) && i >= |s|
    ensures (if n > 0 then FirstFit(s, from, n) else AfterSet(s, from)) == None
  {
    FirstFitIsLeast(s, start, n);
  }

  class Bitmap {
    const size: nat
    const data: array<bv8>

    ghost predicate Valid() {
      size <= 8 * data.Length
    }

    constructor (size: nat, bytes: nat)
      requires size <= 8 * bytes
      ensures Valid() && this.size == size && data.Length == bytes && fresh(data)
      ensures Bits() == seq(size, _ => false)
    {
      this.size := size;
      data := new bv8[bytes](_ => 0);
      new;
      assert forall i | 0 <= i < size :: !BitOf(data[i / 8], i % 8);
    }

    ghost function Bits(): (s: seq<bool>)
      requires Valid()
      reads data
      ensures |s| == size
      ensures forall i | 0 <= i < size :: s[i] == BitOf(data[i / 8], i % 8)
    {
      seq(size, i requires 0 <= i < size reads data => BitOf(data[i / 8], i % 8))
    }

    method Set(idx: nat)
      requires Valid() && idx < size
      modifies data
      ensures Bits() == old(Bits())[idx := true]
    {
      var byteIdx, bitIdx := idx / 8, idx % 8;
      var byte := SetBit(data[byteIdx], bitIdx);
      data[byteIdx] := byte;
    }

    method Unset(idx: nat)
      requires Valid() && idx < size
      modifies data
      ensures Bits() == old(Bits())[idx := false]
    {
      var byteIdx, bitIdx := idx / 8, idx % 8;
      var byte := UnsetBit(data[byteIdx], bitIdx);
      data[byteIdx] := byte;
    }

    method Bit(idx: nat) returns (b: bool)
      requires Valid() && idx < size
      ensures b == Bits()[idx]
    {
      b := (data[idx / 8] >> (idx % 8)) & 1 == 1;
    }

    /** Asked for no bits at all, the scan answers with the place after the first set bit. */
    method FindContiguousRangeFrom(from: nat, needed: nat) returns (r: Option<nat>)
      requires Valid()
      ensures r == if needed > 0 then FirstFit(Bits(), from, needed) else AfterSet(Bits(), from)
    {
      ghost var s := Bits();
      ghost var start: nat := from;  // start of the clear run being extended
      var len: nat := 0;
      var i: nat := from;
      while i < size
        invariant start + len == i && Scanned(s, from, needed, start, i)
      {
        var bit := Bit(i);
        ScanStep(s, from, needed, start, i);
        if bit {
          start := i + 1;
          len := 0;
        } else {
          len := len + 1;
        }
        if len == needed { return Some(i + 1 - needed); }
        i := i + 1;
      }
      ScanEnd(s, from, needed, start, i);
      return None;
    }

    method SetRange(idx: nat, n: nat)
      requires Valid()
      modifies data
      ensures Bits() == WithRange(old(Bits()), idx, n, true)
    {
      if n + idx >= size { return; }
      for i := idx to idx + n
        invariant forall k | 0 <= k < size ::
                    Bits()[k] == if idx <= k < i then true else old(Bits())[k]
      {
        Set(i);
      }
    }

    method UnsetRange(idx: nat, n: nat)
      requires Valid()
      modifies data
      ensures Bits() == WithRange(old(Bits()), idx, n, false)
    {
      if n + idx >= size { return; }
      for i := idx to idx + n
        invariant forall k | 0 <= k < size ::
                    Bits()[k] == if idx <= k < i then false else old(Bits())[k]
      {
        Unset(i);
      }
    }
  }
}
