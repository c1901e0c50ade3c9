/** The ring buffer of libds, refining a bounded queue that either refuses or overwrites when it is full. */
module RingBuffers {
  import opened Common

  datatype Mode = Blocking | Overwrite

  /** The index i places after head in a buffer of cap elements. */
  function At(head: nat, i: nat, cap: nat): (k: nat)
    requires head < cap && i <= cap
    ensures k < cap && k == (head + i) % cap
  {
    WrapIs(head + i, cap);
    if head + i < cap then head + i else head + i - cap
  }

  lemma {:induction false} WrapIs(x: nat, cap: nat)
    requires x < 2 * cap
    ensures x % cap == if x < cap then x else x - cap
  {
    if x >= cap { ModLess(x - cap, cap); }
  }

  lemma {:induction false} ModLess(y: nat, cap: nat)
    requires y < cap
    ensures (y + cap) % cap == y
  {
    assert (y + cap) / cap == 1 by { assert cap <= y + cap < 2 * cap; DivOne(y + cap, cap); }
  }

  lemma {:induction false} DivOne(x: nat, cap: nat)
    requires cap > 0 && cap <= x < 2 * cap
    ensures x / cap == 1
  {
    var q := x / cap;
    assert x == q * cap + x % cap;
    assert q <= 0 ==> q * cap <= 0;
    assert q >= 2 ==> q * cap >= 2 * cap;
  }

  class RingBuffer<T(0)> {
    const cap: nat
    const mode: Mode
    const buf: array<T>
    var len: nat
    var head: nat
    var tail: nat

    ghost predicate Valid()
      reads this
    {
      0 < cap == buf.Length && len <= cap && head < cap && tail == At(head, len, cap)
    }

    /** The queue, oldest element first. */
    ghost function Contents(): (s: seq<T>)
      requires Valid()
      reads this, buf
      ensures |s| == len
    {
      seq(len, i requires 0 <= i < len && Valid() reads this, buf => buf[At(head, i, cap)])
    }

    /** ringbuf_init, with memory to allocate from. */
    constructor (cap: nat, mode: Mode)
      requires cap > 0
      ensures Valid() && Contents() == [] && this.cap == cap && this.mode == mode && fresh(buf)
    {
      this.cap, this.mode := cap, mode;
      len, head, tail := 0, 0, 0;
      buf := new T[cap];
    }

    /** ringbuf_write. */
    method Write(x: T) returns (ok: bool)
      requires Valid()
      modifies this, buf
      ensures Valid()
      ensures ok == (mode == Overwrite || |old(Contents())| < cap)
      ensures Contents() == if ok then Last(old(Contents()) + [x], cap) else old(Contents())
    {
      ghost var was := Contents();
      if mode == Overwrite {
        buf[tail] := x;
        if len == cap {
          assert tail == head;
          head := (head + 1) % cap;
        } else {
          len := len + 1;
        }
        tail := (tail + 1) % cap;
        ok := true;
      } else if len == cap {
        return false;
      } else {
        buf[tail] := x;
        tail := (tail + 1) % cap;
        len := len + 1;
        ok := true;
      }
      WrapIs(old(head) + 1, cap);
      WrapIs(old(tail) + 1, cap);
      assert Contents() == Last(was + [x], cap);
    }

    /** ringbuf_read. */
    method Read() returns (r: Option<T>)
      requires Valid()
      modifies this`head, this`len
      ensures Valid()
      ensures old(Contents()) == [] ==> r == None && Contents() == []
      ensures old(Contents()) != [] ==> r == Some(old(Contents())[0]) && Contents() == old(Contents())[1..]
    {
      if len == 0 { return None; }
      ghost var was := Contents();
      r := Some(buf[head]);
      head := (head + 1) % cap;
      len := len - 1;
      WrapIs(old(head) + 1, cap);
      assert Contents() == was[1..];
    }
  }

  /** The last n elements of s, or all of them. */
  function Last<T>(s: seq<T>, n: nat): seq<T> {
    if |s| <= n then s else s[|s| - n..]
  }

  /** Dropping early or late makes no difference. */
  lemma {:induction false} LastLast<T>(a: seq<T>, b: seq<T>, n: nat)
    ensures Last(Last(a, n) + b, n) == Last(a + b, n)
  {
  }
}
