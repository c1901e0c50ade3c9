/**
 When the bitmap of the physical allocator still records every page handed out, and what can then be
 counted in it.
 */
module PmmCounting {
  import opened Bitmaps
  import opened PmmSpec

  function ClearBits(s: seq<bool>): nat {
    if s == [] then 0 else ClearBits(s[..|s| - 1]) + (if s[|s| - 1] then 0 else 1)
  }

  /** The bitmap is exactly the pages handed out. */
  ghost predicate Recorded(bits: seq<bool>, live: set<nat>) {
    (forall p | p in live :: p < |bits|) && forall p | 0 <= p < |bits| :: bits[p] <==> p in live
  }

  ghost predicate Tracked(a: Area) { Recorded(a.bits, a.live) }

  lemma {:induction false} ClearBitsOf(bits: seq<bool>, live: set<nat>)
    requires Recorded(bits, live)
    ensures ClearBits(bits) == |bits| - |live|
  {
    if bits == [] {
      assert live == {} by { if p :| p in live { assert false; } }
    } else {
      var m := |bits| - 1;
      assert forall p | p in live - {m} :: p < m;
      ClearBitsOf(bits[..m], live - {m});
      if !bits[m] { assert live - {m} == live; }
    }
  }

  /** An allocation is recorded exactly when its range ends before the last bit: bitmap_set_range ignores the others. */
  lemma {:induction false} TakeTracks(a: Area, n: nat)
    requires AreaInv(a) && Tracked(a) && n > 0 && Serves(a, n)
    ensures var idx := FirstFit(a.bits, a.hint, n).value;
      Tracked(Take(a, idx, n)) <==> idx + n < |a.bits|
  {
    var idx := FirstFit(a.bits, a.hint, n).value;
    ServesIff(a, n);
    FirstFitIsLeast(a.bits, a.hint, n);
    var b := Take(a, idx, n);
    if idx + n >= |a.bits| { assert idx in b.live && !b.bits[idx]; }
  }

  /** And so is a free. */
  lemma {:induction false} GiveTracks(a: Area, idx: nat, n: nat)
    requires Tracked(a) && n > 0 && Pages(idx, n) <= a.live
    ensures Tracked(Give(a, idx, n)) <==> idx + n < |a.bits|
  {
    var b := Give(a, idx, n);
    assert idx in Pages(idx, n) && idx + n - 1 in Pages(idx, n);
    if idx + n >= |a.bits| { assert idx !in b.live && b.bits[idx]; }
  }

  // ---- The free page count ----

  function AllClear(areas: seq<Area>): nat {
    if areas == [] then 0 else ClearBits(areas[0].bits) + AllClear(areas[1..])
  }

  ghost predicate AllTracked(areas: seq<Area>) { forall k | 0 <= k < |areas| :: Tracked(areas[k]) }

  lemma {:induction false} UnusedIsClear(areas: seq<Area>)
    requires AllTracked(areas)
    ensures Unused(areas) == AllClear(areas)
  {
    if areas != [] {
      ClearBitsOf(areas[0].bits, areas[0].live);
      assert AllTracked(areas[1..]) by { assert forall k | 0 <= k < |areas| - 1 :: areas[1..][k] == areas[k + 1]; }
      UnusedIsClear(areas[1..]);
    }
  }

  /** The range the operation works on ends before the last bit of its area. */
  ghost predicate EndsBefore(s: Pmm, op: Op) {
    match op
    case Alloc(n) =>
      var k := Pick(s.areas, 0, n);
      n > 0 && k < |s.areas| ==> FirstFit(s.areas[k].bits, s.areas[k].hint, n).value + n < |s.areas[k].bits|
    case Free(addr, n) => n > 0 && forall k: nat, idx: nat | Locates(s, addr, k, idx) :: idx + n < |s.areas[k].bits|
  }

  ghost predicate RunEndsBefore(s: Pmm, ops: seq<Op>)
    decreases |ops|
  {
    ops != [] ==> EndsBefore(s, ops[0]) && RunEndsBefore(Step(s, ops[0]), ops[1..])
  }

  lemma {:induction false} StepTracks(s: Pmm, op: Op)
    requires Inv(s) && AllTracked(s.areas) && EndsBefore(s, op)
    requires op.Free? ==> LegalFree(s, op.addr, op.n)
    ensures AllTracked(Step(s, op).areas)
  {
    match op
    case Alloc(n) => AllocTracks(s, n);
    case Free(addr, n) => FreeTracks(s, addr, n);
  }

  lemma {:induction false} AllocTracks(s: Pmm, n: nat)
    requires Inv(s) && AllTracked(s.areas) && EndsBefore(s, Alloc(n))
    ensures AllTracked(PAlloc(s, n).0.areas)
  {
    var k := Pick(s.areas, 0, n);
    if n > 0 && k < |s.areas| { TakeTracks(s.areas[k], n); }
  }

  lemma {:induction false} FreeTracks(s: Pmm, addr: nat, n: nat)
    requires Inv(s) && AllTracked(s.areas) && EndsBefore(s, Free(addr, n)) && LegalFree(s, addr, n)
    ensures AllTracked(PFree(s, addr, n).areas)
  {
    var k: nat, idx: nat :| Locates(s, addr, k, idx) && Pages(idx, n) <= s.areas[k].live;
    FindsOwner(s, addr, k, idx);
    GiveTracks(s.areas[k], idx, n);
    assert PFree(s, addr, n).areas == s.areas[k := Give(s.areas[k], idx, n)];
  }

  /** In every run whose ranges end before the last bit, pmm_free_num_pages is the number of clear bits. */
  lemma {:induction false} RunCounts(s: Pmm, ops: seq<Op>)
    requires Inv(s) && AllTracked(s.areas) && LegalRun(s, ops) && RunEndsBefore(s, ops)
    ensures Exec(s, ops).freeNumPages == AllClear(Exec(s, ops).areas)
    decreases |ops|
  {
    if ops == [] {
      UnusedIsClear(s.areas);
    } else {
      StepTracks(s, ops[0]);
      StepInv(s, ops[0]);
      RunCounts(Step(s, ops[0]), ops[1..]);
    }
  }
}
