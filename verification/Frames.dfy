/** Single frames of the physical allocator, as the page-table and area code ask for them. */
module Frames {
  import opened Common
  import opened PageWalk
  import PhysicalMemory
  import opened PmmSpec

  ghost predicate FrameOf(s: Pmm, f: nat) { exists k: nat, idx: nat :: Locates(s, f, k, idx) }

  /** Every area is page-aligned and ends below 2^48. */
  ghost predicate Addressable(s: Pmm) {
    forall k | 0 <= k < |s.areas| :: s.areas[k].base % PAGE_SIZE == 0
      && s.areas[k].base + (|s.areas[k].bits| + 1) * PAGE_SIZE <= 0x1_0000_0000_0000
  }

  /**
   s is in order, `frames` are its pages, `free` those not handed out, and `budget` is how many
   pages it will still hand out: at most the free ones, and fewer once pages have been given back.
   */
  ghost predicate Managed(s: Pmm, frames: set<nat>, free: set<nat>, budget: nat) {
    && Inv(s) && Addressable(s) && budget == Budget(s.areas)
    && (forall f :: f in frames <==> FrameOf(s, f))
    && (forall f :: f in free <==> f in frames && !Live(s, f))
  }

  /** The same, folded: page-table proofs carry it along, and only lemmas that use Unfold look inside. */
  ghost predicate Manages(s: Pmm, frames: set<nat>, free: set<nat>, budget: nat) {
    forall z: nat {:trigger Unfolding(z)} | Unfolding(z) :: Managed(s, frames, free, budget)
  }

  lemma {:induction false} Unfold(s: Pmm, frames: set<nat>, free: set<nat>, budget: nat)
    ensures Manages(s, frames, free, budget) <==> Managed(s, frames, free, budget)
  {
    assert Unfolding(0);
  }

  lemma {:induction false} BudgetZeroIff(areas: seq<Area>)
    ensures Budget(areas) == 0 <==> forall k | 0 <= k < |areas| :: areas[k].numPages < 1
  {
    if areas != [] {
      BudgetZeroIff(areas[1..]);
      assert forall k | 0 < k < |areas| :: areas[k] == areas[1..][k - 1];
    }
  }

  lemma {:induction false} OnePage(x: nat, r: nat)
    ensures Within(x, r, 1) <==> x == r
  {
    if r <= x < r + PAGE_SIZE { assert (x - r) % PAGE_SIZE == x - r; }
  }

  lemma {:induction false} FramesAreFrames(s: Pmm, f: nat, k: nat, idx: nat)
    requires Inv(s) && Addressable(s) && Locates(s, f, k, idx)
    ensures IsFrame(f)
  {
    var a := s.areas[k];
    assert AreaInv(a) && f == a.base + (idx + 1) * PAGE_SIZE;
    assert idx + 1 <= |a.bits|;
  }

  /** Areas change in place: the pages stay what they were. */
  lemma {:induction false} SameFrames(s: Pmm, s': Pmm, k: nat, f: nat)
    requires k < |s.areas| == |s'.areas| && s'.areas == s.areas[k := s'.areas[k]]
    requires s'.areas[k].addr == s.areas[k].addr && |s'.areas[k].bits| == |s.areas[k].bits|
    ensures FrameOf(s', f) <==> FrameOf(s, f)
  {
    if i: nat, idx: nat :| Locates(s, f, i, idx) { assert Locates(s', f, i, idx); }
    if i: nat, idx: nat :| Locates(s', f, i, idx) { assert Locates(s, f, i, idx); }
  }

  /** One area changed and so did the life of one page. */
  lemma {:induction false} ManagedNext(s: Pmm, frames: set<nat>, free: set<nat>, budget: nat,
                                       s': Pmm, k: nat, f: nat, taken: bool)
    requires Managed(s, frames, free, budget) && Inv(s')
    requires k < |s.areas| == |s'.areas| && s'.areas == s.areas[k := s'.areas[k]]
    requires s'.areas[k].base == s.areas[k].base && s'.areas[k].addr == s.areas[k].addr
    requires |s'.areas[k].bits| == |s.areas[k].bits| && f in frames
    requires forall g: nat :: Live(s', g) <==> if g == f then taken else Live(s, g)
    ensures Managed(s', frames, if taken then free - {f} else free + {f}, Budget(s'.areas))
  {
    forall g: nat ensures FrameOf(s', g) <==> FrameOf(s, g) { SameFrames(s, s', k, g); }
  }

  /** Neither operation moves or resizes an area. */
  lemma {:induction false} SameExtent(a: Area, idx: nat, n: nat)
    ensures n <= a.numPages ==> Take(a, idx, n).base == a.base && Take(a, idx, n).addr == a.addr
    ensures n <= a.numPages ==> |Take(a, idx, n).bits| == |a.bits|
    ensures Give(a, idx, n).base == a.base && Give(a, idx, n).addr == a.addr && |Give(a, idx, n).bits| == |a.bits|
  {
  }

  lemma {:induction false} TakenLife(s: Pmm, s': Pmm, r: nat, g: nat)
    requires Inv(s) && PAlloc(s, 1) == (s', r) && r > 0
    ensures Inv(s') && !Live(s, r) && Budget(s'.areas) == Budget(s.areas) - 1
    ensures Live(s', g) <==> if g == r then true else Live(s, g)
  {
    PAllocSafe(s, 1, s', r, r);
    PAllocSafe(s, 1, s', r, g);
    OnePage(r, r);
    OnePage(g, r);
  }

  /** pmm_palloc(1): 0 exactly when the budget is spent, else a free frame, which is no longer free. */
  lemma {:induction false} TakeFrame(s: Pmm, frames: set<nat>, free: set<nat>, budget: nat, s': Pmm, r: nat)
    requires Manages(s, frames, free, budget) && PAlloc(s, 1) == (s', r)
    ensures r == 0 <==> budget == 0
    ensures r == 0 ==> s' == s
    ensures r > 0 ==> r in free && r in frames && IsFrame(r) && Manages(s', frames, free - {r}, budget - 1)
  {
    Unfold(s, frames, free, budget);
    PAllocFailsIff(s, 1);
    BudgetZeroIff(s.areas);
    if r > 0 {
      var k, idx := PAllocPicks(s, 1);
      FramesAreFrames(s, r, k, idx);
      assert FrameOf(s, r);
      SameExtent(s.areas[k], idx, 1);
      TakenLife(s, s', r, r);
      forall g: nat ensures Live(s', g) <==> if g == r then true else Live(s, g) { TakenLife(s, s', r, g); }
      ManagedNext(s, frames, free, budget, s', k, r, true);
      Unfold(s', frames, free - {r}, budget - 1);
    }
  }

  lemma {:induction false} HeldIsLegal(s: Pmm, f: nat)
    requires Inv(s) && Live(s, f)
    ensures LegalFree(s, f, 1)
  {
    var k: nat, p: nat :| LiveAt(s, f, k, p);
    assert AreaInv(s.areas[k]) && Locates(s, f, k, p);
    forall q | q in Pages(p, 1) ensures q in s.areas[k].live { assert q == p; }
  }

  lemma {:induction false} GivenLife(s: Pmm, f: nat, g: nat)
    requires Inv(s) && Live(s, f)
    ensures LegalFree(s, f, 1) && Inv(PFree(s, f, 1)) && Budget(PFree(s, f, 1).areas) == Budget(s.areas)
    ensures Live(PFree(s, f, 1), g) <==> if g == f then false else Live(s, g)
  {
    HeldIsLegal(s, f);
    PFreeSafe(s, f, 1, PFree(s, f, 1), g);
    OnePage(g, f);
  }

  /** pmm_pfree of one frame that is handed out: it is free afterwards, but the budget stays. */
  lemma {:induction false} GiveFrame(s: Pmm, frames: set<nat>, free: set<nat>, budget: nat, f: nat)
    requires Manages(s, frames, free, budget) && f in frames && f !in free
    ensures Manages(PFree(s, f, 1), frames, free + {f}, budget)
  {
    var s' := PFree(s, f, 1);
    Unfold(s, frames, free, budget);
    GivenLife(s, f, f);
    var k, idx := PFreePicks(s, f, 1, s');
    assert s'.areas[k] == Give(s.areas[k], idx, 1);
    SameExtent(s.areas[k], idx, 1);
    forall g: nat ensures Live(s', g) <==> if g == f then false else Live(s, g) { GivenLife(s, f, g); }
    ManagedNext(s, frames, free, budget, s', k, f, false);
    Unfold(s', frames, free + {f}, budget);
  }

  // ---- The frames of an allocator ----

  function PageAt(a: Area, idx: nat): nat { a.addr + idx * PAGE_SIZE }

  ghost function AllFrames(s: Pmm): set<nat> {
    set k: nat, idx: nat | k < |s.areas| && idx < |s.areas[k].bits| :: PageAt(s.areas[k], idx)
  }

  ghost function FreeFrames(s: Pmm): set<nat> { set f | f in AllFrames(s) && !Live(s, f) }

  lemma {:induction false} AllFramesAre(s: Pmm, f: nat)
    ensures f in AllFrames(s) <==> FrameOf(s, f)
  {
    if k: nat, idx: nat :| Locates(s, f, k, idx) { assert f == PageAt(s.areas[k], idx); }
    if f in AllFrames(s) {
      var k: nat, idx: nat :| k < |s.areas| && idx < |s.areas[k].bits| && f == PageAt(s.areas[k], idx);
      assert Locates(s, f, k, idx);
    }
  }

  /** Any allocator in order manages its own frames. */
  lemma {:induction false} ManagesOwn(s: Pmm)
    requires Inv(s) && Addressable(s)
    ensures Manages(s, AllFrames(s), FreeFrames(s), Budget(s.areas))
  {
    forall f: nat ensures f in AllFrames(s) <==> FrameOf(s, f) { AllFramesAre(s, f); }
  }

  lemma {:induction false} CoveredAligned(e: PhysicalMemory.MemmapEntry, a: Area)
    requires PhysicalMemory.GoodEntry(e) && PhysicalMemory.CoveredBy(a, e) && AreaInv(a)
    ensures a.base % PAGE_SIZE == 0
  {
    assert e.length == (|a.bits| + 1) * PAGE_SIZE;
    assert AlignDown(e.length) / PAGE_SIZE == |a.bits| + 1;
  }

  /** After pmm_init over good regions below 2^48 the allocator is in order, with its whole budget. */
  lemma {:induction false} BootFrames(memmap: seq<PhysicalMemory.MemmapEntry>, s: Pmm)
    requires PhysicalMemory.GoodMemmap(memmap)
    requires forall i | 0 <= i < |memmap| && memmap[i].usable :: memmap[i].base + memmap[i].length <= 0x1_0000_0000_0000
    requires s == Pmm(PhysicalMemory.InitAreas(memmap), Unused(PhysicalMemory.InitAreas(memmap)))
    ensures Manages(s, AllFrames(s), FreeFrames(s), Budget(s.areas))
  {
    PhysicalMemory.InitInv(memmap);
    PhysicalMemory.InitAreasGood(memmap);
    forall k | 0 <= k < |s.areas|
      ensures s.areas[k].base % PAGE_SIZE == 0
      ensures s.areas[k].base + (|s.areas[k].bits| + 1) * PAGE_SIZE <= 0x1_0000_0000_0000
    {
      assert PhysicalMemory.CoversSome(s.areas[k], memmap);
      var e :| e in memmap && PhysicalMemory.CoveredBy(s.areas[k], e);
      var i :| 0 <= i < |memmap| && memmap[i] == e;
      CoveredAligned(e, s.areas[k]);
    }
    ManagesOwn(s);
  }
}
