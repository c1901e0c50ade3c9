/** The physical page allocator as a state machine on values. */
module PmmSpec {
  import opened Common
  import opened Bitmaps

  const AREA_HEADER: nat := 40  // sizeof(pmm_area_t): five words before the bitmap bytes

  /**
   One usable region. `live` is the history of the region: the pages handed out and not yet
   given back. The allocator itself never looks at it.
   */
  datatype Area = Area(base: nat, addr: nat, numPages: nat, hint: nat, bits: seq<bool>, live: set<nat>)

  datatype Pmm = Pmm(areas: seq<Area>, freeNumPages: int)

  // ---- Layout of a region ----

  /** Pages kept for the area record and its bitmap when the region has n pages. */
  function HeaderPages(n: nat): nat { AlignUp(AREA_HEADER + (n + 7) / 8) / PAGE_SIZE }

  /** num_free_pages of a region of n > 1 pages. */
  function NumFreePages(n: nat): nat
    requires n > 1
  {
    (8 * (n * 4096 - 4095) - 7) / (4096 * 8 + 1) + 1
  }

  function NewArea(base: nat, n: nat): Area
    requires n > 1
  {
    Area(base, base + HeaderPages(n) * PAGE_SIZE, NumFreePages(n), 0, seq(NumFreePages(n), _ => false), {})
  }

  /** The record and the pages promised behind it stay inside the region for exactly these sizes. */
  lemma {:induction false} LayoutFits(n: nat)
    requires n > 1
    ensures HeaderPages(n) + NumFreePages(n) <= n <==> n >= 3 && (n + 319) / 32768 <= (n - 3) / 32769
  {
    assert HeaderPages(n) == (n + 319) / 32768 + 1;
    var q := (n - 2 + 32768) / 32769;
    assert (8 * (n * 4096 - 4095) - 7) / 32769 == n - 1 - q;
  }

  /** One header page and n - 1 data pages: the intended layout, for exactly these sizes. */
  lemma {:induction false} LayoutExact(n: nat)
    requires n > 1
    ensures HeaderPages(n) == 1 && NumFreePages(n) == n - 1 <==> 3 <= n <= 32448
  {
  }

  /** A region of two pages, and one just past 126 MiB, promise one page more than they have. */
  lemma {:induction false} LayoutOverflows()
    ensures HeaderPages(2) + NumFreePages(2) == 3
    ensures HeaderPages(32449) + NumFreePages(32449) == 32450
  {
  }

  /** Rounding a region up and its length down stays inside it for exactly these regions. */
  lemma {:induction false} AlignedRegionFits(base: nat, length: nat)
    ensures AlignUp(base) + AlignDown(length) <= base + length
            <==> base % 4096 == 0 || length % 4096 + base % 4096 >= 4096
  {
  }

  // ---- Operations ----

  /** The n pages from index i on. */
  function Pages(i: nat, n: nat): (r: set<nat>)
    ensures forall k: nat :: k in r <==> i <= k < i + n
    ensures |r| == n
  {
    if n == 0 then {} else Pages(i, n - 1) + {i + n - 1}
  }

  /** What pmm_palloc does to the area it picked, the scan having returned idx. */
  function Take(a: Area, idx: nat, n: nat): Area
    requires n <= a.numPages
  {
    a.(hint := if idx == a.hint then a.hint + n else a.hint,
       bits := WithRange(a.bits, idx, n, true),
       numPages := a.numPages - n,
       live := a.live + Pages(idx, n))
  }

  /** Whether pmm_palloc settles for this area. */
  predicate Serves(a: Area, n: nat) {
    a.numPages >= n && FirstFit(a.bits, a.hint, n).Some?
  }

  /** Index of the first area from k on that serves n pages, or |areas|. */
  function Pick(areas: seq<Area>, k: nat, n: nat): (r: nat)
    requires k <= |areas|
    ensures k <= r <= |areas| && (r < |areas| ==> Serves(areas[r], n))
    ensures forall j | k <= j < r :: !Serves(areas[j], n)
    decreases |areas| - k
  {
    if k == |areas| || Serves(areas[k], n) then k else Pick(areas, k + 1, n)
  }

  /** pmm_palloc: the new state and the address returned, 0 for failure. */
  function PAlloc(s: Pmm, n: nat): (Pmm, nat) {
    if n == 0 then (s, 0) else
    var k := Pick(s.areas, 0, n);
    if k == |s.areas| then (s, 0) else
    var a := s.areas[k];
    var idx := FirstFit(a.bits, a.hint, n).value;
    (Pmm(s.areas[k := Take(a, idx, n)], s.freeNumPages - n), a.addr + idx * PAGE_SIZE)
  }

  /** The bounds test of pmm_pfree's search. */
  predicate Covers(a: Area, addr: nat) {
    a.base <= addr < a.base + AREA_HEADER + |a.bits| * PAGE_SIZE
  }

  function Find(areas: seq<Area>, k: nat, addr: nat): (r: nat)
    requires k <= |areas|
    ensures k <= r <= |areas| && (r < |areas| ==> Covers(areas[r], addr))
    ensures forall j | k <= j < r :: !Covers(areas[j], addr)
    decreases |areas| - k
  {
    if k == |areas| || Covers(areas[k], addr) then k else Find(areas, k + 1, addr)
  }

  /** The bitmap index pmm_pfree computes, in 64-bit unsigned arithmetic. */
  function IndexOf(a: Area, addr: nat): nat {
    (addr - (a.base + AREA_HEADER) - (|a.bits| + 7) / 8) % WORD / PAGE_SIZE
  }

  function Give(a: Area, idx: nat, n: nat): Area {
    a.(hint := if idx < a.hint then idx else a.hint,
       bits := WithRange(a.bits, idx, n, false),
       live := a.live - Pages(idx, n))
  }

  /** pmm_pfree. */
  function PFree(s: Pmm, addr: nat, n: nat): Pmm {
    var k := Find(s.areas, 0, addr);
    if k == |s.areas| then s else
    Pmm(s.areas[k := Give(s.areas[k], IndexOf(s.areas[k], addr), n)], s.freeNumPages + n)
  }

  // ---- The invariant of one area ----

  /**
   With H the number of pages the area has ever handed out, |bits| - numPages == H because
   freeing never restores numPages. Only pages below H were ever touched; and as long as
   numPages > 0 no range has reached the last bit, so the bitmap is exactly `live`.
   */
  ghost predicate AreaInv(a: Area) {
    && 2 <= |a.bits| <= 32447
    && a.addr == a.base + PAGE_SIZE
    && a.base + (|a.bits| + 1) * PAGE_SIZE <= WORD
    && a.numPages <= |a.bits|
    && (forall p | p in a.live :: p < |a.bits| - a.numPages)
    && (a.numPages > 0 ==>
          && (forall p | 0 <= p < |a.bits| :: a.bits[p] <==> p in a.live)
          && (forall p | 0 <= p < a.hint && p < |a.bits| :: a.bits[p])
          && a.hint <= |a.bits| - a.numPages)
  }

  lemma {:induction false} NewAreaInv(base: nat, n: nat)
    requires 3 <= n <= 32448 && base + n * PAGE_SIZE <= WORD
    ensures AreaInv(NewArea(base, n)) && |NewArea(base, n).bits| == n - 1
  {
    LayoutExact(n);
  }

  /** The scan succeeds exactly when the lifetime budget allows, and then it is sound. */
  lemma {:induction false} ServesIff(a: Area, n: nat)
    requires AreaInv(a) && n > 0
    ensures Serves(a, n) <==> a.numPages >= n
    ensures Serves(a, n) ==>
              var idx := FirstFit(a.bits, a.hint, n).value;
              && idx + n <= |a.bits| - a.numPages + n
              && Pages(idx, n) !! a.live
              && FirstFit(a.bits, 0, n) == FirstFit(a.bits, a.hint, n)
  {
    if a.numPages >= n {
      var h := |a.bits| - a.numPages;
      assert ClearRun(a.bits, h, n);
      FirstFitIsLeast(a.bits, a.hint, n);
      forall i | 0 <= i < a.hint ensures !ClearRun(a.bits, i, n) {
        assert a.bits[i];
      }
      FirstFitSkips(a.bits, 0, a.hint, n);
    }
  }

  lemma {:induction false} TakeInv(a: Area, n: nat)
    requires AreaInv(a) && n > 0 && Serves(a, n)
    ensures AreaInv(Take(a, FirstFit(a.bits, a.hint, n).value, n))
    ensures |Take(a, FirstFit(a.bits, a.hint, n).value, n).live| == |a.live| + n
  {
    ServesIff(a, n);
    var idx := FirstFit(a.bits, a.hint, n).value;
    var b := Take(a, idx, n);
    if b.numPages > 0 {
      assert idx + n < |a.bits|;
      FirstFitIsLeast(a.bits, a.hint, n);
    }
  }

  lemma {:induction false} GiveInv(a: Area, idx: nat, n: nat)
    requires AreaInv(a) && Pages(idx, n) <= a.live && (n == 0 ==> idx < |a.bits|)
    ensures AreaInv(Give(a, idx, n))
    ensures |Give(a, idx, n).live| == |a.live| - n
    ensures idx + n <= |a.bits|
  {
    if n > 0 { assert idx + n - 1 in Pages(idx, n); }
  }

  /** pmm_pfree recovers the index pmm_palloc used, from the address it returned. */
  lemma {:induction false} IndexRecovered(a: Area, idx: nat)
    requires AreaInv(a) && idx < |a.bits|
    ensures Covers(a, a.addr + idx * PAGE_SIZE)
    ensures IndexOf(a, a.addr + idx * PAGE_SIZE) == idx
  {
    var r := PAGE_SIZE - AREA_HEADER - (|a.bits| + 7) / 8;
    assert 0 <= r < PAGE_SIZE;
    assert a.addr + idx * PAGE_SIZE - (a.base + AREA_HEADER) - (|a.bits| + 7) / 8 == idx * PAGE_SIZE + r;
  }

  /**
   A region of any size, with H header pages: pmm_pfree's search misses its last H - 1 pages, and the
   index it computes is too high by the header pages that the data pages do not need.
   */
  lemma {:induction false} FoundExact(base: nat, n: nat, idx: nat)
    requires n > 1 && base + (HeaderPages(n) + NumFreePages(n)) * PAGE_SIZE <= WORD && idx < NumFreePages(n)
    ensures var a := NewArea(base, n); var x := a.addr + idx * PAGE_SIZE;
      && (Covers(a, x) <==> idx + HeaderPages(n) <= NumFreePages(n))
      && IndexOf(a, x) == idx + HeaderPages(n) - HeaderPages(NumFreePages(n))
  {
    var (h, b) := (HeaderPages(n), NumFreePages(n));
    NumFreeBelow(n);
    HeaderRest(b, h);
    var r := h * PAGE_SIZE - AREA_HEADER - (b + 7) / 8;
    IndexParts(idx, r, b);
  }

  lemma {:induction false} NumFreeBelow(n: nat)
    requires n > 1
    ensures 0 < NumFreePages(n) <= n && 1 <= HeaderPages(NumFreePages(n)) <= HeaderPages(n)
    ensures HeaderPages(n) == 1 <==> n <= 32448
  {
  }

  /** What h header pages leave of the page after the bitmap of b bits, in whole pages. */
  lemma {:induction false} HeaderRest(b: nat, h: nat)
    requires h >= HeaderPages(b)
    ensures var r := h * PAGE_SIZE - AREA_HEADER - (b + 7) / 8; r >= 0 && r / PAGE_SIZE == h - HeaderPages(b)
  {
  }

  lemma {:induction false} IndexParts(idx: nat, r: nat, b: nat)
    requires idx < b && r + b * PAGE_SIZE <= WORD
    ensures (idx * PAGE_SIZE + r) % WORD / PAGE_SIZE == idx + r / PAGE_SIZE
  {
  }

  /** Every page of a region that its layout fits is found, under its index, exactly up to 32448 pages. */
  lemma {:induction false} AllFoundIff(base: nat, n: nat)
    requires n > 1 && HeaderPages(n) + NumFreePages(n) <= n && base + n * PAGE_SIZE <= WORD
    ensures var a := NewArea(base, n);
      (forall idx: nat | idx < NumFreePages(n) ::
         Covers(a, a.addr + idx * PAGE_SIZE) && IndexOf(a, a.addr + idx * PAGE_SIZE) == idx)
      <==> n <= 32448
  {
    var (a, last) := (NewArea(base, n), NumFreePages(n) - 1);
    NumFreeBelow(n);
    if n <= 32448 {
      forall idx: nat | idx < NumFreePages(n)
        ensures Covers(a, a.addr + idx * PAGE_SIZE) && IndexOf(a, a.addr + idx * PAGE_SIZE) == idx
      {
        FoundExact(base, n, idx);
      }
    } else {
      FoundExact(base, n, last);
      assert !Covers(a, a.addr + last * PAGE_SIZE);
    }
  }

  // ---- The invariant of the allocator ----

  ghost predicate Apart(a: Area, b: Area) {
    || a.base + (|a.bits| + 1) * PAGE_SIZE <= b.base
    || b.base + (|b.bits| + 1) * PAGE_SIZE <= a.base
  }

  /** Pages promised and not handed out, over all areas. */
  function Unused(areas: seq<Area>): int {
    if areas == [] then 0 else |areas[0].bits| - |areas[0].live| + Unused(areas[1..])
  }

  /** What the areas may still hand out in their lifetime. */
  function Budget(areas: seq<Area>): nat {
    if areas == [] then 0 else areas[0].numPages + Budget(areas[1..])
  }

  ghost predicate Inv(s: Pmm) {
    && (forall k | 0 <= k < |s.areas| :: AreaInv(s.areas[k]))
    && (forall j, k | 0 <= j < k < |s.areas| :: Apart(s.areas[j], s.areas[k]))
    && s.freeNumPages == Unused(s.areas)
  }

  /** Page `addr` is handed out, by page p of area k. */
  ghost predicate LiveAt(s: Pmm, addr: nat, k: nat, p: nat) {
    k < |s.areas| && p in s.areas[k].live && addr == s.areas[k].addr + p * PAGE_SIZE
  }

  ghost predicate Live(s: Pmm, addr: nat) {
    exists k, p :: LiveAt(s, addr, k, p)
  }

  /** addr is page idx of area k. */
  ghost predicate Locates(s: Pmm, addr: nat, k: nat, idx: nat) {
    k < |s.areas| && idx < |s.areas[k].bits| && addr == s.areas[k].addr + idx * PAGE_SIZE
  }

  /** The frees considered: n consecutive live pages of one area. */
  ghost predicate LegalFree(s: Pmm, addr: nat, n: nat) {
    exists k: nat, idx: nat :: Locates(s, addr, k, idx) && Pages(idx, n) <= s.areas[k].live
  }

  lemma {:induction false} SumsUpdate(areas: seq<Area>, k: nat, a: Area)
    requires k < |areas|
    ensures Unused(areas[k := a]) == Unused(areas) - (|areas[k].bits| - |areas[k].live|) + |a.bits| - |a.live|
    ensures Budget(areas[k := a]) == Budget(areas) - areas[k].numPages + a.numPages
  {
    if k == 0 {
      assert areas[k := a][1..] == areas[1..];
    } else {
      assert areas[k := a][1..] == areas[1..][k - 1 := a];
      SumsUpdate(areas[1..], k - 1, a);
    }
  }

  /** A page address belongs to one page of one area. */
  lemma {:induction false} LocatesUnique(s: Pmm, addr: nat, k: nat, p: nat, k': nat, p': nat)
    requires Inv(s) && Locates(s, addr, k, p) && Locates(s, addr, k', p')
    ensures k == k' && p == p'
  {
    assert k < k' ==> Apart(s.areas[k], s.areas[k']);
    assert k' < k ==> Apart(s.areas[k'], s.areas[k]);
  }

  /** pmm_pfree's search stops at the area that owns the page. */
  lemma {:induction false} FindsOwner(s: Pmm, addr: nat, k: nat, idx: nat)
    requires Inv(s) && Locates(s, addr, k, idx)
    ensures Find(s.areas, 0, addr) == k && IndexOf(s.areas[k], addr) == idx
  {
    IndexRecovered(s.areas[k], idx);
    var j := Find(s.areas, 0, addr);
    assert j < k ==> Apart(s.areas[j], s.areas[k]);
  }

  /** Whether a page of area k is live can be read off that area alone. */
  lemma {:induction false} LiveIn(s: Pmm, x: nat, k: nat, p: nat)
    requires Inv(s) && Locates(s, x, k, p)
    ensures Live(s, x) <==> p in s.areas[k].live
  {
    if Live(s, x) {
      var k', p' :| LiveAt(s, x, k', p');
      LocatesUnique(s, x, k, p, k', p');
    }
    assert p in s.areas[k].live ==> LiveAt(s, x, k, p);
  }

  /** An operation on area k leaves the addresses outside area k as they were. */
  lemma {:induction false} LiveElsewhere(s: Pmm, s': Pmm, x: nat, k: nat)
    requires Inv(s) && Inv(s') && k < |s.areas| == |s'.areas| && s'.areas == s.areas[k := s'.areas[k]]
    requires s'.areas[k].addr == s.areas[k].addr && |s'.areas[k].bits| == |s.areas[k].bits|
    requires forall p: nat :: !Locates(s, x, k, p)
    ensures Live(s', x) <==> Live(s, x)
  {
    if Live(s, x) {
      var k', p :| LiveAt(s, x, k', p);
      assert k' != k by { assert !Locates(s, x, k, p); }
      assert LiveAt(s', x, k', p);
    }
    if Live(s', x) {
      var k', p :| LiveAt(s', x, k', p);
      assert k' != k by { assert !Locates(s, x, k, p); }
      assert LiveAt(s, x, k', p);
    }
  }

  /** x is one of the n pages from address r on. */
  predicate Within(x: nat, r: nat, n: nat) {
    r <= x < r + n * PAGE_SIZE && (x - r) % PAGE_SIZE == 0
  }

  /** pmm_palloc fails exactly when no area has n pages of its lifetime budget left. */
  lemma {:induction false} PAllocFailsIff(s: Pmm, n: nat)
    requires Inv(s) && n > 0
    ensures PAlloc(s, n).1 == 0 <==> forall k | 0 <= k < |s.areas| :: s.areas[k].numPages < n
    ensures PAlloc(s, n).1 == 0 ==> PAlloc(s, n).0 == s
  {
    forall k | 0 <= k < |s.areas| ensures Serves(s.areas[k], n) <==> s.areas[k].numPages >= n {
      ServesIff(s.areas[k], n);
    }
  }

  /** Replacing one area by a valid one of the same extent keeps the invariant. */
  lemma {:induction false} ReplaceInv(s: Pmm, k: nat, a: Area, s': Pmm)
    requires Inv(s) && k < |s.areas| && AreaInv(a)
    requires a.base == s.areas[k].base && |a.bits| == |s.areas[k].bits|
    requires s' == Pmm(s.areas[k := a], s.freeNumPages + |s.areas[k].live| - |a.live|)
    ensures Inv(s')
    ensures Budget(s'.areas) == Budget(s.areas) - s.areas[k].numPages + a.numPages
  {
    SumsUpdate(s.areas, k, a);
    forall i, j | 0 <= i < j < |s'.areas| ensures Apart(s'.areas[i], s'.areas[j]) {
      assert Apart(s.areas[i], s.areas[j]);
    }
  }

  /** The area and the index a successful pmm_palloc settles on. */
  lemma {:induction false} PAllocPicks(s: Pmm, n: nat) returns (k: nat, idx: nat)
    requires Inv(s) && PAlloc(s, n).1 != 0
    ensures n > 0 && k < |s.areas| && n <= s.areas[k].numPages
    ensures AreaInv(Take(s.areas[k], idx, n)) && Pages(idx, n) !! s.areas[k].live
    ensures |Take(s.areas[k], idx, n).live| == |s.areas[k].live| + n
    ensures Locates(s, PAlloc(s, n).1, k, idx) && idx + n <= |s.areas[k].bits|
    ensures PAlloc(s, n).0 == Pmm(s.areas[k := Take(s.areas[k], idx, n)], s.freeNumPages - n)
  {
    k := Pick(s.areas, 0, n);
    idx := FirstFit(s.areas[k].bits, s.areas[k].hint, n).value;
    ServesIff(s.areas[k], n);
    TakeInv(s.areas[k], n);
  }

  /** What an operation that makes pages idx to idx + n of area k all live, or all dead, does to x. */
  lemma {:induction false} LiveChange(s: Pmm, s': Pmm, k: nat, idx: nat, n: nat, r: nat, x: nat, after: bool)
    requires Inv(s) && Inv(s') && k < |s.areas| == |s'.areas| && s'.areas == s.areas[k := s'.areas[k]]
    requires s'.areas[k].addr == s.areas[k].addr && |s'.areas[k].bits| == |s.areas[k].bits|
    requires Locates(s, r, k, idx) && idx + n <= |s.areas[k].bits|
    requires forall p: nat :: p in s'.areas[k].live <==> if p in Pages(idx, n) then after else p in s.areas[k].live
    ensures Within(x, r, n) && Pages(idx, n) !! s.areas[k].live ==> !Live(s, x)
    ensures Live(s', x) <==> if Within(x, r, n) then after else Live(s, x)
  {
    if Within(x, r, n) {
      var p := idx + (x - r) / PAGE_SIZE;
      assert p in Pages(idx, n) && Locates(s, x, k, p) && Locates(s', x, k, p);
      LiveIn(s, x, k, p);
      LiveIn(s', x, k, p);
    } else if p: nat :| Locates(s, x, k, p) {
      PagesWithin(s.areas[k].addr, p, idx, n);
      assert Locates(s', x, k, p);
      LiveIn(s, x, k, p);
      LiveIn(s', x, k, p);
    } else {
      LiveElsewhere(s, s', x, k);
    }
  }

  lemma {:induction false} PagesWithin(addr: nat, p: nat, idx: nat, n: nat)
    ensures Within(addr + p * PAGE_SIZE, addr + idx * PAGE_SIZE, n) <==> p in Pages(idx, n)
  {
    assert addr + p * PAGE_SIZE - (addr + idx * PAGE_SIZE) == (p - idx) * PAGE_SIZE;
  }

  lemma {:induction false} TakeEffect(s: Pmm, s': Pmm, k: nat, idx: nat, n: nat, r: nat, x: nat)
    requires Inv(s) && Locates(s, r, k, idx) && n <= s.areas[k].numPages
    requires s' == Pmm(s.areas[k := Take(s.areas[k], idx, n)], s.freeNumPages - n)
    requires AreaInv(Take(s.areas[k], idx, n)) && |Take(s.areas[k], idx, n).live| == |s.areas[k].live| + n
    requires idx + n <= |s.areas[k].bits| && Pages(idx, n) !! s.areas[k].live
    ensures Inv(s') && Budget(s'.areas) == Budget(s.areas) - n
    ensures Within(x, r, n) ==> !Live(s, x)
    ensures Live(s', x) <==> Live(s, x) || Within(x, r, n)
  {
    ReplaceInv(s, k, Take(s.areas[k], idx, n), s');
    LiveChange(s, s', k, idx, n, r, x, true);
  }

  lemma {:induction false} GiveEffect(s: Pmm, s': Pmm, k: nat, idx: nat, n: nat, r: nat, x: nat)
    requires Inv(s) && Locates(s, r, k, idx) && idx + n <= |s.areas[k].bits|
    requires s' == Pmm(s.areas[k := Give(s.areas[k], idx, n)], s.freeNumPages + n)
    requires AreaInv(Give(s.areas[k], idx, n)) && |Give(s.areas[k], idx, n).live| == |s.areas[k].live| - n
    ensures Inv(s') && Budget(s'.areas) == Budget(s.areas)
    ensures Live(s', x) <==> Live(s, x) && !Within(x, r, n)
  {
    ReplaceInv(s, k, Give(s.areas[k], idx, n), s');
    LiveChange(s, s', k, idx, n, r, x, false);
  }

  /**
   Pages handed out are pages nobody holds; they become live and nothing else changes hands.
   No premise about where ranges end: the unrecorded last range of an area is never handed out
   twice, because handing it out spends the last of the area's budget.
   */
  lemma {:induction false} PAllocSafe(s: Pmm, n: nat, s': Pmm, r: nat, x: nat)
    requires Inv(s) && PAlloc(s, n) == (s', r) && r != 0
    ensures Inv(s')
    ensures Within(x, r, n) ==> !Live(s, x)
    ensures Live(s', x) <==> Live(s, x) || Within(x, r, n)
    ensures Budget(s'.areas) == Budget(s.areas) - n
    ensures LegalFree(s', r, n)
  {
    var k, idx := PAllocPicks(s, n);
    TakeEffect(s, s', k, idx, n, r, x);
    assert Locates(s', r, k, idx);
  }

  /** The area and the index a legal pmm_pfree works on. */
  lemma {:induction false} PFreePicks(s: Pmm, addr: nat, n: nat, s': Pmm) returns (k: nat, idx: nat)
    requires Inv(s) && LegalFree(s, addr, n) && s' == PFree(s, addr, n)
    ensures Locates(s, addr, k, idx) && idx + n <= |s.areas[k].bits|
    ensures AreaInv(Give(s.areas[k], idx, n))
    ensures |Give(s.areas[k], idx, n).live| == |s.areas[k].live| - n
    ensures s' == Pmm(s.areas[k := Give(s.areas[k], idx, n)], s.freeNumPages + n)
  {
    k, idx :| Locates(s, addr, k, idx) && Pages(idx, n) <= s.areas[k].live;
    FindsOwner(s, addr, k, idx);
    GiveInv(s.areas[k], idx, n);
  }

  /** Giving back live pages makes exactly these pages dead, and changes the budget not at all. */
  lemma {:induction false} PFreeSafe(s: Pmm, addr: nat, n: nat, s': Pmm, x: nat)
    requires Inv(s) && LegalFree(s, addr, n) && s' == PFree(s, addr, n)
    ensures Inv(s')
    ensures Live(s', x) <==> Live(s, x) && !Within(x, addr, n)
    ensures Budget(s'.areas) == Budget(s.areas)
  {
    var k, idx := PFreePicks(s, addr, n, s');
    GiveEffect(s, s', k, idx, n, addr, x);
  }

  /** An address that lies in no area is none of pmm_pfree's: nothing changes. */
  lemma {:induction false} PFreeForeign(s: Pmm, addr: nat, n: nat)
    requires forall k | 0 <= k < |s.areas| ::
               !(s.areas[k].base <= addr < s.areas[k].base + 40 + |s.areas[k].bits| * 4096)
    ensures PFree(s, addr, n) == s
  {
  }

  // ---- Runs ----

  datatype Op = Alloc(n: nat) | Free(addr: nat, n: nat)

  function Step(s: Pmm, op: Op): Pmm {
    match op
    case Alloc(n) => PAlloc(s, n).0
    case Free(addr, n) => PFree(s, addr, n)
  }

  function Exec(s: Pmm, ops: seq<Op>): Pmm
    decreases |ops|
  {
    if ops == [] then s else Exec(Step(s, ops[0]), ops[1..])
  }

  ghost predicate LegalRun(s: Pmm, ops: seq<Op>)
    decreases |ops|
  {
    ops != [] ==>
      && (ops[0].Free? ==> LegalFree(s, ops[0].addr, ops[0].n))
      && LegalRun(Step(s, ops[0]), ops[1..])
  }

  /** Pages handed out by the successful allocations of a run. */
  function Granted(s: Pmm, ops: seq<Op>): nat
    decreases |ops|
  {
    if ops == [] then 0 else
    (if ops[0].Alloc? && PAlloc(s, ops[0].n).1 != 0 then ops[0].n else 0) + Granted(Step(s, ops[0]), ops[1..])
  }

  /**
   Every run of allocations and legal frees keeps the invariant, so every allocation in it is
   safe; and the run can never hand out more pages than the areas had at the start, however
   many were given back in between.
   */
  lemma {:induction false} RunSafe(s: Pmm, ops: seq<Op>)
    requires Inv(s) && LegalRun(s, ops)
    ensures Inv(Exec(s, ops))
    ensures Budget(Exec(s, ops).areas) + Granted(s, ops) == Budget(s.areas)
    decreases |ops|
  {
    if ops != [] {
      StepInv(s, ops[0]);
      RunSafe(Step(s, ops[0]), ops[1..]);
    }
  }

  lemma {:induction false} StepInv(s: Pmm, op: Op)
    requires Inv(s) && (op.Free? ==> LegalFree(s, op.addr, op.n))
    ensures Inv(Step(s, op))
    ensures Budget(Step(s, op).areas) == Budget(s.areas) - (if op.Alloc? && PAlloc(s, op.n).1 != 0 then op.n else 0)
  {
    match op {
      case Alloc(n) =>
        if PAlloc(s, n).1 != 0 { PAllocSafe(s, n, Step(s, op), PAlloc(s, n).1, 0); }
        else if n > 0 { PAllocFailsIff(s, n); }
      case Free(addr, n) => PFreeSafe(s, addr, n, Step(s, op), 0);
    }
  }
}
