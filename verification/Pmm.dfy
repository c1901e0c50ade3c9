/** The physical page allocator over mutable area records, against PmmSpec. */
module PhysicalMemory {
  import opened Common
  import opened Bitmaps
  import PmmSpec

  datatype MemmapEntry = MemmapEntry(base: nat, length: nat, usable: bool)

  class PmmArea {
    const base: nat
    const addr: nat
    const bitmap: Bitmap
    var numPages: nat
    var freeIdxHint: nat
    ghost var live: set<nat>

    /** The record pmm_init writes at `base` for a region of n pages. */
    constructor (base: nat, n: nat)
      requires n > 1
      ensures bitmap.Valid() && View() == PmmSpec.NewArea(base, n)
      ensures fresh(bitmap) && fresh(bitmap.data)
    {
      var numFree := (8 * (n * 4096 - 4095) - 7) / (4096 * 8 + 1) + 1;
      var bitmapSize := (n + 7) / 8;
      this.base := base;
      this.addr := base + AlignUp(PmmSpec.AREA_HEADER + bitmapSize);
      this.numPages := numFree;
      this.freeIdxHint := 0;
      this.bitmap := new Bitmap(numFree, bitmapSize);
      this.live := {};
      new;
      assert View().bits == PmmSpec.NewArea(base, n).bits;
    }

    ghost function View(): PmmSpec.Area
      requires bitmap.Valid()
      reads this, bitmap.data
    {
      PmmSpec.Area(base, addr, numPages, freeIdxHint, bitmap.Bits(), live)
    }

    /** The updates of pmm_palloc on the area it settled for. */
    method Take(idx: nat, n: nat)
      requires bitmap.Valid() && n <= numPages
      modifies this, bitmap.data
      ensures View() == PmmSpec.Take(old(View()), idx, n)
    {
      if idx == freeIdxHint { freeIdxHint := freeIdxHint + n; }
      bitmap.SetRange(idx, n);
      numPages := numPages - n;
      live := live + PmmSpec.Pages(idx, n);
    }

    /** The updates of pmm_pfree on the area it found. */
    method Give(idx: nat, n: nat)
      requires bitmap.Valid()
      modifies this, bitmap.data
      ensures View() == PmmSpec.Give(old(View()), idx, n)
    {
      if idx < freeIdxHint { freeIdxHint := idx; }
      bitmap.UnsetRange(idx, n);
      live := live - PmmSpec.Pages(idx, n);
    }
  }

  /** The regions pmm_init turns into areas, the last one first. */
  function InitAreas(memmap: seq<MemmapEntry>): seq<PmmSpec.Area> {
    if memmap == [] then [] else
    var rest, e := InitAreas(memmap[..|memmap| - 1]), memmap[|memmap| - 1];
    EntryAreas(e) + rest
  }

  /** The area one entry of the memory map becomes, if any. */
  function EntryAreas(e: MemmapEntry): (r: seq<PmmSpec.Area>)
    ensures |r| <= 1
  {
    var n := AlignDown(e.length) / PAGE_SIZE;
    if e.usable && n > 1 then [PmmSpec.NewArea(AlignUp(e.base), n)] else []
  }

  lemma {:induction false} LastEntry(memmap: seq<MemmapEntry>, i: nat)
    requires i < |memmap|
    ensures InitAreas(memmap[..i + 1]) == EntryAreas(memmap[i]) + InitAreas(memmap[..i])
  {
    assert memmap[..i + 1][..i] == memmap[..i];
  }

  lemma {:induction false} UnusedCons(a: PmmSpec.Area, rest: seq<PmmSpec.Area>)
    requires a.live == {}
    ensures PmmSpec.Unused([a] + rest) == |a.bits| + PmmSpec.Unused(rest)
  {
    assert ([a] + rest)[1..] == rest;
  }

  class Pmm {
    var areas: seq<PmmArea>
    var freeNumPages: int

    ghost var Repr: set<object>  // the area records and the bitmap bytes

    /** The records and their bitmaps are all distinct. */
    ghost predicate Valid()
      reads this, Repr
    {
      && this !in Repr
      && (forall i | 0 <= i < |areas| :: areas[i] in Repr && areas[i].bitmap.data in Repr && areas[i].bitmap.Valid())
      && (forall i, j | 0 <= i < j < |areas| :: areas[i] != areas[j] && areas[i].bitmap.data != areas[j].bitmap.data)
    }

    ghost function View(): (s: PmmSpec.Pmm)
      requires Valid()
      reads this, Repr
      ensures |s.areas| == |areas| && s.freeNumPages == freeNumPages
      ensures forall i | 0 <= i < |areas| :: s.areas[i] == areas[i].View()
    {
      PmmSpec.Pmm(seq(|areas|, i requires 0 <= i < |areas| && Valid() reads this, Repr => areas[i].View()),
                  freeNumPages)
    }

    /** area->next = area_list; area_list = area. */
    method Prepend(area: PmmArea)
      requires Valid() && area.bitmap.Valid()
      requires area !in Repr && area.bitmap.data !in Repr
      modifies this
      ensures Valid() && areas == [area] + old(areas) && Repr == old(Repr) + {area, area.bitmap.data}
      ensures View().areas == [area.View()] + old(View().areas)
      ensures freeNumPages == old(freeNumPages) + area.numPages
    {
      areas := [area] + areas;
      Repr := Repr + {area, area.bitmap.data};
      freeNumPages := freeNumPages + area.numPages;
    }

    /** pmm_init. */
    constructor (memmap: seq<MemmapEntry>)
      ensures Valid()
      ensures View() == PmmSpec.Pmm(InitAreas(memmap), PmmSpec.Unused(InitAreas(memmap)))
      ensures fresh(Repr)
    {
      areas := [];
      Repr := {};
      freeNumPages := 0;
      new;
      AddEntries(memmap);
    }

    /** pmm_init's loop. */
    method AddEntries(memmap: seq<MemmapEntry>)
      requires Valid() && Holds([]) && Repr == {}
      modifies this
      ensures Valid() && forall o | o in Repr :: fresh(o)
      ensures Holds(InitAreas(memmap))
    {
      assert memmap[..0] == [];
      for i := 0 to |memmap|
        invariant Valid() && Holds(InitAreas(memmap[..i]))
        invariant forall o | o in Repr :: fresh(o)
      {
        LastEntry(memmap, i);
        AddEntry(memmap[i], InitAreas(memmap[..i]), InitAreas(memmap[..i + 1]));
      }
      assert memmap[..|memmap|] == memmap;
    }

    ghost predicate Holds(all: seq<PmmSpec.Area>)
      requires Valid()
      reads this, Repr
    {
      View() == PmmSpec.Pmm(all, PmmSpec.Unused(all))
    }

    /** One turn of pmm_init's loop. */
    method AddEntry(entry: MemmapEntry, ghost before: seq<PmmSpec.Area>, ghost after: seq<PmmSpec.Area>)
      requires Valid() && Holds(before)
      requires after == EntryAreas(entry) + before
      modifies this
      ensures Valid() && forall o | o in Repr :: o in old(Repr) || fresh(o)
      ensures Holds(after)
    {
      assert [] + before == before;
      if entry.usable {
        var numPages := AlignDown(entry.length) / PAGE_SIZE;
        if numPages > 1 {
          var area := new PmmArea(AlignUp(entry.base), numPages);
          UnusedCons(area.View(), before);
          Prepend(area);
        }
      }
    }

    /** The search loop of pmm_palloc: the first area whose budget and scan both allow n pages. */
    method Search(n: nat) returns (i: nat, idx: nat)
      requires Valid() && n > 0
      ensures i == PmmSpec.Pick(View().areas, 0, n)
      ensures i < |areas| ==> idx == FirstFit(View().areas[i].bits, View().areas[i].hint, n).value
    {
      ghost var was := View().areas;
      i, idx := 0, 0;
      while i < |areas|
        invariant i <= |areas|
        invariant PmmSpec.Pick(was, 0, n) == PmmSpec.Pick(was, i, n)
      {
        var curr := areas[i];
        assert was[i] == curr.View();
        if curr.numPages >= n {
          var found := curr.bitmap.FindContiguousRangeFrom(curr.freeIdxHint, n);
          if found.Some? { return i, found.value; }
        }
        i := i + 1;
      }
    }

    method TakeAt(i: nat, idx: nat, n: nat)
      requires Valid() && i < |areas| && n <= areas[i].numPages
      modifies areas[i], areas[i].bitmap.data
      ensures Valid()
      ensures View().areas == old(View().areas)[i := PmmSpec.Take(old(View().areas[i]), idx, n)]
    {
      ghost var was := View().areas;
      areas[i].Take(idx, n);
      assert forall j | 0 <= j < |areas| && j != i :: areas[j].View() == was[j];
    }

    method GiveAt(i: nat, idx: nat, n: nat)
      requires Valid() && i < |areas|
      modifies areas[i], areas[i].bitmap.data
      ensures Valid()
      ensures View().areas == old(View().areas)[i := PmmSpec.Give(old(View().areas[i]), idx, n)]
    {
      ghost var was := View().areas;
      areas[i].Give(idx, n);
      assert forall j | 0 <= j < |areas| && j != i :: areas[j].View() == was[j];
    }

    /** pmm_palloc once an area is found. */
    method TakeIn(i: nat, idx: nat, n: nat) returns (r: nat)
      requires Valid() && i < |areas| && n <= areas[i].numPages
      modifies this`freeNumPages, Repr
      ensures Valid() && areas == old(areas) && Repr == old(Repr) && freeNumPages == old(freeNumPages) - n
      ensures View().areas == old(View().areas)[i := PmmSpec.Take(old(View().areas[i]), idx, n)]
      ensures r == old(View().areas[i]).addr + idx * PAGE_SIZE
    {
      assert areas[i].View() == View().areas[i];
      r := areas[i].addr + idx * PAGE_SIZE;
      TakeAt(i, idx, n);
      freeNumPages := freeNumPages - n;
    }

    /** pmm_palloc. */
    method PAlloc(n: nat) returns (r: nat)
      requires Valid()
      modifies this`freeNumPages, Repr
      ensures Valid() && areas == old(areas) && Repr == old(Repr)
      ensures View() == PmmSpec.PAlloc(old(View()), n).0
      ensures r == PmmSpec.PAlloc(old(View()), n).1
    {
      r := 0;
      if n > 0 {
        var i, idx := Search(n);
        if i < |areas| { r := TakeIn(i, idx, n); }
      }
    }

    /** The search loop of pmm_pfree. */
    method FindOwner(addr: nat) returns (i: nat)
      requires Valid()
      ensures i == PmmSpec.Find(View().areas, 0, addr)
    {
      ghost var was := View().areas;
      i := 0;
      while i < |areas|
        invariant i <= |areas|
        invariant PmmSpec.Find(was, 0, addr) == PmmSpec.Find(was, i, addr)
      {
        var lower := areas[i].base;
        var higher := areas[i].base + PmmSpec.AREA_HEADER + areas[i].bitmap.size * PAGE_SIZE;
        assert was[i] == areas[i].View();
        if lower <= addr < higher { return; }
        i := i + 1;
      }
    }

    /** pmm_pfree. */
    method PFree(addr: nat, n: nat)
      requires Valid()
      modifies this`freeNumPages, Repr
      ensures Valid() && areas == old(areas) && Repr == old(Repr)
      ensures View() == PmmSpec.PFree(old(View()), addr, n)
    {
      var i := FindOwner(addr);
      if i < |areas| { FreeIn(i, addr, n); }
    }

    /** pmm_pfree once the owning area is found. */
    method FreeIn(i: nat, addr: nat, n: nat)
      requires Valid() && i < |areas|
      modifies this`freeNumPages, Repr
      ensures Valid() && areas == old(areas) && Repr == old(Repr) && freeNumPages == old(freeNumPages) + n
      ensures View().areas ==
        old(View().areas)[i := PmmSpec.Give(old(View().areas)[i], PmmSpec.IndexOf(old(View().areas)[i], addr), n)]
    {
      var idx := IndexIn(i, addr);
      GiveAt(i, idx, n);
      freeNumPages := freeNumPages + n;
    }

    /** The bitmap index of an address in area i, in 64-bit unsigned arithmetic. */
    method IndexIn(i: nat, addr: nat) returns (idx: nat)
      requires Valid() && i < |areas|
      ensures idx == PmmSpec.IndexOf(View().areas[i], addr)
    {
      var curr := areas[i];
      assert View().areas[i] == curr.View();
      idx := (addr - (curr.base + PmmSpec.AREA_HEADER) - (curr.bitmap.size + 7) / 8) % WORD / PAGE_SIZE;
    }
  }

  // ---- From the memory map to the invariant ----

  /** Aligned, usable regions in the range of sizes the layout handles. */
  ghost predicate GoodEntry(e: MemmapEntry) {
    e.usable && AlignDown(e.length) / PAGE_SIZE > 1 ==>
      && e.base % PAGE_SIZE == 0 && e.length % PAGE_SIZE == 0
      && 3 <= e.length / PAGE_SIZE <= 32448 && e.base + e.length <= WORD
  }

  ghost predicate GoodMemmap(memmap: seq<MemmapEntry>) {
    RegionsApart(memmap) && forall i | 0 <= i < |memmap| :: GoodEntry(memmap[i])
  }

  ghost predicate RegionsApart(memmap: seq<MemmapEntry>) {
    forall i, j | 0 <= i < j < |memmap| && memmap[i].usable && memmap[j].usable ::
      || memmap[i].base + memmap[i].length <= memmap[j].base
      || memmap[j].base + memmap[j].length <= memmap[i].base
  }

  ghost predicate CoveredBy(a: PmmSpec.Area, e: MemmapEntry) {
    e.usable && a.base == e.base && e.base + e.length == a.base + (|a.bits| + 1) * PAGE_SIZE
  }

  /** A good entry becomes at most one area, with the invariant, that covers the entry exactly. */
  lemma {:induction false} EntryArea(e: MemmapEntry)
    requires GoodEntry(e)
    ensures forall a | a in EntryAreas(e) :: PmmSpec.AreaInv(a) && a.live == {} && CoveredBy(a, e)
  {
    var n := AlignDown(e.length) / PAGE_SIZE;
    if e.usable && n > 1 { PmmSpec.NewAreaInv(e.base, n); }
  }

  /** Every area has the invariant and covers a region of its own. */
  ghost predicate Covering(areas: seq<PmmSpec.Area>, memmap: seq<MemmapEntry>) {
    forall k | 0 <= k < |areas| :: PmmSpec.AreaInv(areas[k]) && CoversSome(areas[k], memmap)
  }

  ghost predicate CoversSome(a: PmmSpec.Area, memmap: seq<MemmapEntry>) {
    exists e :: e in memmap && CoveredBy(a, e)
  }

  ghost predicate AllApart(areas: seq<PmmSpec.Area>) {
    forall j, k | 0 <= j < k < |areas| :: PmmSpec.Apart(areas[j], areas[k])
  }

  lemma {:induction false} InitAreasGood(memmap: seq<MemmapEntry>)
    requires GoodMemmap(memmap)
    ensures Covering(InitAreas(memmap), memmap) && AllApart(InitAreas(memmap))
  {
    if memmap != [] {
      var m := |memmap| - 1;
      InitAreasGood(memmap[..m]);
      EntryArea(memmap[m]);
      assert memmap == memmap[..m] + [memmap[m]];
      OneMoreEntry(EntryAreas(memmap[m]), InitAreas(memmap[..m]), memmap[..m], memmap[m]);
    }
  }

  lemma {:induction false} OneMoreEntry(more: seq<PmmSpec.Area>, areas: seq<PmmSpec.Area>, memmap: seq<MemmapEntry>,
          e: MemmapEntry)
    requires Covering(areas, memmap) && AllApart(areas) && RegionsApart(memmap + [e])
    requires |more| <= 1 && forall a | a in more :: PmmSpec.AreaInv(a) && CoveredBy(a, e)
    ensures Covering(more + areas, memmap + [e]) && AllApart(more + areas)
  {
    assert e in memmap + [e];
    forall k | 0 <= k < |areas|
      ensures CoversSome(areas[k], memmap + [e]) && forall a | a in more :: PmmSpec.Apart(a, areas[k])
    {
      assert CoversSome(areas[k], memmap);
      var d :| d in memmap && CoveredBy(areas[k], d);
      var i :| 0 <= i < |memmap| && memmap[i] == d;
      assert (memmap + [e])[i] == d && (memmap + [e])[|memmap|] == e;
    }
  }

  /** pmm_init establishes the invariant every run then keeps. */
  lemma {:induction false} InitInv(memmap: seq<MemmapEntry>)
    requires GoodMemmap(memmap)
    ensures PmmSpec.Inv(PmmSpec.Pmm(InitAreas(memmap), PmmSpec.Unused(InitAreas(memmap))))
  {
    InitAreasGood(memmap);
  }

  // ---- Which areas there are ----

  /** pmm_init makes an area of a usable entry of at least two whole pages. */
  predicate Useful(e: MemmapEntry) { e.usable && e.length >= 2 * 4096 }

  /** How many such entries there are. */
  function UsefulCount(memmap: seq<MemmapEntry>): nat {
    if memmap == [] then 0
    else UsefulCount(memmap[..|memmap| - 1]) + if Useful(memmap[|memmap| - 1]) then 1 else 0
  }

  /** The pages of each but one, over all of them. */
  function DataPages(memmap: seq<MemmapEntry>): nat {
    if memmap == [] then 0
    else
      var e := memmap[|memmap| - 1];
      DataPages(memmap[..|memmap| - 1]) + if Useful(e) then e.length / 4096 - 1 else 0
  }

  function AreaFor(e: MemmapEntry): PmmSpec.Area
    requires Useful(e)
  {
    PmmSpec.NewArea(AlignUp(e.base), e.length / 4096)
  }

  lemma {:induction false} UsefulIs(e: MemmapEntry)
    ensures EntryAreas(e) == if Useful(e) then [AreaFor(e)] else []
  {
  }

  lemma {:induction false} AreasCount(memmap: seq<MemmapEntry>)
    ensures |InitAreas(memmap)| == UsefulCount(memmap)
  {
    if memmap != [] {
      UsefulIs(memmap[|memmap| - 1]);
      AreasCount(memmap[..|memmap| - 1]);
    }
  }

  /** Where the area of entry i is: the last entry's comes first. */
  function AreaIndex(memmap: seq<MemmapEntry>, i: nat): int
    requires i <= |memmap|
  {
    UsefulCount(memmap) - 1 - UsefulCount(memmap[..i])
  }

  /**
   Every useful entry of any memory map has its area, and there are no others: the areas are those of
   the useful entries, the last one first.
   */
  lemma {:induction false} InitAreasAre(memmap: seq<MemmapEntry>, i: nat)
    requires i < |memmap| && Useful(memmap[i])
    ensures |InitAreas(memmap)| == UsefulCount(memmap) && 0 <= AreaIndex(memmap, i) < |InitAreas(memmap)|
    ensures InitAreas(memmap)[AreaIndex(memmap, i)] == AreaFor(memmap[i])
  {
    var m := |memmap| - 1;
    AreasCount(memmap);
    AreasCount(memmap[..m]);
    UsefulIs(memmap[m]);
    if i < m {
      var rest := InitAreas(memmap[..m]);
      InitAreasAre(memmap[..m], i);
      assert memmap[..m][..i] == memmap[..i];
      Shifted(EntryAreas(memmap[m]), rest, AreaIndex(memmap[..m], i));
    }
  }

  lemma {:induction false} Shifted<T>(more: seq<T>, rest: seq<T>, k: nat)
    requires k < |rest|
    ensures (more + rest)[|more| + k] == rest[k]
  {
  }

  lemma {:induction false} BudgetCons(a: PmmSpec.Area, rest: seq<PmmSpec.Area>)
    ensures PmmSpec.Budget([a] + rest) == a.numPages + PmmSpec.Budget(rest)
  {
    assert ([a] + rest)[1..] == rest;
  }

  lemma {:induction false} SumsGrow(e: MemmapEntry, rest: seq<PmmSpec.Area>)
    requires GoodEntry(e)
    ensures var n := if Useful(e) then e.length / 4096 - 1 else 0;
      && PmmSpec.Budget(EntryAreas(e) + rest) == n + PmmSpec.Budget(rest)
      && PmmSpec.Unused(EntryAreas(e) + rest) == n + PmmSpec.Unused(rest)
  {
    UsefulIs(e);
    if Useful(e) {
      GoodArea(e);
      BudgetCons(AreaFor(e), rest);
      UnusedCons(AreaFor(e), rest);
    } else {
      assert EntryAreas(e) + rest == rest;
    }
  }

  /**
   Over a good memory map each useful entry of n pages has an area with its base and n - 1 data pages,
   all free; free count and budget are the sum of these.
   */
  lemma {:induction false} InitAreasExact(memmap: seq<MemmapEntry>)
    requires GoodMemmap(memmap)
    ensures |InitAreas(memmap)| == UsefulCount(memmap)
    ensures forall i | 0 <= i < |memmap| && Useful(memmap[i]) :: HasArea(memmap, i)
    ensures PmmSpec.Budget(InitAreas(memmap)) == PmmSpec.Unused(InitAreas(memmap)) == DataPages(memmap)
  {
    AreasCount(memmap);
    forall i | 0 <= i < |memmap| && Useful(memmap[i]) ensures HasArea(memmap, i) {
      InitAreasAre(memmap, i);
      GoodArea(memmap[i]);
    }
    InitSums(memmap);
  }

  /** The area of a good entry: its base, one page for the header, the others free. */
  lemma {:induction false} GoodArea(e: MemmapEntry)
    requires GoodEntry(e) && Useful(e)
    ensures IsFresh(AreaFor(e), e)
  {
    PmmSpec.LayoutExact(e.length / 4096);
  }

  ghost predicate IsFresh(a: PmmSpec.Area, e: MemmapEntry) {
    && a.base == e.base && a.addr == e.base + 4096 && a.numPages == |a.bits| == e.length / 4096 - 1
    && a.hint == 0 && a.live == {} && forall b | b in a.bits :: !b
  }

  ghost predicate HasArea(memmap: seq<MemmapEntry>, i: nat)
    requires i < |memmap|
  {
    && 0 <= AreaIndex(memmap, i) < |InitAreas(memmap)|
    && IsFresh(InitAreas(memmap)[AreaIndex(memmap, i)], memmap[i])
  }

  lemma {:induction false} InitSums(memmap: seq<MemmapEntry>)
    requires GoodMemmap(memmap)
    ensures PmmSpec.Budget(InitAreas(memmap)) == PmmSpec.Unused(InitAreas(memmap)) == DataPages(memmap)
  {
    if memmap != [] {
      var m := |memmap| - 1;
      InitSums(memmap[..m]);
      SumsGrow(memmap[m], InitAreas(memmap[..m]));
    }
  }
}
