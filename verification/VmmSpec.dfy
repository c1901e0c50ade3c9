/** The virtual-area list as a value: a tiling of one address range, and a page-to-flags map. */
module VmmSpec {
  import opened Common

  datatype AreaState = FREE | ALLOCATED | LAZILY_ALLOCATED | RESERVED

  datatype Area = Area(addr: nat, numPages: nat, state: AreaState, flags: nat)

  function End(a: Area): nat { a.addr + a.numPages * PAGE_SIZE }

  // ---- Tiling ----

  /** s covers [lo, hi) in order, without gap, overlap or empty area. */
  ghost predicate Tiles(s: seq<Area>, lo: nat, hi: nat) {
    if s == [] then lo == hi
    else s[0].addr == lo && s[0].numPages > 0 && End(s[0]) <= hi && Tiles(s[1..], End(s[0]), hi)
  }

  /** No two neighbours are both free. */
  ghost predicate Coalesced(s: seq<Area>) {
    forall i | 0 < i < |s| :: !(s[i - 1].state == FREE && s[i].state == FREE)
  }

  ghost predicate Inv(s: seq<Area>, lo: nat, hi: nat) {
    s != [] && Tiles(s, lo, hi) && Coalesced(s)
  }

  /** The address at which area k starts, or where the tiling ends. */
  function Cut(s: seq<Area>, k: nat, hi: nat): nat
    requires k <= |s|
  {
    if k < |s| then s[k].addr else hi
  }

  lemma {:induction false} TilesSplit(s: seq<Area>, k: nat, lo: nat, hi: nat)
    requires Tiles(s, lo, hi) && k <= |s|
    ensures Tiles(s[..k], lo, Cut(s, k, hi)) && Tiles(s[k..], Cut(s, k, hi), hi)
    ensures lo <= Cut(s, k, hi) <= hi
  {
    if k > 0 {
      TilesSplit(s[1..], k - 1, End(s[0]), hi);
      assert s[1..][..k - 1] == s[..k][1..] && s[1..][k - 1..] == s[k..];
    }
  }

  lemma {:induction false} TilesJoin(a: seq<Area>, b: seq<Area>, lo: nat, mid: nat, hi: nat)
    requires Tiles(a, lo, mid) && Tiles(b, mid, hi) && mid <= hi
    ensures Tiles(a + b, lo, hi)
  {
    if a == [] {
      assert a + b == b;
    } else {
      TilesJoin(a[1..], b, End(a[0]), mid, hi);
      assert (a + b)[1..] == a[1..] + b;
    }
  }

  /** Areas come in address order and do not overlap. */
  lemma {:induction false} TilesApart(s: seq<Area>, lo: nat, hi: nat, i: nat, j: nat)
    requires Tiles(s, lo, hi) && i < j < |s|
    ensures End(s[i]) <= s[j].addr && End(s[j]) <= hi && lo <= s[i].addr
    ensures j == i + 1 ==> End(s[i]) == s[j].addr
  {
    TilesSplit(s, i, lo, hi);
    TilesSplit(s[i + 1..], j - i - 1, End(s[i]), hi);
    assert s[i..][1..] == s[i + 1..] && s[i + 1..][j - i - 1..] == s[j..];
  }

  lemma {:induction false} FreeNeighbours(s: seq<Area>)
    requires |s| > 1 && s[0].state == FREE && s[1].state == FREE
    ensures !Coalesced(s)
  {
    var next := s[1];
  }

  /** Every area starts a whole number of pages after the range. */
  lemma {:induction false} TilesAligned(s: seq<Area>, lo: nat, hi: nat, k: nat)
    requires Tiles(s, lo, hi) && k < |s|
    ensures lo <= s[k].addr && (s[k].addr - lo) % PAGE_SIZE == 0 && End(s[k]) <= hi
  {
    if k > 0 {
      TilesAligned(s[1..], End(s[0]), hi, k - 1);
      assert s[k].addr - lo == s[k].addr - End(s[0]) + s[0].numPages * PAGE_SIZE;
    }
  }

  /** Once everything is free again, coalescing has left the one original area. */
  lemma {:induction false} AllFreeIsOneArea(s: seq<Area>, lo: nat, hi: nat)
    requires Inv(s, lo, hi) && forall i | 0 <= i < |s| :: s[i].state == FREE
    ensures |s| == 1 && s[0].addr == lo && End(s[0]) == hi
  {
    if |s| > 1 { FreeNeighbours(s); }
    assert s[1..] == [] && Tiles(s[1..], End(s[0]), hi);
  }

  lemma {:induction false} OneArea(a: Area)
    requires a.numPages > 0
    ensures Inv([a], a.addr, End(a))
  {
    assert [a][1..] == [];
  }

  // ---- The page map ----

  predicate Holds(a: Area, v: nat) { a.addr <= v < End(a) }

  /** The flags of the allocated area around v, None when v is not allocated. */
  function FlagsAt(s: seq<Area>, v: nat): Option<nat> {
    if s == [] then None
    else if Holds(s[0], v) then (if s[0].state == ALLOCATED then Some(s[0].flags) else None)
    else FlagsAt(s[1..], v)
  }

  lemma {:induction false} FlagsAtJoin(a: seq<Area>, b: seq<Area>, lo: nat, mid: nat, v: nat)
    requires Tiles(a, lo, mid)
    ensures lo <= v < mid ==> FlagsAt(a + b, v) == FlagsAt(a, v)
    ensures !(lo <= v < mid) ==> FlagsAt(a + b, v) == FlagsAt(b, v)
  {
    if a == [] {
      assert a + b == b;
    } else {
      FlagsAtJoin(a[1..], b, End(a[0]), mid, v);
      assert (a + b)[1..] == a[1..] + b;
      TilesSplit(a, 1, lo, mid);
    }
  }

  /** Replacing the areas from i to j by others tiling the same addresses. */
  lemma {:induction false} Splice(s: seq<Area>, lo: nat, hi: nat, i: nat, j: nat, mid: seq<Area>)
    requires Tiles(s, lo, hi) && i <= j <= |s|
    requires Tiles(mid, Cut(s, i, hi), Cut(s, j, hi))
    ensures Tiles(s[..i] + mid + s[j..], lo, hi)
    ensures forall v: nat :: FlagsAt(s[..i] + mid + s[j..], v) ==
              if Cut(s, i, hi) <= v < Cut(s, j, hi) then FlagsAt(mid, v) else FlagsAt(s, v)
  {
    TilesSplit(s, i, lo, hi);
    TilesSplit(s, j, lo, hi);
    var m, n := Cut(s, i, hi), Cut(s, j, hi);
    TilesSplit(s[i..], j - i, m, hi);
    assert s[i..][j - i..] == s[j..];
    TilesJoin(s[..i], mid, lo, m, n);
    TilesJoin(s[..i] + mid, s[j..], lo, n, hi);
    forall v: nat
      ensures FlagsAt(s[..i] + mid + s[j..], v) == if m <= v < n then FlagsAt(mid, v) else FlagsAt(s, v)
    {
      SplicedFlags(s, lo, hi, i, j, mid, v);
    }
  }

  lemma {:induction false} SplicedFlags(s: seq<Area>, lo: nat, hi: nat, i: nat, j: nat, mid: seq<Area>, v: nat)
    requires Tiles(s, lo, hi) && i <= j <= |s| && Tiles(mid, Cut(s, i, hi), Cut(s, j, hi))
    requires Tiles(s[..i], lo, Cut(s, i, hi)) && Tiles(s[i..], Cut(s, i, hi), hi)
    requires Tiles(s[..j], lo, Cut(s, j, hi)) && Tiles(s[j..], Cut(s, j, hi), hi)
    requires Tiles(s[..i] + mid, lo, Cut(s, j, hi))
    ensures FlagsAt(s[..i] + mid + s[j..], v) ==
      if Cut(s, i, hi) <= v < Cut(s, j, hi) then FlagsAt(mid, v) else FlagsAt(s, v)
  {
    var (m, n) := (Cut(s, i, hi), Cut(s, j, hi));
    FlagsAtJoin(s[..i] + mid, s[j..], lo, n, v);
    FlagsAtJoin(s[..i], mid, lo, m, v);
    assert s == s[..i] + s[i..] && s == s[..j] + s[j..];
    FlagsAtJoin(s[..i], s[i..], lo, m, v);
    FlagsAtJoin(s[..j], s[j..], lo, n, v);
  }

  // ---- vmm_palloc ----

  /** Index of the first free area from k on with n pages, or |s|. */
  function FindFit(s: seq<Area>, k: nat, n: nat): (r: nat)
    requires k <= |s|
    ensures k <= r <= |s| && (r < |s| ==> s[r].numPages >= n && s[r].state == FREE)
    ensures forall i | k <= i < r :: !(s[i].numPages >= n && s[i].state == FREE)
    decreases |s| - k
  {
    if k == |s| || (s[k].numPages >= n && s[k].state == FREE) then k else FindFit(s, k + 1, n)
  }

  /** The areas that take the place of the area vmm_palloc picked. */
  function Carve(a: Area, n: nat, flags: nat): seq<Area>
    requires n <= a.numPages
  {
    if a.numPages > n
    then [Area(a.addr, n, ALLOCATED, flags), Area(a.addr + n * PAGE_SIZE, a.numPages - n, a.state, a.flags)]
    else [Area(a.addr, n, ALLOCATED, flags)]
  }

  /** vmm_area_split: area k keeps n pages, a new area after it has the others. */
  function Splinter(s: seq<Area>, k: nat, n: nat): seq<Area>
    requires k < |s| && n < s[k].numPages
  {
    s[..k] + [s[k].(numPages := n), s[k].(addr := s[k].addr + n * PAGE_SIZE, numPages := s[k].numPages - n)]
      + s[k + 1..]
  }

  /** Splitting where needed and marking the first part is carving. */
  lemma {:induction false} CarveSteps(s: seq<Area>, k: nat, n: nat, flags: nat, s': seq<Area>)
    requires k < |s| && 0 < n <= s[k].numPages && s' == if s[k].numPages > n then Splinter(s, k, n) else s
    ensures k < |s'| && s'[k := s'[k].(state := ALLOCATED, flags := flags)] == s[..k] + Carve(s[k], n, flags)
              + s[k + 1..]
  {
  }

  /** The list after vmm_palloc and the address it returns, 0 for failure. */
  function PAlloc(s: seq<Area>, n: nat, flags: nat): (seq<Area>, nat) {
    if n == 0 then (s, 0) else
    var k := FindFit(s, 0, n);
    if k == |s| then (s, 0) else
    (s[..k] + Carve(s[k], n, flags) + s[k + 1..], s[k].addr)
  }

  lemma {:induction false} CutAt(s: seq<Area>, lo: nat, hi: nat, k: nat)
    requires Tiles(s, lo, hi) && k < |s|
    ensures Cut(s, k + 1, hi) == End(s[k]) && s[k].numPages > 0 && lo <= s[k].addr && End(s[k]) <= hi
  {
    TilesSplit(s, k, lo, hi);
    if k + 1 < |s| { TilesApart(s, lo, hi, k, k + 1); } else { assert s[k..][1..] == []; }
  }

  /** A successful allocation turns n pages of one free area into allocated ones, and no other page. */
  lemma {:induction false} PAllocEffect(s: seq<Area>, lo: nat, hi: nat, n: nat, flags: nat)
    requires Inv(s, lo, hi) && n > 0 && FindFit(s, 0, n) < |s|
    ensures var (s', r) := PAlloc(s, n, flags);
            && Inv(s', lo, hi) && lo <= r && r + n * PAGE_SIZE <= hi
            && (forall v: nat | r <= v < r + n * PAGE_SIZE :: FlagsAt(s, v) == None)
            && (forall v: nat :: FlagsAt(s', v) == if r <= v < r + n * PAGE_SIZE then Some(flags) else FlagsAt(s, v))
  {
    var k := FindFit(s, 0, n);
    var (s', r) := PAlloc(s, n, flags);
    CutAt(s, lo, hi, k);
    var mid := Carve(s[k], n, flags);
    assert Tiles(mid, s[k].addr, End(s[k])) by {
      if |mid| == 2 { assert mid[1..] == [mid[1]] && [mid[1]][1..] == []; } else { assert mid[1..] == []; }
    }
    Splice(s, lo, hi, k, k + 1, mid);
    FlagsInside(s, lo, hi, k);
    assert s' == s[..k] + mid + s[k + 1..];
    forall v: nat ensures FlagsAt(s', v) == if r <= v < r + n * PAGE_SIZE then Some(flags) else FlagsAt(s, v) {
      assert FlagsAt(mid[1..], v) == None by {
        if |mid| == 2 { assert mid[1..] == [mid[1]] && FlagsAt([mid[1]][1..], v) == None; }
      }
    }
    CarveCoalesced(s, k, n, flags);
  }

  lemma {:induction false} CarveCoalesced(s: seq<Area>, k: nat, n: nat, flags: nat)
    requires Coalesced(s) && k < |s| && s[k].state == FREE && n <= s[k].numPages
    ensures Coalesced(s[..k] + Carve(s[k], n, flags) + s[k + 1..])
  {
  }

  /** Inside area k the page map is what area k says. */
  lemma {:induction false} FlagsInside(s: seq<Area>, lo: nat, hi: nat, k: nat)
    requires Tiles(s, lo, hi) && k < |s|
    ensures forall v: nat | Holds(s[k], v) ::
              FlagsAt(s, v) == if s[k].state == ALLOCATED then Some(s[k].flags) else None
  {
    forall v: nat | Holds(s[k], v)
      ensures FlagsAt(s, v) == if s[k].state == ALLOCATED then Some(s[k].flags) else None
    {
      TilesSplit(s, k, lo, hi);
      assert s == s[..k] + s[k..];
      FlagsAtJoin(s[..k], s[k..], lo, s[k].addr, v);
    }
  }

  // ---- vmm_free ----

  /** Index of the first area from k on that starts at addr, or |s|. */
  function FindArea(s: seq<Area>, k: nat, addr: nat): (r: nat)
    requires k <= |s|
    ensures k <= r <= |s| && (r < |s| ==> s[r].addr == addr)
    ensures forall i | k <= i < r :: s[i].addr != addr
    decreases |s| - k
  {
    if k == |s| || s[k].addr == addr then k else FindArea(s, k + 1, addr)
  }

  /** First and one-past-last index of the areas that the freed area k merges into one. */
  function MergeFrom(s: seq<Area>, k: nat): nat
    requires k < |s|
  {
    if k > 0 && s[k - 1].state == FREE then k - 1 else k
  }

  function MergeTo(s: seq<Area>, k: nat): nat
    requires k < |s|
  {
    if k + 1 < |s| && s[k + 1].state == FREE then k + 2 else k + 1
  }

  /** The area that remains: it starts where its free predecessor did and counts all merged pages. */
  function Merged(s: seq<Area>, k: nat): Area
    requires k < |s|
  {
    Area(s[MergeFrom(s, k)].addr,
         s[k].numPages + (if MergeFrom(s, k) < k then s[k - 1].numPages else 0)
         + (if MergeTo(s, k) > k + 1 then s[k + 1].numPages else 0),
         FREE, 0)
  }

  function FreeAt(s: seq<Area>, k: nat): seq<Area>
    requires k < |s|
  {
    s[..MergeFrom(s, k)] + [Merged(s, k)] + s[MergeTo(s, k)..]
  }

  /** One merge: area k takes over its neighbour j and stays in the list alone. */
  function Absorbed(s: seq<Area>, k: nat, j: nat): seq<Area>
    requires k < |s| && j < |s| && (j + 1 == k || j == k + 1)
  {
    var (i, n) := (if j < k then j else k, s[k].numPages + s[j].numPages);
    s[..i] + [s[k].(addr := s[i].addr, numPages := n)] + s[i + 2..]
  }

  /** vmm_free marks the area free before it merges; the merge does not look at that. */
  lemma {:induction false} MergeMarked(s: seq<Area>, k: nat)
    requires k < |s|
    ensures FreeAt(s[k := s[k].(state := FREE, flags := 0)], k) == FreeAt(s, k)
  {
    var s' := s[k := s[k].(state := FREE, flags := 0)];
    assert s'[..MergeFrom(s, k)] == s[..MergeFrom(s, k)] && s'[MergeTo(s, k)..] == s[MergeTo(s, k)..];
  }

  lemma {:induction false} AbsorbIs(s: seq<Area>, k: nat, j: nat, a: Area)
    requires k < |s| && j < |s| && (j + 1 == k || j == k + 1)
    requires a == s[k].(addr := s[if j < k then j else k].addr, numPages := s[k].numPages + s[j].numPages)
    ensures s[k := a][..j] + s[k := a][j + 1..] == Absorbed(s, k, j)
  {
  }

  /** Merging with the free neighbours one after the other. */
  lemma {:induction false} AbsorbBoth(s: seq<Area>, k: nat, s': seq<Area>, at: nat)
    requires k < |s| && s[k].state == FREE && s[k].flags == 0
    requires if k > 0 && s[k - 1].state == FREE then s' == Absorbed(s, k, k - 1) && at == k - 1 else s' == s && at == k
    ensures at < |s'| && s'[at + 1..] == s[k + 1..]
    ensures if at + 1 < |s'| && s'[at + 1].state == FREE then Absorbed(s', at, at + 1) == FreeAt(s, k)
              else s' == FreeAt(s, k)
  {
    assert s'[at + 1..] == s[k + 1..];
    assert at + 1 < |s'| ==> s'[at + 1] == s'[at + 1..][0] == s[k + 1..][0];
    assert at + 1 < |s'| ==> s'[at + 2..] == s'[at + 1..][1..] == s[k + 1..][1..] == s[k + 2..];
    assert s'[..at] == s[..MergeFrom(s, k)];
  }

  /** The same, told by where the merging starts and ends. */
  lemma {:induction false} MergeBoth(s: seq<Area>, k: nat, s1: seq<Area>, at: nat, s2: seq<Area>)
    requires k < |s| && s[k].state == FREE && s[k].flags == 0 && at == MergeFrom(s, k) && at < |s1|
    requires s1 == if at < k then Absorbed(s, k, k - 1) else s
    requires s2 == if MergeTo(s1, at) > at + 1 then Absorbed(s1, at, at + 1) else s1
    ensures s2 == FreeAt(s, k)
  {
    AbsorbBoth(s, k, s1, at);
  }

  /** The list after vmm_free. */
  function Free(s: seq<Area>, addr: nat): seq<Area> {
    if addr == 0 then s else
    var k := FindArea(s, 0, addr);
    if k == |s| then s else FreeAt(s, k)
  }

  /** Freeing area k makes exactly its pages unallocated and keeps the list tiled and coalesced. */
  lemma {:induction false} FreeEffect(s: seq<Area>, lo: nat, hi: nat, k: nat)
    requires Inv(s, lo, hi) && k < |s|
    ensures Inv(FreeAt(s, k), lo, hi)
    ensures forall v: nat :: FlagsAt(FreeAt(s, k), v) == if Holds(s[k], v) then None else FlagsAt(s, v)
  {
    var i, j, a := MergeFrom(s, k), MergeTo(s, k), Merged(s, k);
    CutAt(s, lo, hi, k);
    if i < k { CutAt(s, lo, hi, k - 1); }
    if j > k + 1 { CutAt(s, lo, hi, k + 1); }
    assert a.addr == Cut(s, i, hi) && End(a) == Cut(s, j, hi);
    assert [a][1..] == [];
    Splice(s, lo, hi, i, j, [a]);
    forall v: nat ensures FlagsAt(FreeAt(s, k), v) == if Holds(s[k], v) then None else FlagsAt(s, v) {
      MergedUnmapped(s, lo, hi, k, v);
    }
    FreeCoalesced(s, k);
  }

  /** The merged area says of its own pages what the list says of them once area k is free. */
  lemma {:induction false} MergedUnmapped(s: seq<Area>, lo: nat, hi: nat, k: nat, v: nat)
    requires Inv(s, lo, hi) && k < |s|
    requires Cut(s, MergeFrom(s, k), hi) == Merged(s, k).addr && Cut(s, MergeTo(s, k), hi) == End(Merged(s, k))
    ensures FlagsAt([Merged(s, k)], v) == None
    ensures Holds(s[k], v) ==> Holds(Merged(s, k), v)
    ensures Holds(Merged(s, k), v) && !Holds(s[k], v) ==> FlagsAt(s, v) == None
  {
    var i, j := MergeFrom(s, k), MergeTo(s, k);
    CutAt(s, lo, hi, k);
    if i < k { CutAt(s, lo, hi, k - 1); FlagsInside(s, lo, hi, k - 1); }
    if j > k + 1 { CutAt(s, lo, hi, k + 1); FlagsInside(s, lo, hi, k + 1); }
    assert [Merged(s, k)][1..] == [];
  }

  /**
   vmm_free adds the merged area's pages to free_num_pages. That is what was freed exactly when no
   neighbour was free; otherwise the neighbours' pages are counted again.
   */
  lemma {:induction false} FreeCountExact(s: seq<Area>, lo: nat, hi: nat, k: nat)
    requires Tiles(s, lo, hi) && k < |s|
    ensures Merged(s, k).numPages == s[k].numPages <==>
              !(k > 0 && s[k - 1].state == FREE) && !(k + 1 < |s| && s[k + 1].state == FREE)
  {
    CutAt(s, lo, hi, k);
    if k > 0 { CutAt(s, lo, hi, k - 1); }
    if k + 1 < |s| { CutAt(s, lo, hi, k + 1); }
  }

  lemma {:induction false} FreeCoalesced(s: seq<Area>, k: nat)
    requires Coalesced(s) && k < |s|
    ensures Coalesced(FreeAt(s, k))
  {
    var i, j, s' := MergeFrom(s, k), MergeTo(s, k), FreeAt(s, k);
    assert i > 0 ==> s[i - 1].state != FREE by { assert i > 0 && i < k ==> s[i].state == FREE; }
    assert j < |s| ==> s[j].state != FREE by { assert j < |s| && j > k + 1 ==> s[j - 1].state == FREE; }
    forall m | 0 < m < |s'| ensures !(s'[m - 1].state == FREE && s'[m].state == FREE) {
      if m < i {
        assert s'[m - 1] == s[m - 1] && s'[m] == s[m];
      } else if m > i + 1 {
        assert s'[m - 1] == s[j + m - i - 2] && s'[m] == s[j + m - i - 1];
      }
    }
  }

  // ---- When allocation succeeds ----

  /** v lies in a free area. */
  ghost predicate FreeAddr(s: seq<Area>, v: nat) {
    exists i | 0 <= i < |s| :: s[i].state == FREE && Holds(s[i], v)
  }

  /** n consecutive free pages, the first at v. */
  ghost predicate FreeWindow(s: seq<Area>, v: nat, n: nat) {
    forall w: nat | v <= w < v + n * PAGE_SIZE :: FreeAddr(s, w)
  }

  /** vmm_palloc finds an area exactly when n consecutive pages of the range are free. */
  lemma {:induction false} PAllocComplete(s: seq<Area>, lo: nat, hi: nat, n: nat)
    requires Inv(s, lo, hi) && n > 0
    ensures FindFit(s, 0, n) < |s| <==> exists v :: FreeWindow(s, v, n)
  {
    var k := FindFit(s, 0, n);
    if k < |s| {
      forall w: nat | s[k].addr <= w < s[k].addr + n * PAGE_SIZE ensures FreeAddr(s, w) {
        assert Holds(s[k], w);
      }
      assert FreeWindow(s, s[k].addr, n);
    }
    if v :| FreeWindow(s, v, n) {
      assert FreeAddr(s, v);
      var i :| 0 <= i < |s| && s[i].state == FREE && Holds(s[i], v);
      if s[i].numPages < n {
        WindowEscapes(s, lo, hi, i, v, n);
      }
    }
  }

  /**
   vmm_palloc returns the least address at which n consecutive pages are free; for no pages, or when
   there are none, it returns 0 and changes nothing.
   */
  lemma {:induction false} PAllocLeast(s: seq<Area>, lo: nat, hi: nat, n: nat, flags: nat)
    requires Inv(s, lo, hi)
    ensures n == 0 || (forall v: nat :: !FreeWindow(s, v, n)) ==> PAlloc(s, n, flags) == (s, 0)
    ensures n > 0 && (exists v: nat :: FreeWindow(s, v, n)) ==>
      var r := PAlloc(s, n, flags).1; FreeWindow(s, r, n) && forall v: nat | v < r :: !FreeWindow(s, v, n)
  {
    if n > 0 {
      PAllocComplete(s, lo, hi, n);
      var k := FindFit(s, 0, n);
      if k < |s| {
        forall w: nat | s[k].addr <= w < s[k].addr + n * PAGE_SIZE ensures FreeAddr(s, w) { assert Holds(s[k], w); }
        forall v: nat | v < s[k].addr ensures !FreeWindow(s, v, n) { NoneBelow(s, lo, hi, k, n, v); }
      }
    }
  }

  lemma {:induction false} NoneBelow(s: seq<Area>, lo: nat, hi: nat, k: nat, n: nat, v: nat)
    requires Inv(s, lo, hi) && n > 0 && k == FindFit(s, 0, n) < |s| && v < s[k].addr
    ensures !FreeWindow(s, v, n)
  {
    if FreeWindow(s, v, n) {
      assert FreeAddr(s, v);
      var i :| 0 <= i < |s| && s[i].state == FREE && Holds(s[i], v);
      if k < i { TilesApart(s, lo, hi, k, i); }
      WindowEscapes(s, lo, hi, i, v, n);
    }
  }

  /** A free window cannot run past the end of a free area. */
  lemma {:induction false} WindowEscapes(s: seq<Area>, lo: nat, hi: nat, i: nat, v: nat, n: nat)
    requires Inv(s, lo, hi) && i < |s| && s[i].state == FREE && Holds(s[i], v) && s[i].numPages < n
    ensures !FreeWindow(s, v, n)
  {
    if FreeWindow(s, v, n) {
      var e := End(s[i]);
      assert v <= e < v + n * PAGE_SIZE;
      assert FreeAddr(s, e);
      var j :| 0 <= j < |s| && s[j].state == FREE && Holds(s[j], e);
      if j < i { TilesApart(s, lo, hi, j, i); }
      if i < j {
        TilesApart(s, lo, hi, i, j);
        if i + 1 < j {
          CutAt(s, lo, hi, i + 1);
          TilesApart(s, lo, hi, i, i + 1);
          TilesApart(s, lo, hi, i + 1, j);
        }
      }
      assert false;
    }
  }

  // ---- Runs ----

  /**
   Runs are about the area list only. A Release of an address at which a free area starts is among
   them: vmm_free then merges that area too, after unmapping pages that are not mapped, about which
   nothing is claimed.
   */
  datatype Op = Alloc(n: nat, flags: nat) | Release(addr: nat)

  function Step(s: seq<Area>, op: Op): seq<Area> {
    match op
    case Alloc(n, flags) => PAlloc(s, n, flags).0
    case Release(addr) => Free(s, addr)
  }

  function Exec(s: seq<Area>, ops: seq<Op>): seq<Area>
    decreases |ops|
  {
    if ops == [] then s else Exec(Step(s, ops[0]), ops[1..])
  }

  /** Every run from vmm_init's one free area keeps the list tiled and coalesced. */
  lemma {:induction false} RunInv(s: seq<Area>, lo: nat, hi: nat, ops: seq<Op>)
    requires Inv(s, lo, hi)
    ensures Inv(Exec(s, ops), lo, hi)
    decreases |ops|
  {
    if ops != [] {
      StepInv(s, lo, hi, ops[0]);
      RunInv(Step(s, ops[0]), lo, hi, ops[1..]);
    }
  }

  lemma {:induction false} StepInv(s: seq<Area>, lo: nat, hi: nat, op: Op)
    requires Inv(s, lo, hi)
    ensures Inv(Step(s, op), lo, hi)
  {
    match op {
      case Alloc(n, flags) =>
        if n > 0 && FindFit(s, 0, n) < |s| { PAllocEffect(s, lo, hi, n, flags); }
      case Release(addr) =>
        if addr != 0 && FindArea(s, 0, addr) < |s| { FreeEffect(s, lo, hi, FindArea(s, 0, addr)); }
    }
  }

  /**
   A run that ends with nothing allocated ends in the original single area, whatever the order of
   its allocations and releases.
   */
  lemma {:induction false} RunCoalesces(lo: nat, n: nat, ops: seq<Op>)
    requires n > 0
    requires forall i | 0 <= i < |Exec([Area(lo, n, FREE, 0)], ops)| ::
              Exec([Area(lo, n, FREE, 0)], ops)[i].state == FREE
    ensures |Exec([Area(lo, n, FREE, 0)], ops)| == 1
    ensures Exec([Area(lo, n, FREE, 0)], ops)[0].addr == lo && Exec([Area(lo, n, FREE, 0)], ops)[0].numPages == n
  {
    var s := [Area(lo, n, FREE, 0)];
    OneArea(s[0]);
    RunInv(s, lo, lo + n * PAGE_SIZE, ops);
    AllFreeIsOneArea(Exec(s, ops), lo, lo + n * PAGE_SIZE);
  }

  /** Each successful Alloc of the run is followed by a Release of the address it returned. */
  predicate AllReleased(s: seq<Area>, ops: seq<Op>)
    decreases |ops|
  {
    ops != [] ==>
      && (ops[0].Alloc? && PAlloc(s, ops[0].n, ops[0].flags).1 != 0 ==>
            Release(PAlloc(s, ops[0].n, ops[0].flags).1) in ops[1..])
      && AllReleased(Step(s, ops[0]), ops[1..])
  }

  /** A Release is still to come for every area that is not free. */
  ghost predicate Owed(s: seq<Area>, ops: seq<Op>) {
    forall a | a in s && a.state != FREE :: Release(a.addr) in ops
  }

  lemma {:induction false} InThree<X>(a: seq<X>, b: seq<X>, c: seq<X>, x: X)
    ensures x in a + b + c <==> x in a || x in b || x in c
  {
  }

  /** After vmm_palloc only the area it returned is newly taken. */
  lemma {:induction false} TakenAfterAlloc(s: seq<Area>, n: nat, flags: nat, a: Area)
    requires a in PAlloc(s, n, flags).0 && a.state != FREE
    ensures a in s || (n > 0 && FindFit(s, 0, n) < |s| && a.addr == PAlloc(s, n, flags).1)
  {
    var k := FindFit(s, 0, n);
    if n > 0 && k < |s| {
      InThree(s[..k], Carve(s[k], n, flags), s[k + 1..], a);
    }
  }

  /** After vmm_free of an address no area that starts there is taken, and none is newly so. */
  lemma {:induction false} TakenAfterFree(s: seq<Area>, lo: nat, hi: nat, addr: nat, a: Area)
    requires Inv(s, lo, hi) && a in Free(s, addr) && a.state != FREE && addr > 0
    ensures a in s && a.addr != addr
  {
    var k := FindArea(s, 0, addr);
    if k < |s| {
      var (i, j) := (MergeFrom(s, k), MergeTo(s, k));
      InThree(s[..i], [Merged(s, k)], s[j..], a);
      if a in s[..i] {
        var m :| 0 <= m < i && s[..i][m] == a;
        OtherAddress(s, lo, hi, m, k);
      } else {
        var m :| 0 <= m < |s[j..]| && s[j..][m] == a;
        OtherAddress(s, lo, hi, k, j + m);
      }
    } else {
      var m :| 0 <= m < |s| && s[m] == a;
    }
  }

  lemma {:induction false} OtherAddress(s: seq<Area>, lo: nat, hi: nat, i: nat, j: nat)
    requires Tiles(s, lo, hi) && i < j < |s|
    ensures s[i].addr != s[j].addr
  {
    TilesApart(s, lo, hi, i, j);
    CutAt(s, lo, hi, i);
  }

  lemma {:induction false} OwedStep(s: seq<Area>, lo: nat, hi: nat, ops: seq<Op>)
    requires Inv(s, lo, hi) && lo > 0 && ops != [] && Owed(s, ops) && AllReleased(s, ops)
    ensures Owed(Step(s, ops[0]), ops[1..])
  {
    assert ops == [ops[0]] + ops[1..];
    forall a | a in Step(s, ops[0]) && a.state != FREE ensures Release(a.addr) in ops[1..] {
      match ops[0]
      case Alloc(n, flags) =>
        TakenAfterAlloc(s, n, flags, a);
        AreaAbove(s, lo, hi, FindFit(s, 0, n));
      case Release(addr) =>
        if addr > 0 { TakenAfterFree(s, lo, hi, addr, a); } else { AreaAbove(s, lo, hi, 0); }
    }
  }

  /** Every area starts at or above the start of the range. */
  lemma {:induction false} AreaAbove(s: seq<Area>, lo: nat, hi: nat, k: nat)
    requires Tiles(s, lo, hi)
    ensures k < |s| ==> s[k].addr >= lo
    ensures lo > 0 ==> forall a | a in s :: a.addr > 0
  {
    forall m | 0 <= m < |s| ensures s[m].addr >= lo { CutAt(s, lo, hi, m); }
  }

  /**
   If every address a run of allocations and frees returned is freed later in the run, the run ends
   in the one original area, whatever else is freed and in whatever order.
   */
  lemma {:induction false} RunReleases(s: seq<Area>, lo: nat, hi: nat, ops: seq<Op>)
    requires Inv(s, lo, hi) && lo > 0 && AllReleased(s, ops) && Owed(s, ops)
    ensures |Exec(s, ops)| == 1 && Exec(s, ops)[0].state == FREE
    ensures Exec(s, ops)[0].addr == lo && End(Exec(s, ops)[0]) == hi
    decreases |ops|
  {
    if ops == [] {
      forall i | 0 <= i < |s| ensures s[i].state == FREE {
        assert s[i] in s && Release(s[i].addr) !in ops;
      }
      AllFreeIsOneArea(s, lo, hi);
    } else {
      OwedStep(s, lo, hi, ops);
      StepInv(s, lo, hi, ops[0]);
      RunReleases(Step(s, ops[0]), lo, hi, ops[1..]);
    }
  }

  /** From vmm_init's one free area: freeing every allocation, in any order, gives that area back. */
  lemma {:induction false} FreeingAllRestores(lo: nat, n: nat, ops: seq<Op>)
    requires n > 0 && lo > 0 && AllReleased([Area(lo, n, FREE, 0)], ops)
    ensures var s := Exec([Area(lo, n, FREE, 0)], ops);
      |s| == 1 && s[0].addr == lo && s[0].numPages == n && s[0].state == FREE
  {
    OneArea(Area(lo, n, FREE, 0));
    RunReleases([Area(lo, n, FREE, 0)], lo, lo + n * PAGE_SIZE, ops);
  }
}
