/** The virtual memory manager: area records in place, page tables and page frames behind them. */
module VirtualMemory {
  import opened Common
  import opened PageWalk
  import opened Paging
  import opened TableCounting
  import opened VmmSpec

  /** flags | PAGE_FLAG_PRESENT */
  function OrPresent(flags: nat): nat { if Present(flags) then flags else flags + PRESENT }

  /** Entry e maps frame f, present, with the other flag bits as asked and nothing above the frame. */
  predicate MapsAs(e: nat, f: nat, flags: nat) {
    Frame(e) == f && e % 2 == 1 && e % 4096 / 2 == flags % 4096 / 2 && e < 0x1_0000_0000_0000
  }

  lemma {:induction false} OrPresentMaps(frame: nat, flags: nat)
    requires IsFrame(frame)
    ensures Present(OrPresent(flags)) && MapsAs(LeafEntry(frame, OrPresent(flags)), frame, flags)
  {
    LeafEntryParts(frame, OrPresent(flags));
    OrPresentBits(flags);
  }

  lemma {:induction false} OrPresentBits(flags: nat)
    ensures OrPresent(flags) % 2 == 1 && OrPresent(flags) % 4096 % 2 == 1
    ensures OrPresent(flags) % 4096 / 2 == flags % 4096 / 2
  {
  }

  /** The rights of a page so mapped are those its flags ask for. */
  lemma {:induction false} MapsGrants(e: nat, f: nat, flags: nat, r: Right)
    requires MapsAs(e, f, flags)
    ensures Grants(e, r) == Grants(flags, r)
  {
    GrantsLow(e, e % 4096, r);
    GrantsLow(flags, flags % 4096, r);
    HalfBits(e % 4096, flags % 4096);
  }

  lemma {:induction false} HalfBits(b: nat, c: nat)
    requires b / 2 == c / 2
    ensures b / 2 % 2 == c / 2 % 2 && b / 4 % 2 == c / 4 % 2
  {
    assert b / 4 == b / 2 / 2 && c / 4 == c / 2 / 2;
  }

  /**
   Every frame of the universe has exactly one role: in the memory's pool of tables and free
   frames, behind one page, or holding an area record.
   */
  ghost predicate Roles(universe: set<nat>, pool: set<nat>, backing: map<nat, nat>, records: set<nat>) {
    && (forall f | f in records :: IsFrame(f) && f !in pool)
    && (forall v | v in backing :: IsFrame(backing[v]) && backing[v] !in pool && backing[v] !in records)
    && (forall v, w | v in backing && w in backing && backing[v] == backing[w] :: v == w)
    && (forall f :: f in universe <==> f in pool || f in records || f in backing.Values)
  }

  lemma {:induction false} RolesStart(universe: set<nat>, none: map<nat, nat>, f: nat)
    requires f in universe && IsFrame(f) && none == map[]
    ensures Roles(universe, universe - {f}, none, {f})
  {
    assert none.Values == {};
  }

  lemma {:induction false} RolesRecord(universe: set<nat>, pool: set<nat>, backing: map<nat, nat>, records: set<nat>,
          f: nat)
    requires Roles(universe, pool, backing, records)
    ensures f in pool && IsFrame(f) ==> Roles(universe, pool - {f}, backing, records + {f})
    ensures f in records ==> Roles(universe, pool + {f}, backing, records - {f})
  {
    if f in pool { assert f in universe; }
    assert f in records ==> f !in backing.Values;
  }

  lemma {:induction false} RolesMap(universe: set<nat>, pool: set<nat>, backing: map<nat, nat>, records: set<nat>,
          v: nat, f: nat)
    requires Roles(universe, pool, backing, records) && v !in backing && f in pool && IsFrame(f)
    ensures Roles(universe, pool - {f}, backing[v := f], records)
  {
    var after := backing[v := f];
    assert after[v] == f;
    forall x: nat ensures x in after.Values <==> x in backing.Values || x == f {
      if x in backing.Values {
        var w :| w in backing && backing[w] == x;
        assert after[w] == x;
      }
    }
  }

  lemma {:induction false} RolesUnmap(universe: set<nat>, pool: set<nat>, backing: map<nat, nat>, records: set<nat>,
          v: nat)
    requires Roles(universe, pool, backing, records) && v in backing
    ensures Roles(universe, pool + {backing[v]}, backing - {v}, records)
  {
    var after := backing - {v};
    forall x: nat ensures x in after.Values <==> x in backing.Values && x != backing[v] {
      if x in backing.Values && x != backing[v] {
        var w :| w in backing && backing[w] == x;
        assert w in after && after[w] == x;
      }
    }
  }

  // ---- Pages of a range, on values ----

  /** No translation changed except that of the page of v. */
  ghost predicate OnlyPage(t: Tables, t': Tables, root: nat, v: nat) {
    forall w: nat | PageNo(w) != PageNo(v) :: Translate(t', root, w) == Translate(t, root, w)
  }

  /** The page tables, their places, and the frames behind the managed pages. */
  datatype Pages = Pages(t: Tables, at: Places, backing: map<nat, nat>)

  /** The managed range: `total` pages from lo on, seen through table `root`. */
  datatype Range = Range(lo: nat, total: nat, root: nat) {
    predicate OnPage(v: nat) { lo <= v < lo + total * PAGE_SIZE && (v - lo) % PAGE_SIZE == 0 }

    /** The n pages from addr on are pages of the range. */
    predicate PagesIn(addr: nat, n: nat) {
      lo <= addr && (addr - lo) % PAGE_SIZE == 0 && addr + n * PAGE_SIZE <= lo + total * PAGE_SIZE
    }

    /** What the page tables and the frames must say about page v when the area list says `want`. */
    ghost predicate PageOk(s: Pages, v: nat, want: Option<nat>) {
      match want
      case None => v !in s.backing && Translate(s.t, root, v) == None
      case Some(flags) =>
        && v in s.backing && Translate(s.t, root, v).Some?
        && MapsAs(Translate(s.t, root, v).value, s.backing[v], flags)
    }

    ghost predicate PageKept(s: Pages, s': Pages, v: nat) {
      && (v in s'.backing <==> v in s.backing)
      && (v in s.backing ==> s'.backing[v] == s.backing[v])
      && Translate(s'.t, root, v) == Translate(s.t, root, v)
    }

    /** Page v became `want`; no other page number and no other page changed. */
    ghost predicate OneChanged(s: Pages, s': Pages, v: nat, want: Option<nat>) {
      && PageOk(s', v, want)
      && OnlyPage(s.t, s'.t, root, v) && Beside(s.t, s.at, s'.t, s'.at, root)
      && (want.None? ==> SameMissing(s.t, s'.t, root))
      && s'.backing == (if want.Some? then s.backing[v := s'.backing[v]] else s.backing - {v})
    }

    lemma {:induction false} PageMapped(s: Pages, s': Pages, v: nat, frame: nat, flags: nat)
      requires s'.backing == s.backing[v := frame]
      requires Translate(s'.t, root, v).Some? && MapsAs(Translate(s'.t, root, v).value, frame, flags)
      requires OnlyPage(s.t, s'.t, root, v) && Beside(s.t, s.at, s'.t, s'.at, root)
      ensures OneChanged(s, s', v, Some(flags))
    {
    }

    /** The m pages from addr on became `want`; other pages and all addresses outside the range are kept. */
    ghost predicate Changed(s: Pages, s': Pages, addr: nat, m: nat, want: Option<nat>) {
      && (forall v: nat | OnPage(v) && addr <= v < addr + m * PAGE_SIZE :: PageOk(s', v, want))
      && (forall v: nat | OnPage(v) && !(addr <= v < addr + m * PAGE_SIZE) :: PageKept(s, s', v))
      && OutsideKept(s, s') && (want.None? ==> SameMissing(s.t, s'.t, root))
    }

    /** Addresses outside the range translate as before, and other roots follow `root` where they share its tables. */
    ghost predicate OutsideKept(s: Pages, s': Pages) {
      && (forall w: nat | PageOffset(w, lo) >= total :: Translate(s'.t, root, w) == Translate(s.t, root, w))
      && Beside(s.t, s.at, s'.t, s'.at, root)
    }

    /** Every page is mapped exactly as the area list says. */
    ghost predicate Agrees(s: Pages, areas: seq<Area>) {
      forall v: nat | OnPage(v) :: PageOk(s, v, FlagsAt(areas, v))
    }

    /** The list and the page tables changed on the same pages in the same way. */
    lemma {:induction false} AgreesStep(s: Pages, areas: seq<Area>, s': Pages, areas': seq<Area>, addr: nat, n: nat,
            want: Option<nat>)
      requires Agrees(s, areas) && Changed(s, s', addr, n, want)
      requires forall v: nat ::
                FlagsAt(areas', v) == if addr <= v < addr + n * PAGE_SIZE then want else FlagsAt(areas, v)
      ensures Agrees(s', areas')
    {
      forall v: nat | OnPage(v) ensures PageOk(s', v, FlagsAt(areas', v)) {
        assert PageOk(s, v, FlagsAt(areas, v));
      }
    }

    function Hi(): nat { lo + total * PAGE_SIZE }

    /** The pages vmm_palloc is about to map are pages of the range with nothing behind them. */
    lemma {:induction false} PAllocTarget(s: Pages, areas: seq<Area>, n: nat)
      requires VmmSpec.Inv(areas, lo, Hi()) && Agrees(s, areas) && n > 0 && FindFit(areas, 0, n) < |areas|
      ensures PagesIn(areas[FindFit(areas, 0, n)].addr, n)
      ensures Unbacked(s, areas[FindFit(areas, 0, n)].addr, n)
    {
      var k := FindFit(areas, 0, n);
      TilesAligned(areas, lo, Hi(), k);
      FlagsInside(areas, lo, Hi(), k);
      forall v: nat | OnPage(v) && areas[k].addr <= v < areas[k].addr + n * PAGE_SIZE ensures v !in s.backing {
        assert PageOk(s, v, FlagsAt(areas, v));
      }
    }

    ghost predicate Unbacked(s: Pages, addr: nat, n: nat) {
      forall v: nat | OnPage(v) && addr <= v < addr + n * PAGE_SIZE :: v !in s.backing
    }

    ghost predicate Backed(s: Pages, addr: nat, n: nat, flags: nat) {
      forall v: nat | OnPage(v) && addr <= v < addr + n * PAGE_SIZE :: PageOk(s, v, Some(flags))
    }

    /** The pages vmm_free is about to unmap are pages of the range mapped with the area's flags. */
    lemma {:induction false} FreeTarget(s: Pages, areas: seq<Area>, k: nat)
      requires VmmSpec.Inv(areas, lo, Hi()) && Agrees(s, areas) && k < |areas| && areas[k].state == ALLOCATED
      ensures PagesIn(areas[k].addr, areas[k].numPages)
      ensures Backed(s, areas[k].addr, areas[k].numPages, areas[k].flags)
    {
      TilesAligned(areas, lo, Hi(), k);
      FlagsInside(areas, lo, Hi(), k);
      forall v: nat | OnPage(v) && areas[k].addr <= v < End(areas[k]) ensures PageOk(s, v, Some(areas[k].flags)) {
        assert PageOk(s, v, FlagsAt(areas, v));
      }
    }

    lemma {:induction false} PAllocAgrees(s: Pages, areas: seq<Area>, s': Pages, n: nat, flags: nat)
      requires VmmSpec.Inv(areas, lo, Hi()) && Agrees(s, areas) && n > 0 && FindFit(areas, 0, n) < |areas|
      requires Changed(s, s', areas[FindFit(areas, 0, n)].addr, n, Some(flags))
      ensures VmmSpec.Inv(VmmSpec.PAlloc(areas, n, flags).0, lo, Hi()) && Agrees(s', VmmSpec.PAlloc(areas, n, flags).0)
    {
      PAllocEffect(areas, lo, Hi(), n, flags);
      AgreesStep(s, areas, s', VmmSpec.PAlloc(areas, n, flags).0, areas[FindFit(areas, 0, n)].addr, n, Some(flags));
    }

    lemma {:induction false} FreeAgrees(s: Pages, areas: seq<Area>, s': Pages, k: nat)
      requires VmmSpec.Inv(areas, lo, Hi()) && Agrees(s, areas) && k < |areas|
      requires Changed(s, s', areas[k].addr, areas[k].numPages, None)
      ensures VmmSpec.Inv(FreeAt(areas, k), lo, Hi()) && Agrees(s', FreeAt(areas, k))
    {
      FreeEffect(areas, lo, Hi(), k);
      AgreesStep(s, areas, s', FreeAt(areas, k), areas[k].addr, areas[k].numPages, None);
    }

    /** A range that translates nowhere agrees with one free area. */
    lemma {:induction false} UnmappedAgrees(t: Tables, at: Places)
      requires total <= SPAN && forall w: nat | PageOffset(w, lo) < total :: Translate(t, root, w) == None
      ensures Agrees(Pages(t, at, map[]), [Area(lo, total, FREE, 0)])
    {
      var s := [Area(lo, total, FREE, 0)];
      assert s[1..] == [];
      forall v: nat | OnPage(v) ensures PageOk(Pages(t, at, map[]), v, FlagsAt(s, v)) {
        PageOffsetIs(v, lo, (v - lo) / PAGE_SIZE);
        assert FlagsAt(s, v) == None;
      }
    }

    lemma {:induction false} DistinctPages(v: nat, w: nat)
      requires OnPage(v) && total <= SPAN
      ensures OnPage(w) && w != v ==> PageNo(w) != PageNo(v)
      ensures PageOffset(w, lo) >= total ==> PageNo(w) != PageNo(v)
    {
      var a := (v - lo) / PAGE_SIZE;
      PageOffsetIs(v, lo, a);
      PageOffsetIs(w, lo, a);
      if OnPage(w) { PageOffsetIs(w, lo, (w - lo) / PAGE_SIZE); }
    }

    /** The i-th page from addr on, and the only page between it and the next. */
    lemma {:induction false} IthPage(addr: nat, n: nat, i: nat, w: nat)
      requires PagesIn(addr, n) && i < n
      ensures OnPage(addr + i * PAGE_SIZE)
      ensures OnPage(w) && addr + i * PAGE_SIZE <= w < addr + (i + 1) * PAGE_SIZE ==> w == addr + i * PAGE_SIZE
    {
      var a := (addr - lo) / PAGE_SIZE;
      assert addr + i * PAGE_SIZE - lo == (a + i) * PAGE_SIZE;
      if OnPage(w) {
        var b := (w - lo) / PAGE_SIZE;
        assert w - lo == b * PAGE_SIZE;
      }
    }

    /** The next page has nothing behind it yet. */
    lemma {:induction false} NextUnbacked(s: Pages, s': Pages, addr: nat, n: nat, i: nat, want: Option<nat>)
      requires PagesIn(addr, n) && i < n && Unbacked(s, addr, n) && Changed(s, s', addr, i, want)
      ensures OnPage(addr + i * PAGE_SIZE) && addr + i * PAGE_SIZE !in s'.backing
    {
      IthPage(addr, n, i, 0);
      assert PageKept(s, s', addr + i * PAGE_SIZE);
    }

    lemma {:induction false} ChangedStep(s: Pages, s': Pages, s'': Pages, addr: nat, n: nat, i: nat, want: Option<nat>)
      requires PagesIn(addr, n) && i < n && total <= SPAN
      requires Changed(s, s', addr, i, want) && OneChanged(s', s'', addr + i * PAGE_SIZE, want)
      ensures Changed(s, s'', addr, i + 1, want)
    {
      var v := addr + i * PAGE_SIZE;
      IthPage(addr, n, i, v);
      forall w: nat | OnPage(w)
        ensures addr <= w < addr + (i + 1) * PAGE_SIZE ==> PageOk(s'', w, want)
        ensures !(addr <= w < addr + (i + 1) * PAGE_SIZE) ==> PageKept(s, s'', w)
      {
        IthPage(addr, n, i, w);
        DistinctPages(v, w);
      }
      forall w: nat | PageOffset(w, lo) >= total ensures Translate(s''.t, root, w) == Translate(s.t, root, w) {
        DistinctPages(v, w);
      }
      BesideTrans(s.t, s.at, s'.t, s'.at, s''.t, s''.at, root);
    }
  }

  class AreaRecord {
    const frame: nat  // the page pmm_alloc gave for this record
    var addr: nat
    var numPages: nat
    var state: AreaState
    var pageFlags: nat

    constructor (frame: nat, addr: nat, numPages: nat, state: AreaState, pageFlags: nat)
      ensures this.frame == frame && View() == Area(addr, numPages, state, pageFlags)
    {
      this.frame := frame;
      this.addr := addr;
      this.numPages := numPages;
      this.state := state;
      this.pageFlags := pageFlags;
    }

    function View(): Area
      reads this
    {
      Area(addr, numPages, state, pageFlags)
    }
  }

  ghost function RecordFrames(rs: seq<AreaRecord>): (fs: seq<nat>)
    ensures |fs| == |rs| && forall i | 0 <= i < |rs| :: fs[i] == rs[i].frame
  {
    seq(|rs|, i requires 0 <= i < |rs| => rs[i].frame)
  }

  /** fs lists every element of s once and nothing else. */
  ghost predicate OneEach(fs: seq<nat>, s: set<nat>) {
    && |fs| == |s| && (forall i | 0 <= i < |fs| :: fs[i] in s)
    && (forall i, j | 0 <= i < j < |fs| :: fs[i] != fs[j])
  }

  lemma {:induction false} OneEachInsert(fs: seq<nat>, s: set<nat>, k: nat, f: nat)
    requires OneEach(fs, s) && k <= |fs| && f !in s
    ensures OneEach(fs[..k] + [f] + fs[k..], s + {f})
  {
  }

  lemma {:induction false} OneEachRemove(fs: seq<nat>, s: set<nat>, k: nat)
    requires OneEach(fs, s) && k < |fs|
    ensures OneEach(fs[..k] + fs[k + 1..], s - {fs[k]})
  {
  }

  class Vmm {
    const mem: Memory
    const root: nat
    const lo: nat
    const total: nat
    var areas: seq<AreaRecord>
    var freeNumPages: int
    ghost var backing: map<nat, nat>  // page address -> frame behind it
    ghost var records: set<nat>       // frames holding area records
    ghost const universe: set<nat>    // all frames the manager and its memory account for

    function Here(): Range { Range(lo, total, root) }

    ghost function Now(): Pages
      reads `backing, mem
    {
      Pages(mem.tables, mem.at, backing)
    }

    ghost predicate Frames()
      reads `backing, `records, mem
    {
      && mem.Valid() && IsRoot(mem.at, root) && total <= SPAN
      && (forall v | v in backing :: Here().OnPage(v))
      && Roles(universe, mem.pool, backing, records)
      && (forall f | f in universe :: f in mem.frames)
    }

    function View(): (s: seq<Area>)
      reads `areas, areas
      ensures |s| == |areas|
      ensures forall i | 0 <= i < |areas| :: s[i] == areas[i].View()
    {
      var rs := areas;
      seq(|rs|, i requires 0 <= i < |rs| reads rs => rs[i].View())
    }

    /** The frames of the listed records, in list order, are `records`. */
    ghost predicate Records()
      reads `areas, `records
    {
      OneEach(RecordFrames(areas), records)
    }

    /**
     The area list tiles the range, and a page of the range is mapped exactly when its area is
     allocated, with the flags of that area, to a frame of its own.
     */
    ghost predicate Valid()
      reads this, mem, areas
    {
      && Frames() && Records()
      && VmmSpec.Inv(View(), lo, Here().Hi())
      && Here().Agrees(Now(), View())
    }

    /** vmm_init over a part of the page table that maps nothing yet. */
    constructor (mem: Memory, root: nat, addr: nat, numPages: nat)
      requires mem.Valid() && IsRoot(mem.at, root) && mem.budget > 0 && 0 < numPages <= SPAN
      requires forall w: nat | PageOffset(w, addr) < numPages :: Translate(mem.tables, root, w) == None
      modifies mem
      ensures Valid() && this.mem == mem && this.root == root && lo == addr && total == numPages
      ensures View() == [Area(addr, numPages, FREE, 0)] && forall i | 0 <= i < |areas| :: fresh(areas[i])
      ensures freeNumPages == numPages
      ensures universe == old(mem.pool) && mem.tables == old(mem.tables) && mem.budget == old(mem.budget) - 1
    {
      this.mem := mem;
      this.root := root;
      this.lo := addr;
      this.total := numPages;
      this.freeNumPages := numPages;
      this.areas := [];
      this.backing := map[];
      this.records := {};
      this.universe := mem.pool;
      new;
      FirstArea(numPages);
      OneArea(View()[0]);
      Here().UnmappedAgrees(mem.tables, mem.at);
    }

    /** The one area record of a fresh manager. */
    method FirstArea(numPages: nat)
      requires mem.Valid() && mem.budget > 0 && universe == mem.pool && backing == map[]
      modifies mem, `areas, `records
      ensures mem.Valid() && mem.tables == old(mem.tables) && mem.at == old(mem.at)
      ensures mem.budget == old(mem.budget) - 1
      ensures Roles(universe, mem.pool, backing, records) && forall f | f in universe :: f in mem.frames
      ensures Records() && View() == [Area(lo, numPages, FREE, 0)] && forall i | 0 <= i < |areas| :: fresh(areas[i])
    {
      var frame := mem.PAlloc();
      var area := new AreaRecord(frame, lo, numPages, FREE, 0);
      areas := [area];
      records := {frame};
      RolesStart(universe, backing, frame);
    }

    /** pmm_palloc(1): the frame that will be behind page v. */
    method BackPage(ghost v: nat) returns (frame: nat)
      requires Frames() && Here().OnPage(v) && v !in backing && mem.budget > 0
      modifies mem, this`backing
      ensures Frames() && backing == old(backing)[v := frame] && IsFrame(frame)
      ensures mem.tables == old(mem.tables) && mem.at == old(mem.at) && mem.budget == old(mem.budget) - 1
    {
      frame := mem.PAlloc();
      backing := backing[v := frame];
      RolesMap(universe, old(mem.pool), old(backing), records, v, frame);
    }

    /** pmm_palloc(1) and pt_map for one page. */
    method MapPage(v: nat, flags: nat)
      requires Frames() && Here().OnPage(v) && v !in backing
      requires mem.budget >= 1 + Missing(mem.tables, root, Indices(v))
      modifies mem, this`backing
      ensures Frames() && mem.budget == old(mem.budget) - 1 - Missing(old(mem.tables), root, Indices(v))
      ensures MissingFell(old(mem.tables), mem.tables, root, Indices(v))
      ensures Here().OneChanged(old(Now()), Now(), v, Some(flags))
    {
      var frame := BackPage(v);
      OrPresentMaps(frame, flags);
      MapFrame(frame, v, OrPresent(flags));
      Here().PageMapped(old(Now()), Now(), v, frame, flags);
    }

    /** pt_map seen from the manager: new tables come out of the free frames, one page changes. */
    method MapFrame(frame: nat, v: nat, flags: nat)
      requires mem.Valid() && IsRoot(mem.at, root) && Present(flags)
      requires mem.budget >= Missing(mem.tables, root, Indices(v))
      modifies mem
      ensures mem.Valid() && IsRoot(mem.at, root)
      ensures mem.budget == old(mem.budget) - Missing(old(mem.tables), root, Indices(v))
      ensures MissingFell(old(mem.tables), mem.tables, root, Indices(v))
      ensures Beside(old(mem.tables), old(mem.at), mem.tables, mem.at, root)
      ensures mem.pool == old(mem.pool)
      ensures Translate(mem.tables, root, v) == Some(LeafEntry(frame, flags))
      ensures OnlyPage(old(mem.tables), mem.tables, root, v)
    {
      mem.Map(root, frame, v, flags);
      LeafEntryParts(frame, flags);
      forall w: nat
        ensures Translate(mem.tables, root, w) ==
                  if PageNo(w) == PageNo(v) then Some(LeafEntry(frame, flags)) else Translate(old(mem.tables), root, w)
      {
        WrittenTranslations(old(mem.tables), old(mem.at), mem.tables, root, v, LeafEntry(frame, flags), root, w);
      }
    }

    /** pt_unmap for one mapped page. */
    method UnmapPage(v: nat, ghost flags: nat)
      requires Frames() && Here().PageOk(Now(), v, Some(flags))
      modifies mem, this`backing
      ensures Frames()
      ensures mem.budget == old(mem.budget)
      ensures Here().OneChanged(old(Now()), Now(), v, None)
    {
      UnmapFrame(v);
      backing := backing - {v};
      RolesUnmap(universe, old(mem.pool), old(backing), records, v);
    }

    /** pt_unmap seen from the manager. */
    method UnmapFrame(v: nat)
      requires mem.Valid() && IsRoot(mem.at, root) && Translate(mem.tables, root, v).Some?
      requires Frame(Translate(mem.tables, root, v).value) in mem.frames
      requires Frame(Translate(mem.tables, root, v).value) !in mem.pool
      modifies mem
      ensures mem.Valid() && IsRoot(mem.at, root)
      ensures mem.budget == old(mem.budget)
      ensures mem.pool == old(mem.pool) + {Frame(Translate(old(mem.tables), root, v).value)}
      ensures Translate(mem.tables, root, v) == None
      ensures Beside(old(mem.tables), old(mem.at), mem.tables, mem.at, root)
      ensures SameMissing(old(mem.tables), mem.tables, root)
      ensures OnlyPage(old(mem.tables), mem.tables, root, v)
    {
      mem.Unmap(root, v);
      forall w: nat
        ensures Translate(mem.tables, root, w) == if PageNo(w) == PageNo(v) then None
                  else Translate(old(mem.tables), root, w)
      {
        WrittenTranslations(old(mem.tables), old(mem.at), mem.tables, root, v, 0, root, w);
      }
    }

    /** The first i pages from addr on are mapped: s and b are the pages and the budget before the loop. */
    ghost predicate MappedTo(s: Pages, b: nat, addr: nat, i: nat, flags: nat)
      reads `backing, `records, mem
    {
      && Frames() && Here().Changed(s, Now(), addr, i, Some(flags)) && MissingIs(s.t, mem.tables, root, addr, i)
      && mem.budget == b - i - TablesFor(s.t, root, addr, i)
    }

    /** One turn of vmm_map_area's loop; s and b are the pages and the budget before the loop. */
    method MapIth(ghost s: Pages, ghost b: nat, addr: nat, n: nat, i: nat, flags: nat)
      requires MappedTo(s, b, addr, i, flags) && Here().PagesIn(addr, n) && i < n
      requires Here().Unbacked(s, addr, n) && b >= n + TablesFor(s.t, root, addr, n)
      modifies mem, this`backing
      ensures MappedTo(s, b, addr, i + 1, flags)
    {
      ghost var before := Now();
      Here().NextUnbacked(s, before, addr, n, i, Some(flags));
      TablesForGrows(s.t, root, addr, i + 1, n);
      MapPage(addr + i * PAGE_SIZE, flags);
      MissingIsNext(s.t, before.t, mem.tables, root, addr, i);
      Here().ChangedStep(s, before, Now(), addr, n, i, Some(flags));
    }

    /** vmm_map_area. */
    method MapArea(addr: nat, n: nat, flags: nat)
      requires Frames() && Here().PagesIn(addr, n)
      requires mem.budget >= n + TablesFor(mem.tables, root, addr, n)
      requires Here().Unbacked(Now(), addr, n)
      modifies mem, this`backing
      ensures Frames() && mem.budget == old(mem.budget) - n - TablesFor(old(mem.tables), root, addr, n)
      ensures Here().Changed(old(Now()), Now(), addr, n, Some(flags))
      ensures MissingIs(old(mem.tables), mem.tables, root, addr, n)
    {
      ghost var s, b := Now(), mem.budget;
      BesideSelf(mem.tables, mem.at, root);
      for i := 0 to n
        invariant MappedTo(s, b, addr, i, flags)
      {
        MapIth(s, b, addr, n, i, flags);
      }
    }

    /** One turn of vmm_unmap_area's loop; s is the state before the loop. */
    method UnmapIth(ghost s: Pages, addr: nat, n: nat, i: nat, ghost flags: nat)
      requires Frames() && Here().PagesIn(addr, n) && i < n
      requires Here().Changed(s, Now(), addr, i, None) && Here().PageOk(s, addr + i * PAGE_SIZE, Some(flags))
      modifies mem, this`backing
      ensures Frames() && mem.budget == old(mem.budget)
      ensures Here().Changed(s, Now(), addr, i + 1, None)
    {
      ghost var before := Now();
      Here().IthPage(addr, n, i, 0);
      assert Here().PageKept(s, before, addr + i * PAGE_SIZE);
      UnmapPage(addr + i * PAGE_SIZE, flags);
      Here().ChangedStep(s, before, Now(), addr, n, i, None);
    }

    /** vmm_unmap_area. */
    method UnmapArea(addr: nat, n: nat, ghost flags: nat)
      requires Frames() && Here().PagesIn(addr, n)
      requires Here().Backed(Now(), addr, n, flags)
      modifies mem, this`backing
      ensures Frames() && mem.budget == old(mem.budget)
      ensures Here().Changed(old(Now()), Now(), addr, n, None)
    {
      BesideSelf(mem.tables, mem.at, root);
      for i := 0 to n
        invariant Frames() && mem.budget == old(mem.budget)
        invariant Here().Changed(old(Now()), Now(), addr, i, None)
      {
        Here().IthPage(addr, n, i, 0);
        UnmapIth(old(Now()), addr, n, i, flags);
      }
    }

    /** vmm_find_sufficiently_sized_area. */
    method FindSufficient(n: nat) returns (k: nat)
      ensures k == FindFit(View(), 0, n)
    {
      k := 0;
      while k < |areas|
        invariant k <= |areas| && FindFit(View(), 0, n) == FindFit(View(), k, n)
      {
        if areas[k].numPages >= n && areas[k].state == FREE { return; }
        k := k + 1;
      }
    }

    /** vmm_find_area. */
    method Find(addr: nat) returns (k: nat)
      ensures k == FindArea(View(), 0, addr)
    {
      k := 0;
      while k < |areas|
        invariant k <= |areas| && FindArea(View(), 0, addr) == FindArea(View(), k, addr)
      {
        if areas[k].addr == addr { return; }
        k := k + 1;
      }
    }

    /** pmm_alloc(sizeof(vmm_area_t)): a frame for a record that will be listed at position k. */
    method RecordFrame(ghost k: nat) returns (frame: nat)
      requires Frames() && Records() && k <= |areas| && mem.budget > 0
      modifies `records, mem
      ensures Frames() && Now() == old(Now()) && mem.budget == old(mem.budget) - 1
      ensures OneEach(RecordFrames(areas)[..k] + [frame] + RecordFrames(areas)[k..], records)
    {
      frame := mem.PAlloc();
      assert frame !in records;
      OneEachInsert(RecordFrames(areas), records, k, frame);
      RolesRecord(universe, old(mem.pool), backing, records, frame);
      records := records + {frame};
    }

    /** The list part of vmm_area_split: the rest of area k becomes a new record right after it. */
    method InsertRest(k: nat, n: nat, frame: nat)
      requires k < |areas| && n < areas[k].numPages
      requires forall i | 0 <= i < |areas| && i != k :: areas[i] != areas[k]
      modifies `areas, areas[k]
      ensures |areas| == |old(areas)| + 1 && areas[k] == old(areas[k])
      ensures fresh(areas[k + 1]) && areas[k + 1].frame == frame
      ensures areas == old(areas)[..k + 1] + [areas[k + 1]] + old(areas)[k + 1..]
      ensures View() == Splinter(old(View()), k, n)
    {
      ghost var was := View();
      var area := areas[k];
      var other := new AreaRecord(frame, area.addr + n * PAGE_SIZE, area.numPages - n, area.state, area.pageFlags);
      area.numPages := n;
      areas := areas[..k + 1] + [other] + areas[k + 1..];
      assert forall i | 0 <= i < |was| && i != k :: old(areas)[i].View() == was[i];
      assert View() == was[..k] + [area.View(), other.View()] + was[k + 1..];
      assert View() == Splinter(was, k, n);
    }

    /** vmm_area_split. */
    method Split(k: nat, n: nat)
      requires Frames() && Records() && k < |areas| && (n < areas[k].numPages ==> mem.budget > 0)
      modifies `areas, `records, mem, areas[k]
      ensures Frames() && Records() && Now() == old(Now())
      ensures mem.budget == old(mem.budget) - (if n < old(areas[k].numPages) then 1 else 0)
      ensures k < |areas| && areas[k] == old(areas[k])
      ensures View() == if n < old(areas[k].numPages) then Splinter(old(View()), k, n) else old(View())
      ensures forall i | 0 <= i < |areas| :: areas[i] in old(areas) || fresh(areas[i])
    {
      if n >= areas[k].numPages { return; }
      SplitOff(k, n);
    }

    /** The rest of vmm_area_split, once there is something to split off. */
    method SplitOff(k: nat, n: nat)
      requires Frames() && Records() && k < |areas| && n < areas[k].numPages && mem.budget > 0
      modifies `areas, `records, mem, areas[k]
      ensures Frames() && Records() && Now() == old(Now())
      ensures mem.budget == old(mem.budget) - 1
      ensures k < |areas| && areas[k] == old(areas[k])
      ensures View() == Splinter(old(View()), k, n)
      ensures forall i | 0 <= i < |areas| :: areas[i] in old(areas) || fresh(areas[i])
    {
      DistinctRecords(k);
      var frame := RecordFrame(k + 1);
      ghost var fs := RecordFrames(areas);
      InsertRest(k, n, frame);
      assert RecordFrames(areas) == fs[..k + 1] + [frame] + fs[k + 1..];
    }

    lemma {:induction false} DistinctRecords(k: nat)
      requires Records() && k < |areas|
      ensures forall i | 0 <= i < |areas| && i != k :: areas[i] != areas[k]
    {
      var fs := RecordFrames(areas);
      forall i | 0 <= i < |areas| && i != k ensures areas[i] != areas[k] {
        assert fs[i] != fs[k];
      }
    }

    /** pmm_free of the page of record j, which leaves the list next. */
    method ReleaseFrame(j: nat)
      requires Frames() && Records() && j < |areas|
      modifies `records, mem
      ensures Frames() && Now() == old(Now()) && mem.budget == old(mem.budget)
      ensures OneEach(RecordFrames(areas)[..j] + RecordFrames(areas)[j + 1..], records)
    {
      var frame := areas[j].frame;
      assert frame == RecordFrames(areas)[j] && frame in records;
      OneEachRemove(RecordFrames(areas), records, j);
      RolesRecord(universe, mem.pool, backing, records, frame);
      mem.PFree(frame);
      records := records - {frame};
    }

    /** list_remove of record j and pmm_free of its page. */
    method DropRecord(j: nat)
      requires Frames() && Records() && j < |areas|
      modifies `areas, `records, mem
      ensures Frames() && Records() && Now() == old(Now())
      ensures mem.budget == old(mem.budget)
      ensures areas == old(areas)[..j] + old(areas)[j + 1..]
      ensures View() == old(View())[..j] + old(View())[j + 1..]
    {
      ghost var was, fs := View(), RecordFrames(areas);
      ReleaseFrame(j);
      areas := areas[..j] + areas[j + 1..];
      assert RecordFrames(areas) == fs[..j] + fs[j + 1..];
      assert forall i | 0 <= i < |was| :: old(areas)[i].View() == was[i];
    }

    method TakeOver(k: nat, j: nat)
      requires Records() && k < |areas| && j < |areas| && (j + 1 == k || j == k + 1)
      modifies areas[k]
      ensures View() == old(View())[k := old(View())[k].(addr := old(View())[if j < k then j else k].addr,
                                                         numPages := old(View())[k].numPages + old(View())[j].numPages)]
    {
      ghost var was := View();
      DistinctRecords(k);
      var area, other := areas[k], areas[j];
      if j < k { area.addr := other.addr; }
      area.numPages := area.numPages + other.numPages;
      assert forall i | 0 <= i < |was| && i != k :: areas[i].View() == was[i];
    }

    /** The list part of one merge: area k takes over the pages of its free neighbour j. */
    method Absorb(k: nat, j: nat)
      requires Frames() && Records() && k < |areas| && j < |areas| && (j + 1 == k || j == k + 1)
      modifies `areas, `records, mem, areas[k]
      ensures Frames() && Records() && Now() == old(Now())
      ensures mem.budget == old(mem.budget)
      ensures |areas| == |old(areas)| - 1 && areas[if j < k then j else k] == old(areas[k])
      ensures View() == Absorbed(old(View()), k, j)
      ensures forall i | 0 <= i < |areas| :: areas[i] in old(areas) || fresh(areas[i])
    {
      ghost var was := View();
      TakeOver(k, j);
      ghost var a := View()[k];
      DropRecord(j);
      AbsorbIs(was, k, j, a);
    }

    /** The first half of vmm_area_try_merge_with_neighbors: `at` is where area k is afterwards. */
    method MergePrev(k: nat) returns (at: nat)
      requires Frames() && Records() && k < |areas|
      modifies `areas, `records, mem, areas[k]
      ensures Frames() && Records() && Now() == old(Now()) && mem.budget == old(mem.budget)
      ensures at == MergeFrom(old(View()), k) && at < |areas| && areas[at] == old(areas[k])
      ensures View() == if at < k then Absorbed(old(View()), k, k - 1) else old(View())
      ensures forall i | 0 <= i < |areas| :: areas[i] in old(areas) || fresh(areas[i])
    {
      at := k;
      if k > 0 && areas[k - 1].state == FREE {
        Absorb(k, k - 1);
        at := k - 1;
      }
    }

    /** The second half. */
    method MergeNext(k: nat)
      requires Frames() && Records() && k < |areas|
      modifies `areas, `records, mem, areas[k]
      ensures Frames() && Records() && Now() == old(Now()) && mem.budget == old(mem.budget)
      ensures k < |areas| && areas[k] == old(areas[k])
      ensures View() == if MergeTo(old(View()), k) > k + 1 then Absorbed(old(View()), k, k + 1) else old(View())
      ensures forall i | 0 <= i < |areas| :: areas[i] in old(areas) || fresh(areas[i])
    {
      if k + 1 < |areas| && areas[k + 1].state == FREE { Absorb(k, k + 1); }
    }

    /** vmm_area_try_merge_with_neighbors. */
    method TryMerge(k: nat)
      requires Frames() && Records() && k < |areas| && areas[k].state == FREE && areas[k].pageFlags == 0
      modifies `areas, `records, mem, areas[k]
      ensures Frames() && Records() && Now() == old(Now())
      ensures mem.budget == old(mem.budget)
      ensures View() == VmmSpec.FreeAt(old(View()), k)
      ensures MergeFrom(old(View()), k) < |areas| && areas[MergeFrom(old(View()), k)] == old(areas[k])
      ensures forall i | 0 <= i < |areas| :: areas[i] in old(areas) || fresh(areas[i])
    {
      ghost var was := View();
      var at := MergePrev(k);
      ghost var between, rs := View(), areas;
      MergeNext(at);
      forall i | 0 <= i < |areas| ensures areas[i] in old(areas) || fresh(areas[i]) {
        assert areas[i] in rs || fresh(areas[i]);
      }
      MergeBoth(was, k, between, at, View());
    }

    /** state and page_flags of area k are set. */
    method Mark(k: nat, state: AreaState, flags: nat)
      requires Records() && k < |areas|
      modifies areas[k]
      ensures View() == old(View())[k := old(View())[k].(state := state, flags := flags)]
    {
      ghost var was := View();
      DistinctRecords(k);
      areas[k].state := state;
      areas[k].pageFlags := flags;
      assert forall i | 0 <= i < |was| && i != k :: areas[i].View() == was[i];
    }

    /** vmm_palloc's work on the list once an area is chosen. */
    method Carving(k: nat, n: nat, flags: nat)
      requires Frames() && Records() && k < |areas| && 0 < n <= areas[k].numPages
      requires n < areas[k].numPages ==> mem.budget > 0
      modifies `areas, `records, mem, areas[k]
      ensures Frames() && Records() && Now() == old(Now())
      ensures mem.budget == old(mem.budget) - (if n < old(areas[k].numPages) then 1 else 0)
      ensures k < |areas| && areas[k] == old(areas[k])
      ensures View() == old(View())[..k] + Carve(old(View())[k], n, flags) + old(View())[k + 1..]
      ensures forall i | 0 <= i < |areas| :: areas[i] in old(areas) || fresh(areas[i])
    {
      ghost var was := View();
      if areas[k].numPages > n { Split(k, n); }
      CarveSteps(was, k, n, flags, View());
      Mark(k, ALLOCATED, flags);
    }

    /** The frames that n pages of area k take: the pages, the tables they lack, and a record for the rest. */
    ghost function Needs(k: nat, n: nat): nat
      requires k < |areas|
      reads `areas, areas[k], mem
    {
      n + TablesFor(mem.tables, root, areas[k].addr, n) + if n < areas[k].numPages then 1 else 0
    }

    /** vmm_palloc once area k is chosen. */
    method PAllocAt(k: nat, n: nat, flags: nat)
      requires Frames() && Records() && k < |areas| && 0 < n <= areas[k].numPages && mem.budget >= Needs(k, n)
      requires Here().PagesIn(areas[k].addr, n) && Here().Unbacked(Now(), areas[k].addr, n)
      modifies this, mem, areas[k]
      ensures Frames() && Records() && freeNumPages == old(freeNumPages) - n
      ensures mem.budget == old(mem.budget) - old(Needs(k, n))
      ensures View() == old(View())[..k] + Carve(old(View())[k], n, flags) + old(View())[k + 1..]
      ensures Here().Changed(old(Now()), Now(), old(areas[k].addr), n, Some(flags))
      ensures forall i | 0 <= i < |areas| :: areas[i] in old(areas) || fresh(areas[i])
      ensures MissingIs(old(mem.tables), mem.tables, root, old(areas[k].addr), n)
    {
      ghost var was := View();
      Carving(k, n, flags);
      assert View()[k] == Carve(was[k], n, flags)[0];
      MapArea(areas[k].addr, areas[k].numPages, areas[k].pageFlags);
      freeNumPages := freeNumPages - n;
    }

    /** The whole of it, for the area found. */
    method PAllocFound(k: nat, n: nat, flags: nat) returns (r: nat)
      requires Valid() && n > 0 && k == FindFit(View(), 0, n) < |areas| && mem.budget >= Needs(k, n)
      modifies this, mem, areas[k]
      ensures Valid()
      ensures View() == VmmSpec.PAlloc(old(View()), n, flags).0 && r == VmmSpec.PAlloc(old(View()), n, flags).1
      ensures freeNumPages == old(freeNumPages) - n && mem.budget == old(mem.budget) - old(Needs(k, n))
      ensures Here().OutsideKept(old(Now()), Now())
      ensures forall i | 0 <= i < |areas| :: areas[i] in old(areas) || fresh(areas[i])
      ensures MissingIs(old(mem.tables), mem.tables, root, old(areas[k].addr), n)
    {
      r := areas[k].addr;
      Here().PAllocTarget(Now(), View(), n);
      PAllocAt(k, n, flags);
      Here().PAllocAgrees(old(Now()), old(View()), Now(), n, flags);
    }

    /**
     vmm_palloc, with enough frames for the pages, the tables they lack and one record: the list
     changes as specified, the page tables follow, exactly those frames are taken, and translations
     outside the range are untouched.
     */
    method PAlloc(n: nat, flags: nat) returns (r: nat)
      requires Valid()
      requires var k := FindFit(View(), 0, n); n > 0 && k < |View()| ==> mem.budget >= Needs(k, n)
      modifies this, mem, areas
      ensures Valid()
      ensures View() == VmmSpec.PAlloc(old(View()), n, flags).0 && r == VmmSpec.PAlloc(old(View()), n, flags).1
      ensures var k := FindFit(old(View()), 0, n);
        if n > 0 && k < |old(View())|
        then freeNumPages == old(freeNumPages) - n && mem.budget == old(mem.budget) - old(Needs(k, n))
        else freeNumPages == old(freeNumPages) && mem.budget == old(mem.budget)
      ensures Here().OutsideKept(old(Now()), Now())
      ensures forall i | 0 <= i < |areas| :: areas[i] in old(areas) || fresh(areas[i])
      ensures var k := FindFit(old(View()), 0, n);
        if n > 0 && k < |old(View())| then MissingIs(old(mem.tables), mem.tables, root, old(View())[k].addr, n)
        else mem.tables == old(mem.tables)
    {
      BesideSelf(mem.tables, mem.at, root);
      if n == 0 { return 0; }
      var k := FindSufficient(n);
      if k == |areas| { return 0; }
      r := PAllocFound(k, n, flags);
    }

    /** However the tables stand, n pages take no more than themselves, a record, and the tables of a fresh range. */
    lemma {:induction false} NeedsBound(k: nat, n: nat)
      requires k < |areas|
      ensures Needs(k, n) <= n + 1 + TablesBound(areas[k].addr, n)
    {
      TablesForBound(mem.tables, root, areas[k].addr, n);
    }

    /** The last two steps of vmm_free: merging, and adding the merged area's pages to the free count. */
    method MergeFreed(k: nat, ghost was: seq<Area>)
      requires Frames() && Records() && k < |areas| == |was| && View() == was[k := was[k].(state := FREE, flags := 0)]
      modifies `areas, `records, `freeNumPages, mem, areas[k]
      ensures Frames() && Records() && Now() == old(Now())
      ensures View() == VmmSpec.FreeAt(was, k)
      ensures freeNumPages == old(freeNumPages) + Merged(was, k).numPages
      ensures forall i | 0 <= i < |areas| :: areas[i] in old(areas) || fresh(areas[i])
      ensures mem.budget == old(mem.budget)
    {
      var area := areas[k];
      TryMerge(k);
      MergeMarked(was, k);
      assert area.View() == View()[MergeFrom(was, k)] == Merged(was, k);
      freeNumPages := freeNumPages + area.numPages;
    }

    /** vmm_free on the list and the page tables, once the area is found. */
    method FreeAt(k: nat)
      requires Valid() && k < |areas| && View()[k].state == ALLOCATED
      modifies this, mem, areas
      ensures Frames() && Records()
      ensures View() == VmmSpec.FreeAt(old(View()), k)
      ensures Here().Changed(old(Now()), Now(), old(View())[k].addr, old(View())[k].numPages, None)
      ensures freeNumPages == old(freeNumPages) + Merged(old(View()), k).numPages
      ensures forall i | 0 <= i < |areas| :: areas[i] in old(areas) || fresh(areas[i])
      ensures mem.budget == old(mem.budget)
    {
      ghost var was := View();
      var area := areas[k];
      Here().FreeTarget(Now(), was, k);
      Mark(k, FREE, 0);
      UnmapArea(area.addr, area.numPages, was[k].flags);
      MergeFreed(k, was);
    }

    /** The whole of it, for the area found. */
    method FreeFound(k: nat)
      requires Valid() && k < |areas| && View()[k].state == ALLOCATED
      modifies this, mem, areas
      ensures Valid() && View() == VmmSpec.FreeAt(old(View()), k)
      ensures freeNumPages == old(freeNumPages) + Merged(old(View()), k).numPages
      ensures Here().OutsideKept(old(Now()), Now())
      ensures forall i | 0 <= i < |areas| :: areas[i] in old(areas) || fresh(areas[i])
      ensures mem.budget == old(mem.budget)
      ensures SameMissing(old(mem.tables), mem.tables, root)
    {
      FreeAt(k);
      Here().FreeAgrees(old(Now()), old(View()), Now(), k);
    }

    /** vmm_free of an allocated area, or of an address where no area starts. */
    method Free(addr: nat)
      requires Valid()
      requires FindArea(View(), 0, addr) < |areas| ==> addr == 0 || View()[FindArea(View(), 0, addr)].state == ALLOCATED
      modifies this, mem, areas
      ensures Valid()
      ensures View() == VmmSpec.Free(old(View()), addr)
      ensures var k := FindArea(old(View()), 0, addr);
        freeNumPages == old(freeNumPages)
                        + if addr != 0 && k < |old(View())| then Merged(old(View()), k).numPages else 0
      ensures Here().OutsideKept(old(Now()), Now())
      ensures forall i | 0 <= i < |areas| :: areas[i] in old(areas) || fresh(areas[i])
      ensures mem.budget == old(mem.budget)
      ensures SameMissing(old(mem.tables), mem.tables, root)
    {
      BesideSelf(mem.tables, mem.at, root);
      if addr != 0 {
        var k := Find(addr);
        if k < |areas| { FreeFound(k); }
      }
    }
  }

  /**
   What a valid manager means to the processor: a page of an allocated area with flags f is mapped,
   present and with f's other bits, to its own frame, and may be written, or accessed from user mode,
   exactly as f says; any other page is not mapped.
   */
  lemma {:induction false} ValidPage(vmm: Vmm, v: nat, f: nat, r: Right)
    requires vmm.Valid() && vmm.Here().OnPage(v)
    ensures var (want, e) := (FlagsAt(vmm.View(), v), Translate(vmm.mem.tables, vmm.root, v));
      && (want == None ==> e == None && !Permits(vmm.mem.tables, vmm.root, v, r))
      && (want == Some(f) ==>
            && v in vmm.backing && e.Some? && Frame(e.value) == vmm.backing[v]
            && e.value % 2 == 1 && e.value % 4096 / 2 == f % 4096 / 2 && e.value < 0x1_0000_0000_0000
            && (Permits(vmm.mem.tables, vmm.root, v, r) <==> Grants(f, r)))
  {
    var want := FlagsAt(vmm.View(), v);
    assert vmm.Here().PageOk(vmm.Now(), v, want);
    LeafDecides(vmm.mem.tables, vmm.mem.at, vmm.root, Indices(v), r);
    if want == Some(f) { MapsGrants(Translate(vmm.mem.tables, vmm.root, v).value, vmm.backing[v], f, r); }
  }

  /** So are the pages vmm_palloc has just returned, with the flags it was given. */
  lemma {:induction false} AllocatedPage(vmm: Vmm, s: seq<Area>, n: nat, flags: nat, v: nat, r: Right)
    requires VmmSpec.Inv(s, vmm.lo, vmm.Here().Hi()) && n > 0 && FindFit(s, 0, n) < |s|
    requires vmm.Valid() && vmm.View() == VmmSpec.PAlloc(s, n, flags).0 && vmm.Here().OnPage(v)
    requires var a := VmmSpec.PAlloc(s, n, flags).1; a <= v < a + n * PAGE_SIZE
    ensures var e := Translate(vmm.mem.tables, vmm.root, v);
      && v in vmm.backing && e.Some? && Frame(e.value) == vmm.backing[v]
      && e.value % 2 == 1 && e.value % 4096 / 2 == flags % 4096 / 2 && e.value < 0x1_0000_0000_0000
      && (Permits(vmm.mem.tables, vmm.root, v, r) <==> Grants(flags, r))
  {
    PAllocEffect(s, vmm.lo, vmm.Here().Hi(), n, flags);
    ValidPage(vmm, v, flags, r);
  }
}
