/** Runs of vmm_palloc and vmm_free over one manager: list, page tables and frames together. */
module VirtualMemoryRuns {
  import opened Common
  import opened PageWalk
  import opened TableCounting
  import opened Paging
  import opened VirtualMemory
  import opened VmmSpec

  // ---- What a run needs ----

  /** Releases name an area that is allocated, or no area. */
  predicate LegalRun(s: seq<Area>, ops: seq<Op>)
    decreases |ops|
  {
    ops != [] ==> Legal(s, ops[0]) && LegalRun(Step(s, ops[0]), ops[1..])
  }

  predicate Legal(s: seq<Area>, op: Op) {
    match op
    case Alloc(_, _) => true
    case Release(addr) =>
      var k := FindArea(s, 0, addr); k < |s| ==> addr == 0 || s[k].state == ALLOCATED
  }

  /** The pages an operation maps. */
  function Mapped(s: seq<Area>, op: Op): seq<Path> {
    match op
    case Alloc(n, _) => (var k := FindFit(s, 0, n); if n > 0 && k < |s| then PathsOf(s[k].addr, n) else [])
    case Release(_) => []
  }

  /** What an operation takes, with qs mapped before it: its pages, the tables they lack, a record for the rest. */
  function Takes(t: Tables, root: nat, qs: seq<Path>, s: seq<Area>, op: Op): nat {
    match op
    case Alloc(n, _) =>
      (var k := FindFit(s, 0, n);
       if n > 0 && k < |s|
       then n + NewTables(t, root, qs, s[k].addr, n) + if n < s[k].numPages then 1 else 0
       else 0)
    case Release(_) => 0
  }

  /** The frames a run takes: t are the tables at its start, and qs were mapped since. */
  function RunTakes(t: Tables, root: nat, qs: seq<Path>, s: seq<Area>, ops: seq<Op>): nat
    decreases |ops|
  {
    if ops == [] then 0
    else Takes(t, root, qs, s, ops[0]) + RunTakes(t, root, qs + Mapped(s, ops[0]), Step(s, ops[0]), ops[1..])
  }

  // ---- The run ----

  method Do(vmm: Vmm, op: Op, ghost t: Tables, ghost qs: seq<Path>)
    requires vmm.Valid() && Legal(vmm.View(), op) && LackedIs(t, vmm.mem.tables, vmm.root, qs)
    requires vmm.mem.budget >= Takes(t, vmm.root, qs, vmm.View(), op)
    modifies vmm, vmm.mem, vmm.areas
    ensures vmm.Valid() && vmm.View() == Step(old(vmm.View()), op)
    ensures forall i | 0 <= i < |vmm.areas| :: vmm.areas[i] in old(vmm.areas) || fresh(vmm.areas[i])
    ensures vmm.mem.budget == old(vmm.mem.budget) - Takes(t, vmm.root, qs, old(vmm.View()), op)
    ensures LackedIs(t, vmm.mem.tables, vmm.root, qs + Mapped(old(vmm.View()), op))
    ensures vmm.Here().OutsideKept(old(vmm.Now()), vmm.Now())
  {
    ghost var s, t' := vmm.View(), vmm.mem.tables;
    match op
    case Alloc(n, flags) =>
      ghost var k := FindFit(s, 0, n);
      if n > 0 && k < |s| { NewTablesAre(t, t', vmm.root, qs, s[k].addr, n); }
      var _ := vmm.PAlloc(n, flags);
      if n > 0 && k < |s| {
        LackedNext(t, t', vmm.mem.tables, vmm.root, qs, s[k].addr, n);
      } else {
        assert qs + [] == qs;
      }
    case Release(addr) =>
      vmm.Free(addr);
      LackedSame(t, t', vmm.mem.tables, vmm.root, qs);
      assert qs + [] == qs;
  }

  /**
   In a run that began at `now` and will end with the list `end`: `rest` is still to be done, qs were
   mapped, and `spare` frames of budget will be left.
   */
  ghost predicate Running(vmm: Vmm, now: Pages, qs: seq<Path>, spare: nat, end: seq<Area>, rest: seq<Op>)
    reads vmm, vmm.mem, vmm.areas
  {
    && vmm.Valid() && LegalRun(vmm.View(), rest) && Exec(vmm.View(), rest) == end
    && LackedIs(now.t, vmm.mem.tables, vmm.root, qs) && vmm.Here().OutsideKept(now, vmm.Now())
    && vmm.mem.budget == spare + RunTakes(now.t, vmm.root, qs, vmm.View(), rest)
  }

  method Turn(vmm: Vmm, op: Op, ghost now: Pages, ghost qs: seq<Path>, ghost spare: nat, ghost end: seq<Area>,
          ghost rest: seq<Op>) returns (ghost qs': seq<Path>)
    requires rest != [] && rest[0] == op && Running(vmm, now, qs, spare, end, rest)
    modifies vmm, vmm.mem, vmm.areas
    ensures Running(vmm, now, qs', spare, end, rest[1..])
    ensures forall i | 0 <= i < |vmm.areas| :: vmm.areas[i] in old(vmm.areas) || fresh(vmm.areas[i])
  {
    ghost var before := vmm.Now();
    qs' := qs + Mapped(vmm.View(), op);
    Do(vmm, op, now.t, qs);
    BesideTrans(now.t, now.at, before.t, before.at, vmm.mem.tables, vmm.mem.at, vmm.root);
  }

  /**
   After any run the list is what the specification says, and, being valid, the manager has a page
   mapped exactly when its area is allocated, with that area's flags, to a frame of its own. The run
   takes exactly the frames counted, and other addresses and roots are left alone.
   */
  method Run(vmm: Vmm, ops: seq<Op>)
    requires vmm.Valid() && LegalRun(vmm.View(), ops)
    requires vmm.mem.budget >= RunTakes(vmm.mem.tables, vmm.root, [], vmm.View(), ops)
    modifies vmm, vmm.mem, vmm.areas
    ensures vmm.Valid() && vmm.View() == Exec(old(vmm.View()), ops)
    ensures forall i | 0 <= i < |vmm.areas| :: vmm.areas[i] in old(vmm.areas) || fresh(vmm.areas[i])
    ensures vmm.mem.budget == old(vmm.mem.budget - RunTakes(vmm.mem.tables, vmm.root, [], vmm.View(), ops))
    ensures vmm.Here().OutsideKept(old(vmm.Now()), vmm.Now())
  {
    ghost var now, qs: seq<Path>, end := vmm.Now(), [], Exec(vmm.View(), ops);
    ghost var spare := vmm.mem.budget - RunTakes(now.t, vmm.root, [], vmm.View(), ops);
    BesideSelf(now.t, now.at, vmm.root);
    var i := 0;
    ghost var rest := ops;
    while i < |ops|
      invariant i <= |ops| && rest == ops[i..] && Running(vmm, now, qs, spare, end, rest)
      invariant forall j | 0 <= j < |vmm.areas| :: vmm.areas[j] in old(vmm.areas) || fresh(vmm.areas[j])
    {
      qs := Turn(vmm, ops[i], now, qs, spare, end, rest);
      i, rest := i + 1, rest[1..];
    }
  }

  // ---- What a run leaves behind ----

  /** With one free area no page is mapped, and all frames but that of the one record are tables or free. */
  lemma {:induction false} NothingLeft(vmm: Vmm)
    requires vmm.Valid() && |vmm.View()| == 1 && vmm.View()[0].state == FREE
    ensures forall v: nat | vmm.Here().OnPage(v) :: Translate(vmm.mem.tables, vmm.root, v) == None
    ensures vmm.backing == map[] && |vmm.records| == 1
    ensures forall f :: f in vmm.universe <==> f in vmm.mem.pool || f in vmm.records
  {
    var s := vmm.View();
    assert s[1..] == [];
    forall v: nat ensures FlagsAt(s, v) == None {}
    forall v: nat | vmm.Here().OnPage(v)
      ensures Translate(vmm.mem.tables, vmm.root, v) == None && v !in vmm.backing
    {
      assert vmm.Here().PageOk(vmm.Now(), v, FlagsAt(s, v));
    }
    assert vmm.backing.Keys == {};
    assert vmm.backing == map[];
  }

  /**
   A run on a fresh manager that later frees every address it was given leaves nothing mapped and
   no frame taken but the tables and one record.
   */
  method RunAndFreeAll(vmm: Vmm, ops: seq<Op>)
    requires vmm.Valid() && vmm.lo > 0 && vmm.View() == [Area(vmm.lo, vmm.total, FREE, 0)]
    requires LegalRun(vmm.View(), ops) && AllReleased(vmm.View(), ops)
    requires vmm.mem.budget >= RunTakes(vmm.mem.tables, vmm.root, [], vmm.View(), ops)
    modifies vmm, vmm.mem, vmm.areas
    ensures vmm.Valid() && |vmm.View()| == 1 && vmm.View()[0].state == FREE
    ensures forall v: nat | vmm.Here().OnPage(v) :: Translate(vmm.mem.tables, vmm.root, v) == None
    ensures forall f :: f in vmm.universe <==> f in vmm.mem.pool || f in vmm.records
    ensures |vmm.records| == 1
  {
    ghost var s := vmm.View();
    Run(vmm, ops);
    FreeingAllRestores(vmm.lo, vmm.total, ops);
    NothingLeft(vmm);
  }

  // ---- A bound in closed form ----

  /** What a run takes at most, whatever tables there are. */
  function RunBound(s: seq<Area>, ops: seq<Op>): nat
    decreases |ops|
  {
    if ops == [] then 0 else
    RunBound(Step(s, ops[0]), ops[1..])
    + match ops[0]
      case Alloc(n, _) => (var k := FindFit(s, 0, n); if n > 0 && k < |s| then n + 1 + TablesBound(s[k].addr, n) else 0)
      case Release(_) => 0
  }

  lemma {:induction false} RunTakesBound(t: Tables, root: nat, qs: seq<Path>, s: seq<Area>, ops: seq<Op>)
    ensures RunTakes(t, root, qs, s, ops) <= RunBound(s, ops)
    decreases |ops|
  {
    if ops != [] {
      RunTakesBound(t, root, qs + Mapped(s, ops[0]), Step(s, ops[0]), ops[1..]);
      match ops[0]
      case Alloc(n, _) =>
        var k := FindFit(s, 0, n);
        if k < |s| {
          NewTablesBound(t, root, qs, s[k].addr, n);
          TablesForBound(t, root, s[k].addr, n);
        }
      case Release(_) =>
    }
  }
}
