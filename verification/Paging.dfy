/** The four-level page tables of the kernel, written in place in physical memory. */
module Paging {
  import opened Common
  import opened Frames
  import opened PageWalk
  import PhysicalMemory
  import opened TableCounting

  /** Roots r and s reach the same table through their top-level entry i. */
  predicate SameTop(t: Tables, r: nat, s: nat, i: nat) {
    r == s || (r in t && s in t && i < ENTRIES && Present(t[r][i]) && Present(t[s][i])
      && Frame(t[r][i]) == Frame(t[s][i]))
  }

  /** What the processor sees at virtual address v: the leaf entry, or None for a page fault. */
  function Translate(t: Tables, root: nat, v: nat): Option<nat> { Walk(t, root, Indices(v)) }

  /** Whether the processor lets the kernel write to v, or user mode access it. */
  predicate Permits(t: Tables, root: nat, v: nat, r: Right) { Allows(t, root, Indices(v), r) }

  const SPAN: nat := 0x10_0000_0000  // pages in a 48-bit address space

  /** How many pages w lies after start, modulo the 48-bit address space. */
  function PageOffset(w: nat, start: nat): nat { (PageNo(w) - PageNo(start)) % SPAN }

  lemma {:induction false} PageOffsetIs(w: nat, start: nat, i: nat)
    requires i < SPAN
    ensures PageNo(w) == PageNo(start + i * PAGE_SIZE) <==> PageOffset(w, start) == i
  {
    PageNoPlus(start, i);
    var a, b := PageNo(w), PageNo(start);
    assert a < SPAN && b < SPAN;
  }

  lemma {:induction false} PageNoPlus(start: nat, i: nat)
    ensures PageNo(start + i * PAGE_SIZE) == (PageNo(start) + i) % SPAN
  {
    assert (start + i * 4096) / 4096 == start / 4096 + i;
  }

  /** All walks read the same and every slot stays where it was. */
  ghost predicate WalksKept(t: Tables, at: Places, t': Tables) {
    forall g, p | g in at && at[g].depth + |p| == 4 ::
      && Walk(t', g, p) == Walk(t, g, p)
      && (Slot(t, g, p).Some? ==> Slot(t', g, p) == Slot(t, g, p))
  }

  /** Upper levels were filled in: no table moved and no walk changed. */
  ghost predicate Filled(t: Tables, at: Places, t': Tables, at': Places) {
    (forall f | f in at :: f in at' && at'[f] == at[f]) && WalksKept(t, at, t')
  }

  /** No entry of a table changed, except entry i of table f. */
  ghost predicate EntriesKept(t: Tables, t': Tables, f: nat, i: nat) {
    && (forall g | g in t && g != f :: g in t' && t'[g] == t[g])
    && (f in t ==> f in t' && forall j | 0 <= j < ENTRIES && j != i :: t'[f][j] == t[f][j])
  }

  /** The top-level entries of all roots, except entry i of root r, are what they were. */
  ghost predicate TopsKept(t: Tables, at: Places, t': Tables, r: nat, i: nat) {
    forall s, j | IsRoot(at, s) && s in t && s in t' && 0 <= j < ENTRIES && !(s == r && j == i) :: t'[s][j] == t[s][j]
  }

  /**
   What an operation on `root` leaves alone: tables stay where they are, other roots and the present
   top-level entries keep their values, no leaf slot moves, and the walks of a root change only
   under top-level entries it shares with `root`.
   */
  ghost predicate LeftAlone(t: Tables, at: Places, t': Tables, at': Places, root: nat) {
    && (forall f | f in at :: f in at' && at'[f] == at[f])
    && (forall r | IsRoot(at, r) && r != root :: r in t && r in t' && t'[r] == t[r])
    && root in t && root in t' && (forall j | 0 <= j < ENTRIES && Present(t[root][j]) :: t'[root][j] == t[root][j])
    && (forall r, j | IsRoot(at, r) && 0 <= j < ENTRIES :: SameTop(t', r, root, j) == SameTop(t, r, root, j))
    && (forall r, p: Path | IsRoot(at, r) && Slot(t, r, p).Some? :: Slot(t', r, p) == Slot(t, r, p))
    && (forall r, p: Path | IsRoot(at, r) && !SameTop(t, r, root, p[0]) :: Walk(t', r, p) == Walk(t, r, p))
  }

  /** The same, folded. */
  ghost predicate Beside(t: Tables, at: Places, t': Tables, at': Places, root: nat) {
    forall z: nat {:trigger Unfolding(z)} | Unfolding(z) :: LeftAlone(t, at, t', at', root)
  }

  lemma {:induction false} UnfoldBeside(t: Tables, at: Places, t': Tables, at': Places, root: nat)
    ensures Beside(t, at, t', at', root) <==> LeftAlone(t, at, t', at', root)
  {
    assert Unfolding(0);
  }

  lemma {:induction false} BesideTrans(t: Tables, at: Places, t': Tables, at': Places, t'': Tables, at'': Places,
          root: nat)
    requires Beside(t, at, t', at', root) && Beside(t', at', t'', at'', root)
    ensures Beside(t, at, t'', at'', root)
  {
    UnfoldBeside(t, at, t', at', root);
    UnfoldBeside(t', at', t'', at'', root);
    assert forall r | IsRoot(at, r) :: IsRoot(at', r);
  }

  /** Where another root shares a top-level entry with `root` it sees what `root` sees, elsewhere what it saw. */
  lemma {:induction false} BesideWalks(t: Tables, at: Places, t': Tables, at': Places, root: nat, r: nat, p: Path)
    requires Shape(t', at') && IsRoot(at, root) && IsRoot(at, r) && Beside(t, at, t', at', root)
    ensures Walk(t', r, p) == if SameTop(t, r, root, p[0]) then Walk(t', root, p) else Walk(t, r, p)
  {
    UnfoldBeside(t, at, t', at', root);
    if SameTop(t, r, root, p[0]) && r != root {
      assert SameTop(t', r, root, p[0]);
      assert LinkOk(t', at', r, p[0]) && LinkOk(t', at', root, p[0]);
    }
  }

  /**
   The effect of writing leaf entry e at path q of `root`: that walk, and the same path of any
   root sharing the top-level entry, ends in e; every other walk of every root is unchanged.
   */
  ghost predicate WalksWritten(t: Tables, at: Places, t': Tables, root: nat, q: Path, e: nat) {
    forall r, p: Path | IsRoot(at, r) ::
      Walk(t', r, p) == if p == q && SameTop(t', r, root, q[0]) then Leaf(e) else Walk(t, r, p)
  }

  /** The same effect in terms of addresses. */
  lemma {:induction false} WrittenTranslations(t: Tables, at: Places, t': Tables, root: nat, v: nat, e: nat, r: nat,
          w: nat)
    requires WalksWritten(t, at, t', root, Indices(v), e) && IsRoot(at, r)
    ensures Translate(t', r, w) ==
              if PageNo(w) == PageNo(v) && SameTop(t', r, root, Indices(v)[0]) then Leaf(e) else Translate(t, r, w)
  {
    IndicesArePageNo(v, w);
  }

  /** What mapping v with these flags does to the rights of all roots. */
  ghost predicate RightsWritten(t: Tables, at: Places, t': Tables, root: nat, v: nat, flags: nat) {
    forall s, w: nat, r: Right | IsRoot(at, s) ::
      Permits(t', s, w, r) <==>
        if PageNo(w) == PageNo(v) && SameTop(t', s, root, Indices(v)[0]) then Present(flags) && Grants(flags, r)
        else Permits(t, s, w, r)
  }

  lemma {:induction false} RightsFollow(t: Tables, at: Places, t': Tables, at': Places, root: nat, v: nat, paddr: nat,
          flags: nat)
    requires Shape(t, at) && Shape(t', at') && forall f | f in at :: f in at' && at'[f] == at[f]
    requires WalksWritten(t, at, t', root, Indices(v), LeafEntry(paddr, flags))
    ensures RightsWritten(t, at, t', root, v, flags)
  {
    LeafEntryParts(paddr, flags);
    forall s, w: nat, r: Right | IsRoot(at, s)
      ensures Permits(t', s, w, r) <==>
        if PageNo(w) == PageNo(v) && SameTop(t', s, root, Indices(v)[0]) then Present(flags) && Grants(flags, r)
        else Permits(t, s, w, r)
    {
      LeafDecides(t, at, s, Indices(w), r);
      LeafDecides(t', at', s, Indices(w), r);
      WrittenTranslations(t, at, t', root, v, LeafEntry(paddr, flags), s, w);
      GrantsLow(LeafEntry(paddr, flags), flags, r);
    }
  }

  /** Writing a leaf slot reached from `root` along q has exactly that effect. */
  lemma {:induction false} LeafWriteEffect(t: Tables, at: Places, root: nat, q: Path, e: nat)
    requires Shape(t, at) && IsRoot(at, root) && Slot(t, root, q).Some?
    ensures var (f, i) := Slot(t, root, q).value;
            && f in at && at[f].depth == 3 && i < ENTRIES
            && Shape(WithLeaf(t, f, i, e), at)
            && WalksWritten(t, at, WithLeaf(t, f, i, e), root, q, e)
            && (forall r | IsRoot(at, r) :: WithLeaf(t, f, i, e)[r] == t[r])
            && Slot(WithLeaf(t, f, i, e), root, q) == Some((f, i))
  {
    SlotDepth(t, at, root, q);
    var (f, i) := Slot(t, root, q).value;
    var t' := WithLeaf(t, f, i, e);
    WithLeafShape(t, at, f, i, e);
    WithLeafWalks(t, at, f, i, e, root, q);
    forall r, p: Path | IsRoot(at, r)
      ensures Walk(t', r, p) == if p == q && SameTop(t', r, root, q[0]) then Leaf(e) else Walk(t, r, p)
    {
      WithLeafWalks(t, at, f, i, e, r, p);
      SlotShared(t, at, root, q, r, p);
    }
  }

  lemma {:induction false} SlotDepth(t: Tables, at: Places, f: nat, p: seq<nat>)
    requires Shape(t, at) && f in at && at[f].depth + |p| == 4 && Slot(t, f, p).Some?
    ensures Slot(t, f, p).value.0 in at && at[Slot(t, f, p).value.0].depth == 3 && Slot(t, f, p).value.1 < ENTRIES
    decreases |p|
  {
    if |p| > 1 {
      assert LinkOk(t, at, f, p[0]);
      SlotDepth(t, at, Frame(t[f][p[0]]), p[1..]);
    }
  }

  lemma {:induction false} EmptyRoot(t: Tables, root: nat, p: Path)
    requires root in t && t[root] == ZeroTable()
    ensures Slot(t, root, p) == None
  {
  }

  lemma {:induction false} TableFills(t: Tables, at: Places, f: nat, i: nat, n: nat)
    requires Shape(t, at) && f in at && at[f].depth < 3 && i < ENTRIES && n !in t && IsFrame(n) && !Present(t[f][i])
    ensures Filled(t, at, WithTable(t, f, i, n), at[n := Place(at[f].depth + 1, f, i)])
    ensures EntriesKept(t, WithTable(t, f, i, n), f, i)
  {
    forall g, p | g in at && at[g].depth + |p| == 4
      ensures Walk(WithTable(t, f, i, n), g, p) == Walk(t, g, p)
      ensures Slot(t, g, p).Some? ==> Slot(WithTable(t, f, i, n), g, p) == Slot(t, g, p)
    {
      WithTableWalks(t, at, f, i, n, g, p);
    }
  }

  lemma {:induction false} BesideSelf(t: Tables, at: Places, root: nat)
    requires Shape(t, at) && IsRoot(at, root)
    ensures Beside(t, at, t, at, root)
  {
  }

  /** A leaf write leaves the rest alone. */
  lemma {:induction false} LeafBeside(t: Tables, at: Places, root: nat, q: Path, e: nat)
    requires Shape(t, at) && IsRoot(at, root) && Slot(t, root, q).Some?
    ensures var (f, i) := Slot(t, root, q).value;
      f in t && i < ENTRIES && Beside(t, at, WithLeaf(t, f, i, e), at, root)
  {
    LeafWriteEffect(t, at, root, q, e);
    var (f, i) := Slot(t, root, q).value;
    var t' := WithLeaf(t, f, i, e);
    forall r, p: Path | IsRoot(at, r) ensures Slot(t', r, p) == Slot(t, r, p) {
      WithLeafWalks(t, at, f, i, e, r, p);
    }
  }

  /** Filling in upper levels below one top-level entry of `root` leaves the rest alone. */
  lemma {:induction false} FilledBeside(t: Tables, at: Places, t': Tables, at': Places, root: nat, i: nat)
    requires Shape(t, at) && Shape(t', at') && Filled(t, at, t', at') && IsRoot(at, root) && i < ENTRIES
    requires TopsKept(t, at, t', root, i)
    requires Present(t[root][i]) ==> t'[root][i] == t[root][i]
    requires !Present(t[root][i]) ==> Frame(t'[root][i]) !in t
    ensures Beside(t, at, t', at', root)
  {
    forall r | IsRoot(at, r) && r != root ensures t'[r] == t[r] {
      assert forall j | 0 <= j < ENTRIES :: t'[r][j] == t[r][j];
    }
    forall r, j | IsRoot(at, r) && 0 <= j < ENTRIES ensures SameTop(t', r, root, j) == SameTop(t, r, root, j) {
      if r != root && j == i && !Present(t[root][i]) && Present(t[r][i]) { assert LinkOk(t, at, r, i); }
    }
  }

  /** pt_map: upper levels are filled in, then one leaf is written. */
  lemma {:induction false} MapBeside(t: Tables, at: Places, t1: Tables, at1: Places, t': Tables, root: nat, q: Path,
          e: nat)
    requires Shape(t, at) && Shape(t1, at1) && Filled(t, at, t1, at1) && IsRoot(at, root)
    requires TopsKept(t, at, t1, root, q[0])
    requires Present(t[root][q[0]]) ==> t1[root][q[0]] == t[root][q[0]]
    requires !Present(t[root][q[0]]) ==> Frame(t1[root][q[0]]) !in t
    requires Slot(t1, root, q).Some?
    requires var (f, i) := Slot(t1, root, q).value; f in t1 && i < ENTRIES && t' == WithLeaf(t1, f, i, e)
    ensures Beside(t, at, t', at1, root)
    ensures forall user | IsRoot(at, user) && user != root :: MappedUnder(t, at, t', user, root, q)
  {
    FilledBeside(t, at, t1, at1, root, q[0]);
    LeafBeside(t1, at1, root, q, e);
    LeafWriteEffect(t1, at1, root, q, e);
    BesideTrans(t, at, t1, at1, t', at1, root);
    SlotChain(t1, at1, root, q);
    UnfoldBeside(t, at, t', at1, root);
  }

  /** The pool is the tables and the free frames, which are frames, and none is both. */
  ghost predicate PoolOk(t: Tables, frames: set<nat>, free: set<nat>, pool: set<nat>) {
    && (forall f | f in t :: f !in free) && (forall f | f in pool :: f in frames)
    && (forall f :: f in pool <==> f in t || f in free)
  }

  lemma {:induction false} PoolChanges(t: Tables, frames: set<nat>, free: set<nat>, pool: set<nat>, f: nat)
    requires PoolOk(t, frames, free, pool) && f in frames
    ensures f in free ==> f !in t && PoolOk(t, frames, free - {f}, pool - {f})
    ensures f !in pool ==> PoolOk(t, frames, free + {f}, pool + {f})
  {
  }

  class Memory {
    var tables: Tables         // the frames used as page tables
    var pmm: PmmSpec.Pmm       // the physical allocator
    ghost var at: Places
    ghost const frames: set<nat>  // the pages of the allocator
    ghost var free: set<nat>      // those pmm_palloc(1) may return
    ghost var budget: nat         // how many it will still return
    ghost var pool: set<nat>      // tables and free frames together

    ghost predicate Valid()
      reads this
    {
      && Shape(tables, at) && Manages(pmm, frames, free, budget)
      && PoolOk(tables, frames, free, pool)
    }

    /** pmm_init over a memory map of good regions below 2^48: no table yet, and the whole budget. */
    constructor Boot(memmap: seq<PhysicalMemory.MemmapEntry>)
      requires PhysicalMemory.GoodMemmap(memmap)
      requires forall i | 0 <= i < |memmap| && memmap[i].usable ::
                 memmap[i].base + memmap[i].length <= 0x1_0000_0000_0000
      ensures Valid() && tables == map[] && at == map[]
      ensures budget == PmmSpec.Budget(PhysicalMemory.InitAreas(memmap)) && pool == free
    {
      var areas := PhysicalMemory.InitAreas(memmap);
      pmm := PmmSpec.Pmm(areas, PmmSpec.Unused(areas));
      tables, at := map[], map[];
      frames := AllFrames(PmmSpec.Pmm(areas, PmmSpec.Unused(areas)));
      free := FreeFrames(PmmSpec.Pmm(areas, PmmSpec.Unused(areas)));
      pool := FreeFrames(PmmSpec.Pmm(areas, PmmSpec.Unused(areas)));
      budget := PmmSpec.Budget(areas);
      BootFrames(memmap, PmmSpec.Pmm(areas, PmmSpec.Unused(areas)));
    }

    /** pmm_palloc(1): a free frame while the budget lasts, then 0. */
    method PAlloc() returns (f: nat)
      requires Valid()
      modifies this`pmm, this`free, this`budget, this`pool
      ensures Valid() && (pmm, f) == PmmSpec.PAlloc(old(pmm), 1)
      ensures f == 0 <==> old(budget) == 0
      ensures f == 0 ==> free == old(free) && budget == old(budget) && pool == old(pool)
      ensures f > 0 ==> f in old(free) && f in frames && f !in tables && IsFrame(f)
      ensures f > 0 ==> free == old(free) - {f} && budget == old(budget) - 1 && pool == old(pool) - {f}
    {
      f := TakePage();
      if f > 0 { Hand(f); }
    }

    /** The books after f was handed out. */
    ghost method Hand(f: nat)
      requires PoolOk(tables, frames, free, pool) && f in free && f in frames && budget > 0
      modifies this`free, this`budget, this`pool
      ensures PoolOk(tables, frames, free, pool) && f !in tables
      ensures free == old(free) - {f} && budget == old(budget) - 1 && pool == old(pool) - {f}
    {
      PoolChanges(tables, frames, free, pool, f);
      free := free - {f};
      budget := budget - 1;
      pool := pool - {f};
    }

    /** The call itself, before the books are kept. */
    method TakePage() returns (f: nat)
      requires Manages(pmm, frames, free, budget)
      modifies this`pmm
      ensures (pmm, f) == PmmSpec.PAlloc(old(pmm), 1) && (f == 0 <==> budget == 0)
      ensures f == 0 ==> Manages(pmm, frames, free, budget)
      ensures f > 0 ==> f in free && f in frames && IsFrame(f) && Manages(pmm, frames, free - {f}, budget - 1)
    {
      f := PmmSpec.PAlloc(pmm, 1).1;
      TakeFrame(pmm, frames, free, budget, PmmSpec.PAlloc(pmm, 1).0, f);
      pmm := PmmSpec.PAlloc(pmm, 1).0;
    }

    /** pmm_free of one page that was handed out: it can be handed out again, but the budget stays. */
    method PFree(f: nat)
      requires Valid() && f in frames && f !in pool
      modifies this`pmm, this`free, this`pool
      ensures Valid() && pmm == PmmSpec.PFree(old(pmm), f, 1)
      ensures free == old(free) + {f} && pool == old(pool) + {f}
    {
      GiveFrame(pmm, frames, free, budget, f);
      PoolChanges(tables, frames, free, pool, f);
      pmm := PmmSpec.PFree(pmm, f, 1);
      free := free + {f};
      pool := pool + {f};
    }

    /** pt_create. */
    method Create() returns (root: nat)
      requires Valid() && budget > 0
      modifies this
      ensures Valid() && root in old(free) && budget == old(budget) - 1 && pool == old(pool)
      ensures tables == old(tables)[root := ZeroTable()]
      ensures at == old(at)[root := Place(0, root, 0)]
      ensures WalksKept(old(tables), old(at), tables)
      ensures forall p: Path :: Walk(tables, root, p) == None
    {
      root := PAlloc();
      pool := pool + {root};
      ghost var t := tables;
      tables := tables[root := ZeroTable()];
      at := at[root := Place(0, root, 0)];
      NewRootShape(t, old(at), root);
      forall g, p | g in old(at) && old(at)[g].depth + |p| == 4
        ensures Walk(tables, g, p) == Walk(t, g, p) && Slot(tables, g, p) == Slot(t, g, p)
      {
        NewRootWalks(t, old(at), root, g, p);
      }
      forall p: Path ensures Slot(tables, root, p) == None { EmptyRoot(tables, root, p); }
    }

    /** set_page_entry on entry i of an upper-level table f. */
    method SetPageEntry(f: nat, i: nat)
      requires Valid() && f in at && at[f].depth < 3 && i < ENTRIES
      requires Present(tables[f][i]) || budget > 0
      modifies this
      ensures Valid() && f in at && Present(tables[f][i]) && pool == old(pool)
      ensures old(Present(tables[f][i])) ==> tables == old(tables) && at == old(at) && budget == old(budget)
      ensures !old(Present(tables[f][i])) ==> budget == old(budget) - 1 && Added(old(tables), tables, f, i)
      ensures Filled(old(tables), old(at), tables, at)
      ensures EntriesKept(old(tables), tables, f, i)
    {
      if !Present(tables[f][i]) { AddTable(f, i); }
    }

    /** A new table behind an absent entry. */
    method AddTable(f: nat, i: nat)
      requires Valid() && f in at && at[f].depth < 3 && i < ENTRIES && budget > 0 && !Present(tables[f][i])
      modifies this
      ensures Valid() && f in at && Present(tables[f][i]) && pool == old(pool) && budget == old(budget) - 1
      ensures Filled(old(tables), old(at), tables, at) && EntriesKept(old(tables), tables, f, i)
      ensures Added(old(tables), tables, f, i)
    {
      ghost var t, a := tables, at;
      var n := PAlloc();
      pool := pool + {n};
      tables := WithTable(tables, f, i, n);
      at := at[n := Place(at[f].depth + 1, f, i)];
      WithTableShape(t, a, f, i, n);
      TableEntryParts(n);
      TableFills(t, a, f, i, n);
    }

    /** The same on the way along q, where the first table that is missing may be added. */
    method SetOnWay(f: nat, i: nat, ghost root: nat, ghost q: Path)
      requires Valid() && IsRoot(at, root) && f in at && at[f].depth < 3 && i < ENTRIES
      requires Present(tables[f][i]) || Stops(tables, root, q) == Some((f, i))
      requires budget >= Missing(tables, root, q)
      modifies this
      ensures Valid() && f in at && Present(tables[f][i]) && pool == old(pool)
      ensures old(Present(tables[f][i])) ==> tables == old(tables)
      ensures !old(Present(tables[f][i])) ==> Added(old(tables), tables, f, i)
      ensures Filled(old(tables), old(at), tables, at) && EntriesKept(old(tables), tables, f, i)
      ensures Gained(old(tables), tables, root, q)
      ensures budget - Missing(tables, root, q) == old(budget) - Missing(old(tables), root, q)
    {
      ghost var t, a := tables, at;
      if !Present(t[f][i]) { StopsBelow(t, a, root, q); }
      SetPageEntry(f, i);
      if !Present(t[f][i]) { AddGains(t, a, tables, f, i, root, q); }
    }

    /** The three set_page_entry steps of pt_map: every level down to the leaf table exists afterwards. */
    method Descend(root: nat, q: Path) returns (leaf: nat)
      requires Valid() && IsRoot(at, root) && budget >= Missing(tables, root, q)
      modifies this
      ensures Valid() && Slot(tables, root, q) == Some((leaf, q[3])) && pool == old(pool)
      ensures Filled(old(tables), old(at), tables, at) && budget == old(budget) - Missing(old(tables), root, q)
      ensures Gained(old(tables), tables, root, q)
      ensures TopsKept(old(tables), old(at), tables, root, q[0])
      ensures old(Present(tables[root][q[0]])) ==> tables[root][q[0]] == old(tables[root][q[0]])
      ensures !old(Present(tables[root][q[0]])) ==> Frame(tables[root][q[0]]) !in old(tables)
    {
      SetOnWay(root, q[0], root, q);
      ghost var t1, at1 := tables, at;
      leaf := Lower(root, q, Frame(tables[root][q[0]]));
      FilledTrans(old(tables), old(at), t1, at1, tables, at);
      GainedTrans(old(tables), t1, tables, root, q);
    }

    /** The two lower steps; pt3 is the table behind the top-level entry. */
    method Lower(root: nat, q: Path, pt3: nat) returns (leaf: nat)
      requires Valid() && IsRoot(at, root) && budget >= Missing(tables, root, q)
      requires Present(tables[root][q[0]]) && pt3 == Frame(tables[root][q[0]])
      modifies this
      ensures Valid() && Slot(tables, root, q) == Some((leaf, q[3])) && pool == old(pool)
      ensures Filled(old(tables), old(at), tables, at) && budget == old(budget) - Missing(old(tables), root, q)
      ensures Gained(old(tables), tables, root, q)
      ensures forall r | IsRoot(old(at), r) :: r in tables && tables[r] == old(tables)[r]
    {
      assert LinkOk(tables, at, root, q[0]);
      SetOnWay(pt3, q[1], root, q);
      ghost var t1, at1 := tables, at;
      leaf := Lowest(root, q, pt3, Frame(tables[pt3][q[1]]));
      FilledTrans(old(tables), old(at), t1, at1, tables, at);
      GainedTrans(old(tables), t1, tables, root, q);
    }

    /** The last of them; pt2 is the table behind the second-level entry. */
    method Lowest(root: nat, q: Path, ghost pt3: nat, pt2: nat) returns (leaf: nat)
      requires Valid() && IsRoot(at, root) && budget >= Missing(tables, root, q)
      requires Present(tables[root][q[0]]) && pt3 == Frame(tables[root][q[0]])
      requires pt3 in at && at[pt3].depth == 1 && Present(tables[pt3][q[1]]) && pt2 == Frame(tables[pt3][q[1]])
      modifies this
      ensures Valid() && Slot(tables, root, q) == Some((leaf, q[3])) && pool == old(pool)
      ensures Filled(old(tables), old(at), tables, at) && budget == old(budget) - Missing(old(tables), root, q)
      ensures Gained(old(tables), tables, root, q)
      ensures forall r | IsRoot(old(at), r) :: r in tables && tables[r] == old(tables)[r]
    {
      assert LinkOk(tables, at, pt3, q[1]);
      StopsLater(tables, root, q);
      SetOnWay(pt2, q[2], root, q);
      leaf := Frame(tables[pt2][q[2]]);
      assert LinkOk(tables, at, pt2, q[2]);
      ChainSlot(tables, at, root, q, pt3, pt2, leaf);
      SlotLacksNothing(tables, root, q);
    }

    /** pt_map. */
    method Map(root: nat, paddr: nat, vaddr: nat, flags: nat)
      requires Valid() && IsRoot(at, root) && budget >= Missing(tables, root, Indices(vaddr))
      modifies this
      ensures Valid() && IsRoot(at, root) && Slot(tables, root, Indices(vaddr)).Some? && pool == old(pool)
      ensures budget == old(budget) - Missing(old(tables), root, Indices(vaddr))
      ensures MissingFell(old(tables), tables, root, Indices(vaddr))
      ensures WalksWritten(old(tables), old(at), tables, root, Indices(vaddr), LeafEntry(paddr, flags))
      ensures RightsWritten(old(tables), old(at), tables, root, vaddr, flags)
      ensures Beside(old(tables), old(at), tables, at, root)
      ensures forall user | IsRoot(old(at), user) && user != root ::
                MappedUnder(old(tables), old(at), tables, user, root, Indices(vaddr))
    {
      var q := Indices(vaddr);
      ghost var t, a := tables, at;
      var pt1 := Descend(root, q);
      ghost var t1 := tables;
      MissingAfter(t, t1, root, q);
      LeafWriteEffect(tables, at, root, q, LeafEntry(paddr, flags));
      tables := WithLeaf(tables, pt1, q[3], LeafEntry(paddr, flags));
      LeafKeepsFall(t, t1, at, pt1, q[3], LeafEntry(paddr, flags), root, q);
      MapBeside(t, a, t1, at, tables, root, q, LeafEntry(paddr, flags));
      RightsFollow(t, a, tables, at, root, vaddr, paddr, flags);
    }

    /** pt_map_all: the range becomes exactly the linear map onto `target`, the rest is untouched. */
    method MapAll(root: nat, start: nat, end: nat, target: nat, flags: nat)
      requires Valid() && IsRoot(at, root) && start <= end && (end - start) / PAGE_SIZE <= SPAN
      requires budget >= TablesFor(tables, root, start, (end - start) / PAGE_SIZE)
      modifies this
      ensures Valid() && IsRoot(at, root) && pool == old(pool)
      ensures budget == old(budget) - TablesFor(old(tables), root, start, (end - start) / PAGE_SIZE)
      ensures MissingIs(old(tables), tables, root, start, (end - start) / PAGE_SIZE)
      ensures Linear(old(tables), tables, root, start, (end - start) / PAGE_SIZE, target, flags)
      ensures RightsLinear(old(tables), tables, root, start, (end - start) / PAGE_SIZE, flags)
      ensures Beside(old(tables), old(at), tables, at, root)
    {
      var pages := (end - start) / PAGE_SIZE;
      BesideSelf(tables, at, root);
      for i := 0 to pages
        invariant Valid() && IsRoot(at, root) && pool == old(pool)
        invariant budget == old(budget) - TablesFor(old(tables), root, start, i)
        invariant MissingIs(old(tables), tables, root, start, i)
        invariant Linear(old(tables), tables, root, start, i, target, flags)
        invariant Beside(old(tables), old(at), tables, at, root)
      {
        ghost var t, a := tables, at;
        TablesForGrows(old(tables), root, start, i + 1, pages);
        MapIth(old(tables), root, start, i, target, flags);
        BesideTrans(old(tables), old(at), t, a, tables, at, root);
      }
      RightsOfLinear(old(tables), old(at), tables, at, root, start, pages, target, flags);
    }

    /** One turn of pt_map_all's loop; t is memory before the loop. */
    method MapIth(ghost t: Tables, root: nat, start: nat, i: nat, target: nat, flags: nat)
      requires Valid() && IsRoot(at, root) && i < SPAN && MissingIs(t, tables, root, start, i)
      requires budget >= MissingThen(t, root, start, i, PathAt(start, i))
      requires Linear(t, tables, root, start, i, target, flags)
      modifies this
      ensures Valid() && IsRoot(at, root) && pool == old(pool)
      ensures budget == old(budget) - MissingThen(t, root, start, i, PathAt(start, i))
      ensures MissingIs(t, tables, root, start, i + 1)
      ensures Linear(t, tables, root, start, i + 1, target, flags)
      ensures Beside(old(tables), old(at), tables, at, root)
    {
      Map(root, target + i * PAGE_SIZE, start + i * PAGE_SIZE, flags);
      LinearStep(t, old(tables), old(at), tables, root, start, i, target, flags);
      MissingIsNext(t, old(tables), tables, root, start, i);
    }

    /** pt_unmap of a mapped page: its frame goes back to the allocator. */
    method Unmap(root: nat, vaddr: nat)
      requires Valid() && IsRoot(at, root) && Translate(tables, root, vaddr).Some?
      requires Frame(Translate(tables, root, vaddr).value) in frames
      requires Frame(Translate(tables, root, vaddr).value) !in pool
      modifies this`tables, this`pmm, this`free, this`pool
      ensures Valid() && tables.Keys == old(tables).Keys
      ensures pool == old(pool) + {Frame(old(Translate(tables, root, vaddr)).value)}
      ensures WalksWritten(old(tables), at, tables, root, Indices(vaddr), 0)
      ensures at == old(at) && budget == old(budget) && SameMissing(old(tables), tables, root)
      ensures Beside(old(tables), old(at), tables, at, root)
    {
      var q := Indices(vaddr);
      SlotChain(tables, at, root, q);
      var pt3 := Frame(tables[root][q[0]]);
      var pt2 := Frame(tables[pt3][q[1]]);
      var pt1 := Frame(tables[pt2][q[2]]);
      PFree(Frame(tables[pt1][q[3]]));
      LeafWriteEffect(tables, at, root, q, 0);
      LeafBeside(tables, at, root, q, 0);
      LeafKeepsAll(tables, at, pt1, q[3], 0, root);
      tables := WithLeaf(tables, pt1, q[3], 0);
    }

    /** pt_join_kernel: the upper half of the top-level table is copied entry by entry. */
    method JoinKernel(user: nat, kernel: nat)
      requires Valid() && IsRoot(at, user) && IsRoot(at, kernel)
      modifies this`tables
      ensures Valid() && Joined(tables, user, kernel)
      ensures forall g | g in old(tables) && g != user :: g in tables && tables[g] == old(tables)[g]
      ensures tables.Keys == old(tables).Keys
      ensures forall j | 0 <= j < 256 :: tables[user][j] == old(tables)[user][j]
      ensures forall r, p: Path | IsRoot(at, r) ::
                Walk(tables, r, p) == Walk(old(tables), if r == user && p[0] >= 256 then kernel else r, p)
    {
      for i := 256 to ENTRIES
        invariant Valid() && tables.Keys == old(tables).Keys
        invariant forall j | 0 <= j < ENTRIES ::
                    tables[user][j] == if 256 <= j < i then old(tables)[kernel][j] else old(tables)[user][j]
        invariant forall g | g in old(tables) && g != user :: tables[g] == old(tables)[g]
      {
        ghost var t := tables;
        tables := tables[user := tables[user][i := tables[kernel][i]]];
        forall f, j | f in at && at[f].depth < 3 && 0 <= j < ENTRIES && Present(tables[f][j])
          ensures LinkOk(tables, at, f, j)
        {
          assert LinkOk(t, at, if f == user && j == i then kernel else f, j);
        }
      }
      forall r, p: Path | IsRoot(at, r)
        ensures Walk(tables, r, p) == Walk(old(tables), if r == user && p[0] >= 256 then kernel else r, p)
      {
        JoinedWalk(old(tables), at, tables, user, kernel, r, p);
      }
    }
  }

  /** The user table has the kernel's upper half. */
  predicate Joined(t: Tables, user: nat, kernel: nat) {
    user in t && kernel in t && forall i | 256 <= i < ENTRIES :: t[user][i] == t[kernel][i]
  }

  /** Changing a top-level table leaves the walks from lower tables alone. */
  lemma {:induction false} LowerWalkKept(t: Tables, at: Places, t': Tables, root: nat, g: nat, p: seq<nat>)
    requires Shape(t, at) && IsRoot(at, root) && g in at && at[g].depth > 0 && at[g].depth + |p| == 4
    requires t'.Keys == t.Keys && forall f | f in t && f != root :: t'[f] == t[f]
    ensures Walk(t', g, p) == Walk(t, g, p)
    decreases |p|
  {
    if |p| > 1 && p[0] < ENTRIES && Present(t[g][p[0]]) {
      assert LinkOk(t, at, g, p[0]);
      LowerWalkKept(t, at, t', root, Frame(t[g][p[0]]), p[1..]);
    }
  }

  /** What joining does to the walk of any root. */
  lemma {:induction false} JoinedWalk(t: Tables, at: Places, t': Tables, user: nat, kernel: nat, r: nat, p: Path)
    requires Shape(t, at) && IsRoot(at, user) && IsRoot(at, kernel) && IsRoot(at, r)
    requires t'.Keys == t.Keys && forall f | f in t && f != user :: t'[f] == t[f]
    requires forall j | 0 <= j < ENTRIES :: t'[user][j] == if j >= 256 then t[kernel][j] else t[user][j]
    ensures Walk(t', r, p) == Walk(t, if r == user && p[0] >= 256 then kernel else r, p)
  {
    var r' := if r == user && p[0] >= 256 then kernel else r;
    assert t'[r][p[0]] == t[r'][p[0]];
    if Present(t[r'][p[0]]) {
      assert LinkOk(t, at, r', p[0]);
      LowerWalkKept(t, at, t', user, Frame(t[r'][p[0]]), p[1..]);
    }
  }

  /** With the kernel's upper half, the user's upper-half walks are the kernel's. */
  lemma {:induction false} JoinedWalksAgree(t: Tables, user: nat, kernel: nat, p: Path)
    requires Joined(t, user, kernel) && p[0] >= 256
    ensures Slot(t, user, p) == Slot(t, kernel, p) && Walk(t, user, p) == Walk(t, kernel, p)
  {
  }

  /** What a pt_map of `kernel` at path q does to the two roots: t' is the memory after it. */
  ghost predicate MappedUnder(t: Tables, at: Places, t': Tables, user: nat, kernel: nat, q: Path) {
    && IsRoot(at, user) && IsRoot(at, kernel) && user in t && kernel in t && user in t' && kernel in t'
    && t'[user] == t[user]
    && (forall j | 0 <= j < ENTRIES && (j != q[0] || Present(t[kernel][j])) :: t'[kernel][j] == t[kernel][j])
    && Present(t'[kernel][q[0]]) && Slot(t', kernel, q).Some?
    && (forall p: Path | Slot(t, kernel, p).Some? :: Slot(t', kernel, p).Some?)
  }

  /**
   A later pt_map in the kernel table keeps the two upper halves equal exactly when it lands in
   the lower half or under a top-level entry that was already there; a new top-level entry is
   never seen by the user table.
   */
  lemma {:induction false} JoinSurvivesMap(t: Tables, at: Places, t': Tables, user: nat, kernel: nat, q: Path)
    requires Joined(t, user, kernel) && user != kernel && MappedUnder(t, at, t', user, kernel, q)
    ensures Joined(t', user, kernel) <==> q[0] < 256 || Present(t[kernel][q[0]])
  {
    if q[0] >= 256 && !Present(t[kernel][q[0]]) {
      assert t'[user][q[0]] == t[user][q[0]];
    }
  }

  /** ts are the tables before, between and after pt_map calls in the kernel table, at the paths qs. */
  ghost predicate KernelRun(ts: seq<Tables>, ats: seq<Places>, user: nat, kernel: nat, qs: seq<Path>) {
    && |ts| == |ats| == |qs| + 1 && user != kernel && user in ts[0] && kernel in ts[0]
    && forall k | 0 <= k < |qs| :: MappedUnder(ts[k], ats[k], ts[k + 1], user, kernel, qs[k])
  }

  /** Top-level entry j is used by one of the first n calls. */
  ghost predicate Used(qs: seq<Path>, n: nat, j: nat)
    requires n <= |qs|
  {
    exists k | 0 <= k < n :: qs[k][0] == j
  }

  /** Over n calls the user's entries stay, and the kernel's change only where they were absent and are used. */
  lemma {:induction false} TopsOverRun(ts: seq<Tables>, ats: seq<Places>, user: nat, kernel: nat, qs: seq<Path>,
          n: nat)
    requires KernelRun(ts, ats, user, kernel, qs) && n <= |qs|
    ensures user in ts[n] && kernel in ts[n] && ts[n][user] == ts[0][user]
    ensures forall j | 0 <= j < ENTRIES && (Present(ts[0][kernel][j]) || !Used(qs, n, j)) ::
              ts[n][kernel][j] == ts[0][kernel][j]
    ensures forall k | 0 <= k < n :: Present(ts[n][kernel][qs[k][0]]) && Slot(ts[n], kernel, qs[k]).Some?
  {
    if n > 0 {
      TopsOverRun(ts, ats, user, kernel, qs, n - 1);
      var (t, t', q) := (ts[n - 1], ts[n], qs[n - 1]);
      assert MappedUnder(t, ats[n - 1], t', user, kernel, q);
      forall j | 0 <= j < ENTRIES && (Present(ts[0][kernel][j]) || !Used(qs, n, j))
        ensures t'[kernel][j] == ts[0][kernel][j]
      {
        assert Used(qs, n - 1, j) ==> Used(qs, n, j);
      }
    }
  }

  /**
   Any run of kernel pt_map calls keeps the two upper halves equal, and leads both tables to the same
   leaf slots there, exactly when each call is in the lower half or under a top-level entry present
   at the join.
   */
  lemma {:induction false} JoinSurvivesRun(ts: seq<Tables>, ats: seq<Places>, user: nat, kernel: nat, qs: seq<Path>)
    requires KernelRun(ts, ats, user, kernel, qs) && Joined(ts[0], user, kernel)
    ensures var t, seen := ts[|qs|], forall k | 0 <= k < |qs| :: qs[k][0] < 256 || Present(ts[0][kernel][qs[k][0]]);
      && (Joined(t, user, kernel) <==> seen)
      && ((forall p: Path | p[0] >= 256 :: Slot(t, user, p) == Slot(t, kernel, p)) <==> seen)
  {
    var n := |qs|;
    TopsOverRun(ts, ats, user, kernel, qs, n);
    if k :| 0 <= k < n && qs[k][0] >= 256 && !Present(ts[0][kernel][qs[k][0]]) {
      assert !Present(ts[n][user][qs[k][0]]);
      assert Slot(ts[n], user, qs[k]) == None;
    } else {
      assert Joined(ts[n], user, kernel);
      forall p: Path | p[0] >= 256 ensures Slot(ts[n], user, p) == Slot(ts[n], kernel, p) {
        JoinedWalksAgree(ts[n], user, kernel, p);
      }
    }
  }

  /** The first n pages from `start` on translate to consecutive frames from `target` on; others as in t. */
  ghost predicate Linear(t: Tables, t': Tables, root: nat, start: nat, n: nat, target: nat, flags: nat) {
    forall w: nat :: Translate(t', root, w) ==
      if PageOffset(w, start) < n then Leaf(LeafEntry(target + PageOffset(w, start) * PAGE_SIZE, flags))
      else Translate(t, root, w)
  }

  /** The rights of those pages are what the flags say, and all others are as in t. */
  ghost predicate RightsLinear(t: Tables, t': Tables, root: nat, start: nat, n: nat, flags: nat) {
    forall w: nat, r: Right :: Permits(t', root, w, r) <==>
      if PageOffset(w, start) < n then Present(flags) && Grants(flags, r) else Permits(t, root, w, r)
  }

  lemma {:induction false} RightsOfLinear(t: Tables, at: Places, t': Tables, at': Places, root: nat, start: nat, n: nat,
          target: nat, flags: nat)
    requires Shape(t, at) && Shape(t', at') && IsRoot(at, root) && IsRoot(at', root)
    requires Linear(t, t', root, start, n, target, flags)
    ensures RightsLinear(t, t', root, start, n, flags)
  {
    forall w: nat, r: Right
      ensures Permits(t', root, w, r) <==>
        if PageOffset(w, start) < n then Present(flags) && Grants(flags, r) else Permits(t, root, w, r)
    {
      LeafDecides(t, at, root, Indices(w), r);
      LeafDecides(t', at', root, Indices(w), r);
      var e := LeafEntry(target + PageOffset(w, start) * PAGE_SIZE, flags);
      LeafEntryParts(target + PageOffset(w, start) * PAGE_SIZE, flags);
      GrantsLow(e, flags, r);
    }
  }

  lemma {:induction false} LinearStep(t: Tables, t': Tables, at: Places, t'': Tables,
                   root: nat, start: nat, i: nat, target: nat, flags: nat)
    requires Linear(t, t', root, start, i, target, flags) && IsRoot(at, root) && i < SPAN
    requires WalksWritten(t', at, t'', root, Indices(start + i * PAGE_SIZE), LeafEntry(target + i * PAGE_SIZE, flags))
    ensures Linear(t, t'', root, start, i + 1, target, flags)
  {
    forall w: nat
      ensures Translate(t'', root, w) ==
                if PageOffset(w, start) < i + 1 then Leaf(LeafEntry(target + PageOffset(w, start) * PAGE_SIZE, flags))
                else Translate(t, root, w)
    {
      WrittenTranslations(t', at, t'', root, start + i * PAGE_SIZE, LeafEntry(target + i * PAGE_SIZE, flags), root, w);
      PageOffsetIs(w, start, i);
    }
  }

  /** Past two present levels a path can only stop at the third. */
  lemma {:induction false} StopsLater(t: Tables, root: nat, q: Path)
    requires root in t && Present(t[root][q[0]]) && Frame(t[root][q[0]]) in t
    requires Present(t[Frame(t[root][q[0]])][q[1]])
    ensures var f := Frame(t[Frame(t[root][q[0]])][q[1]]);
      f in t && !Present(t[f][q[2]]) ==> Stops(t, root, q) == Some((f, q[2]))
  {
    var f3 := Frame(t[root][q[0]]);
    var f2 := Frame(t[f3][q[1]]);
    assert q[1..][1..] == q[2..];
    assert Stops(t, f3, q[1..]) == Stops(t, f2, q[2..]);
  }

  /** Present links along q make a slot. */
  lemma {:induction false} ChainSlot(t: Tables, at: Places, root: nat, q: Path, f3: nat, f2: nat, f1: nat)
    requires Shape(t, at) && IsRoot(at, root)
    requires Present(t[root][q[0]]) && f3 == Frame(t[root][q[0]])
    requires f3 in at && Present(t[f3][q[1]]) && f2 == Frame(t[f3][q[1]])
    requires f2 in at && Present(t[f2][q[2]]) && f1 == Frame(t[f2][q[2]])
    ensures Slot(t, root, q) == Some((f1, q[3]))
  {
    assert LinkOk(t, at, root, q[0]) && LinkOk(t, at, f3, q[1]) && LinkOk(t, at, f2, q[2]);
    assert q[1..][1..] == q[2..] && q[2..][1..] == q[3..] && q[3..] == [q[3]];
    assert Slot(t, f1, q[3..]) == Some((f1, q[3]));
    assert Slot(t, f2, q[2..]) == Some((f1, q[3]));
  }

  /** A slot comes with present links along its path. */
  lemma {:induction false} SlotChain(t: Tables, at: Places, root: nat, q: Path)
    requires Shape(t, at) && IsRoot(at, root) && Slot(t, root, q).Some?
    ensures Present(t[root][q[0]])
    ensures var f3 := Frame(t[root][q[0]]);
            f3 in at && Present(t[f3][q[1]]) &&
            var f2 := Frame(t[f3][q[1]]);
            f2 in at && Present(t[f2][q[2]]) &&
            var f1 := Frame(t[f2][q[2]]);
            f1 in at && Slot(t, root, q) == Some((f1, q[3]))
  {
    assert q[1..][1..] == q[2..] && q[2..][1..] == q[3..] && q[3..] == [q[3]];
    assert LinkOk(t, at, root, q[0]);
    var f3 := Frame(t[root][q[0]]);
    assert Slot(t, f3, q[1..]).Some? && LinkOk(t, at, f3, q[1]);
    var f2 := Frame(t[f3][q[1]]);
    assert Slot(t, f2, q[2..]).Some? && LinkOk(t, at, f2, q[2]);
    ChainSlot(t, at, root, q, f3, f2, Frame(t[f2][q[2]]));
  }

  lemma {:induction false} FilledTrans(t: Tables, at: Places, t': Tables, at': Places, t'': Tables, at'': Places)
    requires Filled(t, at, t', at') && Filled(t', at', t'', at'')
    ensures Filled(t, at, t'', at'')
  {
  }

  lemma {:induction false} NewRootShape(t: Tables, at: Places, n: nat)
    requires Shape(t, at) && n !in t && IsFrame(n)
    ensures Shape(t[n := ZeroTable()], at[n := Place(0, n, 0)])
  {
    var t', at' := t[n := ZeroTable()], at[n := Place(0, n, 0)];
    forall f, i | f in at' && at'[f].depth < 3 && 0 <= i < ENTRIES && Present(t'[f][i]) ensures LinkOk(t', at', f, i) {
      assert LinkOk(t, at, f, i);
    }
  }

  lemma {:induction false} NewRootWalks(t: Tables, at: Places, n: nat, g: nat, p: seq<nat>)
    requires Shape(t, at) && n !in t && g in at && at[g].depth + |p| == 4
    ensures Walk(t[n := ZeroTable()], g, p) == Walk(t, g, p)
    ensures Slot(t[n := ZeroTable()], g, p) == Slot(t, g, p)
    decreases |p|
  {
    if |p| > 1 && p[0] < ENTRIES && Present(t[g][p[0]]) {
      assert LinkOk(t, at, g, p[0]);
      NewRootWalks(t, at, n, Frame(t[g][p[0]]), p[1..]);
    }
  }
}
