/** Page-table entries, the hardware walk as a function of memory, and what one write does to every walk. */
module PageWalk {
  import opened Common

  const ENTRIES: nat := 512
  const PRESENT: nat := 1
  const TABLE_FLAGS: nat := 7  // PRESENT | READ_WRITE | USER_SUPERVISOR

  type Table = t: seq<nat> | |t| == ENTRIES witness seq(ENTRIES, _ => 0)
  type Tables = map<nat, Table>  // keyed by physical frame address
  type Path = p: seq<nat> | |p| == 4 && forall i | 0 <= i < 4 :: p[i] < ENTRIES witness [0, 0, 0, 0]

  // ---- Entries ----

  predicate Present(e: nat) { e % 2 == 1 }

  /** Bit 7: in the three upper levels it ends the walk in a large page. */
  predicate Large(e: nat) { e / 128 % 2 == 1 }

  /** e & PAGE_PHYSICAL_ADDRESS_MASK: bits 12 to 47. */
  function Frame(e: nat): nat { e / 4096 % 0x10_0000_0000 * 4096 }

  /** (paddr & PAGE_PHYSICAL_ADDRESS_MASK) | (flags & 0xFFF). */
  function LeafEntry(paddr: nat, flags: nat): nat { Frame(paddr) + flags % 4096 }

  /** A page-aligned nonzero address below 2^48. */
  predicate IsFrame(f: nat) { f != 0 && Frame(f) == f }

  lemma {:induction false} LeafEntryParts(paddr: nat, flags: nat)
    ensures Frame(LeafEntry(paddr, flags)) == Frame(paddr)
    ensures LeafEntry(paddr, flags) % 4096 == flags % 4096
    ensures Present(LeafEntry(paddr, flags)) <==> Present(flags)
    ensures LeafEntry(paddr, flags) < 0x1_0000_0000_0000
  {
  }

  /** What an entry lets through besides reads by the kernel: writes, and accesses from user mode. */
  datatype Right = Writing | UserMode

  /** Bit 1 for writes, bit 2 for user mode. */
  predicate Grants(e: nat, r: Right) {
    match r
    case Writing => e / 2 % 2 == 1
    case UserMode => e / 4 % 2 == 1
  }

  /** The low 12 bits decide. */
  lemma {:induction false} GrantsLow(e: nat, d: nat, r: Right)
    requires e % 4096 == d % 4096
    ensures Grants(e, r) == Grants(d, r)
  {
    LowBits(e / 4096, e % 4096);
    LowBits(d / 4096, d % 4096);
  }

  lemma {:induction false} LowBits(k: nat, b: nat)
    ensures (k * 4096 + b) / 2 % 2 == b / 2 % 2 && (k * 4096 + b) / 4 % 2 == b / 4 % 2
  {
    LowBit1(k, b);
    LowBit2(k, b);
  }

  lemma {:induction false} LowBit1(k: nat, b: nat)
    ensures (k * 4096 + b) / 2 % 2 == b / 2 % 2
  {
    assert (k * 4096 + b) / 2 == 2 * (k * 1024) + b / 2;
    EvenMore(k * 1024, b / 2);
  }

  lemma {:induction false} LowBit2(k: nat, b: nat)
    ensures (k * 4096 + b) / 4 % 2 == b / 4 % 2
  {
    assert (k * 4096 + b) / 4 == 2 * (k * 512) + b / 4;
    EvenMore(k * 512, b / 4);
  }

  lemma {:induction false} EvenMore(k: nat, b: nat) ensures (2 * k + b) % 2 == b % 2 {}

  /** An upper-level entry for the table at c: present, and open to writes and to user mode. */
  predicate LinksTo(e: nat, c: nat) { e == c + 1 + 2 + 4 }

  lemma {:induction false} LinkGrants(e: nat, c: nat, r: Right)
    requires LinksTo(e, c) && c % 4096 == 0
    ensures Grants(e, r)
  {
    GrantsLow(e, 7, r);
  }

  lemma {:induction false} TableEntryParts(f: nat)
    requires IsFrame(f)
    ensures Frame(TABLE_FLAGS + f) == f && Present(TABLE_FLAGS + f) && !Large(TABLE_FLAGS + f)
    ensures LinksTo(TABLE_FLAGS + f, f)
  {
    var k := f / 4096 % 0x10_0000_0000;
    assert f == k * 4096;
    TableEntryBits(k, f);
  }

  lemma {:induction false} TableEntryBits(k: nat, f: nat)
    requires f == k * 4096
    ensures (TABLE_FLAGS + f) / 4096 == k && (TABLE_FLAGS + f) % 2 == 1 && (TABLE_FLAGS + f) / 128 % 2 == 0
  {
    TableEntryOdd(k);
    TableEntryHigh(k);
    Even(16 * k);
  }

  lemma {:induction false} TableEntryOdd(k: nat) ensures (7 + k * 4096) % 2 == 1 {}

  lemma {:induction false} TableEntryHigh(k: nat) ensures (7 + k * 4096) / 128 == 2 * (16 * k) {}

  lemma {:induction false} Even(k: nat) ensures 2 * k % 2 == 0 {}

  // ---- Virtual addresses ----

  /** The 36-bit page number a 48-bit walk depends on. */
  function PageNo(v: nat): nat { v / 4096 % 0x10_0000_0000 }

  /** The four table indices pt_map extracts, root first. */
  function Indices(v: nat): Path {
    [v / 0x80_0000_0000 % 512, v / 0x4000_0000 % 512, v / 0x20_0000 % 512, v / 0x1000 % 512]
  }

  /** The walk path is the page number in base 512. */
  lemma {:induction false} IndicesArePageNo(v: nat, w: nat)
    ensures Indices(v) == Indices(w) <==> PageNo(v) == PageNo(w)
  {
    IndicesOfPageNo(v);
    IndicesOfPageNo(w);
    Base512(PageNo(v));
    Base512(PageNo(w));
  }

  lemma {:induction false} IndicesOfPageNo(v: nat)
    ensures var q, p := PageNo(v), Indices(v);
            p[0] == q / 0x800_0000 && p[1] == q / 0x4_0000 % 512 && p[2] == q / 0x200 % 512 && p[3] == q % 512
  {
    Digit0(v);
    Digit1(v);
    Digit2(v);
    Digit3OfPage(v / 4096);
  }

  lemma {:induction false} Digit3OfPage(q: nat)
    ensures q % 512 == q % 0x10_0000_0000 % 512
  {
    var h, r := q / 0x10_0000_0000, q % 0x10_0000_0000;
    assert q == h * 0x800_0000 * 512 + r;
  }

  lemma {:induction false} Digit0(v: nat)
    ensures v / 0x80_0000_0000 % 512 == PageNo(v) / 0x800_0000
  {
    assert v / 0x80_0000_0000 == v / 4096 / 0x800_0000;
  }

  lemma {:induction false} Digit1(v: nat)
    ensures v / 0x4000_0000 % 512 == PageNo(v) / 0x4_0000 % 512
  {
    var q := v / 4096;
    assert v / 0x4000_0000 == q / 0x4_0000;
    Digit1OfPage(q);
  }

  lemma {:induction false} HighPart(h: nat, r: nat)
    requires r < 0x10_0000_0000
    ensures (h * 0x10_0000_0000 + r) / 0x4_0000 == h * 0x200 * 512 + r / 0x4_0000
  {
  }

  lemma {:induction false} ModDrops(h: nat, y: nat)
    ensures (h * 512 + y) % 512 == y % 512
  {
  }

  lemma {:induction false} Digit1OfPage(q: nat)
    ensures q / 0x4_0000 % 512 == q % 0x10_0000_0000 / 0x4_0000 % 512
  {
    HighPart(q / 0x10_0000_0000, q % 0x10_0000_0000);
    ModDrops(q / 0x10_0000_0000 * 0x200, q % 0x10_0000_0000 / 0x4_0000);
  }

  lemma {:induction false} Digit2(v: nat)
    ensures v / 0x20_0000 % 512 == PageNo(v) / 0x200 % 512
  {
    var q := v / 4096;
    assert v / 0x20_0000 == q / 0x200;
    Digit2OfPage(q);
  }

  lemma {:induction false} Digit2OfPage(q: nat)
    ensures q / 0x200 % 512 == q % 0x10_0000_0000 / 0x200 % 512
  {
    var h, r := q / 0x10_0000_0000, q % 0x10_0000_0000;
    assert q / 0x200 == h * 0x4_0000 * 512 + r / 0x200;
  }

  lemma {:induction false} Base512(q: nat)
    requires q < 0x10_0000_0000
    ensures q == q / 0x800_0000 * 0x800_0000 + q / 0x4_0000 % 512 * 0x4_0000 + q / 0x200 % 512 * 0x200 + q % 512
  {
    assert q / 0x4_0000 == q / 0x200 / 512;
    assert q / 0x800_0000 == q / 0x4_0000 / 512;
  }

  // ---- The walk ----

  /** The leaf slot that path p leads to from table f, when no upper level is missing. */
  function Slot(t: Tables, f: nat, p: seq<nat>): Option<(nat, nat)>
    decreases |p|
  {
    if f !in t || p == [] || p[0] >= ENTRIES then None
    else if |p| == 1 then Some((f, p[0]))
    else if Present(t[f][p[0]]) && !Large(t[f][p[0]]) then Slot(t, Frame(t[f][p[0]]), p[1..])
    else None
  }

  function Leaf(e: nat): Option<nat> { if Present(e) then Some(e) else None }

  /** The 4-level walk: the leaf entry it ends at, or None for a page fault. */
  function Walk(t: Tables, f: nat, p: seq<nat>): Option<nat> {
    match Slot(t, f, p)
    case None => None
    case Some(s) => if s.0 in t && s.1 < ENTRIES then Leaf(t[s.0][s.1]) else None
  }

  // ---- Shape ----

  /** Where a table hangs: its level below the root, the table above it and the entry used there. */
  datatype Place = Place(depth: nat, parent: nat, idx: nat)

  type Places = map<nat, Place>

  /**
   Every owned table knows its place, and every present upper-level entry leads, open to writes
   and to user mode, to the table placed behind it. Below the top level that makes the tables a
   tree: a table is reached from its own parent only. A top-level entry may lead into a table
   another root placed.
   */
  ghost predicate Shape(t: Tables, at: Places) {
    && at.Keys <= t.Keys
    && (forall f | f in at :: IsFrame(f) && at[f].depth <= 3)
    && (forall f, i | f in at && at[f].depth < 3 && 0 <= i < ENTRIES && Present(t[f][i]) :: LinkOk(t, at, f, i))
  }

  ghost predicate LinkOk(t: Tables, at: Places, f: nat, i: nat)
    requires f in at && f in t && i < ENTRIES
  {
    var c := Frame(t[f][i]);
    && !Large(t[f][i]) && LinksTo(t[f][i], c)
    && c in at
    && at[c].depth == at[f].depth + 1 && at[c].idx == i
    && (at[f].depth > 0 ==> at[c].parent == f)
  }

  ghost predicate IsRoot(at: Places, r: nat) { r in at && at[r].depth == 0 }

  /** Below the top level, a leaf slot is reached from one table of each level only, along one path. */
  lemma {:induction false} SlotFixesPath(t: Tables, at: Places, f: nat, p: seq<nat>, f': nat, p': seq<nat>)
    requires Shape(t, at) && f in at && f' in at && at[f].depth == at[f'].depth > 0
    requires |p| == |p'| == 4 - at[f].depth
    requires Slot(t, f, p) == Slot(t, f', p') != None
    ensures f == f' && p == p'
    decreases |p|
  {
    if |p| == 1 {
      assert p == [p[0]] && p' == [p'[0]];
    } else {
      assert LinkOk(t, at, f, p[0]) && LinkOk(t, at, f', p'[0]);
      SlotFixesPath(t, at, Frame(t[f][p[0]]), p[1..], Frame(t[f'][p'[0]]), p'[1..]);
      assert p == [p[0]] + p[1..] && p' == [p'[0]] + p'[1..];
    }
  }

  /** Two roots reach the same leaf slot only along the same path and through the same top table. */
  lemma {:induction false} SlotShared(t: Tables, at: Places, r: nat, p: Path, r': nat, p': Path)
    requires Shape(t, at) && IsRoot(at, r) && IsRoot(at, r') && Slot(t, r, p).Some?
    ensures Slot(t, r', p') == Slot(t, r, p) <==>
              p' == p && Present(t[r'][p[0]]) && Frame(t[r'][p[0]]) == Frame(t[r][p[0]])
  {
    assert LinkOk(t, at, r, p[0]);
    if Slot(t, r', p') == Slot(t, r, p) {
      assert LinkOk(t, at, r', p'[0]);
      SlotFixesPath(t, at, Frame(t[r][p[0]]), p[1..], Frame(t[r'][p'[0]]), p'[1..]);
      assert p == [p[0]] + p[1..] && p' == [p'[0]] + p'[1..];
    }
    if p' == p && Present(t[r'][p[0]]) {
      assert LinkOk(t, at, r', p[0]);
    }
  }

  // ---- Rights ----

  /** The processor lets an access through when every entry on the way does. */
  predicate Allows(t: Tables, f: nat, p: seq<nat>, r: Right)
    decreases |p|
  {
    && f in t && p != [] && p[0] < ENTRIES && Present(t[f][p[0]]) && Grants(t[f][p[0]], r)
    && (|p| > 1 ==> !Large(t[f][p[0]]) && Allows(t, Frame(t[f][p[0]]), p[1..], r))
  }

  /** In tables of the right shape it is the leaf entry alone that decides. */
  lemma {:induction false} LeafDecides(t: Tables, at: Places, f: nat, p: seq<nat>, r: Right)
    requires Shape(t, at) && f in at && at[f].depth + |p| == 4
    ensures Allows(t, f, p, r) <==> Walk(t, f, p).Some? && Grants(Walk(t, f, p).value, r)
    decreases |p|
  {
    if |p| > 1 && p[0] < ENTRIES && Present(t[f][p[0]]) {
      assert LinkOk(t, at, f, p[0]);
      LinkGrants(t[f][p[0]], Frame(t[f][p[0]]), r);
      LeafDecides(t, at, Frame(t[f][p[0]]), p[1..], r);
    }
  }

  // ---- set_page_entry ----

  function ZeroTable(): Table { seq(ENTRIES, _ => 0) }

  /** Memory after set_page_entry filled the missing entry i of table f with the new table n. */
  function WithTable(t: Tables, f: nat, i: nat, n: nat): Tables
    requires f in t && i < ENTRIES
  {
    t[f := t[f][i := TABLE_FLAGS + n]][n := ZeroTable()]
  }

  lemma {:induction false} WithTableShape(t: Tables, at: Places, f: nat, i: nat, n: nat)
    requires Shape(t, at) && f in at && at[f].depth < 3 && i < ENTRIES && n !in t && IsFrame(n)
    ensures Shape(WithTable(t, f, i, n), at[n := Place(at[f].depth + 1, f, i)])
  {
    TableEntryParts(n);
    var t', at' := WithTable(t, f, i, n), at[n := Place(at[f].depth + 1, f, i)];
    forall g, j | g in at' && at'[g].depth < 3 && 0 <= j < ENTRIES && Present(t'[g][j])
      ensures LinkOk(t', at', g, j)
    {
      assert (g == f && j == i) || LinkOk(t, at, g, j);
    }
  }

  /** Filling a missing upper-level entry changes no walk: the new table is empty. */
  lemma {:induction false} WithTableWalks(t: Tables, at: Places, f: nat, i: nat, n: nat, g: nat, p: seq<nat>)
    requires Shape(t, at) && f in at && at[f].depth < 3 && i < ENTRIES && n !in t && IsFrame(n)
    requires !Present(t[f][i])
    requires g in at && at[g].depth + |p| == 4
    ensures Walk(WithTable(t, f, i, n), g, p) == Walk(t, g, p)
    ensures Slot(t, g, p).Some? ==> Slot(WithTable(t, f, i, n), g, p) == Slot(t, g, p)
    decreases |p|
  {
    TableEntryParts(n);
    var t' := WithTable(t, f, i, n);
    if |p| > 1 && p[0] < ENTRIES {
      if g == f && p[0] == i {
        EmptyTableWalks(t', n, p[1..]);
      } else if Present(t[g][p[0]]) {
        assert LinkOk(t, at, g, p[0]);
        WithTableWalks(t, at, f, i, n, Frame(t[g][p[0]]), p[1..]);
      }
    }
  }

  lemma {:induction false} EmptyTableWalks(t: Tables, n: nat, p: seq<nat>)
    requires n in t && t[n] == ZeroTable()
    ensures Walk(t, n, p) == None
  {
  }

  // ---- Leaf writes ----

  function WithLeaf(t: Tables, f: nat, i: nat, e: nat): Tables
    requires f in t && i < ENTRIES
  {
    t[f := t[f][i := e]]
  }

  lemma {:induction false} WithLeafShape(t: Tables, at: Places, f: nat, i: nat, e: nat)
    requires Shape(t, at) && f in at && at[f].depth == 3 && i < ENTRIES
    ensures Shape(WithLeaf(t, f, i, e), at)
  {
    forall g, j | g in at && at[g].depth < 3 && 0 <= j < ENTRIES && Present(t[g][j])
      ensures LinkOk(WithLeaf(t, f, i, e), at, g, j)
    {
      assert LinkOk(t, at, g, j);
    }
  }

  /** A leaf write moves no slot and changes exactly the walks that end in the written one. */
  lemma {:induction false} WithLeafWalks(t: Tables, at: Places, f: nat, i: nat, e: nat, g: nat, p: seq<nat>)
    requires Shape(t, at) && f in at && at[f].depth == 3 && i < ENTRIES
    requires g in at && at[g].depth + |p| == 4
    ensures Slot(WithLeaf(t, f, i, e), g, p) == Slot(t, g, p)
    ensures Walk(WithLeaf(t, f, i, e), g, p) ==
              if Slot(t, g, p) == Some((f, i)) then Leaf(e) else Walk(t, g, p)
    decreases |p|
  {
    if |p| > 1 && p[0] < ENTRIES && Present(t[g][p[0]]) {
      assert LinkOk(t, at, g, p[0]);
      WithLeafWalks(t, at, f, i, e, Frame(t[g][p[0]]), p[1..]);
    }
  }
}
