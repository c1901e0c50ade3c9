/** How many page tables mapping a page, or a range of pages, has to add. */
module TableCounting {
  import opened Common
  import opened PageWalk

  /** How many tables set_page_entry has to add on the way from table f along p. */
  function Missing(t: Tables, f: nat, p: seq<nat>): nat
    decreases |p|
  {
    if |p| <= 1 then 0
    else if f in t && p[0] < ENTRIES && Present(t[f][p[0]]) then Missing(t, Frame(t[f][p[0]]), p[1..])
    else |p| - 1
  }

  lemma {:induction false} MissingBound(t: Tables, f: nat, p: seq<nat>)
    requires p != []
    ensures Missing(t, f, p) <= |p| - 1
    decreases |p|
  {
    if |p| > 1 && f in t && p[0] < ENTRIES && Present(t[f][p[0]]) { MissingBound(t, Frame(t[f][p[0]]), p[1..]); }
  }

  /** Where the way from table f along p first lacks a table: the table and the entry. */
  function Stops(t: Tables, f: nat, p: seq<nat>): Option<(nat, nat)>
    decreases |p|
  {
    if |p| <= 1 then None
    else if f in t && p[0] < ENTRIES && Present(t[f][p[0]]) then Stops(t, Frame(t[f][p[0]]), p[1..])
    else Some((f, p[0]))
  }

  /** How many tables on the way along w, below the first one, are not on the way along p. */
  function Apart(p: seq<nat>, w: seq<nat>): (a: nat)
    requires |p| == |w|
    ensures a == 0 || a < |p|
  {
    if |p| <= 1 then 0 else if p[0] == w[0] then Apart(p[1..], w[1..]) else |p| - 1
  }

  predicate Digits(p: seq<nat>) { forall i | 0 <= i < |p| :: p[i] < ENTRIES }

  // ---- One table more ----

  /** t' is t with a new, empty table behind entry i of table f. */
  ghost predicate Added(t: Tables, t': Tables, f: nat, i: nat) {
    && f in t && f in t' && i < ENTRIES && !Present(t[f][i])
    && var n := Frame(t'[f][i]); n !in t && IsFrame(n) && t' == WithTable(t, f, i, n)
  }

  /** A new table shortens the way of exactly those paths that stopped where it is. */
  lemma {:induction false} AddedMissing(t: Tables, at: Places, t': Tables, f: nat, i: nat, g: nat, p: seq<nat>)
    requires Shape(t, at) && f in at && at[f].depth < 3 && Added(t, t', f, i)
    requires g in at && at[g].depth + |p| == 4 && Digits(p)
    ensures Missing(t, g, p) == Missing(t', g, p) + if Stops(t, g, p) == Some((f, i)) then 1 else 0
    decreases |p|
  {
    var n := Frame(t'[f][i]);
    TableEntryParts(n);
    if |p| > 1 {
      if Present(t[g][p[0]]) {
        assert LinkOk(t, at, g, p[0]);
        AddedMissing(t, at, t', f, i, Frame(t[g][p[0]]), p[1..]);
      } else if g == f && p[0] == i {
        assert t'[n] == ZeroTable();
        assert Missing(t', n, p[1..]) == |p| - 2;
      }
    }
  }

  lemma {:induction false} StopsBelow(t: Tables, at: Places, g: nat, p: seq<nat>)
    requires Shape(t, at) && g in at && at[g].depth + |p| == 4 && Digits(p) && Stops(t, g, p).Some?
    ensures Stops(t, g, p).value.0 in at && at[Stops(t, g, p).value.0].depth + Missing(t, g, p) == 3
    ensures Present(t[g][p[0]]) <==> Missing(t, g, p) < |p| - 1
    decreases |p|
  {
    if Present(t[g][p[0]]) {
      assert LinkOk(t, at, g, p[0]);
      StopsBelow(t, at, Frame(t[g][p[0]]), p[1..]);
      MissingBound(t, Frame(t[g][p[0]]), p[1..]);
    }
  }

  /** Two paths of one root that stop at one entry are the same up to there. */
  lemma {:induction false} SameStop(t: Tables, at: Places, g: nat, p: seq<nat>, g': nat, p': seq<nat>)
    requires Shape(t, at) && g in at && g' in at && at[g].depth == at[g'].depth
    requires at[g].depth + |p| == 4 && |p'| == |p| && Digits(p) && Digits(p')
    requires at[g].depth == 0 ==> g == g'
    requires Stops(t, g, p) == Stops(t, g', p') != None
    ensures g == g' && Apart(p, p') < Missing(t, g, p) == Missing(t, g', p')
    decreases |p|
  {
    StopsBelow(t, at, g, p);
    StopsBelow(t, at, g', p');
    if Present(t[g][p[0]]) {
      assert LinkOk(t, at, g, p[0]) && LinkOk(t, at, g', p'[0]);
      SameStop(t, at, Frame(t[g][p[0]]), p[1..], Frame(t[g'][p'[0]]), p'[1..]);
    }
  }

  /** From t to t' tables were added on the way along q only. */
  ghost predicate Gained(t: Tables, t': Tables, root: nat, q: Path) {
    forall w: Path ::
      Missing(t', root, w) == Missing(t, root, w) || Apart(q, w) <= Missing(t', root, w) < Missing(t, root, w)
  }

  lemma {:induction false} GainedTrans(t: Tables, t': Tables, t'': Tables, root: nat, q: Path)
    requires Gained(t, t', root, q) && Gained(t', t'', root, q)
    ensures Gained(t, t'', root, q)
  {
  }

  lemma {:induction false} AddGains(t: Tables, at: Places, t': Tables, f: nat, i: nat, root: nat, q: Path)
    requires Shape(t, at) && IsRoot(at, root) && f in at && at[f].depth < 3 && Added(t, t', f, i)
    requires Stops(t, root, q) == Some((f, i))
    ensures Gained(t, t', root, q) && Missing(t', root, q) + 1 == Missing(t, root, q)
  {
    forall w: Path
      ensures Missing(t', root, w) == Missing(t, root, w) || Apart(q, w) <= Missing(t', root, w) < Missing(t, root, w)
    {
      AddedMissing(t, at, t', f, i, root, w);
      if Stops(t, root, w) == Some((f, i)) { SameStop(t, at, root, q, root, w); }
    }
    AddedMissing(t, at, t', f, i, root, q);
  }

  lemma {:induction false} SlotLacksNothing(t: Tables, g: nat, q: seq<nat>)
    requires Slot(t, g, q).Some?
    ensures Missing(t, g, q) == 0
    decreases |q|
  {
    if |q| > 1 { SlotLacksNothing(t, Frame(t[g][q[0]]), q[1..]); }
  }

  /** A path that has its leaf slot lends its tables to every other path. */
  lemma {:induction false} MissingShares(t: Tables, g: nat, q: seq<nat>, w: seq<nat>)
    requires Slot(t, g, q).Some? && |w| == |q|
    ensures Missing(t, g, w) <= Apart(q, w)
    decreases |q|
  {
    if |q| > 1 {
      if q[0] == w[0] {
        MissingShares(t, Frame(t[g][q[0]]), q[1..], w[1..]);
      } else {
        MissingBound(t, g, w);
      }
    }
  }

  /** What is missing of any path after q was mapped. */
  ghost predicate MissingFell(t: Tables, t': Tables, root: nat, q: Path) {
    forall w: Path :: Missing(t', root, w) == Min(Missing(t, root, w), Apart(q, w))
  }

  /** Once q has its slot, what is still missing of any path is known exactly. */
  lemma {:induction false} MissingAfter(t: Tables, t': Tables, root: nat, q: Path)
    requires Gained(t, t', root, q) && Slot(t', root, q).Some?
    ensures MissingFell(t, t', root, q)
  {
    forall w: Path ensures Missing(t', root, w) == Min(Missing(t, root, w), Apart(q, w)) {
      MissingShares(t', root, q, w);
    }
  }

  /** Writing a leaf entry adds and removes no table. */
  lemma {:induction false} LeafKeepsMissing(t: Tables, at: Places, f: nat, i: nat, e: nat, g: nat, p: seq<nat>)
    requires Shape(t, at) && f in at && at[f].depth == 3 && i < ENTRIES
    requires g in at && at[g].depth + |p| == 4 && Digits(p)
    ensures Missing(WithLeaf(t, f, i, e), g, p) == Missing(t, g, p)
    decreases |p|
  {
    if |p| > 1 && Present(t[g][p[0]]) {
      assert LinkOk(t, at, g, p[0]);
      LeafKeepsMissing(t, at, f, i, e, Frame(t[g][p[0]]), p[1..]);
    }
  }

  /** On every path the same tables are missing. */
  ghost predicate SameMissing(t: Tables, t': Tables, root: nat) {
    forall w: Path :: Missing(t', root, w) == Missing(t, root, w)
  }

  lemma {:induction false} LeafKeepsAll(t: Tables, at: Places, f: nat, i: nat, e: nat, root: nat)
    requires Shape(t, at) && IsRoot(at, root) && f in at && at[f].depth == 3 && i < ENTRIES
    ensures SameMissing(t, WithLeaf(t, f, i, e), root)
  {
    forall w: Path ensures Missing(WithLeaf(t, f, i, e), root, w) == Missing(t, root, w) {
      LeafKeepsMissing(t, at, f, i, e, root, w);
    }
  }

  lemma {:induction false} LeafKeepsFall(t: Tables, t': Tables, at: Places, f: nat, i: nat, e: nat, root: nat, q: Path)
    requires MissingFell(t, t', root, q) && Shape(t', at) && IsRoot(at, root)
    requires f in at && at[f].depth == 3 && i < ENTRIES
    ensures MissingFell(t, WithLeaf(t', f, i, e), root, q)
  {
    LeafKeepsAll(t', at, f, i, e, root);
  }

  // ---- A range of pages ----

  /** The path of the i-th page from start on. */
  function PathAt(start: nat, i: nat): Path { Indices(start + i * PAGE_SIZE) }

  /** What path w still lacks once the first i pages from start on are mapped. */
  function MissingThen(t: Tables, root: nat, start: nat, i: nat, w: Path): nat {
    if i == 0 then Missing(t, root, w)
    else Min(MissingThen(t, root, start, i - 1, w), Apart(PathAt(start, i - 1), w))
  }

  /** How many tables mapping the first n pages from start on adds. */
  function TablesFor(t: Tables, root: nat, start: nat, n: nat): nat {
    if n == 0 then 0 else TablesFor(t, root, start, n - 1) + MissingThen(t, root, start, n - 1, PathAt(start, n - 1))
  }

  /** t' is t after i pages of a range, as far as missing tables go. */
  ghost predicate MissingIs(t: Tables, t': Tables, root: nat, start: nat, i: nat) {
    forall w: Path :: Missing(t', root, w) == MissingThen(t, root, start, i, w)
  }

  lemma {:induction false} MissingIsNext(t: Tables, t': Tables, t'': Tables, root: nat, start: nat, i: nat)
    requires MissingIs(t, t', root, start, i) && MissingFell(t', t'', root, PathAt(start, i))
    ensures MissingIs(t, t'', root, start, i + 1)
  {
  }

  lemma {:induction false} TablesForGrows(t: Tables, root: nat, start: nat, i: nat, n: nat)
    requires i <= n
    ensures TablesFor(t, root, start, i) <= TablesFor(t, root, start, n)
    decreases n
  {
    if i < n { TablesForGrows(t, root, start, i, n - 1); }
  }

  /** Memory with more tables lacks fewer of them, on every path and so for every range. */
  ghost predicate LacksNoMore(t: Tables, t': Tables, root: nat) {
    forall w: Path :: Missing(t', root, w) <= Missing(t, root, w)
  }

  lemma {:induction false} MissingThenFalls(t: Tables, root: nat, start: nat, i: nat, w: Path)
    ensures MissingThen(t, root, start, i, w) <= Missing(t, root, w)
  {
    if i > 0 { MissingThenFalls(t, root, start, i - 1, w); }
  }

  lemma {:induction false} MissingIsLess(t: Tables, t': Tables, root: nat, start: nat, i: nat)
    requires MissingIs(t, t', root, start, i)
    ensures LacksNoMore(t, t', root)
  {
    forall w: Path ensures Missing(t', root, w) <= Missing(t, root, w) { MissingThenFalls(t, root, start, i, w); }
  }

  lemma {:induction false} MissingThenMonotone(t: Tables, t': Tables, root: nat, start: nat, i: nat, w: Path)
    requires LacksNoMore(t, t', root)
    ensures MissingThen(t', root, start, i, w) <= MissingThen(t, root, start, i, w)
  {
    if i > 0 { MissingThenMonotone(t, t', root, start, i - 1, w); }
  }

  lemma {:induction false} TablesForMonotone(t: Tables, t': Tables, root: nat, start: nat, n: nat)
    requires LacksNoMore(t, t', root)
    ensures TablesFor(t', root, start, n) <= TablesFor(t, root, start, n)
  {
    if n > 0 {
      TablesForMonotone(t, t', root, start, n - 1);
      MissingThenMonotone(t, t', root, start, n - 1, PathAt(start, n - 1));
    }
  }

  /** How many tables, of the three levels below the first, begin at page number q. */
  function Begins(q: nat): nat {
    (if q % 0x200 == 0 then 1 else 0) + (if q % 0x4_0000 == 0 then 1 else 0) + (if q % 0x800_0000 == 0 then 1 else 0)
  }

  /** How many begin after page number 0, up to page number q. */
  function Begun(q: nat): nat { if q == 0 then 0 else Begun(q - 1) + Begins(q) }

  lemma {:induction false} BegunAre(q: nat)
    ensures Begun(q) == q / 0x200 + q / 0x4_0000 + q / 0x800_0000
  {
    if q > 0 {
      BegunAre(q - 1);
      NextLow(q - 1);
      NextMiddle(q - 1);
      NextHigh(q - 1);
    }
  }

  lemma {:induction false} NextLow(q: nat)
    ensures (q + 1) / 0x200 == q / 0x200 + if (q + 1) % 0x200 == 0 then 1 else 0
  {
  }

  lemma {:induction false} NextMiddle(q: nat)
    ensures (q + 1) / 0x4_0000 == q / 0x4_0000 + if (q + 1) % 0x4_0000 == 0 then 1 else 0
  {
  }

  lemma {:induction false} NextHigh(q: nat)
    ensures (q + 1) / 0x800_0000 == q / 0x800_0000 + if (q + 1) % 0x800_0000 == 0 then 1 else 0
  {
  }

  /** The digits of an address by its page. */
  lemma {:induction false} IndicesAre(v: nat, q: nat)
    requires q == v / PAGE_SIZE
    ensures Indices(v) == [q / 0x800_0000 % 512, q / 0x4_0000 % 512, q / 0x200 % 512, q % 512]
  {
    assert v / 0x80_0000_0000 == q / 0x800_0000;
    assert v / 0x4000_0000 == q / 0x4_0000;
    assert v / 0x20_0000 == q / 0x200;
  }

  /** The next page has the tables of the page before it, but for those that begin with it. */
  lemma {:induction false} NextApart(start: nat, i: nat)
    ensures Apart(PathAt(start, i), PathAt(start, i + 1)) <= Begins(start / PAGE_SIZE + i + 1)
  {
    var q := start / PAGE_SIZE + i;
    IndicesAre(start + i * PAGE_SIZE, q);
    IndicesAre(start + (i + 1) * PAGE_SIZE, q + 1);
    SameTables(q);
    FourDigits(PathAt(start, i), PathAt(start, i + 1));
  }

  lemma {:induction false} FourDigits(p: Path, w: Path)
    ensures Apart(p, w) == if p[0] != w[0] then 3 else if p[1] != w[1] then 2 else if p[2] != w[2] then 1 else 0
  {
    assert p[1..][0] == p[1] && w[1..][0] == w[1] && p[1..][1..] == p[2..] && w[1..][1..] == w[2..];
    assert Apart(p[1..], w[1..]) == if p[1] == w[1] then Apart(p[2..], w[2..]) else 2;
    assert p[2..][0] == p[2] && w[2..][0] == w[2];
  }

  lemma {:induction false} SameTables(q: nat)
    ensures (q + 1) % 0x200 != 0 ==> (q + 1) / 0x200 == q / 0x200
    ensures (q + 1) % 0x4_0000 != 0 ==> (q + 1) / 0x4_0000 == q / 0x4_0000
    ensures (q + 1) % 0x800_0000 != 0 ==> (q + 1) / 0x800_0000 == q / 0x800_0000
    ensures (q + 1) % 0x800_0000 == 0 ==> (q + 1) % 0x4_0000 == 0
    ensures (q + 1) % 0x4_0000 == 0 ==> (q + 1) % 0x200 == 0
  {
    NextLow(q);
    NextMiddle(q);
    NextHigh(q);
    if (q + 1) % 0x800_0000 == 0 { Multiple(q + 1, (q + 1) / 0x800_0000 * 0x200); }
    if (q + 1) % 0x4_0000 == 0 { LowMultiple(q + 1, (q + 1) / 0x4_0000 * 0x200); }
  }

  lemma {:induction false} Multiple(q: nat, h: nat)
    requires q == h * 0x4_0000
    ensures q % 0x4_0000 == 0
  {
  }

  lemma {:induction false} LowMultiple(q: nat, h: nat)
    requires q == h * 0x200
    ensures q % 0x200 == 0
  {
  }

  lemma {:induction false} FirstNeeds(t: Tables, root: nat, start: nat)
    ensures TablesFor(t, root, start, 1) <= 3
  {
    MissingBound(t, root, PathAt(start, 0));
  }

  /** Once its predecessor is mapped, a page lacks at most the tables that begin with it. */
  lemma {:induction false} NextNeeds(t: Tables, root: nat, start: nat, i: nat)
    ensures TablesFor(t, root, start, i + 2) <= TablesFor(t, root, start, i + 1) + Begins(start / PAGE_SIZE + i + 1)
  {
    NextApart(start, i);
  }

  lemma {:induction false} TablesForBegun(t: Tables, root: nat, start: nat, n: nat, q: nat)
    requires n > 0 && q == start / PAGE_SIZE
    ensures TablesFor(t, root, start, n) <= 3 + Begun(q + n - 1) - Begun(q)
    decreases n
  {
    if n == 1 {
      FirstNeeds(t, root, start);
    } else {
      TablesForBegun(t, root, start, n - 1, q);
      NextNeeds(t, root, start, n - 2);
    }
  }

  /** Three tables, and one for each boundary of 512, 512^2 and 512^3 pages between the first page and the last. */
  function TablesBound(start: nat, n: nat): (r: nat) {
    var (a, b) := (start / PAGE_SIZE, start / PAGE_SIZE + n);
    if n == 0 then 0 else
    3 + (b - 1) / 0x200 - a / 0x200 + ((b - 1) / 0x4_0000 - a / 0x4_0000) + ((b - 1) / 0x800_0000 - a / 0x800_0000)
  }

  /** Whatever is there already, mapping n pages from start on needs no more tables than that. */
  lemma {:induction false} TablesForBound(t: Tables, root: nat, start: nat, n: nat)
    ensures TablesFor(t, root, start, n) <= TablesBound(start, n)
  {
    if n > 0 {
      var q := start / PAGE_SIZE;
      TablesForBegun(t, root, start, n, q);
      BegunAre(q);
      BegunAre(q + n - 1);
    }
  }

  // ---- Several ranges ----

  /** The paths of n pages from start on. */
  function PathsOf(start: nat, n: nat): seq<Path> {
    if n == 0 then [] else PathsOf(start, n - 1) + [PathAt(start, n - 1)]
  }

  /** What path w still lacks once all of qs are mapped. */
  function Lacked(t: Tables, root: nat, qs: seq<Path>, w: Path): nat {
    if qs == [] then Missing(t, root, w) else Min(Lacked(t, root, qs[..|qs| - 1], w), Apart(qs[|qs| - 1], w))
  }

  /** How many tables n pages from start on add once all of qs are mapped. */
  function NewTables(t: Tables, root: nat, qs: seq<Path>, start: nat, n: nat): nat {
    if n == 0 then 0
    else NewTables(t, root, qs, start, n - 1) + Lacked(t, root, qs + PathsOf(start, n - 1), PathAt(start, n - 1))
  }

  /** t' is t after all of qs were mapped, as far as missing tables go. */
  ghost predicate LackedIs(t: Tables, t': Tables, root: nat, qs: seq<Path>) {
    forall w: Path :: Missing(t', root, w) == Lacked(t, root, qs, w)
  }

  lemma {:induction false} LackedLast(t: Tables, root: nat, qs: seq<Path>, q: Path, w: Path)
    ensures Lacked(t, root, qs + [q], w) == Min(Lacked(t, root, qs, w), Apart(q, w))
  {
    assert (qs + [q])[..|qs|] == qs;
  }

  lemma {:induction false} LackedStep(t: Tables, root: nat, qs: seq<Path>, start: nat, i: nat, w: Path)
    ensures Lacked(t, root, qs + PathsOf(start, i + 1), w) ==
              Min(Lacked(t, root, qs + PathsOf(start, i), w), Apart(PathAt(start, i), w))
  {
    var before, q := qs + PathsOf(start, i), PathAt(start, i);
    assert qs + PathsOf(start, i + 1) == before + [q];
    LackedLast(t, root, before, q, w);
  }

  lemma {:induction false} LackedThen(t: Tables, t': Tables, root: nat, qs: seq<Path>, start: nat, i: nat, w: Path)
    requires LackedIs(t, t', root, qs)
    ensures MissingThen(t', root, start, i, w) == Lacked(t, root, qs + PathsOf(start, i), w)
  {
    if i == 0 {
      assert qs + PathsOf(start, 0) == qs;
    } else {
      LackedThen(t, t', root, qs, start, i - 1, w);
      LackedStep(t, root, qs, start, i - 1, w);
    }
  }

  lemma {:induction false} NewTablesAre(t: Tables, t': Tables, root: nat, qs: seq<Path>, start: nat, n: nat)
    requires LackedIs(t, t', root, qs)
    ensures TablesFor(t', root, start, n) == NewTables(t, root, qs, start, n)
  {
    if n > 0 {
      NewTablesAre(t, t', root, qs, start, n - 1);
      LackedThen(t, t', root, qs, start, n - 1, PathAt(start, n - 1));
    }
  }

  lemma {:induction false} LackedNext(t: Tables, t': Tables, t'': Tables, root: nat, qs: seq<Path>, start: nat, n: nat)
    requires LackedIs(t, t', root, qs) && MissingIs(t', t'', root, start, n)
    ensures LackedIs(t, t'', root, qs + PathsOf(start, n))
  {
    forall w: Path ensures Missing(t'', root, w) == Lacked(t, root, qs + PathsOf(start, n), w) {
      LackedThen(t, t', root, qs, start, n, w);
    }
  }

  lemma {:induction false} LackedSame(t: Tables, t': Tables, t'': Tables, root: nat, qs: seq<Path>)
    requires LackedIs(t, t', root, qs) && SameMissing(t', t'', root)
    ensures LackedIs(t, t'', root, qs)
  {
  }

  lemma {:induction false} LackedFalls(t: Tables, root: nat, qs: seq<Path>, w: Path)
    ensures Lacked(t, root, qs, w) <= Missing(t, root, w)
  {
    if qs != [] { LackedFalls(t, root, qs[..|qs| - 1], w); }
  }

  lemma {:induction false} LackedBelow(t: Tables, root: nat, qs: seq<Path>, start: nat, i: nat, w: Path)
    ensures Lacked(t, root, qs + PathsOf(start, i), w) <= MissingThen(t, root, start, i, w)
  {
    if i == 0 {
      assert qs + PathsOf(start, 0) == qs;
      LackedFalls(t, root, qs, w);
    } else {
      LackedBelow(t, root, qs, start, i - 1, w);
      LackedStep(t, root, qs, start, i - 1, w);
    }
  }

  lemma {:induction false} NewTablesBound(t: Tables, root: nat, qs: seq<Path>, start: nat, n: nat)
    ensures NewTables(t, root, qs, start, n) <= TablesFor(t, root, start, n)
  {
    if n > 0 {
      NewTablesBound(t, root, qs, start, n - 1);
      LackedBelow(t, root, qs, start, n - 1, PathAt(start, n - 1));
    }
  }

  lemma {:induction false} SameNewTables(t: Tables, root: nat, qs: seq<Path>, t2: Tables, root2: nat, start: nat,
          n: nat)
    requires forall w: Path :: Missing(t2, root2, w) == Missing(t, root, w)
    ensures NewTables(t2, root2, qs, start, n) == NewTables(t, root, qs, start, n)
  {
    if n > 0 {
      SameNewTables(t, root, qs, t2, root2, start, n - 1);
      SameLacked(t, root, qs + PathsOf(start, n - 1), t2, root2, PathAt(start, n - 1));
    }
  }

  lemma {:induction false} SameLacked(t: Tables, root: nat, qs: seq<Path>, t2: Tables, root2: nat, w: Path)
    requires forall p: Path :: Missing(t2, root2, p) == Missing(t, root, p)
    ensures Lacked(t2, root2, qs, w) == Lacked(t, root, qs, w)
  {
    if qs != [] { SameLacked(t, root, qs[..|qs| - 1], t2, root2, w); }
  }
}
