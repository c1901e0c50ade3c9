/** From the memory map to the kernel heap: what kmain does with physical and virtual memory. */
module Booting {
  import opened Common
  import opened PageWalk
  import opened TableCounting
  import opened Paging
  import PhysicalMemory
  import PmmSpec
  import opened VirtualMemory
  import VirtualMemoryRuns
  import VmmSpec

  datatype Kind = RESERVED | ACPI_RECLAIMABLE | EXECUTABLE_AND_MODULES | ACPI_NVS | BAD_MEMORY
                | BOOTLOADER_RECLAIMABLE | FRAMEBUFFER | USABLE | UNKNOWN | RESERVED_MAPPED

  /** memmap_entry_t. */
  datatype Region = Region(base: nat, length: nat, kind: Kind) {
    /** The kinds pt_map_memmap maps. */
    predicate Mapped() { kind !in {RESERVED, BAD_MEMORY, UNKNOWN} }

    /** PRESENT and READ_WRITE, and for the framebuffer PAT and WRITE_THROUGH. */
    function Flags(): nat { if kind == FRAMEBUFFER then 1 + 2 + 8 + 128 else 1 + 2 }

    function Start(): nat { AlignUp(base) }

    function NumPages(): nat { AlignDown(length) / PAGE_SIZE }

    function End(): nat { AlignUp(base) + AlignDown(length) }

    /** Physical page number d is one of the whole pages from the first page boundary on, of a kind that is mapped. */
    predicate Covers(d: nat) {
      && kind in {FRAMEBUFFER, USABLE, BOOTLOADER_RECLAIMABLE, ACPI_NVS, EXECUTABLE_AND_MODULES, ACPI_RECLAIMABLE,
                  RESERVED_MAPPED}
      && (base + 4095) / 4096 <= d < (base + 4095) / 4096 + length / 4096
    }
  }

  lemma {:induction false} KindsMapped(r: Region)
    ensures r.Mapped() <==>
      r.kind in {FRAMEBUFFER, USABLE, BOOTLOADER_RECLAIMABLE, ACPI_NVS, EXECUTABLE_AND_MODULES, ACPI_RECLAIMABLE,
                 RESERVED_MAPPED}
  {
    match r.kind {
      case RESERVED | BAD_MEMORY | UNKNOWN =>
      case USABLE | FRAMEBUFFER | RESERVED_MAPPED | ACPI_NVS | ACPI_RECLAIMABLE =>
      case BOOTLOADER_RECLAIMABLE | EXECUTABLE_AND_MODULES =>
    }
  }

  lemma {:induction false} CoversIs(r: Region, d: nat)
    ensures r.Covers(d) <==> r.Mapped() && r.Start() <= d * PAGE_SIZE < r.End()
  {
    assert r.Start() == (r.base + 4095) / 4096 * 4096 && r.End() == r.Start() + r.length / 4096 * 4096;
    Multiples((r.base + 4095) / 4096, r.length / 4096, d);
    KindsMapped(r);
  }

  lemma {:induction false} Multiples(q: nat, n: nat, d: nat)
    ensures q <= d < q + n <==> q * 4096 <= d * 4096 < q * 4096 + n * 4096
  {
  }

  const HEAP_PAGES: nat := 0x80_0000  // 32 GiB

  const ADDRESS_SPACE: nat := 0x1_0000_0000_0000

  /** What the physical allocator sees of the memory map. */
  function Usable(rs: seq<Region>): seq<PhysicalMemory.MemmapEntry> {
    seq(|rs|, i requires 0 <= i < |rs| => PhysicalMemory.MemmapEntry(rs[i].base, rs[i].length, rs[i].kind == USABLE))
  }

  // ---- Runs of pt_map_all ----

  /** One call: n pages from start on go to the frames from target on. */
  datatype Span = Span(start: nat, n: nat, target: nat, flags: nat)

  /** The leaf entry at w after the calls: that of the last one that has the page, or the one before. */
  function SpansAt(ss: seq<Span>, w: nat, before: Option<nat>): Option<nat> {
    if ss == [] then before else
    var s := ss[|ss| - 1];
    var k := PageOffset(w, s.start);
    if k < s.n then Leaf(LeafEntry(s.target + k * PAGE_SIZE, s.flags)) else SpansAt(ss[..|ss| - 1], w, before)
  }

  lemma {:induction false} SpansJoin(a: seq<Span>, b: seq<Span>, w: nat, before: Option<nat>)
    ensures SpansAt(a + b, w, before) == SpansAt(b, w, SpansAt(a, w, before))
    decreases |b|
  {
    if b == [] {
      assert a + b == a;
    } else {
      assert (a + b)[..|a + b| - 1] == a + b[..|b| - 1];
      SpansJoin(a, b[..|b| - 1], w, before);
    }
  }

  function SpanPaths(ss: seq<Span>): seq<Path> {
    if ss == [] then [] else SpanPaths(ss[..|ss| - 1]) + PathsOf(ss[|ss| - 1].start, ss[|ss| - 1].n)
  }

  /** The tables the calls add to t. */
  function SpanTables(t: Tables, root: nat, ss: seq<Span>): nat {
    if ss == [] then 0 else
    var (before, s) := (ss[..|ss| - 1], ss[|ss| - 1]);
    SpanTables(t, root, before) + NewTables(t, root, SpanPaths(before), s.start, s.n)
  }

  lemma {:induction false} SpanTablesGrow(t: Tables, root: nat, a: seq<Span>, b: seq<Span>)
    ensures SpanTables(t, root, a) <= SpanTables(t, root, a + b)
    decreases |b|
  {
    if b == [] {
      assert a + b == a;
    } else {
      assert (a + b)[..|a + b| - 1] == a + b[..|b| - 1];
      SpanTablesGrow(t, root, a, b[..|b| - 1]);
    }
  }

  ghost predicate SpansMapped(t: Tables, t': Tables, root: nat, ss: seq<Span>) {
    forall w: nat :: Translate(t', root, w) == SpansAt(ss, w, Translate(t, root, w))
  }

  /**
   The calls ss lead from t, a and b, tables, places and budget, to t', a' and b': they took exactly
   the tables they lacked.
   */
  ghost predicate SpansDone(t: Tables, a: Places, b: int, t': Tables, a': Places, b': int, root: nat, ss: seq<Span>) {
    && Beside(t, a, t', a', root) && LackedIs(t, t', root, SpanPaths(ss)) && b' == b - SpanTables(t, root, ss)
    && SpansMapped(t, t', root, ss)
  }

  /** The same, folded, for a memory; p is the pool. */
  ghost predicate Spanned(mem: Memory, t: Tables, a: Places, b: nat, p: set<nat>, root: nat, ss: seq<Span>)
    reads mem
  {
    && mem.Valid() && IsRoot(mem.at, root) && mem.pool == p
    && Folded(t, a, b, mem.tables, mem.at, mem.budget, root, ss)
  }

  ghost predicate Folded(t: Tables, a: Places, b: int, t': Tables, a': Places, b': int, root: nat, ss: seq<Span>) {
    forall z: nat {:trigger Unfolding(z)} | Unfolding(z) :: SpansDone(t, a, b, t', a', b', root, ss)
  }

  lemma {:induction false} UnfoldSpans(t: Tables, a: Places, b: int, t': Tables, a': Places, b': int, root: nat,
          ss: seq<Span>)
    ensures Folded(t, a, b, t', a', b', root, ss) <==> SpansDone(t, a, b, t', a', b', root, ss)
  {
    assert Unfolding(0);
  }

  lemma {:induction false} NoSpans(t: Tables, a: Places, b: int, root: nat)
    requires Shape(t, a) && IsRoot(a, root)
    ensures Folded(t, a, b, t, a, b, root, [])
  {
    BesideSelf(t, a, root);
    UnfoldSpans(t, a, b, t, a, b, root, []);
  }

  lemma {:induction false} SpanNeeds(t: Tables, a: Places, b: int, t1: Tables, a1: Places, b1: int, root: nat,
          ss: seq<Span>, s: Span)
    requires Folded(t, a, b, t1, a1, b1, root, ss)
    ensures TablesFor(t1, root, s.start, s.n) == b1 - (b - SpanTables(t, root, ss + [s]))
  {
    UnfoldSpans(t, a, b, t1, a1, b1, root, ss);
    assert (ss + [s])[..|ss|] == ss;
    NewTablesAre(t, t1, root, SpanPaths(ss), s.start, s.n);
  }

  lemma {:induction false} SpanStep(t: Tables, a: Places, b: int, t1: Tables, a1: Places, b1: int,
          t2: Tables, a2: Places, root: nat, ss: seq<Span>, s: Span)
    requires Folded(t, a, b, t1, a1, b1, root, ss) && Beside(t1, a1, t2, a2, root)
    requires MissingIs(t1, t2, root, s.start, s.n) && Linear(t1, t2, root, s.start, s.n, s.target, s.flags)
    ensures Folded(t, a, b, t2, a2, b1 - TablesFor(t1, root, s.start, s.n), root, ss + [s])
  {
    SpanNeeds(t, a, b, t1, a1, b1, root, ss, s);
    UnfoldSpans(t, a, b, t1, a1, b1, root, ss);
    assert (ss + [s])[..|ss|] == ss;
    LackedNext(t, t1, t2, root, SpanPaths(ss), s.start, s.n);
    BesideTrans(t, a, t1, a1, t2, a2, root);
    MappedStep(t, t1, t2, root, ss, s);
    UnfoldSpans(t, a, b, t2, a2, b1 - TablesFor(t1, root, s.start, s.n), root, ss + [s]);
  }

  lemma {:induction false} MappedStep(t: Tables, t1: Tables, t2: Tables, root: nat, ss: seq<Span>, s: Span)
    requires SpansMapped(t, t1, root, ss) && Linear(t1, t2, root, s.start, s.n, s.target, s.flags)
    ensures SpansMapped(t, t2, root, ss + [s])
  {
    assert (ss + [s])[..|ss|] == ss;
  }

  lemma {:induction false} Length(start: nat, end: nat, n: nat)
    requires end == start + n * PAGE_SIZE
    ensures start <= end && (end - start) / PAGE_SIZE == n
  {
  }

  method MapOne(mem: Memory, root: nat, s: Span)
    requires mem.Valid() && IsRoot(mem.at, root) && s.n <= SPAN
    requires mem.budget >= TablesFor(mem.tables, root, s.start, s.n)
    modifies mem
    ensures mem.Valid() && IsRoot(mem.at, root) && mem.pool == old(mem.pool)
    ensures mem.budget == old(mem.budget) - TablesFor(old(mem.tables), root, s.start, s.n)
    ensures MissingIs(old(mem.tables), mem.tables, root, s.start, s.n)
    ensures Linear(old(mem.tables), mem.tables, root, s.start, s.n, s.target, s.flags)
    ensures Beside(old(mem.tables), old(mem.at), mem.tables, mem.at, root)
  {
    var end := s.start + s.n * PAGE_SIZE;
    Length(s.start, end, s.n);
    mem.MapAll(root, s.start, end, s.target, s.flags);
  }

  /** One more call of pt_map_all. */
  method MapSpan(mem: Memory, ghost t: Tables, ghost a: Places, ghost b: nat, ghost p: set<nat>, root: nat,
          ghost ss: seq<Span>, s: Span)
    requires Spanned(mem, t, a, b, p, root, ss) && s.n <= SPAN && b >= SpanTables(t, root, ss + [s])
    modifies mem
    ensures Spanned(mem, t, a, b, p, root, ss + [s])
  {
    ghost var t1, a1, b1 := mem.tables, mem.at, mem.budget;
    SpanNeeds(t, a, b, t1, a1, b1, root, ss, s);
    MapOne(mem, root, s);
    SpanStep(t, a, b, t1, a1, b1, mem.tables, mem.at, root, ss, s);
  }

  lemma {:induction false} NextSpan(t: Tables, root: nat, before: seq<Span>, ss: seq<Span>, i: nat)
    requires i < |ss|
    ensures before + ss[..i + 1] == (before + ss[..i]) + [ss[i]]
    ensures SpanTables(t, root, (before + ss[..i]) + [ss[i]]) <= SpanTables(t, root, before + ss)
  {
    assert before + ss == (before + ss[..i + 1]) + ss[i + 1..];
    SpanTablesGrow(t, root, before + ss[..i + 1], ss[i + 1..]);
  }

  /** The calls ss, one after the other, after the calls `before`. */
  method MapSpans(mem: Memory, ghost t: Tables, ghost a: Places, ghost b: nat, ghost p: set<nat>, root: nat,
          ghost before: seq<Span>, ss: seq<Span>)
    requires Spanned(mem, t, a, b, p, root, before) && forall i | 0 <= i < |ss| :: ss[i].n <= SPAN
    requires b >= SpanTables(t, root, before + ss)
    modifies mem
    ensures Spanned(mem, t, a, b, p, root, before + ss)
  {
    ghost var now := before;
    assert before == before + ss[..0];
    for i := 0 to |ss|
      invariant Spanned(mem, t, a, b, p, root, now) && now == before + ss[..i]
    {
      NextSpan(t, root, before, ss, i);
      MapSpan(mem, t, a, b, p, root, now, ss[i]);
      now := now + [ss[i]];
    }
    assert ss[..|ss|] == ss;
  }

  // ---- pt_map_kernel ----

  /** The bytes from `start` to `end` of the loaded kernel. */
  datatype Section = Section(start: nat, end: nat)

  /** The loaded kernel: krnl_map, and the section bounds the linker provides. */
  datatype Image = Image(virtualBase: nat, physicalBase: nat, text: Section, rodata: Section, data: Section) {
    predicate Good() {
      forall s | s in [text, rodata, data] :: virtualBase <= s.start <= s.end <= s.start + SPAN * PAGE_SIZE
    }

    function SpanOf(s: Section, flags: nat): Span
      requires virtualBase <= s.start <= s.end
    {
      Span(s.start, (s.end - s.start) / PAGE_SIZE, physicalBase + (s.start - virtualBase), flags)
    }

    /** Text and read-only data are PRESENT, mutable data also READ_WRITE. */
    function Spans(): (ss: seq<Span>)
      requires Good()
      ensures |ss| == 3 && forall i | 0 <= i < 3 :: ss[i].n <= SPAN
    {
      assert text in [text, rodata, data] && rodata in [text, rodata, data] && data in [text, rodata, data];
      [SpanOf(text, 1), SpanOf(rodata, 1), SpanOf(data, 1 + 2)]
    }
  }

  /** pt_map_kernel: a call for each section. */
  method MapKernel(mem: Memory, root: nat, img: Image)
    requires mem.Valid() && IsRoot(mem.at, root) && img.Good()
    requires mem.budget >= SpanTables(mem.tables, root, img.Spans())
    modifies mem
    ensures Spanned(mem, old(mem.tables), old(mem.at), old(mem.budget), old(mem.pool), root, img.Spans())
  {
    ghost var t, a, b, p := mem.tables, mem.at, mem.budget, mem.pool;
    NoSpans(t, a, b, root);
    assert [] + img.Spans() == img.Spans();
    MapSpans(mem, t, a, b, p, root, [], img.Spans());
  }

  // ---- pt_map_memmap ----

  /** The call for a region: its pages at their distance from hhdm. */
  function RegionSpan(r: Region, hhdm: nat): Span { Span(hhdm + r.Start(), r.NumPages(), r.Start(), r.Flags()) }

  function RegionSpans(r: Region, hhdm: nat): seq<Span> { if r.Mapped() then [RegionSpan(r, hhdm)] else [] }

  /** The calls for the mapped regions. */
  function Direct(rs: seq<Region>, hhdm: nat): seq<Span> {
    if rs == [] then [] else Direct(rs[..|rs| - 1], hhdm) + RegionSpans(rs[|rs| - 1], hhdm)
  }

  lemma {:induction false} DirectStep(rs: seq<Region>, hhdm: nat, i: nat)
    requires i < |rs|
    ensures Direct(rs[..i + 1], hhdm) == Direct(rs[..i], hhdm) + RegionSpans(rs[i], hhdm)
  {
    assert rs[..i + 1][..i] == rs[..i];
  }

  lemma {:induction false} DirectGrows(rs: seq<Region>, hhdm: nat, i: nat) returns (rest: seq<Span>)
    requires i <= |rs|
    ensures Direct(rs, hhdm) == Direct(rs[..i], hhdm) + rest
  {
    if i == |rs| {
      assert rs[..i] == rs;
      rest := [];
    } else {
      var m := |rs| - 1;
      rest := DirectGrows(rs[..m], hhdm, i);
      assert rs[..m][..i] == rs[..i];
      rest := rest + RegionSpans(rs[m], hhdm);
    }
  }

  /** hhdm_end: the highest end of a mapped region, or 0; addresses wrap around at 2^64. */
  function MapEnd(rs: seq<Region>, hhdm: nat): nat {
    if rs == [] then 0 else
    var r, e := rs[|rs| - 1], MapEnd(rs[..|rs| - 1], hhdm);
    if r.Mapped() && (hhdm + r.End()) % WORD > e then (hhdm + r.End()) % WORD else e
  }

  lemma {:induction false} EndStep(rs: seq<Region>, hhdm: nat, i: nat)
    requires i < |rs|
    ensures var e, here := MapEnd(rs[..i], hhdm), (hhdm + rs[i].End()) % WORD;
      MapEnd(rs[..i + 1], hhdm) == if rs[i].Mapped() && here > e then here else e
  {
    assert rs[..i + 1][..i] == rs[..i];
  }

  /** The calls up to region i, and after it: what they add is part of what all of them add. */
  lemma {:induction false} DirectNext(t: Tables, root: nat, before: seq<Span>, rs: seq<Region>, hhdm: nat, i: nat)
    requires i < |rs|
    ensures var now, next := before + Direct(rs[..i], hhdm), before + Direct(rs[..i + 1], hhdm);
      && next == (if rs[i].Mapped() then now + [RegionSpan(rs[i], hhdm)] else now)
      && SpanTables(t, root, next) <= SpanTables(t, root, before + Direct(rs, hhdm))
  {
    DirectStep(rs, hhdm, i);
    var rest := DirectGrows(rs, hhdm, i + 1);
    assert before + (Direct(rs[..i + 1], hhdm) + rest) == (before + Direct(rs[..i + 1], hhdm)) + rest;
    SpanTablesGrow(t, root, before + Direct(rs[..i + 1], hhdm), rest);
  }

  /** pt_map_memmap, after the calls `before`: the direct map of all mapped regions, and hhdm_end. */
  method MapMemmap(mem: Memory, ghost t: Tables, ghost a: Places, ghost b: nat, ghost p: set<nat>, root: nat,
          hhdm: nat, ghost before: seq<Span>, rs: seq<Region>) returns (end: nat)
    requires Spanned(mem, t, a, b, p, root, before) && forall i | 0 <= i < |rs| :: rs[i].NumPages() <= SPAN
    requires b >= SpanTables(t, root, before + Direct(rs, hhdm))
    modifies mem
    ensures Spanned(mem, t, a, b, p, root, before + Direct(rs, hhdm)) && end == MapEnd(rs, hhdm)
  {
    end := 0;
    ghost var now := before;
    assert before == before + Direct(rs[..0], hhdm);
    for i := 0 to |rs|
      invariant Spanned(mem, t, a, b, p, root, now) && now == before + Direct(rs[..i], hhdm)
      invariant end == MapEnd(rs[..i], hhdm)
    {
      DirectNext(t, root, before, rs, hhdm, i);
      if rs[i].Mapped() {
        MapSpan(mem, t, a, b, p, root, now, RegionSpan(rs[i], hhdm));
        now := now + [RegionSpan(rs[i], hhdm)];
      }
      EndStep(rs, hhdm, i);
      if rs[i].Mapped() && (hhdm + rs[i].End()) % WORD > end { end := (hhdm + rs[i].End()) % WORD; }
    }
    assert rs[..|rs|] == rs;
  }

  // ---- The registers of the interrupt controllers ----

  /** pt_map of a register's page at its distance from hhdm, PRESENT and READ_WRITE: a run of one page. */
  function RegisterSpan(reg: nat, hhdm: nat): Span { Span(hhdm + reg, 1, reg, 1 + 2) }

  function Registers(regs: seq<nat>, hhdm: nat): (ss: seq<Span>)
    ensures |ss| == |regs| && forall i | 0 <= i < |ss| :: ss[i] == RegisterSpan(regs[i], hhdm)
  {
    seq(|regs|, i requires 0 <= i < |regs| => RegisterSpan(regs[i], hhdm))
  }

  /** The pt_map calls of apic_init, after the calls `before`. */
  method MapRegisters(mem: Memory, ghost t: Tables, ghost a: Places, ghost b: nat, ghost p: set<nat>, root: nat,
          hhdm: nat, ghost before: seq<Span>, regs: seq<nat>)
    requires Spanned(mem, t, a, b, p, root, before) && b >= SpanTables(t, root, before + Registers(regs, hhdm))
    modifies mem
    ensures Spanned(mem, t, a, b, p, root, before + Registers(regs, hhdm))
  {
    MapSpans(mem, t, a, b, p, root, before, Registers(regs, hhdm));
  }

  /** A register's page is mapped afterwards. */
  lemma {:induction false} RegisterMapped(regs: seq<nat>, hhdm: nat, i: nat, before: Option<nat>)
    requires i < |regs|
    ensures SpansAt(Registers(regs, hhdm), hhdm + regs[i], before).Some?
  {
    LastMapped(Registers(regs, hhdm), hhdm + regs[i], i, before);
  }

  lemma {:induction false} LastMapped(ss: seq<Span>, w: nat, i: nat, before: Option<nat>)
    requires i < |ss| && PageOffset(w, ss[i].start) < ss[i].n
    requires forall j | 0 <= j < |ss| :: ss[j].flags % 2 == 1
    ensures SpansAt(ss, w, before).Some?
  {
    if PageOffset(w, ss[|ss| - 1].start) >= ss[|ss| - 1].n {
      LastMapped(ss[..|ss| - 1], w, i, before);
    } else {
      var s := ss[|ss| - 1];
      LeafEntryParts(s.target + PageOffset(w, s.start) * PAGE_SIZE, s.flags);
    }
  }

  // ---- What the direct map maps ----

  /** Counting pages from hhdm on and from a region on. */
  lemma {:induction false} OffsetFrom(w: nat, hhdm: nat, k: nat)
    ensures PageOffset(w, hhdm + k * PAGE_SIZE) == (PageOffset(w, hhdm) - k) % SPAN
  {
    PageNoPlus(hhdm, k);
    var (a, h) := (PageNo(w), PageNo(hhdm));
    ModDifference(a, h + k);
    ModDifference2(a - h, k);
  }

  lemma {:induction false} ModDifference(a: int, b: int)
    ensures (a - b % SPAN) % SPAN == (a - b) % SPAN
  {
    assert a - b % SPAN == a - b + b / SPAN * SPAN;
  }

  lemma {:induction false} ModDifference2(a: int, b: int)
    ensures (a % SPAN - b) % SPAN == (a - b) % SPAN
  {
    assert a % SPAN - b == a - b - a / SPAN * SPAN;
  }

  /** A page is in a region when the physical page at its distance from hhdm is. */
  lemma {:induction false} InRegion(r: Region, hhdm: nat, w: nat)
    requires r.End() <= ADDRESS_SPACE
    ensures var d, k := PageOffset(w, hhdm), PageOffset(w, hhdm + r.Start());
      && (k < r.NumPages() <==> r.Start() <= d * PAGE_SIZE < r.End())
      && (k < r.NumPages() ==> r.Start() + k * PAGE_SIZE == d * PAGE_SIZE)
  {
    var s := r.Start() / PAGE_SIZE;
    WholePages(r);
    OffsetFrom(w, hhdm, s);
    InWindow(PageOffset(w, hhdm), PageOffset(w, hhdm + r.Start()), s, r.NumPages());
  }

  lemma {:induction false} WholePages(r: Region)
    ensures r.Start() == r.Start() / PAGE_SIZE * PAGE_SIZE
    ensures r.End() == (r.Start() / PAGE_SIZE + r.NumPages()) * PAGE_SIZE
  {
  }

  lemma {:induction false} InWindow(d: nat, k: nat, s: nat, n: nat)
    requires d < SPAN && s + n <= SPAN && k == (d - s) % SPAN
    ensures k < n <==> s <= d < s + n
    ensures k < n ==> s + k == d
  {
  }

  /** The physical page of this number is in a mapped region. */
  predicate InMap(rs: seq<Region>, d: nat) {
    exists i :: 0 <= i < |rs| && rs[i].Covers(d)
  }

  lemma {:induction false} InMapStep(rs: seq<Region>, d: nat)
    requires rs != []
    ensures InMap(rs, d) <==> InMap(rs[..|rs| - 1], d) || rs[|rs| - 1].Covers(d)
  {
    assert forall i | 0 <= i < |rs| - 1 :: rs[..|rs| - 1][i] == rs[i];
  }

  /** The region's call has the page when the region covers the physical page at its distance. */
  lemma {:induction false} CoversWhen(r: Region, hhdm: nat, w: nat)
    requires r.Mapped() ==> r.End() <= ADDRESS_SPACE
    ensures r.Covers(PageOffset(w, hhdm)) <==> r.Mapped() && PageOffset(w, hhdm + r.Start()) < r.NumPages()
  {
    CoversIs(r, PageOffset(w, hhdm));
    if r.Mapped() { InRegion(r, hhdm, w); }
  }

  /** A page of a region is mapped to its physical page. */
  lemma {:induction false} RegionEntry(r: Region, hhdm: nat, w: nat)
    requires r.End() <= ADDRESS_SPACE && PageOffset(w, hhdm + r.Start()) < r.NumPages()
    ensures var e := LeafEntry(r.Start() + PageOffset(w, hhdm + r.Start()) * PAGE_SIZE, r.Flags());
      Frame(e) == PageOffset(w, hhdm) * PAGE_SIZE && Present(e)
  {
    InRegion(r, hhdm, w);
    LeafEntryParts(PageOffset(w, hhdm) * PAGE_SIZE, r.Flags());
    FrameOfPage(PageOffset(w, hhdm));
  }

  lemma {:induction false} FrameOfPage(d: nat)
    requires d < SPAN
    ensures Frame(d * PAGE_SIZE) == d * PAGE_SIZE
  {
  }

  lemma {:induction false} LastRegion(rs: seq<Region>, hhdm: nat, w: nat, before: Option<nat>)
    requires rs != []
    ensures var (r, m) := (rs[|rs| - 1], |rs| - 1);
      var k := PageOffset(w, hhdm + r.Start());
      SpansAt(Direct(rs, hhdm), w, before) ==
        if r.Mapped() && k < r.NumPages() then Leaf(LeafEntry(r.Start() + k * PAGE_SIZE, r.Flags()))
        else SpansAt(Direct(rs[..m], hhdm), w, before)
  {
    var d := Direct(rs[..|rs| - 1], hhdm);
    if rs[|rs| - 1].Mapped() { assert Direct(rs, hhdm)[..|d|] == d; } else { assert Direct(rs, hhdm) == d; }
  }

  lemma {:induction false} LastCovers(rs: seq<Region>, hhdm: nat, w: nat, before: Option<nat>)
    requires rs != [] && (rs[|rs| - 1].Mapped() ==> rs[|rs| - 1].End() <= ADDRESS_SPACE)
    ensures var (e, d) := (SpansAt(Direct(rs, hhdm), w, before), PageOffset(w, hhdm));
      if rs[|rs| - 1].Covers(d) then e.Some? && Frame(e.value) == d * PAGE_SIZE && Present(e.value)
      else e == SpansAt(Direct(rs[..|rs| - 1], hhdm), w, before)
  {
    var r := rs[|rs| - 1];
    LastRegion(rs, hhdm, w, before);
    CoversWhen(r, hhdm, w);
    if r.Covers(PageOffset(w, hhdm)) { RegionEntry(r, hhdm, w); }
  }

  /**
   However regions overlap: the pages of mapped regions are mapped, each to the physical page at its
   distance from hhdm, and every other page is as before.
   */
  lemma {:induction false} DirectIsOffset(rs: seq<Region>, hhdm: nat, w: nat, before: Option<nat>)
    requires forall i | 0 <= i < |rs| && rs[i].Mapped() :: rs[i].End() <= ADDRESS_SPACE
    ensures var (e, d) := (SpansAt(Direct(rs, hhdm), w, before), PageOffset(w, hhdm));
      if InMap(rs, d) then e.Some? && Frame(e.value) == d * PAGE_SIZE && Present(e.value) else e == before
  {
    if rs != [] {
      DirectIsOffset(rs[..|rs| - 1], hhdm, w, before);
      LastCovers(rs, hhdm, w, before);
      InMapStep(rs, PageOffset(w, hhdm));
    }
  }

  // ---- What is behind it ----

  lemma {:induction false} MapEndAbove(rs: seq<Region>, hhdm: nat, i: nat)
    requires i < |rs| && rs[i].Mapped()
    requires forall j | 0 <= j < |rs| && rs[j].Mapped() :: hhdm + rs[j].End() < WORD
    ensures hhdm + rs[i].End() <= MapEnd(rs, hhdm)
  {
    if i < |rs| - 1 { MapEndAbove(rs[..|rs| - 1], hhdm, i); }
  }

  lemma {:induction false} MapEndBelow(rs: seq<Region>, hhdm: nat, top: nat)
    requires hhdm % PAGE_SIZE == 0
    requires forall j | 0 <= j < |rs| && rs[j].Mapped() :: rs[j].End() <= top && hhdm + rs[j].End() < WORD
    ensures MapEnd(rs, hhdm) <= hhdm + top && MapEnd(rs, hhdm) % PAGE_SIZE == 0
  {
    if rs != [] {
      MapEndBelow(rs[..|rs| - 1], hhdm, top);
      if rs[|rs| - 1].Mapped() { EndAligned(hhdm, rs[|rs| - 1]); }
    }
  }

  lemma {:induction false} EndAligned(hhdm: nat, r: Region)
    requires hhdm % PAGE_SIZE == 0 && hhdm + r.End() < WORD
    ensures (hhdm + r.End()) % WORD == hhdm + r.End() && (hhdm + r.End()) % PAGE_SIZE == 0
  {
    WholePages(r);
    EndWhole(hhdm, r.End(), r.Start() / PAGE_SIZE + r.NumPages());
  }

  lemma {:induction false} EndWhole(hhdm: nat, e: nat, k: nat)
    requires hhdm % PAGE_SIZE == 0 && e == k * PAGE_SIZE
    ensures (hhdm + e) % PAGE_SIZE == 0
  {
    assert hhdm + e == (hhdm / PAGE_SIZE + k) * PAGE_SIZE;
  }

  /** Pages from hhdm + k pages on, before the address space wraps around, are at least k pages behind hhdm. */
  lemma {:induction false} Behind(w: nat, hhdm: nat, k: nat, n: nat)
    requires k + n <= SPAN && PageOffset(w, hhdm + k * PAGE_SIZE) < n
    ensures PageOffset(w, hhdm) >= k
  {
    OffsetFrom(w, hhdm, k);
  }

  /** The heap fits behind every mapped region, in the 48 bits of the walk and the 64 of an address. */
  predicate HeapFits(rs: seq<Region>, hhdm: nat) {
    hhdm % PAGE_SIZE == 0 && forall j | 0 <= j < |rs| && rs[j].Mapped() ::
      && rs[j].End() + HEAP_PAGES * PAGE_SIZE <= ADDRESS_SPACE
      && hhdm + rs[j].End() + HEAP_PAGES * PAGE_SIZE <= WORD
  }

  /** The direct map maps nothing in the range of the heap behind it. */
  lemma {:induction false} NothingBehind(rs: seq<Region>, hhdm: nat, w: nat, before: Option<nat>)
    requires HeapFits(rs, hhdm) && PageOffset(w, MapEnd(rs, hhdm)) < HEAP_PAGES
    ensures SpansAt(Direct(rs, hhdm), w, before) == before
  {
    DirectIsOffset(rs, hhdm, w, before);
    if i :| 0 <= i < |rs| && rs[i].Covers(PageOffset(w, hhdm)) {
      CoversIs(rs[i], PageOffset(w, hhdm));
      MapEndAbove(rs, hhdm, i);
      MapEndBelow(rs, hhdm, ADDRESS_SPACE - HEAP_PAGES * PAGE_SIZE);
      var k := (MapEnd(rs, hhdm) - hhdm) / PAGE_SIZE;
      EndPages(MapEnd(rs, hhdm), hhdm, k);
      Behind(w, hhdm, k, HEAP_PAGES);
    }
  }

  lemma {:induction false} EndPages(end: nat, hhdm: nat, k: nat)
    requires hhdm <= end && end % PAGE_SIZE == 0 && hhdm % PAGE_SIZE == 0 && k == (end - hhdm) / PAGE_SIZE
    ensures end == hhdm + k * PAGE_SIZE
  {
  }

  /** The call maps no page of the heap that starts at `end`. */
  predicate Clear(s: Span, end: nat) {
    HEAP_PAGES <= PageOffset(s.start, end) && PageOffset(s.start, end) + s.n <= SPAN
  }

  lemma {:induction false} ClearMisses(s: Span, end: nat, w: nat)
    requires Clear(s, end) && PageOffset(w, end) < HEAP_PAGES
    ensures PageOffset(w, s.start) >= s.n
  {
    var (d, e) := (PageOffset(w, end), PageOffset(s.start, end));
    ModDifference(PageNo(w) - PageNo(end), PageNo(s.start) - PageNo(end));
    ModDifference2(PageNo(w) - PageNo(end), e);
    assert PageOffset(w, s.start) == (d - e) % SPAN;
    Wrapped(d, e);
  }

  lemma {:induction false} Wrapped(d: nat, e: nat)
    requires d < e < SPAN
    ensures (d - e) % SPAN == SPAN + d - e
  {
  }

  lemma {:induction false} AllClear(ss: seq<Span>, end: nat, w: nat, before: Option<nat>)
    requires (forall s | s in ss :: Clear(s, end)) && PageOffset(w, end) < HEAP_PAGES
    ensures SpansAt(ss, w, before) == before
  {
    if ss != [] {
      AllClear(ss[..|ss| - 1], end, w, before);
      ClearMisses(ss[|ss| - 1], end, w);
    }
  }

  // ---- What the direct map costs ----

  /** The tables a region's call needs at most. */
  function RegionTables(r: Region, hhdm: nat): nat {
    if r.Mapped() then TablesBound(hhdm + r.Start(), r.NumPages()) else 0
  }

  /** Tables for the direct map, counted without those that regions share. */
  function MapBound(rs: seq<Region>, hhdm: nat): nat {
    if rs == [] then 0 else MapBound(rs[..|rs| - 1], hhdm) + RegionTables(rs[|rs| - 1], hhdm)
  }

  lemma {:induction false} SpanBound(t: Tables, root: nat, ss: seq<Span>, s: Span)
    ensures SpanTables(t, root, ss + [s]) <= SpanTables(t, root, ss) + TablesBound(s.start, s.n)
  {
    assert (ss + [s])[..|ss|] == ss;
    NewTablesBound(t, root, SpanPaths(ss), s.start, s.n);
    TablesForBound(t, root, s.start, s.n);
  }

  /** Whatever was mapped before, the direct map needs no more than that. */
  lemma {:induction false} DirectBound(t: Tables, root: nat, before: seq<Span>, rs: seq<Region>, hhdm: nat)
    ensures SpanTables(t, root, before + Direct(rs, hhdm)) <= SpanTables(t, root, before) + MapBound(rs, hhdm)
  {
    if rs == [] {
      assert before + Direct(rs, hhdm) == before;
    } else {
      DirectBound(t, root, before, rs[..|rs| - 1], hhdm);
      LastBound(t, root, before + Direct(rs[..|rs| - 1], hhdm), rs[|rs| - 1], hhdm);
      SpansAssoc(before, Direct(rs[..|rs| - 1], hhdm), RegionSpans(rs[|rs| - 1], hhdm));
    }
  }

  lemma {:induction false} LastBound(t: Tables, root: nat, ss: seq<Span>, r: Region, hhdm: nat)
    ensures SpanTables(t, root, ss + RegionSpans(r, hhdm)) <= SpanTables(t, root, ss) + RegionTables(r, hhdm)
  {
    if r.Mapped() { SpanBound(t, root, ss, RegionSpan(r, hhdm)); } else { assert ss + [] == ss; }
  }

  lemma {:induction false} SpansAssoc(a: seq<Span>, b: seq<Span>, c: seq<Span>)
    ensures a + (b + c) == (a + b) + c
  {
  }

  /** A region of at least eleven pages pays for its own direct map and two pages more. */
  lemma {:induction false} RegionPays(start: nat, n: nat)
    requires 11 <= n <= 32448
    ensures n - 1 >= 2 + TablesBound(start, n)
  {
    var (a, b) := (start / PAGE_SIZE, start / PAGE_SIZE + n - 1);
    assert b / 0x200 - a / 0x200 <= (n - 1) / 0x200 + 1;
    assert b / 0x4_0000 - a / 0x4_0000 <= 1;
    assert b / 0x800_0000 - a / 0x800_0000 <= 1;
  }

  function MapCount(rs: seq<Region>): nat {
    if rs == [] then 0 else MapCount(rs[..|rs| - 1]) + if rs[|rs| - 1].Mapped() then 1 else 0
  }

  /**
   A memory map whose mapped regions are usable and have at least eleven pages pays for its direct
   map, and for two pages more with each of them.
   */
  lemma {:induction false} MapPays(rs: seq<Region>, hhdm: nat)
    requires PhysicalMemory.GoodMemmap(Usable(rs))
    requires forall i | 0 <= i < |rs| && rs[i].Mapped() :: rs[i].kind == USABLE && rs[i].NumPages() >= 11
    ensures PmmSpec.Budget(PhysicalMemory.InitAreas(Usable(rs))) >= MapBound(rs, hhdm) + 2 * MapCount(rs)
  {
    if rs != [] {
      var m := |rs| - 1;
      UsableInit(rs);
      MapPays(rs[..m], hhdm);
      LastPays(rs, hhdm);
    }
  }

  /** What the last region adds to both sides. */
  lemma {:induction false} LastPays(rs: seq<Region>, hhdm: nat)
    requires rs != [] && Usable(rs[..|rs| - 1]) == Usable(rs)[..|rs| - 1]
    requires var r := rs[|rs| - 1]; r.Mapped() ==> r.kind == USABLE && r.NumPages() >= 11
    requires PhysicalMemory.GoodEntry(Usable(rs)[|rs| - 1])
    ensures var init := rs[..|rs| - 1];
      PmmSpec.Budget(PhysicalMemory.InitAreas(Usable(rs))) - MapBound(rs, hhdm) - 2 * MapCount(rs) >=
        PmmSpec.Budget(PhysicalMemory.InitAreas(Usable(init))) - MapBound(init, hhdm) - 2 * MapCount(init)
  {
    BudgetStep(Usable(rs));
    CostStep(rs, hhdm);
    EntryPays(rs[|rs| - 1], Usable(rs)[|rs| - 1], hhdm);
  }

  /** Two pages and the tables of a mapped region. */
  function Cost(r: Region, hhdm: nat): nat {
    if r.Mapped() then 2 + RegionTables(r, hhdm) else 0
  }

  lemma {:induction false} CostStep(rs: seq<Region>, hhdm: nat)
    requires rs != []
    ensures var init := rs[..|rs| - 1];
      MapBound(rs, hhdm) + 2 * MapCount(rs) == MapBound(init, hhdm) + 2 * MapCount(init) + Cost(rs[|rs| - 1], hhdm)
  {
  }

  /** The pages an entry of the memory map gives the allocator. */
  function Gain(e: PhysicalMemory.MemmapEntry): nat {
    var more := PhysicalMemory.EntryAreas(e);
    if more == [] then 0 else more[0].numPages
  }

  lemma {:induction false} UsableInit(rs: seq<Region>)
    requires rs != [] && PhysicalMemory.GoodMemmap(Usable(rs))
    ensures var m := |rs| - 1;
      && Usable(rs[..m]) == Usable(rs)[..m] && PhysicalMemory.GoodMemmap(Usable(rs[..m]))
      && PhysicalMemory.GoodEntry(Usable(rs)[m]) && forall i | 0 <= i < m :: rs[..m][i] == rs[i]
  {
    var (m, es) := (|rs| - 1, Usable(rs));
    assert es[..m] == Usable(rs[..m]);
    forall i | 0 <= i < m ensures PhysicalMemory.GoodEntry(es[..m][i]) { assert PhysicalMemory.GoodEntry(es[i]); }
  }

  lemma {:induction false} BudgetStep(es: seq<PhysicalMemory.MemmapEntry>)
    requires es != []
    ensures var m := |es| - 1;
      PmmSpec.Budget(PhysicalMemory.InitAreas(es)) == PmmSpec.Budget(PhysicalMemory.InitAreas(es[..m])) + Gain(es[m])
  {
    BudgetAdds(PhysicalMemory.EntryAreas(es[|es| - 1]), PhysicalMemory.InitAreas(es[..|es| - 1]));
  }

  lemma {:induction false} EntryPays(r: Region, e: PhysicalMemory.MemmapEntry, hhdm: nat)
    requires e == PhysicalMemory.MemmapEntry(r.base, r.length, r.kind == USABLE) && PhysicalMemory.GoodEntry(e)
    requires r.Mapped() ==> r.kind == USABLE && r.NumPages() >= 11
    ensures Gain(e) >= Cost(r, hhdm)
  {
    if r.Mapped() {
      RegionPays(hhdm + r.Start(), r.NumPages());
      PmmSpec.NewAreaInv(r.base, r.NumPages());
    }
  }

  lemma {:induction false} BudgetAdds(more: seq<PmmSpec.Area>, areas: seq<PmmSpec.Area>)
    requires |more| <= 1
    ensures PmmSpec.Budget(more + areas) ==
              PmmSpec.Budget(areas) + if more == [] then 0 else more[0].numPages
  {
    if more == [] { assert more + areas == areas; } else { assert (more + areas)[1..] == areas; }
  }

  // ---- Boot ----

  /** The tables the calls add to a new root, whichever frame it is in. */
  function BootTables(ss: seq<Span>): nat { SpanTables(map[0 := ZeroTable()], 0, ss) }

  lemma {:induction false} NewRootLacks(t: Tables, root: nat, w: Path)
    requires root in t && t[root] == ZeroTable()
    ensures Missing(t, root, w) == 3
  {
  }

  lemma {:induction false} BootTablesAre(t: Tables, root: nat, ss: seq<Span>)
    requires root in t && t[root] == ZeroTable()
    ensures SpanTables(t, root, ss) == BootTables(ss)
  {
    if ss != [] {
      var z: Tables := map[0 := ZeroTable()];
      BootTablesAre(t, root, ss[..|ss| - 1]);
      forall w: Path ensures Missing(z, 0, w) == Missing(t, root, w) {
        NewRootLacks(t, root, w);
        NewRootLacks(z, 0, w);
      }
      SameNewTables(t, root, SpanPaths(ss[..|ss| - 1]), z, 0, ss[|ss| - 1].start, ss[|ss| - 1].n);
    }
  }

  /** What kmain starts from: memory map, hhdm offset, loaded kernel, and the registers apic_init maps, if any. */
  datatype Machine = Machine(memmap: seq<Region>, hhdm: nat, img: Image, regs: seq<nat>) {
    ghost predicate Good() {
      && PhysicalMemory.GoodMemmap(Usable(memmap)) && img.Good()
      && forall i | 0 <= i < |memmap| ::
           && memmap[i].NumPages() <= SPAN
           && (memmap[i].kind == USABLE ==> memmap[i].base + memmap[i].length <= ADDRESS_SPACE)
    }

    /** hhdm_end, where the heap is to start. */
    function HeapAt(): nat { MapEnd(memmap, hhdm) }

    /** The runs of pt_map in kmain before the heap. */
    function Spans(): seq<Span>
      requires img.Good()
    {
      img.Spans() + Direct(memmap, hhdm) + Registers(regs, hhdm)
    }

    /** What pmm_init makes of the memory map. */
    function Budget(): nat { PmmSpec.Budget(PhysicalMemory.InitAreas(Usable(memmap))) }

    /** The heap fits behind the direct map, and the kernel image does not reach into it. */
    predicate HeapBehind() {
      HeapFits(memmap, hhdm) && img.Good() && forall s | s in img.Spans() :: Clear(s, HeapAt())
    }

    /** The budget suffices for the tables, root and list record of the start, and for `more` frames. */
    predicate Pays(more: nat)
      requires img.Good()
    {
      Budget() >= BootTables(Spans()) + 2 + more
    }

    /** vmm_init's list. */
    function Heap(): seq<VmmSpec.Area> { [VmmSpec.Area(HeapAt(), HEAP_PAGES, VmmSpec.FREE, 0)] }
  }

  predicate SpanRights(e: Option<nat>, r: Right) { e.Some? && Grants(e.value, r) }

  /** pmm_init, pt_create, pt_map_kernel, pt_map_memmap and the pt_map calls of apic_init. */
  method BootMap(m: Machine) returns (mem: Memory, pt: nat, end: nat)
    requires m.Good() && m.Budget() >= BootTables(m.Spans()) + 1
    ensures fresh(mem) && mem.Valid() && IsRoot(mem.at, pt) && end == m.HeapAt()
    ensures forall w: nat :: Translate(mem.tables, pt, w) == SpansAt(m.Spans(), w, None)
    ensures forall w: nat, r: Right ::
              Permits(mem.tables, pt, w, r) <==> SpanRights(SpansAt(m.Spans(), w, None), r)
    ensures mem.budget == m.Budget() - BootTables(m.Spans()) - 1
  {
    mem := new Memory.Boot(Usable(m.memmap));
    pt := mem.Create();
    ghost var t, a, b, p := mem.tables, mem.at, mem.budget, mem.pool;
    BootTablesAre(t, pt, m.Spans());
    SpanTablesGrow(t, pt, m.img.Spans() + Direct(m.memmap, m.hhdm), Registers(m.regs, m.hhdm));
    SpanTablesGrow(t, pt, m.img.Spans(), Direct(m.memmap, m.hhdm));
    MapKernel(mem, pt, m.img);
    end := MapMemmap(mem, t, a, b, p, pt, m.hhdm, m.img.Spans(), m.memmap);
    MapRegisters(mem, t, a, b, p, pt, m.hhdm, m.img.Spans() + Direct(m.memmap, m.hhdm), m.regs);
    FromNothing(t, a, b, mem.tables, mem.at, mem.budget, pt, m.Spans());
    RightsOfSpans(mem.tables, mem.at, pt, m.Spans());
  }

  lemma {:induction false} RightsOfSpans(t: Tables, a: Places, root: nat, ss: seq<Span>)
    requires Shape(t, a) && IsRoot(a, root)
    requires forall w: nat :: Translate(t, root, w) == SpansAt(ss, w, None)
    ensures forall w: nat, r: Right :: Permits(t, root, w, r) <==> SpanRights(SpansAt(ss, w, None), r)
  {
    forall w: nat, r: Right ensures Permits(t, root, w, r) <==> SpanRights(SpansAt(ss, w, None), r) {
      LeafDecides(t, a, root, Indices(w), r);
    }
  }

  /** What the calls leave of a new root. */
  lemma {:induction false} FromNothing(t: Tables, a: Places, b: int, t': Tables, a': Places, b': int, root: nat,
          ss: seq<Span>)
    requires Folded(t, a, b, t', a', b', root, ss) && forall p: Path :: Walk(t, root, p) == None
    ensures forall w: nat :: Translate(t', root, w) == SpansAt(ss, w, None)
    ensures b' == b - SpanTables(t, root, ss)
  {
    UnfoldSpans(t, a, b, t', a', b', root, ss);
    forall w: nat ensures Translate(t', root, w) == SpansAt(ss, w, None) { assert Translate(t, root, w) == None; }
  }

  /** What a page of the heap's range translates to before the heap: only registers can be there. */
  lemma {:induction false} OnlyRegisters(m: Machine, w: nat)
    requires m.HeapBehind() && PageOffset(w, m.HeapAt()) < HEAP_PAGES
    ensures SpansAt(m.Spans(), w, None) == SpansAt(Registers(m.regs, m.hhdm), w, None)
  {
    SpansJoin(m.img.Spans() + Direct(m.memmap, m.hhdm), Registers(m.regs, m.hhdm), w, None);
    SpansJoin(m.img.Spans(), Direct(m.memmap, m.hhdm), w, None);
    AllClear(m.img.Spans(), m.HeapAt(), w, None);
    NothingBehind(m.memmap, m.hhdm, w, None);
  }

  /** vheap_init finds the heap's range unmapped if and only if it holds none of the registers. */
  lemma {:induction false} HeapFreeIff(m: Machine)
    requires m.HeapBehind()
    ensures (forall w: nat | PageOffset(w, m.HeapAt()) < HEAP_PAGES :: SpansAt(m.Spans(), w, None) == None)
      <==> RegistersClear(m)
  {
    forall w: nat | PageOffset(w, m.HeapAt()) < HEAP_PAGES
      ensures RegistersClear(m) ==> SpansAt(m.Spans(), w, None) == None
    {
      OnlyRegisters(m, w);
      if RegistersClear(m) { AllClear(Registers(m.regs, m.hhdm), m.HeapAt(), w, None); }
    }
    if i :| 0 <= i < |m.regs| && !Clear(RegisterSpan(m.regs[i], m.hhdm), m.HeapAt()) {
      var w := m.hhdm + m.regs[i];
      OnlyRegisters(m, w);
      RegisterMapped(m.regs, m.hhdm, i, None);
    }
  }

  predicate RegistersClear(m: Machine) {
    forall i | 0 <= i < |m.regs| :: Clear(RegisterSpan(m.regs[i], m.hhdm), m.HeapAt())
  }

  /** A register is in the heap's range exactly when its address is less than 32 GiB behind hhdm_end. */
  lemma {:induction false} RegisterInHeapIff(m: Machine, reg: nat)
    requires m.HeapBehind() && m.hhdm <= m.HeapAt() && reg < ADDRESS_SPACE
    ensures Clear(RegisterSpan(reg, m.hhdm), m.HeapAt())
      <==> !(m.HeapAt() <= m.hhdm + reg < m.HeapAt() + HEAP_PAGES * PAGE_SIZE)
  {
    MapEndBelow(m.memmap, m.hhdm, ADDRESS_SPACE - HEAP_PAGES * PAGE_SIZE);
    var k := (m.HeapAt() - m.hhdm) / PAGE_SIZE;
    EndPages(m.HeapAt(), m.hhdm, k);
    OffsetFrom(m.hhdm + reg, m.hhdm, k);
    RegisterOffset(reg, m.hhdm);
    InWindow(reg / PAGE_SIZE, PageOffset(m.hhdm + reg, m.HeapAt()), k, HEAP_PAGES);
  }

  lemma {:induction false} RegisterOffset(reg: nat, hhdm: nat)
    requires hhdm % PAGE_SIZE == 0 && reg < ADDRESS_SPACE
    ensures PageOffset(hhdm + reg, hhdm) == reg / PAGE_SIZE
  {
    var (h, d) := (hhdm / PAGE_SIZE, reg / PAGE_SIZE);
    assert (hhdm + reg) / PAGE_SIZE == h + d;
    ModDifference2(h + d, PageNo(hhdm));
    ModDifference(h + d, h);
  }

  /**
   With vheap_init: kernel image, direct map and registers are in place, and the heap is a valid area
   manager over the unmapped range behind the direct map.
   */
  method Boot(m: Machine, ghost more: nat) returns (heap: Vmm)
    requires m.Good() && m.HeapBehind() && RegistersClear(m) && m.Pays(more)
    ensures fresh(heap) && fresh(heap.mem) && forall i | 0 <= i < |heap.areas| :: fresh(heap.areas[i])
    ensures heap.Valid() && heap.View() == m.Heap()
    ensures heap.lo == m.HeapAt() && heap.total * 4096 == 0x8_0000_0000
    ensures forall w: nat :: Translate(heap.mem.tables, heap.root, w) == SpansAt(m.Spans(), w, None)
    ensures forall w: nat, r: Right ::
              Permits(heap.mem.tables, heap.root, w, r) <==> SpanRights(SpansAt(m.Spans(), w, None), r)
    ensures heap.mem.budget == m.Budget() - BootTables(m.Spans()) - 2 >= more
  {
    var mem, pt, end := BootMap(m);
    HeapFreeIff(m);
    heap := new Vmm(mem, pt, end, HEAP_PAGES);
  }

  /** vmalloc and vfree, as a run on the heap. */
  method RunHeap(heap: Vmm, ops: seq<VmmSpec.Op>)
    requires heap.Valid() && VirtualMemoryRuns.LegalRun(heap.View(), ops)
    requires heap.mem.budget >= VirtualMemoryRuns.RunBound(heap.View(), ops)
    modifies heap, heap.mem, heap.areas
    ensures heap.Valid() && heap.View() == VmmSpec.Exec(old(heap.View()), ops)
  {
    VirtualMemoryRuns.RunTakesBound(heap.mem.tables, heap.root, [], heap.View(), ops);
    VirtualMemoryRuns.Run(heap, ops);
  }

  /** From the memory map through any run of vmalloc and vfree: list, page tables and frames still agree. */
  method BootAndRun(m: Machine, ops: seq<VmmSpec.Op>) returns (heap: Vmm)
    requires m.Good() && m.HeapBehind() && RegistersClear(m)
    requires VirtualMemoryRuns.LegalRun(m.Heap(), ops) && m.Pays(VirtualMemoryRuns.RunBound(m.Heap(), ops))
    ensures heap.Valid() && heap.View() == VmmSpec.Exec(m.Heap(), ops)
  {
    heap := Boot(m, VirtualMemoryRuns.RunBound(m.Heap(), ops));
    RunHeap(heap, ops);
  }
}
