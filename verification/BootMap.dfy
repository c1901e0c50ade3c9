/** What the processor finds where after the start: frames, flags and rights of kernel image and direct map. */
module BootMaps {
  import opened Common
  import opened PageWalk
  import opened Paging
  import PhysicalMemory
  import PmmSpec
  import opened Booting

  /** The last call that has the page decides. */
  lemma {:induction false} LastCallDecides(ss: seq<Span>, i: nat, w: nat, before: Option<nat>)
    requires i < |ss| && PageOffset(w, ss[i].start) < ss[i].n
    requires forall j | i < j < |ss| :: PageOffset(w, ss[j].start) >= ss[j].n
    ensures var e := LeafEntry(ss[i].target + PageOffset(w, ss[i].start) * PAGE_SIZE, ss[i].flags);
      SpansAt(ss, w, before) == Leaf(e)
  {
    if i < |ss| - 1 { LastCallDecides(ss[..|ss| - 1], i, w, before); }
  }

  // ---- The kernel image ----

  /** Later calls do not map this page. */
  predicate KeptFrom(ss: seq<Span>, i: nat, w: nat) {
    forall j | i < j < |ss| :: PageOffset(w, ss[j].start) >= ss[j].n
  }

  /**
   A page of text, read-only data or data that nothing mapped later is mapped to its place in the
   loaded image, present and for the kernel only; data can be written, text and read-only data cannot.
   */
  lemma {:induction false} SectionMapped(m: Machine, i: nat, w: nat)
    requires m.img.Good() && i < 3 && KeptFrom(m.Spans(), i, w)
    requires var s := [m.img.text, m.img.rodata, m.img.data][i]; PageOffset(w, s.start) < (s.end - s.start) / 4096
    ensures var (s, e) := ([m.img.text, m.img.rodata, m.img.data][i], SpansAt(m.Spans(), w, None));
      && e.Some? && e.value % 4096 == (if i == 2 then 1 + 2 else 1) && e.value < 0x1_0000_0000_0000
      && Frame(e.value) == Frame(m.img.physicalBase + s.start - m.img.virtualBase + PageOffset(w, s.start) * 4096)
      && (Grants(e.value, Writing) <==> i == 2) && !Grants(e.value, UserMode)
  {
    var (s, ss) := ([m.img.text, m.img.rodata, m.img.data][i], m.Spans());
    assert s in [m.img.text, m.img.rodata, m.img.data];
    assert ss[i] == m.img.Spans()[i];
    LastCallDecides(ss, i, w, None);
    EntryBits(ss[i].target + PageOffset(w, s.start) * PAGE_SIZE, ss[i].flags);
  }

  lemma {:induction false} EntryBits(paddr: nat, flags: nat)
    requires flags in {1, 3, 139}
    ensures var e := LeafEntry(paddr, flags);
      && Present(e) && e % 4096 == flags && Frame(e) == Frame(paddr) && e < 0x1_0000_0000_0000
      && (Grants(e, Writing) <==> flags != 1) && !Grants(e, UserMode)
  {
    LeafEntryParts(paddr, flags);
    GrantsLow(LeafEntry(paddr, flags), flags, Writing);
    GrantsLow(LeafEntry(paddr, flags), flags, UserMode);
  }

  // ---- The direct map ----

  /** Region i is the last one that covers the physical page. */
  predicate LastCover(rs: seq<Region>, d: nat, i: nat) {
    i < |rs| && rs[i].Covers(d) && forall j | i < j < |rs| :: !rs[j].Covers(d)
  }

  /**
   A page of the direct map can be written by the kernel only; the framebuffer is write-through with
   the PAT bit, when it is the last region that covers the page.
   */
  lemma {:induction false} DirectFlags(rs: seq<Region>, hhdm: nat, w: nat, before: Option<nat>, i: nat)
    requires forall j | 0 <= j < |rs| && rs[j].Mapped() :: rs[j].End() <= ADDRESS_SPACE
    requires LastCover(rs, PageOffset(w, hhdm), i)
    ensures var e := SpansAt(Direct(rs, hhdm), w, before);
      && e.Some? && e.value % 4096 == (if rs[i].kind == FRAMEBUFFER then 1 + 2 + 8 + 128 else 1 + 2)
      && e.value < 0x1_0000_0000_0000 && Grants(e.value, Writing) && !Grants(e.value, UserMode)
  {
    var (m, r) := (|rs| - 1, rs[|rs| - 1]);
    LastRegion(rs, hhdm, w, before);
    CoversWhen(r, hhdm, w);
    if i == m {
      EntryBits(r.Start() + PageOffset(w, hhdm + r.Start()) * PAGE_SIZE, r.Flags());
    } else {
      DirectFlags(rs[..m], hhdm, w, before, i);
    }
  }

  /** The register pages are writable by the kernel only, each at the last register mapped there. */
  lemma {:induction false} RegisterFlags(m: Machine, i: nat)
    requires m.img.Good() && i < |m.regs|
    requires forall j | i < j < |m.regs| :: PageNo(m.hhdm + m.regs[j]) != PageNo(m.hhdm + m.regs[i])
    ensures var e := SpansAt(m.Spans(), m.hhdm + m.regs[i], None);
      && e.Some? && Frame(e.value) == Frame(m.regs[i]) && e.value % 4096 == 1 + 2
  {
    var before := RegistersLast(m, m.hhdm + m.regs[i]);
    LastRegister(m.regs, m.hhdm, i, before);
  }

  lemma {:induction false} RegistersLast(m: Machine, w: nat) returns (before: Option<nat>)
    requires m.img.Good()
    ensures SpansAt(m.Spans(), w, None) == SpansAt(Registers(m.regs, m.hhdm), w, before)
  {
    var front := m.img.Spans() + Direct(m.memmap, m.hhdm);
    SpansJoin(front, Registers(m.regs, m.hhdm), w, None);
    before := SpansAt(front, w, None);
  }

  lemma {:induction false} LastRegister(regs: seq<nat>, hhdm: nat, i: nat, before: Option<nat>)
    requires i < |regs| && forall j | i < j < |regs| :: PageNo(hhdm + regs[j]) != PageNo(hhdm + regs[i])
    ensures var e := SpansAt(Registers(regs, hhdm), hhdm + regs[i], before);
      e.Some? && Frame(e.value) == Frame(regs[i]) && e.value % 4096 == 1 + 2
  {
    var (ss, w) := (Registers(regs, hhdm), hhdm + regs[i]);
    forall j | i < j < |ss| ensures PageOffset(w, ss[j].start) >= ss[j].n { Elsewhere(w, ss[j].start); }
    LastCallDecides(ss, i, w, before);
    EntryBits(regs[i], 3);
  }

  lemma {:induction false} Elsewhere(w: nat, v: nat)
    requires PageNo(w) != PageNo(v)
    ensures PageOffset(w, v) >= 1
  {
  }

  // ---- hhdm_end and the budget ----

  /** Where a region ends in the direct map, in 64-bit arithmetic. */
  function EndAt(r: Region, hhdm: nat): nat { (hhdm + (r.base + 4095) / 4096 * 4096 + r.length / 4096 * 4096) % WORD }

  /** hhdm_end is the highest of these ends, and 0 when nothing is mapped. */
  lemma {:induction false} MapEndIs(rs: seq<Region>, hhdm: nat)
    ensures forall j | 0 <= j < |rs| && rs[j].Mapped() :: EndAt(rs[j], hhdm) <= MapEnd(rs, hhdm)
    ensures MapEnd(rs, hhdm) == 0
      || exists j :: 0 <= j < |rs| && rs[j].Mapped() && EndAt(rs[j], hhdm) == MapEnd(rs, hhdm)
  {
    if rs != [] {
      var m := |rs| - 1;
      MapEndIs(rs[..m], hhdm);
      assert EndAt(rs[m], hhdm) == (hhdm + rs[m].End()) % WORD;
      forall j | 0 <= j < |rs| && rs[j].Mapped() ensures EndAt(rs[j], hhdm) <= MapEnd(rs, hhdm) {
        assert j < m ==> rs[..m][j] == rs[j];
      }
    }
  }

  /** The data pages of the usable regions. */
  function UsablePages(rs: seq<Region>): nat {
    if rs == [] then 0
    else
      var r := rs[|rs| - 1];
      UsablePages(rs[..|rs| - 1]) + if r.kind == USABLE && r.length >= 2 * 4096 then r.length / 4096 - 1 else 0
  }

  lemma {:induction false} DataPagesOf(rs: seq<Region>)
    ensures PhysicalMemory.DataPages(Usable(rs)) == UsablePages(rs)
  {
    if rs != [] {
      assert Usable(rs)[..|rs| - 1] == Usable(rs[..|rs| - 1]);
      DataPagesOf(rs[..|rs| - 1]);
    }
  }

  /** The start has all pages of all usable regions but the first of each to spend. */
  lemma {:induction false} BudgetIs(m: Machine)
    requires m.Good()
    ensures m.Budget() == UsablePages(m.memmap)
  {
    PhysicalMemory.InitAreasExact(Usable(m.memmap));
    DataPagesOf(m.memmap);
  }
}
