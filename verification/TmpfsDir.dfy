/** tmpfs directories: entries in the slots of a chain of chunks, looked up and added in place. */
module TmpfsDirs {
  import opened Common
  import opened Tmpfs
  import opened Vfs

  // ---- Where an entry is ----

  /** Chunk and slot of entry number i when every chunk is taken to hold k entries. */
  function Slot(k: nat, i: nat): (r: (nat, nat))
    requires k > 0
    ensures r.1 < k && r.1 <= i && r.0 <= i
    decreases i
  {
    if i < k then (0, i) else var r := Slot(k, i - k); (r.0 + 1, r.1)
  }

  lemma {:induction false} SlotInjective(k: nat, i: nat, j: nat)
    requires k > 0 && Slot(k, i) == Slot(k, j)
    ensures i == j
    decreases i + j
  {
    if i >= k && j >= k { SlotInjective(k, i - k, j - k); }
  }

  /** The entries that follow the first one of a chunk are in the slots that follow. */
  lemma {:induction false} SameChunk(p: nat, base: nat, k: nat, j: nat)
    requires p > 0 && Slot(p, base) == (k, 0) && j < p
    ensures Slot(p, base + j) == (k, j)
    decreases base
  {
    if base >= p { SameChunk(p, base - p, k - 1, j); }
  }

  /** One chunk of entries further on is the first slot of the next chunk. */
  lemma {:induction false} NextChunk(p: nat, base: nat, k: nat)
    requires p > 0 && Slot(p, base) == (k, 0)
    ensures Slot(p, base + p) == (k + 1, 0)
    decreases base
  {
    if base >= p { NextChunk(p, base - p, k - 1); }
  }

  /** The reference in slot o ends inside the chunk. */
  predicate InsideChunk(o: nat) { 8 + (o + 1) * 8 <= TMPFS_DATA_CHUNK_SIZE }

  /** The first n entries all lie inside their chunks. */
  ghost predicate SlotsInside(k: nat, n: nat)
    requires k > 0
  {
    forall i: nat | i < n :: InsideChunk(Slot(k, i).1)
  }

  /** n entries fit exactly when the chunks hold no more than fit in one, or there are no more than fit in one. */
  lemma {:induction false} SlotsInsideIff(k: nat, n: nat)
    requires k > 0
    ensures SlotsInside(k, n) <==> k <= ENTRY_SLOTS || n <= ENTRY_SLOTS
  {
    if k > ENTRY_SLOTS && n > ENTRY_SLOTS { assert !InsideChunk(Slot(k, ENTRY_SLOTS).1); }
  }

  /** With the 4095 of the source every slot used lies inside its chunk exactly up to 511 entries. */
  lemma {:induction false} DirectoryFitsIff(n: nat)
    ensures SlotsInside(MAX_ENTRIES_PER_DATA_CHUNK, n) <==> n <= ENTRY_SLOTS
  {
    SlotsInsideIff(MAX_ENTRIES_PER_DATA_CHUNK, n);
  }

  // ---- A directory in place ----

  /** What an inode has besides its chunks. */
  datatype Meta = Meta(kind: Kind, name: string)

  /** The names the records give are those of fs. */
  ghost predicate SameNames(fs: Fs, inodes: seq<Meta>) {
    |fs| == |inodes| && forall i | 0 <= i < |fs| :: fs[i].name == inodes[i].name
  }

  class TmpfsDir {
    const perChunk: nat
    var cap: nat
    var chunks: seq<array<Option<nat>>>  // the chain, first chunk first
    ghost var entries: seq<nat>  // oldest first
    ghost var Repr: set<object>

    /** Chunks have the slots that fit, and every entry is in its slot, inside its chunk. */
    ghost predicate Valid()
      reads this, Repr
    {
      && this in Repr && perChunk > 0 && |entries| == cap && Chain(chunks, Repr)
      && forall i: nat | i < cap :: Holds(chunks, Slot(perChunk, i), entries[i])
    }

    /** tmpfs_inode_create: no chunks yet. */
    constructor (perChunk: nat)
      requires perChunk > 0
      ensures Valid() && fresh(Repr) && entries == [] && this.perChunk == perChunk
    {
      this.perChunk, cap, chunks, entries := perChunk, 0, [], [];
      Repr := {this};
    }

    lemma {:induction false} InChain(i: nat)
      requires Valid() && i < cap
      ensures Slot(perChunk, i).0 < |chunks|
    {
      assert Holds(chunks, Slot(perChunk, i), entries[i]);
    }

    /** Entry number `base` is the first of chunk k, which exists; folded. */
    ghost predicate Starts(k: nat, base: nat)
      reads this
    {
      forall z: nat {:trigger Unfolding(z)} | Unfolding(z) ::
        perChunk > 0 && Slot(perChunk, base) == (k, 0) && k < |chunks|
    }

    lemma {:induction false} FirstBase()
      requires Valid() && cap > 0
      ensures Starts(0, 0) && 0 < |chunks|
    {
      InChain(0);
    }

    /** The first entry of the next chunk, when there is one. */
    lemma {:induction false} NextBase(k: nat, base: nat)
      requires Valid() && Starts(k, base) && base + perChunk < cap
      ensures Starts(k + 1, base + perChunk) && k + 1 < |chunks|
    {
      assert Unfolding(0);
      NextChunk(perChunk, base, k);
      InChain(base + perChunk);
    }

    /** The inner loop of tmpfs_lookup: the entries of chunk k, the first of which is number base. */
    method Scan(inodes: seq<Meta>, name: string, ghost fs: Fs, k: nat, ghost base: nat, size: nat)
      returns (r: Option<nat>)
      requires Valid() && SameNames(fs, inodes) && forall e | e in entries :: e < |inodes|
      requires base + size == cap && Starts(k, base)
      ensures var i := FindEntry(fs, entries, base, name);
        match r
        case Some(id) => i < cap && entries[i] == id
        case None => i == FindEntry(fs, entries, base + if size < perChunk then size else perChunk, name)
    {
      assert Unfolding(0);
      var i := 0;
      while i < size && i < perChunk
        invariant i <= size && i <= perChunk
        invariant FindEntry(fs, entries, base, name) == FindEntry(fs, entries, base + i, name)
      {
        SameChunk(perChunk, base, k, i);
        assert Holds(chunks, Slot(perChunk, base + i), entries[base + i]);
        var child := chunks[k][i];
        assert entries[base + i] in entries;
        if child.Some? && inodes[child.value].name == name { return child; }
        i := i + 1;
      }
      return None;
    }

    /** One turn of the entry loop of tmpfs_lookup: chunk k, and how many entries it counts for. */
    method InChunk(inodes: seq<Meta>, name: string, ghost fs: Fs, k: nat, ghost base: nat, size: nat)
      returns (r: Option<nat>, now: nat)
      requires Valid() && SameNames(fs, inodes) && forall e | e in entries :: e < |inodes|
      requires base + size == cap && size > 0 && Starts(k, base) && k < |chunks|
      ensures 0 < now <= size && (now < size ==> Starts(k + 1, base + now) && k + 1 < |chunks|)
      ensures var i := FindEntry(fs, entries, base, name);
        match r
        case Some(id) => i < cap && entries[i] == id
        case None => i == FindEntry(fs, entries, base + now, name)
    {
      r := Scan(inodes, name, fs, k, base, size);
      now := if size < perChunk then size else perChunk;
      if size > perChunk { NextBase(k, base); }
    }

    /** The entry loop of tmpfs_lookup, chunk by chunk: the first entry of that name. */
    method Lookup(inodes: seq<Meta>, name: string, ghost fs: Fs) returns (r: Option<nat>)
      requires Valid() && SameNames(fs, inodes) && forall e | e in entries :: e < |inodes|
      ensures var i := FindEntry(fs, entries, 0, name); r == if i < cap then Some(entries[i]) else None
    {
      var k: nat, size: nat := 0, cap;
      ghost var base, first := 0, FindEntry(fs, entries, 0, name);
      if size > 0 { FirstBase(); }
      while k < |chunks| && size > 0
        invariant base + size == cap && (size > 0 ==> Starts(k, base) && k < |chunks|)
        invariant first == FindEntry(fs, entries, base, name)
        decreases size
      {
        var now;
        r, now := InChunk(inodes, name, fs, k, base, size);
        if r.Some? { return; }
        base, size, k := base + now, size - now, k + 1;
      }
      return None;
    }

    /** The chunk walk of tmpfs_create: chunk and slot of the next entry; the chunk may still be missing. */
    method Place() returns (k: nat, o: nat)
      requires Valid()
      ensures (k, o) == Slot(perChunk, cap) && k <= |chunks|
    {
      k, o := 0, cap;
      while o >= perChunk
        invariant o <= cap && k <= |chunks| && Slot(perChunk, cap - o) == (k, 0)
        decreases o
      {
        // Entry number cap - o is in chunk k, so the source's allocation in this loop never runs.
        InChain(cap - o);
        NextChunk(perChunk, cap - o, k);
        o := o - perChunk;
        k := k + 1;
      }
      SameChunk(perChunk, cap - o, k, o);
    }

    /** tmpfs_new_data_chunk linked at the end of the chain: no references yet. */
    method NewChunk()
      requires Valid()
      modifies this`chunks, this`Repr
      ensures Valid() && |chunks| == |old(chunks)| + 1
      ensures forall x | x in Repr :: x in old(Repr) || fresh(x)
    {
      var chunk := new Option<nat>[ENTRY_SLOTS](_ => None);
      forall i: nat | i < cap ensures Holds(chunks + [chunk], Slot(perChunk, i), entries[i]) {
        assert old(Holds(chunks, Slot(perChunk, i), entries[i]));
      }
      chunks := chunks + [chunk];
      Repr := Repr + {chunk};
    }

    /** A slot for one more entry, in a new chunk when the chain is full; that can fail for lack of memory. */
    method Reserve(mem: bool) returns (ok: bool, k: nat, o: nat)
      requires Valid()
      modifies this`chunks, this`Repr
      ensures Valid() && forall x | x in Repr :: x in old(Repr) || fresh(x)
      ensures (k, o) == Slot(perChunk, cap) && (ok <==> k < |chunks|) && (mem ==> ok)
    {
      k, o := Place();
      if k == |chunks| && mem { NewChunk(); }
      ok := k < |chunks|;
    }

    /** dir_entires(chunk)[idx] = inode; cap++. */
    method Store(k: nat, o: nat, id: nat)
      requires Valid() && (k, o) == Slot(perChunk, cap) && k < |chunks| && InsideChunk(o)
      modifies this`cap, this`entries, chunks[k]
      ensures Valid() && entries == old(entries) + [id]
    {
      chunks[k][o] := Some(id);
      cap := cap + 1;
      entries := entries + [id];
      forall i: nat | i < cap ensures Holds(chunks, Slot(perChunk, i), entries[i]) {
        if i < cap - 1 {
          assert old(Holds(chunks, Slot(perChunk, i), entries[i]));
          if Slot(perChunk, i) == (k, o) { SlotInjective(perChunk, i, cap - 1); }
        }
      }
    }
  }

  /** Distinct chunks with the slots that fit behind the link. */
  ghost predicate Chain(chunks: seq<array<Option<nat>>>, repr: set<object>) {
    && (forall k | 0 <= k < |chunks| :: chunks[k] in repr && chunks[k].Length == ENTRY_SLOTS)
    && (forall j, k | 0 <= j < k < |chunks| :: chunks[j] != chunks[k])
  }

  /** Slot s of the chain exists and refers to inode id. */
  ghost predicate Holds(chunks: seq<array<Option<nat>>>, s: (nat, nat), id: nat)
    reads chunks
  {
    s.0 < |chunks| && s.1 < chunks[s.0].Length && chunks[s.0][s.1] == Some(id)
  }

  /** In a valid directory every slot used lies inside its chunk; with the source's 4095 it has at most 511 entries. */
  lemma {:induction false} ValidFits(d: TmpfsDir)
    requires d.Valid()
    ensures SlotsInside(d.perChunk, d.cap)
    ensures d.perChunk == MAX_ENTRIES_PER_DATA_CHUNK ==> d.cap <= ENTRY_SLOTS
  {
    forall i: nat | i < d.cap ensures InsideChunk(Slot(d.perChunk, i).1) {
      assert Holds(d.chunks, Slot(d.perChunk, i), d.entries[i]);
    }
    if d.perChunk == MAX_ENTRIES_PER_DATA_CHUNK { DirectoryFitsIff(d.cap); }
  }
}
