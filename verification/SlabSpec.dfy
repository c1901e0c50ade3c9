/** The slab caches as values: pointers are addresses, and a slab is known by the address of its memory. */
module SlabSpec {
  import opened Common

  // sizeof(cache_t) and sizeof(slab_t).
  const CACHE_BYTES: nat := 112
  const SLAB_BYTES: nat := 56

  // sizeof(list_t): the freelist is threaded through the free objects themselves.
  const NODE_BYTES: nat := 16

  datatype Block = Block(at: nat, len: nat)

  /** A slab: where its record is, the cache it serves, and what is left on its freelist. */
  datatype Slab = Slab(at: nat, cache: nat, inuse: nat, freelist: seq<nat>)

  datatype Cache = Cache(size: nat, slots: nat, free: seq<nat>, partial: seq<nat>, full: seq<nat>,
                         totalObjs: nat, totalSlabs: nat)

  /** An object that was handed out: its slab and its place in the slab. */
  datatype Obj = Obj(slab: nat, slot: nat)

  /** All caches, all slabs, every block vmalloc has returned and every object handed out, oldest first. */
  datatype State = State(caches: seq<Cache>, slabs: map<nat, Slab>, blocks: seq<Block>, live: seq<Obj>)

  predicate Apart(a: Block, b: Block) { a.at + a.len <= b.at || b.at + b.len <= a.at }

  /** The objects of a slab from slot `from` to the last, in order. */
  function Slots(smem: nat, size: nat, from: nat, n: nat): (r: seq<nat>)
    ensures |r| == if from <= n then n - from else 0
    decreases n - from
  {
    if from >= n then [] else [smem + from * size] + Slots(smem, size, from + 1, n)
  }

  function NewCache(size: nat): Cache
    requires 0 < size
  {
    Cache(size, PAGE_SIZE / size, [], [], [], 0, 0)
  }

  function Span(k: Cache): nat { k.slots * k.size }

  predicate Room(k: Cache) { k.partial != [] || k.free != [] }

  /** slab_select when there is room: the first partial slab, else the first free one. */
  function Server(k: Cache): nat
    requires Room(k)
  {
    if k.partial != [] then k.partial[0] else k.free[0]
  }

  /** The serving slab leaves its list for the end of the partial one, or of the full one. */
  function Served(k: Cache, last: bool): Cache
    requires Room(k)
  {
    var rest := if k.partial != [] then k.(partial := k.partial[1..]) else k.(free := k.free[1..]);
    if last then rest.(full := rest.full + [Server(k)]) else rest.(partial := rest.partial + [Server(k)])
  }

  // ---- Invariant ----

  /** p is a slab of cache c with from lo to hi of its n objects in use; the others are its freelist. */
  ghost predicate SlabOk(slabs: map<nat, Slab>, p: nat, c: nat, size: nat, n: nat, lo: nat, hi: nat) {
    && p in slabs && slabs[p].cache == c && lo <= slabs[p].inuse <= hi
    && slabs[p].freelist == Slots(p, size, slabs[p].inuse, n)
  }

  ghost predicate ListOk(slabs: map<nat, Slab>, l: seq<nat>, c: nat, size: nat, n: nat, lo: nat, hi: nat) {
    NoDup(l) && forall p | p in l :: SlabOk(slabs, p, c, size, n, lo, hi)
  }

  ghost predicate CacheOk(slabs: map<nat, Slab>, c: nat, k: Cache) {
    && k.slots > 0 && k.size > 0
    && ListOk(slabs, k.free, c, k.size, k.slots, 0, 0)
    && ListOk(slabs, k.partial, c, k.size, k.slots, 1, k.slots - 1)
    && ListOk(slabs, k.full, c, k.size, k.slots, k.slots, k.slots)
    && k.totalSlabs == |k.free| + |k.partial| + |k.full| && k.totalObjs == k.totalSlabs * k.slots
  }

  ghost predicate SlabInBlock(s: State, p: nat)
    requires p in s.slabs
  {
    var c := s.slabs[p].cache;
    c < |s.caches| && s.slabs[p].inuse <= s.caches[c].slots && Block(p, Span(s.caches[c])) in s.blocks
  }

  /** What vmalloc returns does not overlap, and every slab has a block of its own. */
  ghost predicate MemoryOk(s: State) {
    && (forall i, j | 0 <= i < j < |s.blocks| :: Apart(s.blocks[i], s.blocks[j]))
    && (forall i | 0 <= i < |s.blocks| :: s.blocks[i].at > 0 && s.blocks[i].len > 0)
    && (forall p | p in s.slabs :: SlabInBlock(s, p))
  }

  /** The objects handed out are exactly the slots in use, each once. */
  ghost predicate LiveOk(s: State) {
    && (forall i | 0 <= i < |s.live| :: s.live[i].slab in s.slabs && s.live[i].slot < s.slabs[s.live[i].slab].inuse)
    && (forall i, j | 0 <= i < j < |s.live| :: s.live[i] != s.live[j])
    && (forall p, k: nat | p in s.slabs && k < s.slabs[p].inuse :: Obj(p, k) in s.live)
  }

  ghost predicate Inv(s: State) {
    && s.caches != []
    && (forall c | 0 <= c < |s.caches| :: CacheOk(s.slabs, c, s.caches[c]))
    && MemoryOk(s) && LiveOk(s)
  }

  /** The memory of an object. */
  ghost function Memory(s: State, o: Obj): Block
    requires MemoryOk(s) && o.slab in s.slabs
  {
    var k := s.caches[s.slabs[o.slab].cache];
    Block(o.slab + o.slot * k.size, k.size)
  }

  // ---- Operations ----

  /** Address `at` is free for a block of `len` bytes. */
  predicate Fits(blocks: seq<Block>, at: nat, len: nat) {
    at > 0 && len > 0 && forall i | 0 <= i < |blocks| :: Apart(blocks[i], Block(at, len))
  }

  /** slab_init: the slabs cache and the cache of caches, in two blocks. */
  function Init(a: nat, b: nat): State {
    State([NewCache(SLAB_BYTES), NewCache(CACHE_BYTES)], map[], [Block(a, CACHE_BYTES), Block(b, CACHE_BYTES)], [])
  }

  /** cache_create, once the cache record is allocated. */
  function Created(s: State, size: nat): State
    requires 0 < size
  {
    s.(caches := s.caches + [NewCache(size)])
  }

  function WithSlab(k: Cache, p: nat): Cache {
    k.(free := k.free + [p], totalSlabs := k.totalSlabs + 1, totalObjs := k.totalObjs + k.slots)
  }

  /** cache_grow, once its record is at `at`: the slab's memory is at p. */
  function Grown(s: State, c: nat, at: nat, p: nat): State
    requires c < |s.caches|
  {
    var k := s.caches[c];
    State(s.caches[c := WithSlab(k, p)],
          s.slabs[p := Slab(at, c, 0, Slots(p, k.size, 0, k.slots))], s.blocks + [Block(p, Span(k))], s.live)
  }

  /** cache_alloc, once the cache has room. */
  function Taken(s: State, c: nat): State
    requires Inv(s) && c < |s.caches| && Room(s.caches[c])
  {
    var k, p := s.caches[c], Server(s.caches[c]);
    ServedOk(s.slabs, c, k);
    var x := s.slabs[p];
    State(s.caches[c := Served(k, x.inuse + 1 == k.slots)], s.slabs[p := LessOne(x)], s.blocks,
          s.live + [Obj(p, x.inuse)])
  }

  // ---- Each operation keeps the invariant ----

  lemma {:induction false} GrownInv(s: State, c: nat, at: nat, p: nat)
    requires Inv(s) && c < |s.caches| && Fits(s.blocks, p, Span(s.caches[c]))
    ensures Inv(Grown(s, c, at, p)) && p !in s.slabs && Room(Grown(s, c, at, p).caches[c])
  {
    BlockIsNew(s, p, Span(s.caches[c]));
    forall d | 0 <= d < |s.caches| ensures CacheOk(Grown(s, c, at, p).slabs, d, Grown(s, c, at, p).caches[d]) {
      GrownCache(s, c, at, p, d);
    }
    forall q | q in Grown(s, c, at, p).slabs ensures SlabInBlock(Grown(s, c, at, p), q) {
      if q != p { assert SlabInBlock(s, q); }
    }
  }

  lemma {:induction false} GrownCache(s: State, c: nat, at: nat, p: nat, d: nat)
    requires c < |s.caches| && d < |s.caches| && CacheOk(s.slabs, d, s.caches[d]) && p !in s.slabs
    ensures CacheOk(Grown(s, c, at, p).slabs, d, Grown(s, c, at, p).caches[d])
  {
    var k := s.caches[d];
    var x := Slab(at, c, 0, Slots(p, s.caches[c].size, 0, s.caches[c].slots));
    ListKept(s.slabs, k.free, p, x, d, k.size, k.slots, 0, 0);
    ListKept(s.slabs, k.partial, p, x, d, k.size, k.slots, 1, k.slots - 1);
    ListKept(s.slabs, k.full, p, x, d, k.size, k.slots, k.slots, k.slots);
    if c == d {
      ListGains(s.slabs[p := x], k.free, p, d, k.size, k.slots, 0, 0);
      assert (k.totalSlabs + 1) * k.slots == k.totalSlabs * k.slots + k.slots;
    }
  }

  lemma {:induction false} BlockIsNew(s: State, p: nat, len: nat)
    requires MemoryOk(s) && Fits(s.blocks, p, len)
    ensures p !in s.slabs
  {
  }

  lemma {:induction false} NoDupAdd(s: seq<nat>, p: nat)
    requires NoDup(s) && p !in s
    ensures NoDup(s + [p])
  {
  }

  lemma {:induction false} NoDupTail(s: seq<nat>)
    requires NoDup(s) && s != []
    ensures NoDup(s[1..]) && s[0] !in s[1..]
  {
  }

  /** The slab that loses an object to the caller. */
  function LessOne(x: Slab): Slab
    requires x.freelist != []
  {
    x.(inuse := x.inuse + 1, freelist := x.freelist[1..])
  }

  /** A slab that changes outside a list leaves the list as it is. */
  lemma {:induction false} ListKept(slabs: map<nat, Slab>, l: seq<nat>, p: nat, x: Slab, c: nat, size: nat, n: nat,
          lo: nat, hi: nat)
    requires p !in l && ListOk(slabs, l, c, size, n, lo, hi)
    ensures ListOk(slabs[p := x], l, c, size, n, lo, hi)
  {
  }

  lemma {:induction false} ListGains(slabs: map<nat, Slab>, l: seq<nat>, p: nat, c: nat, size: nat, n: nat, lo: nat,
          hi: nat)
    requires p !in l && ListOk(slabs, l, c, size, n, lo, hi) && SlabOk(slabs, p, c, size, n, lo, hi)
    ensures ListOk(slabs, l + [p], c, size, n, lo, hi)
  {
    NoDupAdd(l, p);
  }

  lemma {:induction false} ListLoses(slabs: map<nat, Slab>, l: seq<nat>, c: nat, size: nat, n: nat, lo: nat, hi: nat)
    requires l != [] && ListOk(slabs, l, c, size, n, lo, hi)
    ensures ListOk(slabs, l[1..], c, size, n, lo, hi) && l[0] !in l[1..] && SlabOk(slabs, l[0], c, size, n, lo, hi)
  {
    NoDupTail(l);
  }

  lemma {:induction false} ServedOk(slabs: map<nat, Slab>, c: nat, k: Cache)
    requires CacheOk(slabs, c, k) && Room(k)
    ensures SlabOk(slabs, Server(k), c, k.size, k.slots, 0, k.slots - 1) && slabs[Server(k)].freelist != []
    ensures CacheOk(slabs[Server(k) := LessOne(slabs[Server(k)])], c, Served(k, slabs[Server(k)].inuse + 1 == k.slots))
  {
    var p, partial, free := Server(k), k.partial, k.free;
    if k.partial != [] {
      ListLoses(slabs, k.partial, c, k.size, k.slots, 1, k.slots - 1);
      partial := partial[1..];
    } else {
      ListLoses(slabs, k.free, c, k.size, k.slots, 0, 0);
      free := free[1..];
    }
    var x := LessOne(slabs[p]);
    assert p !in k.full && p !in free;
    ListKept(slabs, partial, p, x, c, k.size, k.slots, 1, k.slots - 1);
    ListKept(slabs, free, p, x, c, k.size, k.slots, 0, 0);
    ListKept(slabs, k.full, p, x, c, k.size, k.slots, k.slots, k.slots);
    if x.inuse == k.slots {
      ListGains(slabs[p := x], k.full, p, c, k.size, k.slots, k.slots, k.slots);
    } else {
      ListGains(slabs[p := x], partial, p, c, k.size, k.slots, 1, k.slots - 1);
    }
  }

  lemma {:induction false} TakenInv(s: State, c: nat)
    requires Inv(s) && c < |s.caches| && Room(s.caches[c])
    ensures Inv(Taken(s, c))
  {
    ServedOk(s.slabs, c, s.caches[c]);
    TakenLive(s, Taken(s, c), Server(s.caches[c]));
    TakenMemory(s, Taken(s, c), c);
    forall d | 0 <= d < |s.caches| ensures CacheOk(Taken(s, c).slabs, d, Taken(s, c).caches[d]) {
      if d != c { CacheKept(s.slabs, Server(s.caches[c]), c, d, s.caches[d]); }
    }
  }

  /** Other caches do not see the slab. */
  lemma {:induction false} CacheKept(slabs: map<nat, Slab>, p: nat, c: nat, d: nat, k: Cache)
    requires c != d && CacheOk(slabs, d, k) && p in slabs && slabs[p].cache == c && slabs[p].freelist != []
    ensures CacheOk(slabs[p := LessOne(slabs[p])], d, k)
  {
    ListKept(slabs, k.free, p, LessOne(slabs[p]), d, k.size, k.slots, 0, 0);
    ListKept(slabs, k.partial, p, LessOne(slabs[p]), d, k.size, k.slots, 1, k.slots - 1);
    ListKept(slabs, k.full, p, LessOne(slabs[p]), d, k.size, k.slots, k.slots, k.slots);
  }

  lemma {:induction false} TakenMemory(s: State, t: State, c: nat)
    requires Inv(s) && c < |s.caches| && Room(s.caches[c])
    requires SlabOk(s.slabs, Server(s.caches[c]), c, s.caches[c].size, s.caches[c].slots, 0, s.caches[c].slots - 1)
    requires t == Taken(s, c)
    ensures MemoryOk(t)
  {
    forall q | q in t.slabs ensures SlabInBlock(t, q) { assert SlabInBlock(s, q); }
  }

  /** One more object of slab p is in use, and one more is live. */
  lemma {:induction false} TakenLive(s: State, t: State, p: nat)
    requires LiveOk(s) && p in s.slabs && s.slabs[p].freelist != []
    requires t.slabs == s.slabs[p := LessOne(s.slabs[p])] && t.live == s.live + [Obj(p, s.slabs[p].inuse)]
    ensures LiveOk(t)
  {
    forall q, k: nat | q in t.slabs && k < t.slabs[q].inuse ensures Obj(q, k) in t.live {
      if !(q == p && k == s.slabs[p].inuse) { assert Obj(q, k) in s.live; }
    }
  }

  /** Objects handed out never overlap. */
  lemma {:induction false} ObjectsApart(s: State, i: nat, j: nat)
    requires Inv(s) && i < j < |s.live|
    ensures Apart(Memory(s, s.live[i]), Memory(s, s.live[j]))
  {
    var o, r := s.live[i], s.live[j];
    InsideSlab(s, o);
    InsideSlab(s, r);
    var a, b := s.slabs[o.slab].cache, s.slabs[r.slab].cache;
    if o.slab == r.slab {
      SlotsApart(o.slab, o.slot, r.slot, s.caches[a].size);
    } else {
      BlocksApart(s, o.slab, r.slab);
    }
  }

  lemma {:induction false} SlotsApart(p: nat, i: nat, j: nat, size: nat)
    requires i != j
    ensures Apart(Block(p + i * size, size), Block(p + j * size, size))
  {
    if i < j { assert (i + 1) * size <= j * size; } else { assert (j + 1) * size <= i * size; }
  }

  lemma {:induction false} BlocksApart(s: State, p: nat, q: nat)
    requires MemoryOk(s) && p in s.slabs && q in s.slabs && p != q
    ensures Apart(Block(p, Span(s.caches[s.slabs[p].cache])), Block(q, Span(s.caches[s.slabs[q].cache])))
  {
    var i :| 0 <= i < |s.blocks| && s.blocks[i] == Block(p, Span(s.caches[s.slabs[p].cache]));
    var j :| 0 <= j < |s.blocks| && s.blocks[j] == Block(q, Span(s.caches[s.slabs[q].cache]));
    assert i != j;
    if i < j { assert Apart(s.blocks[i], s.blocks[j]); } else { assert Apart(s.blocks[j], s.blocks[i]); }
  }

  /** An object handed out lies inside its slab's memory. */
  lemma {:induction false} InsideSlab(s: State, o: Obj)
    requires MemoryOk(s) && o.slab in s.slabs && o.slot < s.slabs[o.slab].inuse
    ensures var k := s.caches[s.slabs[o.slab].cache];
      o.slab <= Memory(s, o).at && Memory(s, o).at + k.size <= o.slab + Span(k)
  {
    assert SlabInBlock(s, o.slab);
    SlotInside(o.slot, s.caches[s.slabs[o.slab].cache].slots, s.caches[s.slabs[o.slab].cache].size);
  }

  lemma {:induction false} SlotInside(i: nat, n: nat, size: nat)
    requires i < n
    ensures 0 <= i * size && i * size + size <= n * size
  {
    assert (i + 1) * size <= n * size;
  }

  lemma {:induction false} SpanPositive(s: State, c: nat)
    requires Inv(s) && c < |s.caches|
    ensures Span(s.caches[c]) > 0
  {
    assert CacheOk(s.slabs, c, s.caches[c]);
  }

  // ---- cache_alloc and its runs ----

  /**
   What vmalloc answers if cache_alloc has to ask: the record of a new slab of the slabs cache, 0 when
   there is none, that slab's memory, and the memory of a new slab of another cache.
   */
  datatype Fresh = Fresh(record: nat, smem: nat, own: nat)

  function WithBlock(s: State, at: nat, len: nat): State { s.(blocks := s.blocks + [Block(at, len)]) }

  ghost predicate RecordSupplied(s: State, f: Fresh)
    requires Inv(s)
  {
    Room(s.caches[0]) || f.record == 0
    || (Fits(s.blocks, f.record, SLAB_BYTES)
       && Fits(WithBlock(s, f.record, SLAB_BYTES).blocks, f.smem, Span(s.caches[0])))
  }

  /** cache_alloc(slabs_cache): the state after, and the object, 0 for none. */
  function AllocRecord(s: State, f: Fresh): (r: (State, nat))
    requires Inv(s) && RecordSupplied(s, f)
    ensures Inv(r.0) && |r.0.caches| == |s.caches|
    ensures forall c | 0 < c < |s.caches| :: r.0.caches[c] == s.caches[c]
  {
    if Room(s.caches[0]) then
      TakenInv(s, 0);
      (Taken(s, 0), NextObject(s, 0))
    else if f.record == 0 then (s, 0)
    else
      var g := Grown(WithBlock(s, f.record, SLAB_BYTES), 0, f.record, f.smem);
      WithBlockInv(s, f.record, SLAB_BYTES);
      GrownInv(WithBlock(s, f.record, SLAB_BYTES), 0, f.record, f.smem);
      TakenInv(g, 0);
      (Taken(g, 0), NextObject(g, 0))
  }

  /** The object cache_alloc returns when the cache has room. */
  function NextObject(s: State, c: nat): nat
    requires Inv(s) && c < |s.caches| && Room(s.caches[c])
  {
    ServedOk(s.slabs, c, s.caches[c]);
    s.slabs[Server(s.caches[c])].freelist[0]
  }

  lemma {:induction false} WithBlockInv(s: State, at: nat, len: nat)
    requires Inv(s) && Fits(s.blocks, at, len)
    ensures Inv(WithBlock(s, at, len))
  {
    forall p | p in s.slabs ensures SlabInBlock(WithBlock(s, at, len), p) { assert SlabInBlock(s, p); }
  }

  ghost predicate Supplied(s: State, c: nat, f: Fresh)
    requires Inv(s) && c < |s.caches|
  {
    Room(s.caches[c])
    || (RecordSupplied(s, f)
        && (c > 0 && AllocRecord(s, f).1 > 0 ==> Fits(AllocRecord(s, f).0.blocks, f.own, Span(s.caches[c]))))
  }

  /** slab_select: the cache has room afterwards, unless there is no record for a new slab. */
  function Readied(s: State, c: nat, f: Fresh): (r: (State, bool))
    requires Inv(s) && c < |s.caches| && Supplied(s, c, f)
    ensures Inv(r.0) && |r.0.caches| == |s.caches| && (r.1 ==> Room(r.0.caches[c]))
  {
    if Room(s.caches[c]) then (s, true)
    else if c == 0 then
      if f.record == 0 then (s, false)
      else
        var b := WithBlock(s, f.record, SLAB_BYTES);
        WithBlockInv(s, f.record, SLAB_BYTES);
        GrownInv(b, 0, f.record, f.smem);
        (Grown(b, 0, f.record, f.smem), true)
    else
      var (t, at) := AllocRecord(s, f);
      if at == 0 then (t, false)
      else
        GrownInv(t, c, at, f.own);
        (Grown(t, c, at, f.own), true)
  }

  /** cache_alloc. */
  function Alloc(s: State, c: nat, f: Fresh): (r: (State, nat))
    requires Inv(s) && c < |s.caches| && Supplied(s, c, f)
    ensures Inv(r.0) && |r.0.caches| == |s.caches|
  {
    var (t, ok) := Readied(s, c, f);
    if !ok then (t, 0)
    else
      TakenInv(t, c);
      (Taken(t, c), NextObject(t, c))
  }

  /** The object is the last one handed out, from cache c. */
  ghost predicate IsLast(s: State, c: nat, obj: nat)
    requires MemoryOk(s) && LiveOk(s)
  {
    s.live != [] && c < |s.caches|
    && (var o := s.live[|s.live| - 1]; s.slabs[o.slab].cache == c && Memory(s, o) == Block(obj, s.caches[c].size))
  }

  lemma {:induction false} TakenIsLast(s: State, c: nat)
    requires Inv(s) && c < |s.caches| && Room(s.caches[c])
    ensures Inv(Taken(s, c)) && IsLast(Taken(s, c), c, NextObject(s, c)) && NextObject(s, c) > 0
    ensures Extends(s, Taken(s, c)) && forall p | p in Taken(s, c).slabs :: p in s.slabs
  {
    TakenInv(s, c);
    ServedOk(s.slabs, c, s.caches[c]);
    assert SlabInBlock(s, Server(s.caches[c]));
    SlotInside(s.slabs[Server(s.caches[c])].inuse, s.caches[c].slots, s.caches[c].size);
  }

  lemma {:induction false} GrownExtends(s: State, c: nat, at: nat, p: nat)
    requires Inv(s) && c < |s.caches| && Fits(s.blocks, p, Span(s.caches[c]))
    ensures Inv(Grown(s, c, at, p)) && Extends(s, Grown(s, c, at, p))
    ensures forall q | q in Grown(s, c, at, p).slabs && q !in s.slabs ::
      Grown(s, c, at, p).slabs[q] == Slab(at, c, 0, Slots(p, s.caches[c].size, 0, s.caches[c].slots))
  {
    GrownInv(s, c, at, p);
  }

  lemma {:induction false} ExtendsTrans(s: State, t: State, u: State)
    requires Extends(s, t) && Extends(t, u)
    ensures Extends(s, u)
  {
  }

  /** The record of every slab of the other caches is an object handed out by the slabs cache. */
  ghost predicate RecordsOk(s: State)
    requires MemoryOk(s) && LiveOk(s)
  {
    && s.caches != [] && s.caches[0].size == SLAB_BYTES
    && (forall p | p in s.slabs && s.slabs[p].cache > 0 :: exists i :: IsRecord(s, i, s.slabs[p].at))
    && (forall p | p in s.slabs && s.slabs[p].cache == 0 :: OwnRecord(s, s.slabs[p].at))
  }

  /** The record of a slab of the slabs cache: a block of its own, which is no slab's memory. */
  predicate OwnRecord(s: State, at: nat) { Block(at, SLAB_BYTES) in s.blocks && at !in s.slabs }

  ghost predicate IsRecord(s: State, i: int, at: nat)
    requires MemoryOk(s) && LiveOk(s)
  {
    0 <= i < |s.live| && s.slabs[s.live[i].slab].cache == 0 && Memory(s, s.live[i]).at == at
  }

  /** Nothing moves: t has the slabs of s with the same records, and the objects of s first. */
  ghost predicate Extends(s: State, t: State) {
    && s.live <= t.live && |s.caches| <= |t.caches| && s.blocks <= t.blocks
    && (forall p | p in s.slabs ::
       p in t.slabs && t.slabs[p].at == s.slabs[p].at && t.slabs[p].cache == s.slabs[p].cache)
    && (forall c | 0 <= c < |s.caches| ::
       t.caches[c].size == s.caches[c].size && t.caches[c].slots == s.caches[c].slots)
  }

  lemma {:induction false} RecordKept(s: State, t: State, i: int, at: nat)
    requires Inv(s) && Inv(t) && Extends(s, t) && IsRecord(s, i, at)
    ensures IsRecord(t, i, at)
  {
    assert SlabInBlock(s, s.live[i].slab);
  }

  lemma {:induction false} RecordsKept(s: State, t: State)
    requires Inv(s) && Inv(t) && Extends(s, t) && RecordsOk(s)
    requires forall p | p in t.slabs && p !in s.slabs && t.slabs[p].cache > 0 ::
               exists i :: IsRecord(t, i, t.slabs[p].at)
    requires forall p | p in t.slabs && p !in s.slabs && t.slabs[p].cache == 0 :: OwnRecord(t, t.slabs[p].at)
    requires forall p, b | p in t.slabs && p !in s.slabs && b in s.blocks :: b.at != p
    ensures RecordsOk(t)
  {
    forall p | p in t.slabs && t.slabs[p].cache == 0 ensures OwnRecord(t, t.slabs[p].at) {
      if p in s.slabs { assert OwnRecord(s, s.slabs[p].at); }
    }
    forall p | p in t.slabs && t.slabs[p].cache > 0 ensures exists i :: IsRecord(t, i, t.slabs[p].at) {
      if p in s.slabs {
        var i :| IsRecord(s, i, s.slabs[p].at);
        RecordKept(s, t, i, s.slabs[p].at);
      }
    }
  }

  lemma {:induction false} TakenSafe(s: State, c: nat)
    requires Inv(s) && RecordsOk(s) && c < |s.caches| && Room(s.caches[c])
    ensures Inv(Taken(s, c)) && RecordsOk(Taken(s, c)) && Extends(s, Taken(s, c))
    ensures IsLast(Taken(s, c), c, NextObject(s, c)) && NextObject(s, c) > 0
  {
    TakenIsLast(s, c);
    RecordsKept(s, Taken(s, c));
  }

  lemma {:induction false} RecordIsOwn(s: State, at: nat)
    requires Inv(s) && Fits(s.blocks, at, SLAB_BYTES)
    ensures OwnRecord(WithBlock(s, at, SLAB_BYTES), at)
  {
    var t := WithBlock(s, at, SLAB_BYTES);
    assert t.blocks[|s.blocks|] == Block(at, SLAB_BYTES);
    BlockIsNew(s, at, SLAB_BYTES);
  }

  lemma {:induction false} FitsElsewhere(s: State, p: nat, len: nat)
    requires MemoryOk(s) && Fits(s.blocks, p, len)
    ensures forall b | b in s.blocks :: b.at != p
  {
  }

  lemma {:induction false} OwnStays(s: State, t: State, at: nat, p: nat)
    requires OwnRecord(s, at) && s.blocks <= t.blocks && at != p
    requires forall q | q in t.slabs && q !in s.slabs :: q == p
    ensures OwnRecord(t, at)
  {
  }

  lemma {:induction false} LastStays(s: State, t: State, at: nat)
    requires Inv(s) && Inv(t) && Extends(s, t) && IsLast(s, 0, at)
    ensures IsRecord(t, |s.live| - 1, at)
  {
    RecordKept(s, t, |s.live| - 1, at);
  }

  /** The one new slab of t has a record, an object of the slabs cache or a block of its own. */
  lemma {:induction false} NewRecordOk(s: State, t: State, c: nat, at: nat, p: nat, len: nat)
    requires Inv(s) && Inv(t) && RecordsOk(s) && Extends(s, t) && Fits(s.blocks, p, len)
    requires forall q | q in t.slabs && q !in s.slabs :: q == p && t.slabs[q].at == at && t.slabs[q].cache == c
    requires if c > 0 then IsLast(s, 0, at) else OwnRecord(s, at)
    ensures RecordsOk(t)
  {
    FitsElsewhere(s, p, len);
    if c > 0 { LastStays(s, t, at); } else { OwnStays(s, t, at, p); }
    RecordsKept(s, t);
  }

  lemma {:induction false} GrownSafe(s: State, c: nat, at: nat, p: nat)
    requires Inv(s) && RecordsOk(s) && c < |s.caches| && Fits(s.blocks, p, Span(s.caches[c]))
    requires if c > 0 then IsLast(s, 0, at) else OwnRecord(s, at)
    ensures Inv(Grown(s, c, at, p)) && RecordsOk(Grown(s, c, at, p)) && Extends(s, Grown(s, c, at, p))
    ensures Room(Grown(s, c, at, p).caches[c])
  {
    GrownExtends(s, c, at, p);
    NewRecordOk(s, Grown(s, c, at, p), c, at, p, Span(s.caches[c]));
  }

  lemma {:induction false} AllocRecordSafe(s: State, f: Fresh)
    requires Inv(s) && RecordsOk(s) && RecordSupplied(s, f)
    ensures var r := AllocRecord(s, f);
      && RecordsOk(r.0) && Extends(s, r.0)
      && (r.1 == 0 <==> !Room(s.caches[0]) && f.record == 0)
      && (if r.1 == 0 then r.0 == s else IsLast(r.0, 0, r.1))
  {
    if Room(s.caches[0]) {
      TakenSafe(s, 0);
    } else if f.record > 0 {
      var b := WithBlock(s, f.record, SLAB_BYTES);
      var g := Grown(b, 0, f.record, f.smem);
      WithBlockInv(s, f.record, SLAB_BYTES);
      RecordsKept(s, b);
      RecordIsOwn(s, f.record);
      GrownSafe(b, 0, f.record, f.smem);
      TakenSafe(g, 0);
      ExtendsTrans(s, b, g);
      ExtendsTrans(s, g, Taken(g, 0));
    }
  }

  /** The block overlaps no object but the last one handed out. */
  ghost predicate ApartFromEarlier(s: State, b: Block)
    requires MemoryOk(s) && LiveOk(s)
  {
    forall i | 0 <= i < |s.live| - 1 :: Apart(Memory(s, s.live[i]), b)
  }

  lemma {:induction false} LastApart(s: State, c: nat, obj: nat)
    requires Inv(s) && IsLast(s, c, obj)
    ensures ApartFromEarlier(s, Block(obj, s.caches[c].size))
  {
    forall i | 0 <= i < |s.live| - 1 ensures Apart(Memory(s, s.live[i]), Block(obj, s.caches[c].size)) {
      ObjectsApart(s, i, |s.live| - 1);
    }
  }

  /**
   cache_alloc is safe: it fails, changing nothing, exactly when neither cache has room and there is
   no memory for a record; otherwise the object comes from cache c and overlaps nothing handed out before.
   */
  lemma {:induction false} AllocSafe(s: State, c: nat, f: Fresh)
    requires Inv(s) && RecordsOk(s) && c < |s.caches| && Supplied(s, c, f)
    ensures var r := Alloc(s, c, f);
      && RecordsOk(r.0) && Extends(s, r.0)
      && (r.1 == 0 <==> !Room(s.caches[c]) && !Room(s.caches[0]) && f.record == 0)
      && (r.1 == 0 ==> r.0 == s)
      && (r.1 > 0 ==> IsLast(r.0, c, r.1) && ApartFromEarlier(r.0, Block(r.1, s.caches[c].size)))
  {
    var r := Alloc(s, c, f);
    if Room(s.caches[c]) {
      TakenSafe(s, c);
    } else {
      AllocRecordSafe(s, f);
      if c > 0 && r.1 > 0 {
        var (t, at) := AllocRecord(s, f);
        GrownSafe(t, c, at, f.own);
        TakenSafe(Grown(t, c, at, f.own), c);
        ExtendsTrans(t, Grown(t, c, at, f.own), r.0);
        ExtendsTrans(s, t, r.0);
      }
    }
    if r.1 > 0 { LastApart(r.0, c, r.1); }
  }

  /**
   No object overlaps the record of any slab, unless it is that record: an object of the slabs cache.
   Records of other caches' slabs are such objects, those of the slabs cache's own slabs are blocks.
   */
  lemma {:induction false} ObjectMissesRecords(s: State, i: nat, p: nat)
    requires Inv(s) && RecordsOk(s) && i < |s.live| && p in s.slabs
    ensures (s.slabs[p].cache > 0 && IsRecord(s, i, s.slabs[p].at))
            || Apart(Memory(s, s.live[i]), Block(s.slabs[p].at, SLAB_BYTES))
    ensures s.slabs[s.live[i].slab].cache > 0 ==> Apart(Memory(s, s.live[i]), Block(s.slabs[p].at, SLAB_BYTES))
  {
    if s.slabs[p].cache == 0 {
      ObjectMissesOwn(s, i, s.slabs[p].at);
    } else {
      var j :| IsRecord(s, j, s.slabs[p].at);
      ObjectMissesObject(s, i, j, s.slabs[p].at);
    }
  }

  lemma {:induction false} ObjectMissesObject(s: State, i: nat, j: nat, at: nat)
    requires Inv(s) && RecordsOk(s) && i < |s.live| && IsRecord(s, j, at)
    ensures i == j || Apart(Memory(s, s.live[i]), Block(at, SLAB_BYTES))
  {
    assert Memory(s, s.live[j]) == Block(at, SLAB_BYTES);
    if i < j { ObjectsApart(s, i, j); }
    if j < i { ObjectsApart(s, j, i); }
  }

  lemma {:induction false} ObjectMissesOwn(s: State, i: nat, at: nat)
    requires Inv(s) && i < |s.live| && OwnRecord(s, at)
    ensures Apart(Memory(s, s.live[i]), Block(at, SLAB_BYTES))
  {
    var q := s.live[i].slab;
    assert SlabInBlock(s, q);
    var j :| 0 <= j < |s.blocks| && s.blocks[j] == Block(at, SLAB_BYTES);
    var k :| 0 <= k < |s.blocks| && s.blocks[k] == Block(q, Span(s.caches[s.slabs[q].cache]));
    assert j != k;
    assert Apart(s.blocks[if j < k then j else k], s.blocks[if j < k then k else j]);
    InsideSlab(s, s.live[i]);
  }

  datatype Op = AllocOp(c: nat, f: Fresh) | CreateOp(size: nat, f: Fresh)

  /** cache_create takes the record of the new cache from the cache of caches. */
  ghost predicate Legal(s: State, op: Op)
    requires Inv(s)
  {
    match op
    case AllocOp(c, f) => c < |s.caches| && Supplied(s, c, f)
    case CreateOp(size, f) =>
      NODE_BYTES <= size <= PAGE_SIZE && |s.caches| > 1 && Supplied(s, 1, f) && Alloc(s, 1, f).1 > 0
  }

  ghost function Step(s: State, op: Op): (t: State)
    requires Inv(s) && Legal(s, op)
    ensures Inv(t)
  {
    match op
    case AllocOp(c, f) => Alloc(s, c, f).0
    case CreateOp(size, f) => CreatedInv(Alloc(s, 1, f).0, size); Created(Alloc(s, 1, f).0, size)
  }

  lemma {:induction false} CreatedInv(s: State, size: nat)
    requires Inv(s) && 0 < size <= PAGE_SIZE
    ensures Inv(Created(s, size)) && Extends(s, Created(s, size))
  {
    forall p | p in s.slabs ensures SlabInBlock(Created(s, size), p) { assert SlabInBlock(s, p); }
    forall c | 0 <= c <= |s.caches| ensures CacheOk(s.slabs, c, Created(s, size).caches[c]) {
      assert c < |s.caches| ==> CacheOk(s.slabs, c, s.caches[c]);
    }
  }

  ghost predicate LegalRun(s: State, ops: seq<Op>)
    requires Inv(s)
    decreases |ops|
  {
    ops != [] ==> Legal(s, ops[0]) && LegalRun(Step(s, ops[0]), ops[1..])
  }

  ghost function Exec(s: State, ops: seq<Op>): (t: State)
    requires Inv(s) && LegalRun(s, ops)
    ensures Inv(t)
    decreases |ops|
  {
    if ops == [] then s else Exec(Step(s, ops[0]), ops[1..])
  }

  lemma {:induction false} InitInv(a: nat, b: nat)
    requires a > 0 && b > 0 && Apart(Block(a, CACHE_BYTES), Block(b, CACHE_BYTES))
    ensures Inv(Init(a, b)) && RecordsOk(Init(a, b)) && WellSized(Init(a, b))
    ensures Init(a, b).caches[0].size == 56 && Init(a, b).caches[1].size == 112
  {
    SlotsFill(56);
    SlotsFill(112);
  }

  /** As many objects of that size as fit in one page; folded. */
  ghost predicate FillsPage(slots: nat, size: nat) {
    forall z: nat {:trigger Unfolding(z)} | Unfolding(z) :: slots * size <= 4096 < (slots + 1) * size
  }

  ghost predicate WellSized(s: State) {
    forall c | 0 <= c < |s.caches| :: FillsPage(s.caches[c].slots, s.caches[c].size)
  }

  lemma {:induction false} SlotsFill(size: nat)
    requires size > 0
    ensures FillsPage(NewCache(size).slots, size)
  {
    assert 4096 == 4096 / size * size + 4096 % size;
  }

  lemma {:induction false} ExtendsWellSized(s: State, t: State)
    requires Extends(s, t) && |t.caches| == |s.caches| && WellSized(s)
    ensures WellSized(t)
  {
  }

  lemma {:induction false} CreatedWellSized(s: State, size: nat)
    requires size > 0 && WellSized(s)
    ensures WellSized(Created(s, size))
  {
    SlotsFill(size);
  }

  lemma {:induction false} StepWellSized(s: State, op: Op)
    requires Inv(s) && RecordsOk(s) && Legal(s, op) && WellSized(s)
    ensures WellSized(Step(s, op))
  {
    match op
    case AllocOp(c, f) =>
      AllocSafe(s, c, f);
      ExtendsWellSized(s, Alloc(s, c, f).0);
    case CreateOp(size, f) =>
      AllocSafe(s, 1, f);
      ExtendsWellSized(s, Alloc(s, 1, f).0);
      CreatedWellSized(Alloc(s, 1, f).0, size);
  }

  lemma {:induction false} RunWellSized(s: State, ops: seq<Op>)
    requires Inv(s) && RecordsOk(s) && LegalRun(s, ops) && WellSized(s)
    ensures WellSized(Exec(s, ops))
    decreases |ops|
  {
    if ops != [] {
      StepKeeps(s, ops[0]);
      StepWellSized(s, ops[0]);
      RunWellSized(Step(s, ops[0]), ops[1..]);
    }
  }

  /** After every run from slab_init each cache cuts a page into as many objects as fit. */
  lemma {:induction false} RunFillsPages(a: nat, b: nat, ops: seq<Op>, c: nat)
    requires a > 0 && b > 0 && Apart(Block(a, CACHE_BYTES), Block(b, CACHE_BYTES))
    requires Inv(Init(a, b)) && LegalRun(Init(a, b), ops) && c < |Exec(Init(a, b), ops).caches|
    ensures var k := Exec(Init(a, b), ops).caches[c]; k.slots * k.size <= 4096 < (k.slots + 1) * k.size
  {
    InitInv(a, b);
    RunWellSized(Init(a, b), ops);
    assert Unfolding(0);
  }

  /**
   Over every run the invariant holds -- in particular the three lists sort the slabs and the totals
   are exact -- nothing handed out moves, and no two objects ever overlap.
   */
  lemma {:induction false} RunSafe(s: State, ops: seq<Op>)
    requires Inv(s) && RecordsOk(s) && LegalRun(s, ops)
    ensures var t := Exec(s, ops);
      && Extends(s, t) && RecordsOk(t)
      && forall i, j | 0 <= i < j < |t.live| :: Apart(Memory(t, t.live[i]), Memory(t, t.live[j]))
    decreases |ops|
  {
    var t := Exec(s, ops);
    if ops != [] {
      StepKeeps(s, ops[0]);
      RunSafe(Step(s, ops[0]), ops[1..]);
    } else {
      forall i, j | 0 <= i < j < |t.live| ensures Apart(Memory(t, t.live[i]), Memory(t, t.live[j])) {
        ObjectsApart(t, i, j);
      }
    }
  }

  lemma {:induction false} StepKeeps(s: State, op: Op)
    requires Inv(s) && RecordsOk(s) && Legal(s, op)
    ensures Extends(s, Step(s, op)) && RecordsOk(Step(s, op))
  {
    match op
    case AllocOp(c, f) => AllocSafe(s, c, f);
    case CreateOp(size, f) =>
      AllocSafe(s, 1, f);
      CreatedInv(Alloc(s, 1, f).0, size);
      RecordsKept(Alloc(s, 1, f).0, Step(s, op));
  }
}
