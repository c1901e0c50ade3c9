/** The slab caches, changed in place: cache_alloc and cache_grow call each other through the slabs cache. */
module SlabCaches {
  import opened Common
  import opened SlabSpec

  class Allocator {
    var caches: seq<Cache>
    var slabs: map<nat, Slab>
    var blocks: seq<Block>
    ghost var live: seq<Obj>

    ghost function View(): State
      reads this
    {
      State(caches, slabs, blocks, live)
    }

    /** slab_init. Cache 0 is the slabs cache, cache 1 the cache of caches. */
    constructor ()
      ensures Inv(View()) && RecordsOk(View()) && |caches| == 2 && live == []
    {
      caches, slabs, blocks, live := [], map[], [], [];
      new;
      var a := VMalloc(CACHE_BYTES);
      ghost var one := blocks;
      var b := VMalloc(CACHE_BYTES);
      caches := [NewCache(SLAB_BYTES), NewCache(CACHE_BYTES)];
      assert Apart(one[0], Block(b, CACHE_BYTES));
      InitInv(a, b);
      assert View() == Init(a, b);
    }

    /** vmalloc: some address where a block of `len` bytes misses every block returned before. */
    method VMalloc(len: nat) returns (at: nat)
      requires len > 0
      modifies this`blocks
      ensures Fits(old(blocks), at, len) && blocks == old(blocks) + [Block(at, len)]
    {
      ghost var somewhere := FitsSomewhere(blocks, len);
      assert Fits(blocks, somewhere, len);
      at :| Fits(blocks, at, len);
      assert Fits(blocks, at, len);
      blocks := blocks + [Block(at, len)];
    }

    /** vmalloc where the caller checks the result: it may also find nothing. */
    method TryVMalloc(len: nat) returns (at: nat)
      requires len > 0
      modifies this`blocks
      ensures at == 0 ==> blocks == old(blocks)
      ensures at > 0 ==> Fits(old(blocks), at, len) && blocks == old(blocks) + [Block(at, len)]
    {
      if * { at := 0; } else { at := VMalloc(len); }
    }

    /** cache_grow, called when the cache has no room. */
    method Grow(c: nat) returns (ok: bool, ghost f: Fresh)
      requires Inv(View()) && c < |caches| && !Room(caches[c])
      modifies this
      ensures Supplied(old(View()), c, f) && (View(), ok) == Readied(old(View()), c, f)
      decreases c > 0, 0
    {
      var at;
      if c == 0 {
        at := TryVMalloc(SLAB_BYTES);
        f := Fresh(at, 0, 0);
      } else {
        at, f := CacheAlloc(0);
      }
      ok := at > 0;
      if ok {
        SpanPositive(View(), c);
        var p := Furnish(c, at);
        f := if c == 0 then f.(smem := p) else f.(own := p);
      }
    }

    /** The rest of cache_grow once the slab has a record: its memory, and the slab. */
    method Furnish(c: nat, at: nat) returns (p: nat)
      requires c < |caches| && Span(caches[c]) > 0
      modifies this`caches, this`slabs, this`blocks
      ensures Fits(old(blocks), p, Span(old(caches)[c])) && View() == Grown(old(View()), c, at, p)
    {
      p := VMalloc(caches[c].slots * caches[c].size);
      AddSlab(c, at, p);
    }

    /** The slab with its record at `at` and its memory at p, all of it free. */
    method AddSlab(c: nat, at: nat, p: nat)
      requires c < |caches|
      modifies this`caches, this`slabs
      ensures slabs == old(slabs)[p := Slab(at, c, 0, Slots(p, old(caches)[c].size, 0, old(caches)[c].slots))]
      ensures caches == old(caches)[c := WithSlab(old(caches)[c], p)]
    {
      var k := caches[c];
      var freelist := Thread(p, k.size, k.slots);
      slabs := slabs[p := Slab(at, c, 0, freelist)];
      k := k.(free := k.free + [p]);
      k := k.(totalSlabs := k.totalSlabs + 1);
      k := k.(totalObjs := k.totalObjs + k.slots);
      caches := caches[c := k];
    }

    /** slab_select. */
    method Select(c: nat) returns (found: bool, p: nat, ghost f: Fresh)
      requires Inv(View()) && c < |caches|
      modifies this
      ensures Supplied(old(View()), c, f) && (View(), found) == Readied(old(View()), c, f)
      ensures found ==> Room(caches[c]) && p == Server(caches[c])
      decreases c > 0, 1
    {
      found, p, f := true, 0, Fresh(0, 0, 0);
      if caches[c].partial != [] {
        p := caches[c].partial[0];
      } else if caches[c].free != [] {
        p := caches[c].free[0];
      } else {
        found, f := Grow(c);
        if found { p := Server(caches[c]); }
      }
    }

    /** cache_alloc: the object, or 0 when no memory is left for a slab record. */
    method CacheAlloc(c: nat) returns (obj: nat, ghost f: Fresh)
      requires Inv(View()) && c < |caches|
      modifies this
      ensures Supplied(old(View()), c, f) && (View(), obj) == Alloc(old(View()), c, f)
      decreases c > 0, 2
    {
      var found, p;
      found, p, f := Select(c);
      obj := 0;
      if found {
        ghost var s := View();
        ServedOk(slabs, c, caches[c]);
        obj := TakeFirst(p);
        Relist(c, p, slabs[p].inuse == caches[c].slots);
        live := live + [Obj(p, slabs[p].inuse - 1)];
        assert View() == Taken(s, c);
      }
    }

    /** get_obj: the first object leaves the slab's freelist. */
    method TakeFirst(p: nat) returns (obj: nat)
      requires p in slabs && slabs[p].freelist != []
      modifies this`slabs
      ensures obj == old(slabs)[p].freelist[0] && slabs == old(slabs)[p := LessOne(old(slabs)[p])]
    {
      var x := slabs[p];
      obj := x.freelist[0];
      x := x.(freelist := x.freelist[1..]);
      x := x.(inuse := x.inuse + 1);
      slabs := slabs[p := x];
    }

    /** The serving slab moves to the end of the full list, or of the partial one. */
    method Relist(c: nat, p: nat, last: bool)
      requires c < |caches| && Room(caches[c]) && p == Server(caches[c])
      modifies this`caches
      ensures caches == old(caches)[c := Served(old(caches)[c], last)]
    {
      var k := caches[c];
      k := if k.partial != [] then k.(partial := k.partial[1..]) else k.(free := k.free[1..]);
      if last {
        k := k.(full := k.full + [p]);
      } else {
        k := k.(partial := k.partial + [p]);
      }
      caches := caches[c := k];
    }

    /** cache_create: the new cache is the last one. */
    method CacheCreate(size: nat) returns (c: nat, ghost f: Fresh)
      requires Inv(View()) && |caches| > 1 && NODE_BYTES <= size <= PAGE_SIZE
      modifies this
      ensures Supplied(old(View()), 1, f)
      ensures Alloc(old(View()), 1, f).1 > 0 ==>
        c == |old(caches)| && View() == Step(old(View()), CreateOp(size, f)) && caches[c] == NewCache(size)
      ensures Alloc(old(View()), 1, f).1 > 0 ==>
        && caches[c].size == size && caches[c].slots * size <= 4096 < (caches[c].slots + 1) * size
        && caches[c].free == caches[c].partial == caches[c].full == []
    {
      var at;
      at, f := CacheAlloc(1);
      c := |caches|;
      SlotsFill(size);
      assert Unfolding(0);
      if at > 0 { caches := caches + [NewCache(size)]; }
    }
  }

  /** The freelist of a new slab: its objects appended one by one. */
  method Thread(p: nat, size: nat, slots: nat) returns (freelist: seq<nat>)
    ensures freelist == Slots(p, size, 0, slots)
  {
    freelist := [];
    for i := 0 to slots
      invariant freelist + Slots(p, size, i, slots) == Slots(p, size, 0, slots)
    {
      freelist := freelist + [p + i * size];
    }
  }

  lemma {:induction false} FitsSomewhere(blocks: seq<Block>, len: nat) returns (at: nat)
    requires len > 0
    ensures at > 0 && forall d: nat | at <= d :: Fits(blocks, d, len)
  {
    if blocks == [] {
      at := 1;
    } else {
      var a := FitsSomewhere(blocks[1..], len);
      at := a + blocks[0].at + blocks[0].len;
      forall d: nat | at <= d ensures Fits(blocks, d, len) {
        assert Fits(blocks[1..], d, len) && blocks == [blocks[0]] + blocks[1..];
      }
    }
  }
}
