/** The operations of vfs.c over tmpfs directories, in place, and the tree they stand for. */
module FileSystems {
  import opened Common
  import opened Paths
  import opened Tmpfs
  import opened Vfs
  import opened TmpfsDirs

  /** The chunk chain of an inode: a directory's entries or a file's bytes. */
  datatype Chain = Entries(d: TmpfsDir) | Bytes(f: TmpfsFile) {
    ghost function Head(): object {
      match this
      case Entries(d) => d
      case Bytes(f) => f
    }

    ghost function Repr(): set<object>
      reads Head()
    {
      match this
      case Entries(d) => d.Repr
      case Bytes(f) => f.Repr
    }

    /** Valid, and a directory has the source's number of entries a chunk. */
    ghost predicate Valid()
      reads Head(), Repr()
    {
      match this
      case Entries(d) => d.Valid() && d.perChunk == MAX_ENTRIES_PER_DATA_CHUNK
      case Bytes(f) => f.Valid()
    }

    /** The inode with this record and this chain. */
    ghost function Whole(m: Meta): Inode
      requires Valid()
      reads Head(), Repr()
    {
      match this
      case Entries(d) => Inode(m.kind, m.name, d.entries, "")
      case Bytes(f) => Inode(m.kind, m.name, [], f.Contents())
    }
  }

  class FileSystem {
    var inodes: seq<Meta>
    var chains: seq<Chain>  // of every inode
    ghost var fs: Fs  // the tree
    ghost var Repr: set<object>

    ghost predicate Valid()
      reads this, Repr
    {
      && this in Repr && |chains| == |inodes| == |fs| > 0
      && (forall i | 0 <= i < |chains| :: chains[i].Head() in Repr && Owned(i))
      && (forall i, j | 0 <= i < j < |chains| :: chains[i].Repr() !! chains[j].Repr())
    }

    /** The chain of inode i is a valid one of its own, and stands for inode i of the tree. */
    ghost predicate Owned(i: nat)
      requires i < |chains| == |inodes| == |fs|
      reads this, Repr
    {
      && chains[i].Head() in Repr && chains[i].Repr() <= Repr && this !in chains[i].Repr() && chains[i].Valid()
      && (chains[i].Entries? <==> inodes[i].kind == INODE_DIR) && fs[i] == chains[i].Whole(inodes[i])
    }

    /** The first inode: an empty directory. */
    constructor ()
      ensures Valid() && fresh(Repr) && fs == [Inode(INODE_DIR, "", [], "")] && Tree(fs)
    {
      var d := new TmpfsDir(MAX_ENTRIES_PER_DATA_CHUNK);
      inodes, chains := [Meta(INODE_DIR, "")], [Entries(d)];
      fs := [Inode(INODE_DIR, "", [], "")];
      Repr := {this} + d.Repr;
    }

    /** inode_lookup with tmpfs_lookup behind it. */
    method LookupEntry(dir: nat, name: string) returns (r: Res)
      requires Valid() && Closed(fs) && dir < |fs|
      ensures r == LookupName(fs, dir, name)
    {
      assert Owned(dir);
      if inodes[dir].kind != INODE_DIR { return Fail(UNIMPLEMENTED); }
      forall i | 0 <= i < |fs| ensures fs[i].name == inodes[i].name { assert Owned(i); }
      assert forall e | e in fs[dir].entries :: e < |inodes|;
      var found := chains[dir].d.Lookup(inodes, name, fs);
      r := if found.Some? then Ok(found.value) else Fail(FILE_NOT_FOUND);
    }

    /** vfs_lookup: skip slashes, take a name, look it up, and so on to the end of the string. */
    method Lookup(from: nat, path: string) returns (r: Res)
      requires Valid() && Closed(fs) && from < |fs|
      ensures r == Walk(fs, from, Components(path))
    {
      var curr: nat, start: nat := from, 0;
      while start < |path|
        invariant start <= |path| && curr < |fs|
        invariant Walk(fs, from, Components(path)) == Walk(fs, curr, Components(path[start..]))
      {
        var nameStart, end := NextName(path, start);
        start := end;
        if nameStart < |path| {
          var e := LookupEntry(curr, path[nameStart..end]);
          if e.Fail? { return e; }
          curr := e.id;
        }
      }
      assert path[start..] == "";
      return Ok(curr);
    }

    /** After work on chain k alone, which may have gained new objects, the rest is as it was. */
    twostate lemma {:induction false} OthersKept(k: nat)
      requires old(Valid()) && k < |chains| && chains == old(chains) && inodes == old(inodes) && |fs| == |old(fs)|
      requires forall i | 0 <= i < |fs| && i != k :: fs[i] == old(fs[i])
      requires unchanged(old(Repr) - {this} - old(chains[k].Repr()))
      requires Repr == old(Repr) + chains[k].Repr() && fresh(chains[k].Repr() - old(chains[k].Repr()))
      requires chains[k].Head() in chains[k].Repr() && this !in chains[k].Repr()
      requires chains[k].Valid() && fs[k] == chains[k].Whole(inodes[k])
      ensures Valid()
    {
      forall i | 0 <= i < |chains| ensures Owned(i) { assert old(Owned(i)); }
    }

    /** A new inode with a chain of new objects leaves the others as they were. */
    twostate lemma {:induction false} OneMore(new c: Chain, m: Meta)
      requires old(Valid()) && chains == old(chains) + [c] && inodes == old(inodes) + [m]
      requires c.Valid() && fs == old(fs) + [c.Whole(m)] && (c.Entries? <==> m.kind == INODE_DIR)
      requires unchanged(old(Repr) - {this}) && Repr == old(Repr) + c.Repr()
      requires fresh(c.Repr()) && c.Head() in c.Repr()
      ensures Valid()
    {
      forall i | 0 <= i < |chains| ensures Owned(i) {
        if i < |chains| - 1 { assert old(Owned(i)); }
      }
    }

    /** The slot tmpfs_create finds for one more entry, whose chunk is there afterwards if memory was. */
    method RoomIn(dir: nat, mem: bool) returns (ok: bool, k: nat, o: nat)
      requires Valid() && dir < |fs| && inodes[dir].kind == INODE_DIR
      modifies Repr
      ensures Valid() && fresh(Repr - old(Repr)) && fs == old(fs) && inodes == old(inodes) && chains == old(chains)
      ensures (k, o) == Slot(MAX_ENTRIES_PER_DATA_CHUNK, |fs[dir].entries|)
      ensures (mem ==> ok) && (ok ==> chains[dir].Entries? && k < |chains[dir].d.chunks|)
    {
      assert Owned(dir);
      ok, k, o := chains[dir].d.Reserve(mem);
      Repr := Repr + chains[dir].d.Repr;
      OthersKept(dir);
    }

    /** The rest of tmpfs_create: a new inode, its name copied in front of the old bytes, stored in the slot. */
    method Enter(dir: nat, k: nat, o: nat, name: string, kind: Kind, behind: string)
      requires Valid() && dir < |fs| && chains[dir].Entries? && k < |chains[dir].d.chunks| && InsideChunk(o)
      requires (k, o) == Slot(MAX_ENTRIES_PER_DATA_CHUNK, |fs[dir].entries|) && kind in {INODE_DIR, INODE_FILE}
      modifies Repr
      ensures Valid() && fresh(Repr - old(Repr))
      ensures fs == old(fs[dir := fs[dir].(entries := fs[dir].entries + [|fs|])])
                    + [Inode(kind, name + UpToZero(behind), [], "")]
      ensures kind == INODE_FILE ==> chains[|old(fs)|].Bytes? && chains[|old(fs)|].f.chunks == []
    {
      assert Owned(dir);
      chains[dir].d.Store(k, o, |inodes|);
      fs := fs[dir := fs[dir].(entries := fs[dir].entries + [|fs|])];
      OthersKept(dir);
      Append(name + UpToZero(behind), kind);
    }

    /** A new inode without entries or contents. */
    method Append(name: string, kind: Kind)
      requires Valid() && kind in {INODE_DIR, INODE_FILE}
      modifies this
      ensures Valid() && fresh(Repr - old(Repr)) && fs == old(fs) + [Inode(kind, name, [], "")]
      ensures kind == INODE_FILE ==> chains[|old(fs)|].Bytes? && chains[|old(fs)|].f.chunks == []
    {
      var c := NewChain(kind, name);
      inodes, chains := inodes + [Meta(kind, name)], chains + [c];
      fs := fs + [Inode(kind, name, [], "")];
      Repr := Repr + c.Repr();
      OneMore(c, Meta(kind, name));
    }

    /** inode_create with tmpfs_create behind it. A full directory must not be asked for one more entry. */
    method CreateEntry(dir: nat, name: string, kind: Kind, buf: Option<string>) returns (r: Res)
      requires Valid() && dir < |fs| && Create(fs, dir, name, kind, buf).1 != Fail(STRAY)
      modifies Repr
      ensures Valid() && fresh(Repr - old(Repr)) && (fs, r) == Create(old(fs), dir, name, kind, buf)
      ensures r.Ok? && kind != INODE_DIR ==>
                r.id < |chains| && chains[r.id].Bytes? && chains[r.id].f.chunks == []
    {
      assert Owned(dir);
      if inodes[dir].kind != INODE_DIR { return Fail(UNIMPLEMENTED); }
      var ok, k, o := RoomIn(dir, buf.Some?);
      if !ok || buf.None? { return Fail(OUT_OF_MEMORY); }
      if |name| >= TMPFS_MAX_NAME_LEN { return Fail(NAME_LIMIT); }
      r := Ok(|inodes|);
      Enter(dir, k, o, name, if kind == INODE_DIR then INODE_DIR else INODE_FILE, buf.value);
    }

    /** vfs_create. */
    method CreateAtPath(path: string, kind: Kind, buf: Option<string>) returns (r: Res)
      requires Valid() && Closed(fs) && CreatePath(fs, 0, path, kind, buf).1 != Fail(STRAY)
      modifies Repr
      ensures Valid() && fresh(Repr - old(Repr)) && (fs, r) == CreatePath(old(fs), 0, path, kind, buf)
      ensures r.Ok? && kind != INODE_DIR ==>
                r.id < |chains| && chains[r.id].Bytes? && chains[r.id].f.chunks == []
    {
      var parent := ParentPath(path);
      var up := Lookup(0, parent);
      if up.Fail? { return up; }
      var base := Basename(path);
      r := CreateEntry(up.id, base, kind, buf);
    }

    /** inode_write at offset 0 with tmpfs_write behind it; `avail` chunks can still be allocated. */
    method WriteFile(id: nat, data: string, avail: nat)
      requires Valid() && id < |fs|
      modifies Repr
      ensures Valid() && fresh(Repr - old(Repr))
      ensures old(chains[id].Bytes?) ==>
        var room := (|old(chains[id].f.chunks)| + avail) * MAX_FILE_DATA_PER_CHUNK;
        fs == Written(old(fs), id, Fitting(data, |old(fs[id].data)|, room))
      ensures old(chains[id].Entries?) ==> fs == old(fs)
    {
      assert Owned(id);
      if inodes[id].kind == INODE_FILE {
        WriteWhole(chains[id].f, data, avail);
        fs := fs[id := fs[id].(data := chains[id].f.Contents())];
        Repr := Repr + chains[id].f.Repr;
        OthersKept(id);
      }
    }
  }

  method NewChain(kind: Kind, ghost name: string) returns (c: Chain)
    requires kind in {INODE_DIR, INODE_FILE}
    ensures c.Valid() && fresh(c.Repr()) && c.Head() in c.Repr() && (c.Entries? <==> kind == INODE_DIR)
    ensures c.Whole(Meta(kind, name)) == Inode(kind, name, [], "")
    ensures c.Bytes? ==> c.f.chunks == []
  {
    if kind == INODE_DIR {
      var d := new TmpfsDir(MAX_ENTRIES_PER_DATA_CHUNK);
      c := Entries(d);
    } else {
      var f := new TmpfsFile();
      c := Bytes(f);
    }
  }

  /** tmpfs_write at offset 0. */
  method WriteWhole(f: TmpfsFile, data: string, avail: nat)
    requires f.Valid()
    modifies f.Repr
    ensures f.Valid() && fresh(f.Repr - old(f.Repr))
    ensures var room := (|old(f.chunks)| + avail) * MAX_FILE_DATA_PER_CHUNK;
      f.Contents() == Overwrite(old(f.Contents()), 0, Fitting(data, |old(f.Contents())|, room))
  {
    var r := f.Write(Some(data), |data|, 0, avail);
    assert data[..|data|] == data;
  }

  /** What a write at offset 0 stores in a file of `size` bytes when its chunks can hold `room`. */
  function Fitting(data: string, size: nat, room: nat): string {
    if |data| <= room then data else data[..Min(size, |data|)]
  }

  lemma {:induction false} FirstComponent(path: string, i: nat, j: nat)
    requires i < j <= |path| && (forall k | i <= k < j :: path[k] != '/') && (j < |path| ==> path[j] == '/')
    ensures Components(path[i..]) == [path[i..j]] + Components(path[j..])
  {
    RunIs(path[i..], false, j - i);
    assert path[i..][..j - i] == path[i..j] && path[i..][j - i..] == path[j..];
  }

  /** The two inner loops of vfs_lookup: past the slashes, and to the end of the name behind them. */
  method NextName(path: string, start: nat) returns (i: nat, j: nat)
    requires start < |path|
    ensures start <= i <= j <= |path| && start < j
    ensures Components(path[start..]) ==
              if i == |path| then [] else [path[i..j]] + Components(path[j..])
  {
    i := start;
    while i < |path| && path[i] == '/'
      invariant start <= i <= |path| && Components(path[i..]) == Components(path[start..])
    {
      assert path[i..][1..] == path[i + 1..];
      i := i + 1;
    }
    j := i;
    if i < |path| {
      while j < |path| && path[j] != '/'
        invariant i <= j <= |path| && forall k | i <= k < j :: path[k] != '/'
      {
        j := j + 1;
      }
      FirstComponent(path, i, j);
    }
  }
}
