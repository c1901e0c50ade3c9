/** The in-memory tree behind vfs.c and tmpfs.c: lookup, creation, and what they do to every path. */
module Vfs {
  import opened Common
  import opened Paths
  import opened Tmpfs

  /**
   Error codes, negated in the source's return values. STRAY is none of them: it stands for the
   store of a directory entry outside its chunk, after which nothing is claimed.
   */
  datatype Err = UNIMPLEMENTED | NAME_LIMIT | FILE_NOT_FOUND | OUT_OF_MEMORY | STRAY

  datatype Kind = INODE_DIR | INODE_FILE | INODE_DEV

  datatype Res = Ok(id: nat) | Fail(err: Err)

  const TMPFS_MAX_NAME_LEN: nat := 128

  /**
   An inode with its tmpfs part: the entries of a directory in slot order, the bytes of a file.
   Inodes are numbered in creation order; number 0 is the root.
   */
  datatype Inode = Inode(kind: Kind, name: string, entries: seq<nat>, data: string)

  type Fs = seq<Inode>

  // ---- One directory ----

  /** First slot from i on whose inode has this name, or the number of slots. */
  function FindEntry(fs: Fs, es: seq<nat>, i: nat, name: string): (r: nat)
    requires i <= |es|
    ensures i <= r <= |es| && (r < |es| ==> es[r] < |fs| && fs[es[r]].name == name)
    ensures forall j | i <= j < r :: !(es[j] < |fs| && fs[es[j]].name == name)
    decreases |es| - i
  {
    if i == |es| || (es[i] < |fs| && fs[es[i]].name == name) then i else FindEntry(fs, es, i + 1, name)
  }

  /** inode_lookup with tmpfs_lookup behind it: only directories have the operation. */
  function LookupName(fs: Fs, dir: nat, name: string): Res
    requires dir < |fs|
  {
    if fs[dir].kind != INODE_DIR then Fail(UNIMPLEMENTED) else
    var i := FindEntry(fs, fs[dir].entries, 0, name);
    if i < |fs[dir].entries| then Ok(fs[dir].entries[i]) else Fail(FILE_NOT_FOUND)
  }

  /** Looking up one name after the other, stopping at the first failure. */
  function Walk(fs: Fs, from: nat, names: seq<string>): Res
    requires from < |fs| && Closed(fs)
    ensures Walk(fs, from, names).Ok? ==> Walk(fs, from, names).id < |fs|
    decreases |names|
  {
    if names == [] then Ok(from)
    else match LookupName(fs, from, names[0])
      case Ok(id) => Walk(fs, id, names[1..])
      case Fail(e) => Fail(e)
  }

  lemma {:induction false} WalkErrors(fs: Fs, from: nat, names: seq<string>)
    requires from < |fs| && Closed(fs)
    ensures Walk(fs, from, names) in {Fail(UNIMPLEMENTED), Fail(FILE_NOT_FOUND)} || Walk(fs, from, names).Ok?
    decreases |names|
  {
    if names != [] && LookupName(fs, from, names[0]).Ok? {
      WalkErrors(fs, LookupName(fs, from, names[0]).id, names[1..]);
    }
  }

  /** The first k names lead to inode d, which is then asked for name number k. */
  ghost predicate Asks(fs: Fs, from: nat, names: seq<string>, k: nat, d: nat)
    requires from < |fs| && Closed(fs)
  {
    k < |names| && d < |fs| && Walk(fs, from, names[..k]) == Ok(d)
  }

  /** d is a directory without an entry of that name. */
  ghost predicate Lacks(fs: Fs, d: nat, name: string)
    requires d < |fs| && Closed(fs)
  {
    fs[d].kind == INODE_DIR && forall i | 0 <= i < |fs[d].entries| :: fs[fs[d].entries[i]].name != name
  }

  ghost predicate MissesName(fs: Fs, from: nat, names: seq<string>)
    requires from < |fs| && Closed(fs)
  {
    exists k: nat, d: nat :: Asks(fs, from, names, k, d) && Lacks(fs, d, names[k])
  }

  ghost predicate AsksNoDirectory(fs: Fs, from: nat, names: seq<string>)
    requires from < |fs| && Closed(fs)
  {
    exists k: nat, d: nat :: Asks(fs, from, names, k, d) && fs[d].kind != INODE_DIR
  }

  /**
   A walk ends in FILE_NOT_FOUND exactly when it gets to a directory that lacks the next name, in
   UNIMPLEMENTED exactly when it asks something that is no directory, and succeeds otherwise.
   */
  lemma {:induction false} WalkFailsIff(fs: Fs, from: nat, names: seq<string>)
    requires from < |fs| && Closed(fs)
    ensures Walk(fs, from, names) == Fail(FILE_NOT_FOUND) <==> MissesName(fs, from, names)
    ensures Walk(fs, from, names) == Fail(UNIMPLEMENTED) <==> AsksNoDirectory(fs, from, names)
    ensures Walk(fs, from, names).Ok? <==> !MissesName(fs, from, names) && !AsksNoDirectory(fs, from, names)
    decreases |names|
  {
    if names != [] {
      var e := LookupName(fs, from, names[0]);
      assert names[..0] == [];
      FirstAsked(fs, from, names);
      if e.Ok? {
        WalkFailsIff(fs, e.id, names[1..]);
        AskedLater(fs, from, names);
      } else {
        assert Asks(fs, from, names, 0, from);
      }
    }
  }

  /** The first question, and no other when it is not answered. */
  lemma {:induction false} FirstAsked(fs: Fs, from: nat, names: seq<string>)
    requires from < |fs| && Closed(fs) && names != []
    ensures forall d: nat :: Asks(fs, from, names, 0, d) <==> d == from
    ensures LookupName(fs, from, names[0]) == Fail(FILE_NOT_FOUND) <==> Lacks(fs, from, names[0])
    ensures LookupName(fs, from, names[0]) == Fail(UNIMPLEMENTED) <==> fs[from].kind != INODE_DIR
    ensures LookupName(fs, from, names[0]).Fail? ==> forall k: nat, d: nat | k > 0 :: !Asks(fs, from, names, k, d)
  {
    assert names[..0] == [];
    if LookupName(fs, from, names[0]).Fail? {
      forall k: nat, d: nat | k > 0 ensures !Asks(fs, from, names, k, d) {
        if k < |names| { assert names[..k][0] == names[0]; }
      }
    }
  }

  /** After an answer the others are those of the rest. */
  lemma {:induction false} AskedLater(fs: Fs, from: nat, names: seq<string>)
    requires from < |fs| && Closed(fs) && names != [] && LookupName(fs, from, names[0]).Ok?
    ensures var id := LookupName(fs, from, names[0]).id;
      forall k: nat, d: nat :: Asks(fs, id, names[1..], k, d) <==> Asks(fs, from, names, k + 1, d)
    ensures var id := LookupName(fs, from, names[0]).id;
      && (MissesName(fs, from, names) <==> MissesName(fs, id, names[1..]))
      && (AsksNoDirectory(fs, from, names) <==> AsksNoDirectory(fs, id, names[1..]))
  {
    var id := LookupName(fs, from, names[0]).id;
    forall k: nat, d: nat ensures Asks(fs, id, names[1..], k, d) <==> Asks(fs, from, names, k + 1, d) {
      if k + 1 < |names| {
        assert names[..k + 1][0] == names[0] && names[..k + 1][1..] == names[1..][..k];
      }
    }
    FirstAsked(fs, from, names);
    RestAsks(fs, from, names, id);
  }

  lemma {:induction false} RestAsks(fs: Fs, from: nat, names: seq<string>, id: nat)
    requires from < |fs| && id < |fs| && Closed(fs) && names != []
    requires forall k: nat, d: nat :: Asks(fs, id, names[1..], k, d) <==> Asks(fs, from, names, k + 1, d)
    requires forall d: nat :: Asks(fs, from, names, 0, d) <==> d == from
    requires fs[from].kind == INODE_DIR && !Lacks(fs, from, names[0])
    ensures MissesName(fs, from, names) <==> MissesName(fs, id, names[1..])
    ensures AsksNoDirectory(fs, from, names) <==> AsksNoDirectory(fs, id, names[1..])
  {
    if k: nat, d: nat :| Asks(fs, from, names, k, d) && Lacks(fs, d, names[k]) {
      assert k > 0 && Asks(fs, id, names[1..], k - 1, d) && names[1..][k - 1] == names[k];
    }
    if k: nat, d: nat :| Asks(fs, id, names[1..], k, d) && Lacks(fs, d, names[1..][k]) {
      assert Asks(fs, from, names, k + 1, d) && names[1..][k] == names[k + 1];
    }
    if k: nat, d: nat :| Asks(fs, from, names, k, d) && fs[d].kind != INODE_DIR {
      assert k > 0 && Asks(fs, id, names[1..], k - 1, d);
    }
    if k: nat, d: nat :| Asks(fs, id, names[1..], k, d) && fs[d].kind != INODE_DIR {
      assert Asks(fs, from, names, k + 1, d);
    }
  }

  /** Entries name existing inodes. */
  predicate Closed(fs: Fs) {
    forall d, i | 0 <= d < |fs| && 0 <= i < |fs[d].entries| :: fs[d].entries[i] < |fs|
  }

  // ---- Creation ----

  /** What strlen and memcmp read behind a name that was copied without its terminator: old bytes up to a zero. */
  function UpToZero(b: string): string {
    if b == "" || b[0] == '\0' then "" else [b[0]] + UpToZero(b[1..])
  }

  /**
   tmpfs_create through inode_create: the new state and the result. `buf` is the memory for the new
   inode's name, given by the bytes that stand behind the name once it is copied; None when there is
   no memory.
   */
  function Create(fs: Fs, dir: nat, name: string, kind: Kind, buf: Option<string>): (Fs, Res)
    requires dir < |fs|
  {
    if fs[dir].kind != INODE_DIR then (fs, Fail(UNIMPLEMENTED))
    else if buf.None? then (fs, Fail(OUT_OF_MEMORY))
    else if |name| >= TMPFS_MAX_NAME_LEN then (fs, Fail(NAME_LIMIT))
    else if |fs[dir].entries| >= ENTRY_SLOTS then (fs, Fail(STRAY))
    else (fs[dir := fs[dir].(entries := fs[dir].entries + [|fs|])]
          + [Inode(if kind == INODE_DIR then INODE_DIR else INODE_FILE, name + UpToZero(buf.value), [], "")],
          Ok(|fs|))
  }

  /** vfs_create. */
  function CreatePath(fs: Fs, from: nat, path: string, kind: Kind, buf: Option<string>): (Fs, Res)
    requires from < |fs| && Closed(fs)
  {
    match Walk(fs, from, Components(ParentOf(path)))
    case Fail(e) => (fs, Fail(e))
    case Ok(parent) => Create(fs, parent, BaseOf(path), kind, buf)
  }

  /** What a successful creation leaves behind. */
  ghost predicate Created(fs: Fs, dir: nat, name: string, kind: Kind, fs': Fs) {
    && dir < |fs| && fs[dir].kind == INODE_DIR && |fs[dir].entries| < ENTRY_SLOTS && |fs'| == |fs| + 1
    && fs'[|fs|] == Inode(kind, name, [], "")
    && fs'[dir] == fs[dir].(entries := fs[dir].entries + [|fs|])
    && forall d | 0 <= d < |fs| && d != dir :: fs'[d] == fs[d]
  }

  lemma {:induction false} CreatedClosed(fs: Fs, dir: nat, name: string, kind: Kind, fs': Fs)
    requires Closed(fs) && Created(fs, dir, name, kind, fs')
    ensures Closed(fs')
  {
  }

  lemma {:induction false} FindEntryIs(fs: Fs, es: seq<nat>, i: nat, name: string, r: nat)
    requires i <= r <= |es| && (r < |es| ==> es[r] < |fs| && fs[es[r]].name == name)
    requires forall j | i <= j < r :: !(es[j] < |fs| && fs[es[j]].name == name)
    ensures FindEntry(fs, es, i, name) == r
    decreases r - i
  {
    if i < r { FindEntryIs(fs, es, i + 1, name, r); }
  }

  /** Creation changes one lookup: the new name, in its directory, when it was not there. */
  lemma {:induction false} LookupAfterCreate(fs: Fs, dir: nat, name: string, kind: Kind, fs': Fs, d: nat, n: string)
    requires Closed(fs) && Created(fs, dir, name, kind, fs') && d < |fs|
    ensures LookupName(fs', d, n) ==
              if d == dir && n == name && LookupName(fs, d, n).Fail? then Ok(|fs|) else LookupName(fs, d, n)
  {
    var es, i := fs[d].entries, FindEntry(fs, fs[d].entries, 0, n);
    assert forall j | 0 <= j < |es| :: fs'[es[j]].name == fs[es[j]].name;
    if i < |es| || d != dir || n == name {
      FindEntryIs(fs', fs'[d].entries, 0, n, i);
    } else {
      FindEntryIs(fs', fs'[d].entries, 0, n, i + 1);
    }
  }

  /** The walk goes through `dir` and asks there for a name it does not have. */
  ghost predicate AsksFor(fs: Fs, from: nat, names: seq<string>, dir: nat, name: string, k: nat)
    requires from < |fs| && Closed(fs)
  {
    k < |names| && names[k] == name && Walk(fs, from, names[..k]) == Ok(dir) && dir < |fs|
      && LookupName(fs, dir, name).Fail?
  }

  /**
   Every walk after a creation: unchanged, unless it asks the directory for the name that was
   missing there; then it goes on from the new inode.
   */
  lemma {:induction false} WalkAfterCreate(fs: Fs, dir: nat, name: string, kind: Kind, fs': Fs, from: nat,
          names: seq<string>)
    requires Closed(fs) && Closed(fs') && Created(fs, dir, name, kind, fs') && from < |fs|
    ensures (forall k :: !AsksFor(fs, from, names, dir, name, k)) ==> Walk(fs', from, names) == Walk(fs, from, names)
    ensures forall k | AsksFor(fs, from, names, dir, name, k) ::
              Walk(fs', from, names) == Walk(fs', |fs|, names[k + 1..])
    decreases |names|
  {
    if names != [] {
      LookupAfterCreate(fs, dir, name, kind, fs', from, names[0]);
      match LookupName(fs, from, names[0])
      case Ok(id) =>
        WalkAfterCreate(fs, dir, name, kind, fs', id, names[1..]);
        AsksLater(fs, from, names, dir, name);
        forall k: nat | AsksFor(fs, from, names, dir, name, k)
          ensures Walk(fs', from, names) == Walk(fs', |fs|, names[k + 1..])
        {
          assert AsksFor(fs, id, names[1..], dir, name, k - 1);
          assert names[k + 1..] == names[1..][k..];
        }
      case Fail(e) =>
        AsksAtOnce(fs, from, names, dir, name);
    }
  }

  /** A walk that gets past its first name asks for a missing one in what comes after. */
  lemma {:induction false} AsksLater(fs: Fs, from: nat, names: seq<string>, dir: nat, name: string)
    requires Closed(fs) && from < |fs| && names != [] && LookupName(fs, from, names[0]).Ok?
    ensures !AsksFor(fs, from, names, dir, name, 0)
    ensures var id := LookupName(fs, from, names[0]).id;
            forall k: nat :: AsksFor(fs, id, names[1..], dir, name, k) <==> AsksFor(fs, from, names, dir, name, k + 1)
  {
    assert names[..0] == [];
    var id := LookupName(fs, from, names[0]).id;
    forall k: nat
      ensures AsksFor(fs, id, names[1..], dir, name, k) <==> AsksFor(fs, from, names, dir, name, k + 1)
    {
      if k < |names| { assert names[..k + 1][1..] == names[1..][..k]; }
    }
  }

  /** A walk that fails at its first name can only have asked for that one. */
  lemma {:induction false} AsksAtOnce(fs: Fs, from: nat, names: seq<string>, dir: nat, name: string)
    requires Closed(fs) && from < |fs| && names != [] && LookupName(fs, from, names[0]).Fail?
    ensures AsksFor(fs, from, names, dir, name, 0) <==> from == dir && names[0] == name
    ensures forall k: nat | 0 < k :: !AsksFor(fs, from, names, dir, name, k)
  {
    assert names[..0] == [];
    forall k: nat | 0 < k ensures !AsksFor(fs, from, names, dir, name, k) {
      if k <= |names| { assert names[..k][0] == names[0]; }
    }
  }

  lemma {:induction false} WalkConcat(fs: Fs, from: nat, a: seq<string>, b: seq<string>)
    requires from < |fs| && Closed(fs)
    ensures Walk(fs, from, a + b) == match Walk(fs, from, a) case Ok(id) => Walk(fs, id, b) case Fail(e) => Fail(e)
    decreases |a|
  {
    if a == [] {
      assert a + b == b;
    } else {
      assert (a + b)[1..] == a[1..] + b;
      match LookupName(fs, from, a[0])
      case Ok(id) => WalkConcat(fs, id, a[1..], b);
      case Fail(e) =>
    }
  }

  lemma {:induction false} WalkOne(fs: Fs, from: nat, n: string)
    requires from < |fs| && Closed(fs)
    ensures Walk(fs, from, [n]) == LookupName(fs, from, n)
  {
    assert [n][1..] == [];
  }

  // ---- Trees ----

  /** Entries point from older to newer inodes, no inode is entered twice, and directories fit their chunk. */
  ghost predicate Tree(fs: Fs) {
    && fs != [] && fs[0].kind == INODE_DIR && Closed(fs)
    && (forall d | 0 <= d < |fs| :: |fs[d].entries| <= ENTRY_SLOTS)
    && (forall d, i | 0 <= d < |fs| && 0 <= i < |fs[d].entries| :: fs[d].entries[i] > d)
    && (forall d, i, e, j | 0 <= d < |fs| && 0 <= i < |fs[d].entries| && 0 <= e < |fs| && 0 <= j < |fs[e].entries|
                            && fs[d].entries[i] == fs[e].entries[j] :: d == e && i == j)
  }

  lemma {:induction false} CreatedTree(fs: Fs, dir: nat, name: string, kind: Kind, fs': Fs)
    requires Tree(fs) && Created(fs, dir, name, kind, fs')
    ensures Tree(fs')
  {
    CreatedClosed(fs, dir, name, kind, fs');
  }

  lemma {:induction false} WalkAscends(fs: Fs, from: nat, names: seq<string>)
    requires Tree(fs) && from < |fs| && Walk(fs, from, names).Ok?
    ensures names != [] ==> Walk(fs, from, names).id > from
    decreases |names|
  {
    if names != [] {
      var id := LookupName(fs, from, names[0]).id;
      if names[1..] != [] { WalkAscends(fs, id, names[1..]); }
    }
  }

  /** In a tree an inode has one path. */
  lemma {:induction false} OnePath(fs: Fs, a: seq<string>, b: seq<string>)
    requires Tree(fs) && Walk(fs, 0, a).Ok? && Walk(fs, 0, b) == Walk(fs, 0, a)
    ensures a == b
    decreases |a|
  {
    if a == [] || b == [] {
      WalkAscends(fs, 0, a);
      WalkAscends(fs, 0, b);
    } else {
      SameStep(fs, a, b);
      OnePath(fs, a[..|a| - 1], b[..|b| - 1]);
      SameEnds(a, b);
    }
  }

  lemma {:induction false} SameEnds<X>(a: seq<X>, b: seq<X>)
    requires a != [] && b != [] && a[..|a| - 1] == b[..|b| - 1] && a[|a| - 1] == b[|b| - 1]
    ensures a == b
  {
    assert a == a[..|a| - 1] + [a[|a| - 1]] && b == b[..|b| - 1] + [b[|b| - 1]];
  }

  /** Two walks to one inode take the same last step from the same directory. */
  lemma {:induction false} SameStep(fs: Fs, a: seq<string>, b: seq<string>)
    requires Tree(fs) && a != [] && b != [] && Walk(fs, 0, a).Ok? && Walk(fs, 0, b) == Walk(fs, 0, a)
    ensures Walk(fs, 0, a[..|a| - 1]).Ok? && Walk(fs, 0, b[..|b| - 1]) == Walk(fs, 0, a[..|a| - 1])
    ensures a[|a| - 1] == b[|b| - 1]
  {
    var x, i := LastStep(fs, a);
    var y, j := LastStep(fs, b);
    assert fs[x].entries[i] == fs[y].entries[j];
  }

  /** The directory from which a walk takes its last step, and the entry it takes. */
  lemma {:induction false} LastStep(fs: Fs, a: seq<string>) returns (d: nat, i: nat)
    requires Tree(fs) && a != [] && Walk(fs, 0, a).Ok?
    ensures d < |fs| && Walk(fs, 0, a[..|a| - 1]) == Ok(d) && LookupName(fs, d, a[|a| - 1]) == Walk(fs, 0, a)
    ensures i < |fs[d].entries| && fs[d].entries[i] == Walk(fs, 0, a).id
    ensures fs[Walk(fs, 0, a).id].name == a[|a| - 1]
  {
    var init, last := a[..|a| - 1], a[|a| - 1];
    assert a == init + [last];
    WalkConcat(fs, 0, init, [last]);
    d := Walk(fs, 0, init).id;
    WalkOne(fs, d, last);
    i := FindEntry(fs, fs[d].entries, 0, last);
  }

  // ---- What a path names ----

  /** Kind and contents at the end of a path from the root. */
  function Node(fs: Fs, names: seq<string>): Option<(Kind, string)>
    requires fs != [] && Closed(fs)
  {
    match Walk(fs, 0, names)
    case Ok(id) => Some((fs[id].kind, fs[id].data))
    case Fail(_) => None
  }

  /** dir and name are where the free path p would be. */
  ghost predicate FreeSlot(fs: Fs, p: seq<string>, dir: nat, name: string)
    requires fs != [] && Closed(fs)
  {
    p != [] && p[|p| - 1] == name && Walk(fs, 0, p[..|p| - 1]) == Ok(dir) && Walk(fs, 0, p).Fail?
  }

  lemma {:induction false} NewPathFound(fs: Fs, dir: nat, name: string, kind: Kind, fs': Fs, p: seq<string>)
    requires Tree(fs) && Created(fs, dir, name, kind, fs') && Closed(fs') && FreeSlot(fs, p, dir, name)
    ensures Walk(fs', 0, p) == Ok(|fs|)
  {
    MissingName(fs, dir, name, p);
    WalkAfterCreate(fs, dir, name, kind, fs', 0, p);
    assert AsksFor(fs, 0, p, dir, name, |p| - 1) && p[|p|..] == [];
  }

  lemma {:induction false} OtherPathKept(fs: Fs, dir: nat, name: string, kind: Kind, fs': Fs, p: seq<string>,
          q: seq<string>)
    requires Tree(fs) && Created(fs, dir, name, kind, fs') && Closed(fs') && FreeSlot(fs, p, dir, name) && q != p
    ensures Walk(fs, 0, q).Ok? ==> Walk(fs', 0, q) == Walk(fs, 0, q)
    ensures Walk(fs, 0, q).Fail? ==> Walk(fs', 0, q).Fail?
  {
    WalkAfterCreate(fs, dir, name, kind, fs', 0, q);
    if k: nat :| AsksFor(fs, 0, q, dir, name, k) {
      StoppedAt(fs, dir, name, q, k);
      SamePlace(fs, dir, name, p, q, k);
      NothingBelow(fs', |fs|, q[k + 1..]);
    }
  }

  /** Only p itself asks for the missing name last. */
  lemma {:induction false} SamePlace(fs: Fs, dir: nat, name: string, p: seq<string>, q: seq<string>, k: nat)
    requires Tree(fs) && FreeSlot(fs, p, dir, name) && AsksFor(fs, 0, q, dir, name, k) && q != p
    ensures q[k + 1..] != []
  {
    OnePath(fs, q[..k], p[..|p| - 1]);
    assert p == p[..|p| - 1] + [name];
    assert q[..k + 1] == q[..k] + [q[k]];
  }

  /**
   A creation at a free path, in a directory with room for the entry, adds exactly that path to what
   the tree names.
   */
  lemma {:induction false} NodeAfterCreate(fs: Fs, dir: nat, name: string, kind: Kind, fs': Fs, p: seq<string>,
          q: seq<string>)
    requires Tree(fs) && Created(fs, dir, name, kind, fs') && Closed(fs') && FreeSlot(fs, p, dir, name)
    ensures Walk(fs', 0, p) == Ok(|fs|)
    ensures Node(fs', q) == if q == p then Some((kind, "")) else Node(fs, q)
  {
    NewPathFound(fs, dir, name, kind, fs', p);
    if q != p {
      OtherPathKept(fs, dir, name, kind, fs', p, q);
      if Walk(fs, 0, q).Ok? { CreatedKeeps(fs, dir, name, kind, fs', Walk(fs, 0, q).id); }
    }
  }

  lemma {:induction false} CreatedKeeps(fs: Fs, dir: nat, name: string, kind: Kind, fs': Fs, id: nat)
    requires Created(fs, dir, name, kind, fs') && id < |fs|
    ensures fs'[id].kind == fs[id].kind && fs'[id].data == fs[id].data
  {
  }

  lemma {:induction false} MissingName(fs: Fs, dir: nat, name: string, p: seq<string>)
    requires Tree(fs) && p != [] && p[|p| - 1] == name && Walk(fs, 0, p[..|p| - 1]) == Ok(dir) && Walk(fs, 0, p).Fail?
    ensures LookupName(fs, dir, name).Fail?
  {
    assert p == p[..|p| - 1] + [name];
    WalkConcat(fs, 0, p[..|p| - 1], [name]);
    WalkOne(fs, dir, name);
  }

  lemma {:induction false} NothingBelow(fs: Fs, id: nat, names: seq<string>)
    requires Closed(fs) && id < |fs| && fs[id].entries == [] && names != []
    ensures Walk(fs, id, names).Fail?
  {
  }

  lemma {:induction false} StoppedAt(fs: Fs, dir: nat, name: string, q: seq<string>, k: nat)
    requires fs != [] && Closed(fs) && AsksFor(fs, 0, q, dir, name, k)
    ensures Walk(fs, 0, q).Fail?
  {
    assert q == q[..k] + ([name] + q[k + 1..]);
    WalkConcat(fs, 0, q[..k], [name] + q[k + 1..]);
    WalkConcat(fs, dir, [name], q[k + 1..]);
    WalkOne(fs, dir, name);
  }

  // ---- vfs_create and vfs_lookup together ----

  /** Paths for which the parent and base name are the path. */
  predicate GoodPath(path: string) {
    Components(path) != [] && (path[0] == '/' || |Components(path)| >= 2)
  }

  /**
   vfs_create succeeds exactly when the parent is a directory with less than 511 entries, memory is
   left and the name fits.
   */
  lemma {:induction false} CreatePathSucceedsIff(fs: Fs, path: string, kind: Kind, buf: Option<string>)
    requires Tree(fs) && GoodPath(path)
    ensures var p := Components(path);
            var up := Walk(fs, 0, p[..|p| - 1]);
            CreatePath(fs, 0, path, kind, buf).1.Ok? <==>
              && up.Ok? && fs[up.id].kind == INODE_DIR && |fs[up.id].entries| < 511
              && buf.Some? && |p[|p| - 1]| < 128
  {
    SplitGood(path);
  }

  /**
   Otherwise it changes nothing and its error says what was wrong first: that of the walk to the
   parent, a parent that is no directory, no memory, or a name of 128 bytes or more.
   */
  lemma {:induction false} CreatePathErrors(fs: Fs, path: string, kind: Kind, buf: Option<string>)
    requires Tree(fs) && GoodPath(path)
    ensures var (r, p) := (CreatePath(fs, 0, path, kind, buf), Components(path));
      var up := Walk(fs, 0, p[..|p| - 1]);
      && (r.1.Fail? ==> r.0 == fs)
      && (r.1 == Fail(FILE_NOT_FOUND) <==> up == Fail(FILE_NOT_FOUND))
      && (r.1 == Fail(UNIMPLEMENTED) <==> up == Fail(UNIMPLEMENTED) || (up.Ok? && fs[up.id].kind != INODE_DIR))
      && (r.1 == Fail(OUT_OF_MEMORY) <==> up.Ok? && fs[up.id].kind == INODE_DIR && buf.None?)
      && (r.1 == Fail(NAME_LIMIT) <==> up.Ok? && fs[up.id].kind == INODE_DIR && buf.Some? && |p[|p| - 1]| >= 128)
  {
    SplitGood(path);
    WalkErrors(fs, 0, Components(path)[..|Components(path)| - 1]);
  }

  lemma {:induction false} SplitGood(path: string)
    requires GoodPath(path)
    ensures var p := Components(path); Components(ParentOf(path)) == p[..|p| - 1] && BaseOf(path) == p[|p| - 1]
  {
    ParentBaseSplit(path);
  }

  /** What a successful vfs_create did. */
  lemma {:induction false} CreatePathEffect(fs: Fs, path: string, kind: Kind, buf: Option<string>, fs': Fs, id: nat)
    returns (dir: nat)
    requires Tree(fs) && GoodPath(path) && CreatePath(fs, 0, path, kind, buf) == (fs', Ok(id))
    ensures var p := Components(path);
            && Walk(fs, 0, p[..|p| - 1]) == Ok(dir) && id == |fs| && buf.Some?
            && Created(fs, dir, p[|p| - 1] + UpToZero(buf.value), if kind == INODE_DIR then INODE_DIR else INODE_FILE,
                       fs')
            && Tree(fs')
  {
    SplitGood(path);
    dir := Walk(fs, 0, Components(ParentOf(path))).id;
    CreatedTree(fs, dir, BaseOf(path) + UpToZero(buf.value), if kind == INODE_DIR then INODE_DIR else INODE_FILE, fs');
  }

  /**
   After a successful vfs_create, in a directory that had less than 511 entries, looking up any
   spelling of the path finds the new inode exactly when the path named nothing before and a zero
   byte stands behind the name; an older entry of the same name keeps hiding the new one.
   */
  lemma {:induction false} CreateThenLookup(fs: Fs, path: string, kind: Kind, behind: string, fs': Fs, id: nat,
          spelling: string)
    requires Tree(fs) && GoodPath(path) && CreatePath(fs, 0, path, kind, Some(behind)) == (fs', Ok(id))
    requires Components(spelling) == Components(path)
    ensures Tree(fs')
    ensures Walk(fs', 0, Components(spelling)) == Ok(id) <==>
              Walk(fs, 0, Components(path)).Fail? && (behind == "" || behind[0] == '\0')
    ensures Walk(fs, 0, Components(path)).Ok? ==> Walk(fs', 0, Components(spelling)) == Walk(fs, 0, Components(path))
  {
    var p := Components(path);
    var dir := CreatePathEffect(fs, path, kind, Some(behind), fs', id);
    var stored := p[|p| - 1] + UpToZero(behind);
    if Walk(fs, 0, p).Fail? && UpToZero(behind) == "" {
      assert stored == p[|p| - 1];
      NodeAfterCreate(fs, dir, stored, if kind == INODE_DIR then INODE_DIR else INODE_FILE, fs', p, p);
    } else {
      OldWalkStays(fs, dir, stored, if kind == INODE_DIR then INODE_DIR else INODE_FILE, fs', p);
    }
  }

  /** A walk into the directory changes only when it asks for a missing name and is given that name. */
  lemma {:induction false} OldWalkStays(fs: Fs, dir: nat, stored: string, kind: Kind, fs': Fs, p: seq<string>)
    requires Tree(fs) && Closed(fs') && Created(fs, dir, stored, kind, fs')
    requires p != [] && Walk(fs, 0, p[..|p| - 1]) == Ok(dir)
    requires Walk(fs, 0, p).Ok? || p[|p| - 1] != stored
    ensures Walk(fs', 0, p) == Walk(fs, 0, p)
  {
    WalkAfterCreate(fs, dir, stored, kind, fs', 0, p);
    forall k: nat ensures !AsksFor(fs, 0, p, dir, stored, k) {
      if AsksFor(fs, 0, p, dir, stored, k) {
        StoppedAt(fs, dir, stored, p, k);
        OnePath(fs, p[..k], p[..|p| - 1]);
      }
    }
  }

  /** The effect of writing data at the start of a file. */
  function Written(fs: Fs, id: nat, data: string): Fs
    requires id < |fs|
  {
    if fs[id].kind != INODE_FILE then fs else
    fs[id := fs[id].(data := Overwrite(fs[id].data, 0, data))]
  }
}
