/** The ustar extractor: an archive that denotes a list of entries builds the tree they describe. */
module Tar {
  import opened Common
  import opened Paths
  import opened Tmpfs
  import opened Vfs
  import opened FileSystems

  const USTAR_OCTAL_DIGITS: nat := 11
  const TAR_FILE: char := '0'
  const TAR_DIR: char := '5'
  const BLOCK: nat := 512

  // ---- Octal numbers ----

  /** The digits ustar_octtoi lets pass, '8' among them. */
  predicate Accepted(c: char) { '0' <= c <= '8' }

  predicate Octal(c: char) { '0' <= c <= '7' }

  function OctValue(s: string): int {
    if s == "" then 0 else OctValue(s[..|s| - 1]) * 8 + (s[|s| - 1] as int - '0' as int)
  }

  /** ustar_octtoi on the eleven characters of a size field: the value, or -1. */
  function OctToI(s: string): int
    requires |s| == USTAR_OCTAL_DIGITS
  {
    if forall i | 0 <= i < |s| :: Accepted(s[i]) then OctValue(s) else -1
  }

  /** ustar_octtoi. */
  method ParseOctal(s: string) returns (r: int)
    requires |s| == USTAR_OCTAL_DIGITS
    ensures r == OctToI(s)
  {
    var res := 0;
    for i := 0 to USTAR_OCTAL_DIGITS
      invariant forall j | 0 <= j < i :: Accepted(s[j])
      invariant res == OctValue(s[..i])
    {
      if s[i] < '0' || s[i] > '8' { return -1; }
      assert s[..i + 1][..i] == s[..i];
      res := res * 8;
      res := res + (s[i] as int - '0' as int);
    }
    assert s[..USTAR_OCTAL_DIGITS] == s;
    return res;
  }

  function Pow8(k: nat): nat { if k == 0 then 1 else 8 * Pow8(k - 1) }

  /** The k-digit octal numeral of n. */
  function OctEncode(n: nat, k: nat): (s: string)
    ensures |s| == k && forall i | 0 <= i < k :: Octal(s[i])
  {
    if k == 0 then "" else OctEncode(n / 8, k - 1) + [(n % 8 + 48) as char]
  }

  /** Decoding inverts encoding for every number that fits. */
  lemma {:induction false} OctValueOfEncode(n: nat, k: nat)
    requires n < Pow8(k)
    ensures OctValue(OctEncode(n, k)) == n
  {
    if k > 0 {
      OctValueOfEncode(n / 8, k - 1);
      assert OctEncode(n, k)[..k - 1] == OctEncode(n / 8, k - 1);
    }
  }

  lemma {:induction false} OctRoundTrip(n: nat)
    requires n < Pow8(USTAR_OCTAL_DIGITS)
    ensures OctToI(OctEncode(n, USTAR_OCTAL_DIGITS)) == n
  {
    OctValueOfEncode(n, USTAR_OCTAL_DIGITS);
  }

  lemma {:induction false} OctValueBounds(s: string)
    requires forall i | 0 <= i < |s| :: Accepted(s[i])
    ensures 0 <= OctValue(s) && 7 * OctValue(s) <= 8 * (Pow8(|s|) - 1)
  {
    if s != "" { OctValueBounds(s[..|s| - 1]); }
  }

  /**
   A field that is not an octal numeral is refused exactly when some character lies outside '0' to
   '8'; a numeral with an '8' and nothing worse is taken for a number.
   */
  lemma {:induction false} OctRefusesIff(s: string)
    requires |s| == USTAR_OCTAL_DIGITS && exists i | 0 <= i < |s| :: !Octal(s[i])
    ensures OctToI(s) == -1 <==> exists i | 0 <= i < |s| :: !Octal(s[i]) && s[i] != '8'
  {
    if forall i | 0 <= i < |s| :: Accepted(s[i]) {
      OctValueBounds(s);
    } else {
      var i :| 0 <= i < |s| && !Accepted(s[i]);
      assert !Octal(s[i]) && s[i] != '8';
    }
  }

  // ---- Headers ----

  /** A size as size_t: the -1 of a bad field becomes 2^64 - 1. */
  function SizeT(v: int): nat { v % WORD }

  /** How far tar_extract advances, in 64-bit arithmetic. */
  function Stride(size: nat): nat { (size + 1023) % WORD / BLOCK * BLOCK }

  /** One header block and the data blocks that hold `size` bytes. */
  lemma {:induction false} StrideIs(size: nat)
    requires size + 1023 < WORD
    ensures Stride(size) == BLOCK + (size + BLOCK - 1) / BLOCK * BLOCK
  {
    assert (size + 1023) / 512 == 1 + (size + 511) / 512;
  }

  /** The loop always advances, even on a bad size field. */
  lemma {:induction false} StrideAdvances(s: string)
    requires |s| == USTAR_OCTAL_DIGITS
    ensures Stride(SizeT(OctToI(s))) >= BLOCK
  {
    if OctToI(s) != -1 {
      OctValueBounds(s);
      assert Pow8(11) == 0x2_0000_0000;
    }
  }

  /** The characters before the terminator, or to the end of the archive. */
  function CStr(a: string, at: nat): (s: string)
    requires at <= |a|
    ensures at + |s| <= |a| && s == a[at..at + |s|]
    decreases |a| - at
  {
    if at == |a| || a[at] == '\0' then "" else [a[at]] + CStr(a, at + 1)
  }

  predicate HasHeader(a: string, addr: nat) {
    addr + BLOCK <= |a| && a[addr + 257..addr + 262] == "ustar"
  }

  function SizeAt(a: string, addr: nat): nat
    requires HasHeader(a, addr)
  {
    SizeT(OctToI(a[addr + 124..addr + 135]))
  }

  /** The bytes behind a header, as many as the archive has. */
  function DataAt(a: string, addr: nat, size: nat): string
    requires addr + BLOCK <= |a|
  {
    a[addr + BLOCK..if addr + BLOCK + size < |a| then addr + BLOCK + size else |a|]
  }

  // ---- tar_extract ----

  datatype Entry = Entry(name: string, dir: bool, data: string)

  /** The header is that of a directory or a file. */
  predicate Creates(a: string, addr: nat)
    requires HasHeader(a, addr)
  {
    a[addr + 156] == TAR_DIR || a[addr + 156] == TAR_FILE
  }

  function KindOf(e: Entry): Kind { if e.dir then INODE_DIR else INODE_FILE }

  /** The entry a directory or file header stands for. */
  function EntryAt(a: string, addr: nat): Entry
    requires HasHeader(a, addr)
  {
    if a[addr + 156] == TAR_DIR then Entry(CStr(a, addr), true, "")
    else Entry(CStr(a, addr), false, DataAt(a, addr, SizeAt(a, addr)))
  }

  /** The memory one entry finds: the bytes behind the name in its buffer, as in Create, and chunks for its contents. */
  datatype Supply = Supply(behind: string, chunks: nat)

  /** The memory that creations still find; when the list is used up there is none. */
  type Buffers = seq<Supply>

  function First(bufs: Buffers): Option<Supply> { if bufs == [] then None else Some(bufs[0]) }

  function NameBuffer(buf: Option<Supply>): Option<string> { if buf.Some? then Some(buf.value.behind) else None }

  /** The bytes the chunks can hold. */
  function Room(buf: Option<Supply>): nat { if buf.Some? then buf.value.chunks * MAX_FILE_DATA_PER_CHUNK else 0 }

  /** The entry as it is stored: a file whose contents find no room stays empty. */
  function Kept(e: Entry, buf: Option<Supply>): Entry { e.(data := if |e.data| <= Room(buf) then e.data else "") }

  function Later(bufs: Buffers): Buffers { if bufs == [] then [] else bufs[1..] }

  /** Creating one entry; a file also gets its bytes. The flag says whether extraction goes on. */
  function Install(fs: Fs, e: Entry, buf: Option<Supply>): (r: (Fs, bool))
    requires fs != [] && Closed(fs)
    ensures r.0 != [] && Closed(r.0)
  {
    var (fs', r) := CreatePath(fs, 0, "/" + e.name, KindOf(e), NameBuffer(buf));
    if r.Fail? then (fs', false)
    else if e.dir then (fs', true)
    else (Written(fs', r.id, Kept(e, buf).data), true)
  }

  /** The directory of this entry is full: creating it would store outside the directory's chunk. */
  predicate Strays(fs: Fs, e: Entry, buf: Option<Supply>)
    requires fs != [] && Closed(fs)
  {
    CreatePath(fs, 0, "/" + e.name, KindOf(e), NameBuffer(buf)).1 == Fail(STRAY)
  }

  /** The tree, the address of the next header, the memory left, and whether the loop goes on. */
  datatype Turn = Turn(fs: Fs, next: nat, bufs: Buffers, more: bool)

  /** One turn of tar_extract's loop. */
  function OneTurn(fs: Fs, a: string, addr: nat, bufs: Buffers): (r: Turn)
    requires fs != [] && Closed(fs) && HasHeader(a, addr)
    ensures r.fs != [] && Closed(r.fs) && r.next > addr
  {
    StrideAdvances(a[addr + 124..addr + 135]);
    var next := addr + Stride(SizeAt(a, addr));
    if Creates(a, addr)
    then var (fs', more) := Install(fs, EntryAt(a, addr), First(bufs)); Turn(fs', next, Later(bufs), more)
    else Turn(fs, next, bufs, true)
  }

  /** tar_extract from address addr on. */
  function Extract(fs: Fs, a: string, addr: nat, bufs: Buffers): Fs
    requires fs != [] && Closed(fs)
    decreases |a| - addr
  {
    if !HasHeader(a, addr) then fs else
    var t := OneTurn(fs, a, addr, bufs);
    if t.more then Extract(t.fs, a, t.next, t.bufs) else t.fs
  }

  /** No turn of the loop stores a directory entry outside its chunk. */
  ghost predicate NoStray(fs: Fs, a: string, addr: nat, bufs: Buffers)
    requires fs != [] && Closed(fs)
    decreases |a| - addr
  {
    HasHeader(a, addr) ==>
      && (Creates(a, addr) ==> !Strays(fs, EntryAt(a, addr), First(bufs)))
      && var t := OneTurn(fs, a, addr, bufs); t.more ==> NoStray(t.fs, a, t.next, t.bufs)
  }

  /** vfs_create for one entry, and inode_write for a file. */
  method InstallEntry(vfs: FileSystem, e: Entry, buf: Option<Supply>) returns (more: bool)
    requires vfs.Valid() && Closed(vfs.fs) && !Strays(vfs.fs, e, buf)
    modifies vfs.Repr
    ensures vfs.Valid() && fresh(vfs.Repr - old(vfs.Repr))
    ensures (vfs.fs, more) == Install(old(vfs.fs), e, buf)
  {
    var r := vfs.CreateAtPath("/" + e.name, if e.dir then INODE_DIR else INODE_FILE, NameBuffer(buf));
    more := r.Ok?;
    if more && !e.dir { vfs.WriteFile(r.id, e.data, if buf.Some? then buf.value.chunks else 0); }
  }

  /** The body of the loop for one header. */
  method ExtractOne(vfs: FileSystem, a: string, addr: nat, bufs: Buffers)
    returns (next: nat, rest: Buffers, more: bool)
    requires vfs.Valid() && Closed(vfs.fs) && HasHeader(a, addr)
    requires Creates(a, addr) ==> !Strays(vfs.fs, EntryAt(a, addr), First(bufs))
    modifies vfs.Repr
    ensures vfs.Valid() && fresh(vfs.Repr - old(vfs.Repr))
    ensures Turn(vfs.fs, next, rest, more) == OneTurn(old(vfs.fs), a, addr, bufs)
  {
    var digits := ParseOctal(a[addr + 124..addr + 135]);
    var size := digits % WORD;
    var flag := a[addr + 156];
    more, rest := true, bufs;
    if flag == TAR_DIR || flag == TAR_FILE {
      var e := if flag == TAR_DIR then Entry(CStr(a, addr), true, "")
               else Entry(CStr(a, addr), false, DataAt(a, addr, size));
      more := InstallEntry(vfs, e, First(bufs));
      rest := Later(bufs);
    }
    next := addr + (size + 1023) % WORD / 512 * 512;
  }

  /** tar_extract in place. */
  method TarExtract(vfs: FileSystem, a: string, bufs: Buffers)
    requires vfs.Valid() && Closed(vfs.fs) && NoStray(vfs.fs, a, 0, bufs)
    modifies vfs.Repr
    ensures vfs.Valid() && fresh(vfs.Repr - old(vfs.Repr))
    ensures vfs.fs == Extract(old(vfs.fs), a, 0, bufs)
  {
    var addr: nat, left := 0, bufs;
    while addr + BLOCK <= |a| && a[addr + 257..addr + 262] == "ustar"
      invariant vfs.Valid() && fresh(vfs.Repr - old(vfs.Repr))
      invariant Closed(vfs.fs) && NoStray(vfs.fs, a, addr, left)
      invariant Extract(old(vfs.fs), a, 0, bufs) == Extract(vfs.fs, a, addr, left)
      decreases |a| - addr
    {
      ghost var t := OneTurn(vfs.fs, a, addr, left);
      var next, rest, more := ExtractOne(vfs, a, addr, left);
      if !more { return; }
      addr, left := next, rest;
    }
  }

  // ---- What an archive denotes ----

  /** An entry a header can carry and the path functions understand. */
  predicate WellFormed(e: Entry) {
    && |e.name| < 100 && '\0' !in e.name && Components(e.name) != []
    && (e.dir ==> e.data == "") && |e.data| < Pow8(USTAR_OCTAL_DIGITS)
  }

  /** A member of an archive: a directory or a file, or anything else, such as a link. */
  datatype Member = Item(e: Entry) | Other(flag: char, data: string) {
    function Data(): string {
      match this
      case Item(e) => e.data
      case Other(_, data) => data
    }

    predicate Good() {
      match this
      case Item(e) => WellFormed(e)
      case Other(flag, data) => flag != '0' && flag != '5' && |data| < Pow8(USTAR_OCTAL_DIGITS)
    }
  }

  predicate AllGood(ms: seq<Member>) { forall i | 0 <= i < |ms| :: ms[i].Good() }

  /** The directories and files among the members. */
  function Entries(ms: seq<Member>): seq<Entry> {
    if ms == [] then [] else (if ms[0].Item? then [ms[0].e] else []) + Entries(ms[1..])
  }

  /** The block at addr is a header with this type flag, the bytes behind it are `data`; other fields are free. */
  ghost predicate Block(a: string, addr: nat, flag: char, data: string) {
    && HasHeader(a, addr) && addr + 512 + |data| <= |a|
    && a[addr + 124..addr + 135] == OctEncode(|data|, 11) && a[addr + 156] == flag
    && a[addr + 512..addr + 512 + |data|] == data
  }

  /** The block at addr and the bytes behind it encode e. */
  ghost predicate Encodes(a: string, addr: nat, e: Entry) {
    && Block(a, addr, if e.dir then '5' else '0', e.data) && |e.name| < 100
    && a[addr..addr + |e.name|] == e.name && a[addr + |e.name|] == '\0'
  }

  ghost predicate EncodesMember(a: string, addr: nat, m: Member) {
    match m
    case Item(e) => Encodes(a, addr, e)
    case Other(flag, data) => Block(a, addr, flag, data)
  }

  /** Where the next header is: one block, and the data padded to whole blocks, further on. */
  function Next(addr: nat, size: nat): nat { addr + 512 + (size + 511) / 512 * 512 }

  /** From addr on the archive is the members ms, each padded to whole blocks, and then no header. */
  ghost predicate Denotes(a: string, addr: nat, ms: seq<Member>)
    decreases |ms|
  {
    if ms == [] then !HasHeader(a, addr)
    else EncodesMember(a, addr, ms[0]) && Denotes(a, Next(addr, |ms[0].Data()|), ms[1..])
  }

  function InstallAll(fs: Fs, es: seq<Entry>, bufs: Buffers): (r: Fs)
    requires fs != [] && Closed(fs)
    ensures r != [] && Closed(r)
    decreases |es|
  {
    if es == [] then fs else
    var r := Install(fs, es[0], First(bufs));
    if r.1 then InstallAll(r.0, es[1..], Later(bufs)) else r.0
  }

  lemma {:induction false} InstallStep(fs: Fs, es: seq<Entry>, bufs: Buffers)
    requires fs != [] && Closed(fs) && es != []
    ensures var r := Install(fs, es[0], First(bufs));
      InstallAll(fs, es, bufs) == if r.1 then InstallAll(r.0, es[1..], Later(bufs)) else r.0
  {
  }

  lemma {:induction false} CStrIs(a: string, at: nat, name: string)
    requires at + |name| < |a| && a[at..at + |name|] == name && a[at + |name|] == '\0' && '\0' !in name
    ensures CStr(a, at) == name
    decreases |name|
  {
    if name != "" {
      assert a[at] == name[0];
      assert a[at + 1..at + |name|] == name[1..];
      CStrIs(a, at + 1, name[1..]);
    }
  }

  lemma {:induction false} SizeDecodes(a: string, addr: nat, flag: char, data: string)
    requires Block(a, addr, flag, data) && |data| < Pow8(USTAR_OCTAL_DIGITS)
    ensures SizeAt(a, addr) == |data| < 0x2_0000_0000
  {
    OctRoundTrip(|data|);
    assert Pow8(11) == 0x2_0000_0000;
  }

  /** The extractor goes on at the next header, whatever the type. */
  lemma {:induction false} NextDecodes(a: string, addr: nat, flag: char, data: string)
    requires Block(a, addr, flag, data) && |data| < Pow8(USTAR_OCTAL_DIGITS)
    ensures SizeAt(a, addr) == |data| && addr + Stride(SizeAt(a, addr)) == Next(addr, |data|) > addr
  {
    SizeDecodes(a, addr, flag, data);
    StrideIs(|data|);
  }

  lemma {:induction false} NameDecodes(a: string, addr: nat, e: Entry)
    requires WellFormed(e) && Encodes(a, addr, e)
    ensures CStr(a, addr) == e.name && DataAt(a, addr, |e.data|) == e.data
  {
    CStrIs(a, addr, e.name);
  }

  /** What the extractor reads off a well-formed header is the entry. */
  lemma {:induction false} HeaderDecodes(a: string, addr: nat, e: Entry)
    requires WellFormed(e) && Encodes(a, addr, e)
    ensures EntryAt(a, addr) == e && Creates(a, addr)
    ensures addr + Stride(SizeAt(a, addr)) == Next(addr, |e.data|) > addr
  {
    NextDecodes(a, addr, a[addr + 156], e.data);
    NameDecodes(a, addr, e);
  }

  lemma {:induction false} TailOf(a: string, addr: nat, ms: seq<Member>)
    requires ms != [] && Denotes(a, addr, ms) && AllGood(ms)
    ensures Denotes(a, Next(addr, |ms[0].Data()|), ms[1..]) && AllGood(ms[1..])
  {
  }

  lemma {:induction false} ExtractStep(fs: Fs, a: string, addr: nat, e: Entry, bufs: Buffers)
    requires fs != [] && Closed(fs) && WellFormed(e) && Encodes(a, addr, e)
    ensures var r := Install(fs, e, First(bufs));
      OneTurn(fs, a, addr, bufs) == Turn(r.0, Next(addr, |e.data|), Later(bufs), r.1)
  {
    HeaderDecodes(a, addr, e);
  }

  /** A member that is neither directory nor file is passed over: tree and memory stay. */
  lemma {:induction false} OtherStep(fs: Fs, a: string, addr: nat, flag: char, data: string, bufs: Buffers)
    requires fs != [] && Closed(fs) && Other(flag, data).Good() && Block(a, addr, flag, data)
    ensures OneTurn(fs, a, addr, bufs) == Turn(fs, Next(addr, |data|), bufs, true) && !Creates(a, addr)
  {
    NextDecodes(a, addr, flag, data);
  }

  /** Extraction installs the directories and files one after the other, as if the other members were absent. */
  lemma {:induction false} ExtractInstalls(fs: Fs, a: string, addr: nat, ms: seq<Member>, bufs: Buffers)
    requires fs != [] && Closed(fs) && Denotes(a, addr, ms) && AllGood(ms)
    ensures Extract(fs, a, addr, bufs) == InstallAll(fs, Entries(ms), bufs)
    decreases |ms|
  {
    if ms != [] {
      TailOf(a, addr, ms);
      match ms[0] {
        case Item(e) =>
          ExtractStep(fs, a, addr, e, bufs);
          InstallStep(fs, Entries(ms), bufs);
          var r := Install(fs, e, First(bufs));
          if r.1 { ExtractInstalls(r.0, a, Next(addr, |e.data|), ms[1..], Later(bufs)); }
        case Other(flag, data) =>
          OtherStep(fs, a, addr, flag, data, bufs);
          ExtractInstalls(fs, a, Next(addr, |data|), ms[1..], bufs);
          assert [] + Entries(ms[1..]) == Entries(ms[1..]);
      }
    }
  }

  // ---- The first failure ----

  /** The memory left after the first k entries. */
  function After(bufs: Buffers, k: nat): Buffers { if k <= |bufs| then bufs[k..] else [] }

  predicate Fails(fs: Fs, e: Entry, bufs: Buffers)
    requires fs != [] && Closed(fs)
  {
    CreatePath(fs, 0, "/" + e.name, KindOf(e), NameBuffer(First(bufs))).1.Fail?
  }

  /** Every creation of the list succeeds. */
  predicate NoneFails(fs: Fs, es: seq<Entry>, bufs: Buffers)
    requires fs != [] && Closed(fs)
    decreases |es|
  {
    es != [] ==>
      !Fails(fs, es[0], bufs) && NoneFails(Install(fs, es[0], First(bufs)).0, es[1..], Later(bufs))
  }

  /** Extraction ends at the first creation that fails, for whatever reason; what was created before stays. */
  lemma {:induction false} FailureStops(fs: Fs, es: seq<Entry>, bufs: Buffers, k: nat)
    requires fs != [] && Closed(fs) && k < |es| && NoneFails(fs, es[..k], bufs)
    requires Fails(InstallAll(fs, es[..k], bufs), es[k], After(bufs, k))
    ensures InstallAll(fs, es, bufs) == InstallAll(fs, es[..k], bufs)
    decreases |es|
  {
    if k == 0 {
      assert es[..0] == [] && After(bufs, 0) == bufs;
      FailedChangesNothing(fs, es[0], First(bufs));
    } else {
      var fs' := Install(fs, es[0], First(bufs)).0;
      assert es[..k][1..] == es[1..][..k - 1] && es[..k][0] == es[0];
      assert After(bufs, k) == After(Later(bufs), k - 1);
      InstallStep(fs, es[..k], bufs);
      InstallStep(fs, es, bufs);
      FailureStops(fs', es[1..], Later(bufs), k - 1);
    }
  }

  lemma {:induction false} FailedChangesNothing(fs: Fs, e: Entry, buf: Option<Supply>)
    requires fs != [] && Closed(fs)
    requires CreatePath(fs, 0, "/" + e.name, KindOf(e), NameBuffer(buf)).1.Fail?
    ensures Install(fs, e, buf) == (fs, false)
  {
  }

  // ---- The tree that results ----

  function PathOf(e: Entry): seq<string> { Components(e.name) }

  /** The path of the directory that holds the entry. */
  function Up(e: Entry): seq<string> { if PathOf(e) == [] then [] else PathOf(e)[..|PathOf(e)| - 1] }

  predicate IsDir(fs: Fs, p: seq<string>)
    requires fs != [] && Closed(fs)
  {
    Node(fs, p).Some? && Node(fs, p).value.0 == INODE_DIR
  }

  /** Writing contents changes no walk. */
  lemma {:induction false} WalkAfterWrite(fs: Fs, id: nat, data: string, from: nat, q: seq<string>)
    requires Closed(fs) && id < |fs| && from < |fs|
    ensures Closed(Written(fs, id, data)) && Walk(Written(fs, id, data), from, q) == Walk(fs, from, q)
    decreases |q|
  {
    var fs' := Written(fs, id, data);
    if q != [] {
      FindEntryIs(fs', fs'[from].entries, 0, q[0], FindEntry(fs, fs[from].entries, 0, q[0]));
      if LookupName(fs, from, q[0]).Ok? { WalkAfterWrite(fs, id, data, LookupName(fs, from, q[0]).id, q[1..]); }
    }
  }

  /** How many entries the directory at this path has. */
  function EntriesAt(fs: Fs, up: seq<string>): nat
    requires fs != [] && Closed(fs)
  {
    match Walk(fs, 0, up)
    case Ok(id) => |fs[id].entries|
    case Fail(_) => 0
  }

  /** The name will be read as it was written: a zero byte stands behind it. */
  predicate Clear(buf: Option<Supply>) { buf.Some? && UpToZero(buf.value.behind) == "" }

  /** The creation behind an installation at a free path, in a directory with room, with a clear buffer. */
  lemma {:induction false} InstallCreates(fs: Fs, e: Entry, buf: Option<Supply>)
    returns (fs': Fs, dir: nat, name: string)
    requires Tree(fs) && WellFormed(e)
    requires Node(fs, PathOf(e)) == None && IsDir(fs, Up(e)) && EntriesAt(fs, Up(e)) < ENTRY_SLOTS && Clear(buf)
    ensures Created(fs, dir, name, KindOf(e), fs') && Tree(fs') && FreeSlot(fs, PathOf(e), dir, name)
    ensures Install(fs, e, buf) == (if e.dir then fs' else Written(fs', |fs|, Kept(e, buf).data), true)
  {
    var path, p := "/" + e.name, PathOf(e);
    SlashName(e.name);
    LastFits(e.name);
    var behind := NameBuffer(buf);
    CreatePathSucceedsIff(fs, path, KindOf(e), behind);
    name := p[|p| - 1];
    assert name + UpToZero(behind.value) == name;
    fs' := CreatePath(fs, 0, path, KindOf(e), behind).0;
    dir := CreatePathEffect(fs, path, KindOf(e), behind, fs', CreatePath(fs, 0, path, KindOf(e), behind).1.id);
  }

  /** Installing an entry at a free path, in a directory with room, adds that path and nothing else. */
  lemma {:induction false} InstallEffect(fs: Fs, e: Entry, buf: Option<Supply>, q: seq<string>)
    requires Tree(fs) && WellFormed(e)
    requires Node(fs, PathOf(e)) == None && IsDir(fs, Up(e)) && EntriesAt(fs, Up(e)) < ENTRY_SLOTS && Clear(buf)
    ensures Install(fs, e, buf).1 && Tree(Install(fs, e, buf).0)
    ensures Node(Install(fs, e, buf).0, q) ==
              if q == PathOf(e) then Some((KindOf(e), Kept(e, buf).data)) else Node(fs, q)
  {
    var fs', dir, name := InstallCreates(fs, e, buf);
    NodeAfterCreate(fs, dir, name, KindOf(e), fs', PathOf(e), q);
    if !e.dir {
      NodeAfterWrite(fs', |fs|, Kept(e, buf).data, PathOf(e), q);
      NodeAfterCreate(fs, dir, name, KindOf(e), fs', PathOf(e), PathOf(e));
    }
  }

  /** Filling an empty file shows at its own path only. */
  lemma {:induction false} NodeAfterWrite(fs: Fs, id: nat, data: string, p: seq<string>, q: seq<string>)
    requires Tree(fs) && id < |fs| && fs[id].kind == INODE_FILE && fs[id].data == "" && Walk(fs, 0, p) == Ok(id)
    ensures Tree(Written(fs, id, data))
    ensures Node(Written(fs, id, data), q) == if q == p then Some((INODE_FILE, data)) else Node(fs, q)
  {
    WalkAfterWrite(fs, id, data, 0, q);
    assert Overwrite("", 0, data) == data;
    if Walk(fs, 0, q) == Ok(id) { OnePath(fs, q, p); }
  }

  lemma {:induction false} SlashName(name: string)
    requires Components(name) != []
    ensures Components("/" + name) == Components(name) && GoodPath("/" + name)
  {
    assert ("/" + name)[1..] == name;
  }

  /** No component is longer than the string it comes from. */
  lemma {:induction false} ComponentsShort(p: string)
    ensures forall i | 0 <= i < |Components(p)| :: |Components(p)[i]| <= |p|
    decreases |p|
  {
    if p != "" {
      ComponentsShort(if p[0] == '/' then p[1..] else p[Run(p, false)..]);
    }
  }

  lemma {:induction false} LastFits(name: string)
    requires |name| < 100 && Components(name) != []
    ensures |Components(name)[|Components(name)| - 1]| < TMPFS_MAX_NAME_LEN
  {
    ComponentsShort(name);
  }

  /** Entries at distinct, free paths, each under a directory that is there or comes earlier. */
  ghost predicate ParentsFirst(fs: Fs, es: seq<Entry>)
    requires fs != [] && Closed(fs)
  {
    && (forall i | 0 <= i < |es| :: WellFormed(es[i]) && Node(fs, PathOf(es[i])) == None)
    && (forall i, j | 0 <= j < i < |es| :: PathOf(es[j]) != PathOf(es[i]))
    && (forall i | 0 <= i < |es| :: HasParent(fs, es, i))
  }

  ghost predicate HasParent(fs: Fs, es: seq<Entry>, i: nat)
    requires fs != [] && Closed(fs) && i < |es| && WellFormed(es[i])
  {
    IsDir(fs, Up(es[i])) || exists j | 0 <= j < i :: es[j].dir && PathOf(es[j]) == Up(es[i])
  }

  lemma {:induction false} RestParentsFirst(fs: Fs, es: seq<Entry>, fs': Fs, data: string)
    requires Tree(fs) && Tree(fs') && es != [] && ParentsFirst(fs, es)
    requires forall q :: Node(fs', q) == if q == PathOf(es[0]) then Some((KindOf(es[0]), data)) else Node(fs, q)
    ensures ParentsFirst(fs', es[1..])
  {
    var rest := es[1..];
    assert forall i | 0 <= i < |rest| :: rest[i] == es[i + 1];
    forall i | 0 <= i < |rest| ensures HasParent(fs', rest, i) {
      RestHasParent(fs, es, fs', data, i);
    }
  }

  lemma {:induction false} RestHasParent(fs: Fs, es: seq<Entry>, fs': Fs, data: string, i: nat)
    requires fs != [] && Closed(fs) && fs' != [] && Closed(fs') && i + 1 < |es|
    requires WellFormed(es[i + 1]) && HasParent(fs, es, i + 1)
    requires forall q :: Node(fs', q) == if q == PathOf(es[0]) then Some((KindOf(es[0]), data)) else Node(fs, q)
    requires Node(fs, PathOf(es[0])) == None
    ensures HasParent(fs', es[1..], i)
  {
    var up := Up(es[i + 1]);
    if !IsDir(fs, up) {
      var j :| 0 <= j < i + 1 && es[j].dir && PathOf(es[j]) == up;
      if j > 0 { assert es[1..][j - 1] == es[j]; }
    }
  }

  // ---- Room in the directories ----

  /** How many of the entries go into the directory at this path. */
  function Children(es: seq<Entry>, up: seq<string>): nat {
    if es == [] then 0 else (if Up(es[0]) == up then 1 else 0) + Children(es[1..], up)
  }

  /** With the new entries no directory has more than fit in its first chunk. */
  ghost predicate DirsFit(fs: Fs, es: seq<Entry>)
    requires fs != [] && Closed(fs)
  {
    forall up :: EntriesAt(fs, up) + Children(es, up) <= ENTRY_SLOTS
  }

  /** No installation in the list stores a directory entry outside its chunk. */
  ghost predicate AllInside(fs: Fs, es: seq<Entry>, bufs: Buffers)
    requires fs != [] && Closed(fs)
    decreases |es|
  {
    es != [] ==>
      && !Strays(fs, es[0], First(bufs))
      && var r := Install(fs, es[0], First(bufs)); r.1 ==> AllInside(r.0, es[1..], Later(bufs))
  }

  lemma {:induction false} StraysIff(fs: Fs, e: Entry, buf: Option<Supply>)
    requires Tree(fs) && WellFormed(e) && IsDir(fs, Up(e))
    ensures Strays(fs, e, buf) <==> buf.Some? && EntriesAt(fs, Up(e)) == ENTRY_SLOTS
  {
    var path := "/" + e.name;
    SlashName(e.name);
    LastFits(e.name);
    SplitGood(path);
    var dir := Walk(fs, 0, Up(e)).id;
    var behind := NameBuffer(buf);
    assert CreatePath(fs, 0, path, KindOf(e), behind) == Create(fs, dir, BaseOf(path), KindOf(e), behind);
  }

  lemma {:induction false} NoMemory(fs: Fs, e: Entry)
    requires fs != [] && Closed(fs)
    ensures Install(fs, e, None) == (fs, false) && !Strays(fs, e, None)
  {
    WalkErrors(fs, 0, Components(ParentOf("/" + e.name)));
  }

  /** Installing an entry adds one to the entries of its directory and to no other. */
  lemma {:induction false} EntriesAfterInstall(fs: Fs, e: Entry, buf: Option<Supply>, up: seq<string>)
    requires Tree(fs) && WellFormed(e)
    requires Node(fs, PathOf(e)) == None && IsDir(fs, Up(e)) && EntriesAt(fs, Up(e)) < ENTRY_SLOTS && Clear(buf)
    ensures EntriesAt(Install(fs, e, buf).0, up) == EntriesAt(fs, up) + if up == Up(e) then 1 else 0
  {
    var fs', dir, name := InstallCreates(fs, e, buf);
    EntriesAfterCreate(fs, dir, name, KindOf(e), fs', PathOf(e), up);
    if !e.dir { EntriesAfterWrite(fs', |fs|, Kept(e, buf).data, up); }
  }

  lemma {:induction false} EntriesAfterWrite(fs: Fs, id: nat, data: string, up: seq<string>)
    requires fs != [] && Closed(fs) && id < |fs| && Closed(Written(fs, id, data))
    ensures EntriesAt(Written(fs, id, data), up) == EntriesAt(fs, up)
  {
    WalkAfterWrite(fs, id, data, 0, up);
  }

  lemma {:induction false} EntriesAfterCreate(
    fs: Fs, dir: nat, name: string, kind: Kind, fs': Fs, p: seq<string>, up: seq<string>)
    requires Tree(fs) && Created(fs, dir, name, kind, fs') && Closed(fs') && FreeSlot(fs, p, dir, name)
    ensures EntriesAt(fs', up) == EntriesAt(fs, up) + if up == p[..|p| - 1] then 1 else 0
  {
    if up == p {
      NewPathFound(fs, dir, name, kind, fs', p);
    } else {
      OtherPathKept(fs, dir, name, kind, fs', p, up);
      if Walk(fs, 0, up) == Ok(dir) { OnePath(fs, up, p[..|p| - 1]); }
    }
  }

  /** The first entry has room, and the rest fit after it exactly when all fit now. */
  lemma {:induction false} FitsStep(fs: Fs, es: seq<Entry>, buf: Option<Supply>)
    requires Tree(fs) && es != [] && ParentsFirst(fs, es) && Clear(buf)
    ensures DirsFit(fs, es) ==> EntriesAt(fs, Up(es[0])) < ENTRY_SLOTS
    ensures EntriesAt(fs, Up(es[0])) < ENTRY_SLOTS ==>
              (DirsFit(fs, es) <==> DirsFit(Install(fs, es[0], buf).0, es[1..]))
  {
    assert HasParent(fs, es, 0);
    assert Children(es, Up(es[0])) >= 1;
    if EntriesAt(fs, Up(es[0])) < ENTRY_SLOTS {
      var fs' := Install(fs, es[0], buf).0;
      forall up
        ensures EntriesAt(fs', up) + Children(es[1..], up) == EntriesAt(fs, up) + Children(es, up)
      {
        EntriesAfterInstall(fs, es[0], buf, up);
      }
    }
  }

  // ---- How far the memory goes ----

  predicate AllClear(bufs: Buffers) { forall i | 0 <= i < |bufs| :: UpToZero(bufs[i].behind) == "" }

  /** The entries there is memory for. */
  function Affordable(es: seq<Entry>, bufs: Buffers): seq<Entry> { if |bufs| < |es| then es[..|bufs|] else es }

  lemma {:induction false} AffordableNext(es: seq<Entry>, bufs: Buffers)
    requires es != [] && bufs != []
    ensures Affordable(es, bufs) != [] && Affordable(es, bufs)[0] == es[0]
    ensures Affordable(es, bufs)[1..] == Affordable(es[1..], Later(bufs))
    ensures AllClear(bufs) ==> Clear(First(bufs)) && AllClear(Later(bufs))
  {
    if |bufs| < |es| {
      assert es[..|bufs|][1..] == es[1..][..|bufs| - 1];
    }
    assert |bufs[1..]| == |bufs| - 1 && |es[1..]| == |es| - 1;
    assert forall i | 0 <= i < |bufs| - 1 :: bufs[1..][i] == bufs[i + 1];
  }

  lemma {:induction false} AffordableParentsFirst(fs: Fs, es: seq<Entry>, bufs: Buffers)
    requires fs != [] && Closed(fs) && ParentsFirst(fs, es)
    ensures ParentsFirst(fs, Affordable(es, bufs))
  {
    var ds := Affordable(es, bufs);
    forall i | 0 <= i < |ds| ensures HasParent(fs, ds, i) { assert HasParent(fs, es, i); }
  }

  /** Extraction stops where the memory ends: it installs the entries there is memory for. */
  lemma {:induction false} MemoryCuts(fs: Fs, es: seq<Entry>, bufs: Buffers)
    requires fs != [] && Closed(fs)
    ensures InstallAll(fs, es, bufs) == InstallAll(fs, Affordable(es, bufs), bufs)
    ensures AllInside(fs, es, bufs) <==> AllInside(fs, Affordable(es, bufs), bufs)
    decreases |es|
  {
    if es != [] && bufs == [] {
      NoMemory(fs, es[0]);
    } else if es != [] {
      AffordableNext(es, bufs);
      var r := Install(fs, es[0], First(bufs));
      if r.1 { MemoryCuts(r.0, es[1..], Later(bufs)); }
    }
  }

  /** The stores stay inside the chunks exactly when no directory ends up with more entries than fit. */
  lemma {:induction false} AllInsideIff(fs: Fs, es: seq<Entry>, bufs: Buffers)
    requires Tree(fs) && ParentsFirst(fs, es) && AllClear(bufs) && |es| <= |bufs|
    ensures AllInside(fs, es, bufs) <==> DirsFit(fs, es)
    decreases |es|
  {
    if es == [] {
      forall up ensures EntriesAt(fs, up) + Children(es, up) <= ENTRY_SLOTS {}
    } else {
      assert HasParent(fs, es, 0);
      AffordableNext(es, bufs);
      StraysIff(fs, es[0], First(bufs));
      FitsStep(fs, es, First(bufs));
      if EntriesAt(fs, Up(es[0])) < ENTRY_SLOTS {
        FirstIn(fs, es, First(bufs));
        RestParentsFirst(fs, es, Install(fs, es[0], First(bufs)).0, Kept(es[0], First(bufs)).data);
        AllInsideIff(Install(fs, es[0], First(bufs)).0, es[1..], Later(bufs));
      }
    }
  }

  lemma {:induction false} NoStrayInstalls(fs: Fs, a: string, addr: nat, ms: seq<Member>, bufs: Buffers)
    requires fs != [] && Closed(fs) && Denotes(a, addr, ms) && AllGood(ms)
    ensures NoStray(fs, a, addr, bufs) <==> AllInside(fs, Entries(ms), bufs)
    decreases |ms|
  {
    if ms != [] {
      TailOf(a, addr, ms);
      match ms[0] {
        case Item(e) =>
          ExtractStep(fs, a, addr, e, bufs);
          HeaderDecodes(a, addr, e);
          var r := Install(fs, e, First(bufs));
          if r.1 { NoStrayInstalls(r.0, a, Next(addr, |e.data|), ms[1..], Later(bufs)); }
        case Other(flag, data) =>
          OtherStep(fs, a, addr, flag, data, bufs);
          NoStrayInstalls(fs, a, Next(addr, |data|), ms[1..], bufs);
          assert [] + Entries(ms[1..]) == Entries(ms[1..]);
      }
    }
  }

  /**
   Extracting a well-formed archive keeps every directory entry inside its chunk exactly when the
   directories and files there is memory for leave no directory with more than 511 entries.
   */
  lemma {:induction false} NoStrayIff(fs: Fs, a: string, ms: seq<Member>, bufs: Buffers)
    requires Tree(fs) && AllGood(ms) && ParentsFirst(fs, Entries(ms)) && AllClear(bufs) && Denotes(a, 0, ms)
    ensures NoStray(fs, a, 0, bufs) <==> DirsFit(fs, Affordable(Entries(ms), bufs))
  {
    var es := Entries(ms);
    NoStrayInstalls(fs, a, 0, ms, bufs);
    MemoryCuts(fs, es, bufs);
    AffordableParentsFirst(fs, es, bufs);
    AllInsideIff(fs, Affordable(es, bufs), bufs);
  }

  // ---- The tree of the whole archive ----

  /** The first entry is in; what the rest of them do is as if they were alone. */
  lemma {:induction false} RestAlone(fs: Fs, es: seq<Entry>, bufs: Buffers) returns (fs': Fs)
    requires Tree(fs) && es != [] && ParentsFirst(fs, es) && DirsFit(fs, es) && Clear(First(bufs))
    ensures Tree(fs') && ParentsFirst(fs', es[1..]) && DirsFit(fs', es[1..])
    ensures InstallAll(fs, es, bufs) == InstallAll(fs', es[1..], Later(bufs))
    ensures forall r :: Node(fs', r) ==
              if r == PathOf(es[0]) then Some((KindOf(es[0]), Kept(es[0], First(bufs)).data)) else Node(fs, r)
  {
    fs' := Install(fs, es[0], First(bufs)).0;
    FitsStep(fs, es, First(bufs));
    FirstIn(fs, es, First(bufs));
    RestParentsFirst(fs, es, fs', Kept(es[0], First(bufs)).data);
    InstallStep(fs, es, bufs);
  }

  /** fs' is a tree that names the paths of the entries, with their kinds and bytes, and else what fs names. */
  ghost predicate Builds(fs: Fs, es: seq<Entry>, fs': Fs)
    requires fs != [] && Closed(fs)
  {
    && Tree(fs')
    && (forall i | 0 <= i < |es| :: Node(fs', PathOf(es[i])) == Some((KindOf(es[i]), es[i].data)))
    && (forall q | forall i | 0 <= i < |es| :: PathOf(es[i]) != q :: Node(fs', q) == Node(fs, q))
  }

  /** The entries as they are stored. */
  function Stored(es: seq<Entry>, bufs: Buffers): (r: seq<Entry>)
    requires |es| <= |bufs|
    ensures |r| == |es| && forall i | 0 <= i < |r| :: r[i] == Kept(es[i], Some(bufs[i]))
  {
    seq(|es|, i requires 0 <= i < |es| => Kept(es[i], Some(bufs[i])))
  }

  lemma {:induction false} InstallAllBuilds(fs: Fs, es: seq<Entry>, bufs: Buffers, q: seq<string>)
    requires Tree(fs) && ParentsFirst(fs, es) && DirsFit(fs, es) && AllClear(bufs) && |es| <= |bufs|
    ensures Tree(InstallAll(fs, es, bufs))
    ensures forall i | 0 <= i < |es| && PathOf(es[i]) == q ::
              Node(InstallAll(fs, es, bufs), q) == Some((KindOf(es[i]), Stored(es, bufs)[i].data))
    ensures (forall i | 0 <= i < |es| :: PathOf(es[i]) != q) ==> Node(InstallAll(fs, es, bufs), q) == Node(fs, q)
    decreases |es|
  {
    if es != [] {
      AffordableNext(es, bufs);
      var fs' := RestAlone(fs, es, bufs);
      assert forall i | 0 <= i < |es[1..]| :: es[1..][i] == es[i + 1];
      InstallAllBuilds(fs', es[1..], Later(bufs), q);
      forall i | 0 < i < |es| && PathOf(es[i]) == q
        ensures Node(InstallAll(fs, es, bufs), q) == Some((KindOf(es[i]), Stored(es, bufs)[i].data))
      {
        assert es[1..][i - 1] == es[i] && Later(bufs)[i - 1] == bufs[i];
        assert Stored(es[1..], Later(bufs))[i - 1] == Stored(es, bufs)[i];
      }
    }
  }

  lemma {:induction false} FirstIn(fs: Fs, es: seq<Entry>, buf: Option<Supply>)
    requires Tree(fs) && es != [] && ParentsFirst(fs, es) && EntriesAt(fs, Up(es[0])) < ENTRY_SLOTS && Clear(buf)
    ensures var (r, e) := (Install(fs, es[0], buf), Kept(es[0], buf));
      && r.1 && Tree(r.0)
      && forall p :: Node(r.0, p) == if p == PathOf(e) then Some((KindOf(e), e.data)) else Node(fs, p)
  {
    assert HasParent(fs, es, 0);
    var (fs', e) := (Install(fs, es[0], buf).0, Kept(es[0], buf));
    InstallEffect(fs, es[0], buf, []);
    forall p ensures Node(fs', p) == if p == PathOf(e) then Some((KindOf(e), e.data)) else Node(fs, p) {
      InstallEffect(fs, es[0], buf, p);
    }
  }

  /** Installing a list that directories and name buffers suffice for builds what is stored of it. */
  lemma {:induction false} AllBuild(fs: Fs, es: seq<Entry>, bufs: Buffers)
    requires Tree(fs) && ParentsFirst(fs, es) && DirsFit(fs, es) && AllClear(bufs) && |es| <= |bufs|
    ensures Builds(fs, Stored(es, bufs), InstallAll(fs, es, bufs))
  {
    var ds, fs' := Stored(es, bufs), InstallAll(fs, es, bufs);
    InstallAllBuilds(fs, es, bufs, []);
    forall i | 0 <= i < |ds| ensures Node(fs', PathOf(ds[i])) == Some((KindOf(ds[i]), ds[i].data)) {
      InstallAllBuilds(fs, es, bufs, PathOf(es[i]));
    }
    forall q | forall i | 0 <= i < |ds| :: PathOf(ds[i]) != q ensures Node(fs', q) == Node(fs, q) {
      assert forall i | 0 <= i < |es| :: PathOf(ds[i]) == PathOf(es[i]);
      InstallAllBuilds(fs, es, bufs, q);
    }
  }

  /**
   Extracting an archive whose directories and files are distinct and well-formed, with parents
   first, builds a tree that names exactly the paths of those there is memory for, with their kinds
   and the bytes that found room, besides what was there before -- given clear name buffers, and no
   directory with more than 511 entries. Members of other types do not matter.
   */
  lemma {:induction false} TarBuildsTree(fs: Fs, a: string, ms: seq<Member>, bufs: Buffers)
    requires Tree(fs) && AllGood(ms) && ParentsFirst(fs, Entries(ms)) && Denotes(a, 0, ms)
    requires AllClear(bufs) && DirsFit(fs, Affordable(Entries(ms), bufs))
    ensures Builds(fs, Stored(Affordable(Entries(ms), bufs), bufs), Extract(fs, a, 0, bufs))
  {
    var es := Entries(ms);
    ExtractInstalls(fs, a, 0, ms, bufs);
    MemoryCuts(fs, es, bufs);
    AffordableParentsFirst(fs, es, bufs);
    AllBuild(fs, Affordable(es, bufs), bufs);
  }

  /** There is memory for every entry and for its contents. */
  predicate Suffice(es: seq<Entry>, bufs: Buffers) {
    |es| <= |bufs| && forall i | 0 <= i < |es| :: |es[i].data| <= bufs[i].chunks * MAX_FILE_DATA_PER_CHUNK
  }

  /** What is stored is the whole list exactly when the memory suffices. */
  lemma {:induction false} AllStoredIff(es: seq<Entry>, bufs: Buffers)
    ensures Stored(Affordable(es, bufs), bufs) == es <==> Suffice(es, bufs)
  {
    if Suffice(es, bufs) { assert Stored(Affordable(es, bufs), bufs) == es; }
  }
}
