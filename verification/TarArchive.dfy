/** Writing an archive, and the round trip: extracting what was written rebuilds the tree. */
module TarArchive {
  import opened Common
  import opened Vfs
  import opened Tar

  function Zeros(n: nat): (s: string)
    ensures |s| == n && forall i | 0 <= i < n :: s[i] == '\0'
  {
    seq(n, _ => '\0')
  }

  /** The first 124 bytes: the name, and mode and owners as zeros. */
  function Front(name: string): (s: string)
    requires |name| < 100
    ensures |s| == 124 && s[..|name|] == name && s[|name|] == '\0'
  {
    name + Zeros(124 - |name|)
  }

  /** The type flag and what follows it. */
  function Back(flag: char): (s: string)
    ensures |s| == 356 && s[0] == flag && s[101..106] == "ustar"
  {
    var s := [flag] + Zeros(100) + "ustar" + Zeros(250);
    assert s[101..106] == "ustar";
    s
  }

  function NameOf(m: Member): string { if m.Item? then m.e.name else "" }

  function FlagOf(m: Member): char { if m.Item? then (if m.e.dir then '5' else '0') else m.flag }

  /** A header block in the POSIX ustar layout; fields the extractor does not read are zero. */
  function Header(m: Member): (s: string)
    requires m.Good()
    ensures |s| == 512
  {
    Front(NameOf(m)) + OctEncode(|m.Data()|, 11) + Zeros(21) + Back(FlagOf(m))
  }

  /** Header, contents, and zeros up to the next block. */
  function Record(m: Member): (s: string)
    requires m.Good()
    ensures |s| == Next(0, |m.Data()|)
  {
    Header(m) + m.Data() + Zeros(Next(0, |m.Data()|) - 512 - |m.Data()|)
  }

  /** The records one after the other, and two zero blocks. */
  function Serialise(ms: seq<Member>): string
    requires AllGood(ms)
  {
    if ms == [] then Zeros(2 * BLOCK) else Record(ms[0]) + Serialise(ms[1..])
  }

  lemma {:induction false} HeaderFields(m: Member)
    requires m.Good()
    ensures var (h, name) := (Header(m), NameOf(m));
      && h[..|name|] == name && h[|name|] == '\0'
      && h[124..135] == OctEncode(|m.Data()|, 11) && h[156] == FlagOf(m) && h[257..262] == "ustar"
  {
    var front, digits, back := Front(NameOf(m)), OctEncode(|m.Data()|, 11), Zeros(21) + Back(FlagOf(m));
    Regroup(front, digits, Zeros(21), Back(FlagOf(m)));
    Middle("", front, digits + back, 0, |NameOf(m)|);
    Middle(front, digits, back, 0, 11);
    Middle(front + digits + Zeros(21), Back(FlagOf(m)), "", 101, 106);
    assert Header(m) == Header(m) + "";
  }

  lemma {:induction false} Regroup(a: string, b: string, c: string, d: string)
    ensures a + b + c + d == a + b + (c + d) == "" + a + (b + (c + d))
  {
  }

  /** A slice of the middle part. */
  lemma {:induction false} Middle(pre: string, mid: string, post: string, i: nat, j: nat)
    requires i <= j <= |mid|
    ensures (pre + mid + post)[|pre| + i..|pre| + j] == mid[i..j]
    ensures pre + (mid + post) == pre + mid + post
  {
  }

  /** A header and its data inside a longer string. */
  lemma {:induction false} BlockAt(a: string, pre: string, h: string, data: string, tail: string, flag: char)
    requires a == pre + h + (data + tail) && |h| == 512
    requires h[124..135] == OctEncode(|data|, 11) && h[156] == flag && h[257..262] == "ustar"
    ensures Block(a, |pre|, flag, data)
  {
    Middle(pre, h, data + tail, 124, 135);
    Middle(pre, h, data + tail, 257, 262);
    assert a[|pre| + 156] == h[156];
    assert a == (pre + h) + data + tail;
    Middle(pre + h, data, tail, 0, |data|);
  }

  lemma {:induction false} NameAt(a: string, pre: string, h: string, rest: string, name: string)
    requires a == pre + h + rest && |name| < |h| && h[..|name|] == name && h[|name|] == '\0'
    ensures a[|pre|..|pre| + |name|] == name && a[|pre| + |name|] == '\0'
  {
    Middle(pre, h, rest, 0, |name|);
  }

  lemma {:induction false} RecordEncodes(pre: string, m: Member, post: string)
    requires m.Good()
    ensures EncodesMember(pre + Record(m) + post, |pre|, m)
  {
    var (h, data, pad) := (Header(m), m.Data(), Zeros(Next(0, |m.Data()|) - 512 - |m.Data()|));
    var a := pre + Record(m) + post;
    FourParts(pre, h, data, pad, post);
    HeaderFields(m);
    BlockAt(a, pre, h, data, pad + post, FlagOf(m));
    NameAt(a, pre, h, data + (pad + post), NameOf(m));
  }

  lemma {:induction false} FourParts(pre: string, h: string, data: string, pad: string, post: string)
    ensures pre + (h + data + pad) + post == pre + h + (data + (pad + post))
  {
  }

  /** What is written denotes the list it was written from, wherever it starts. */
  lemma {:induction false} SerialiseDenotes(a: string, pre: string, ms: seq<Member>)
    requires AllGood(ms) && a == pre + Serialise(ms)
    ensures Denotes(a, |pre|, ms)
    decreases |ms|
  {
    if ms == [] {
      NoHeader(pre);
    } else {
      var m, rest := ms[0], Serialise(ms[1..]);
      Middle(pre, Record(m), rest, 0, 0);
      RecordEncodes(pre, m, rest);
      SerialiseDenotes(a, pre + Record(m), ms[1..]);
      assert |pre + Record(m)| == Next(|pre|, |m.Data()|);
    }
  }

  lemma {:induction false} NoHeader(pre: string)
    ensures !HasHeader(pre + Zeros(2 * BLOCK), |pre|)
  {
    var a := pre + Zeros(2 * BLOCK);
    assert a[|pre| + 257..|pre| + 262][0] == a[|pre| + 257] == '\0';
  }

  /**
   The ustar round trip: extracting the archive written for distinct well-formed entries, parents
   first and no more than 511 to a directory, among any members of other types, with clear name
   buffers, stores no entry outside its chunk and builds a tree that names exactly the paths of the
   entries there is memory for, with their kinds and the contents that found room, besides what was
   there before. When the memory suffices these are the entries themselves.
   */
  lemma {:induction false} TarRoundTrip(fs: Fs, ms: seq<Member>, bufs: Buffers)
    requires Tree(fs) && AllGood(ms) && ParentsFirst(fs, Entries(ms))
    requires AllClear(bufs) && DirsFit(fs, Affordable(Entries(ms), bufs))
    ensures NoStray(fs, Serialise(ms), 0, bufs)
    ensures Builds(fs, Stored(Affordable(Entries(ms), bufs), bufs), Extract(fs, Serialise(ms), 0, bufs))
    ensures Suffice(Entries(ms), bufs) ==> Builds(fs, Entries(ms), Extract(fs, Serialise(ms), 0, bufs))
  {
    assert "" + Serialise(ms) == Serialise(ms);
    SerialiseDenotes(Serialise(ms), "", ms);
    NoStrayIff(fs, Serialise(ms), ms, bufs);
    TarBuildsTree(fs, Serialise(ms), ms, bufs);
    AllStoredIff(Entries(ms), bufs);
  }
}
