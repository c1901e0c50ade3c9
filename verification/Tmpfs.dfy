/** tmpfs file contents: bytes spread over a chain of fixed-size chunks, read and written in place. */
module Tmpfs {
  import opened Common

  const TMPFS_DATA_CHUNK_SIZE: nat := 4096
  const MAX_FILE_DATA_PER_CHUNK: nat := 4088  // the chunk without its `next` link
  const MAX_ENTRIES_PER_DATA_CHUNK: nat := 4095  // what the macro expands to: 4096 - 8 / 8
  const ENTRY_SLOTS: nat := 511  // inode references that fit behind the link

  // Negated error codes.
  const E_FILE_NOT_FOUND: int := -4
  const E_OUT_OF_BOUNDS: int := -5
  const E_OUT_OF_MEMORY: int := -6

  // ---- Flat contents ----

  /** s with b written over it from off on, growing when b reaches past the end. */
  function Overwrite(s: string, off: nat, b: string): string
    requires off <= |s|
  {
    s[..off] + b + (if off + |b| < |s| then s[off + |b|..] else [])
  }

  /** Byte i of a chain of full chunks. */
  function ByteAt(chunks: seq<string>, i: nat): char
    requires i < |chunks| * MAX_FILE_DATA_PER_CHUNK && FullChunks(chunks)
  {
    InChunk(i, |chunks|);
    chunks[i / MAX_FILE_DATA_PER_CHUNK][i % MAX_FILE_DATA_PER_CHUNK]
  }

  predicate FullChunks(chunks: seq<string>) {
    forall k | 0 <= k < |chunks| :: |chunks[k]| == MAX_FILE_DATA_PER_CHUNK
  }

  lemma {:induction false} InChunk(i: nat, n: nat)
    requires i < n * MAX_FILE_DATA_PER_CHUNK
    ensures i / MAX_FILE_DATA_PER_CHUNK < n
  {
  }

  /** The first n bytes of the chain. */
  function Flat(chunks: seq<string>, n: nat): (s: string)
    requires FullChunks(chunks) && n <= |chunks| * MAX_FILE_DATA_PER_CHUNK
    ensures |s| == n && forall i | 0 <= i < n :: s[i] == ByteAt(chunks, i)
  {
    seq(n, i requires 0 <= i < n && n <= |chunks| * MAX_FILE_DATA_PER_CHUNK && FullChunks(chunks) => ByteAt(chunks, i))
  }

  /** Position o of chunk k is byte k * 4088 + o of the chain. */
  lemma {:induction false} Position(k: nat, o: nat)
    requires o < MAX_FILE_DATA_PER_CHUNK
    ensures (k * MAX_FILE_DATA_PER_CHUNK + o) / MAX_FILE_DATA_PER_CHUNK == k
    ensures (k * MAX_FILE_DATA_PER_CHUNK + o) % MAX_FILE_DATA_PER_CHUNK == o
  {
  }

  // ---- One step of the write loop, on values ----

  /** The bytes of `b` from w on have been stored from position off + w on; nothing else changed. */
  ghost predicate Stored(was: seq<string>, now: seq<string>, off: nat, b: string, w: nat) {
    && FullChunks(was) && FullChunks(now) && |was| <= |now| && w <= |b|
    && off + w <= |now| * MAX_FILE_DATA_PER_CHUNK
    && (forall i: nat | off <= i < off + w :: ByteAt(now, i) == b[i - off])
    && (forall i: nat | i < |was| * MAX_FILE_DATA_PER_CHUNK && !(off <= i < off + w) ::
       ByteAt(now, i) == ByteAt(was, i))
  }

  /** Appending a chunk changes no existing byte. */
  lemma {:induction false} StoredAppend(was: seq<string>, now: seq<string>, off: nat, b: string, w: nat, chunk: string)
    requires Stored(was, now, off, b, w) && |chunk| == MAX_FILE_DATA_PER_CHUNK
    ensures Stored(was, now + [chunk], off, b, w)
  {
    forall i: nat | i < |now| * MAX_FILE_DATA_PER_CHUNK ensures ByteAt(now + [chunk], i) == ByteAt(now, i) {
      InChunk(i, |now|);
    }
  }

  /** Copying n bytes into chunk k from o on. */
  function Patched(now: seq<string>, k: nat, o: nat, piece: string): seq<string>
    requires k < |now| && o + |piece| <= |now[k]|
  {
    now[k := now[k][..o] + piece + now[k][o + |piece|..]]
  }

  lemma {:induction false} PatchedByte(now: seq<string>, k: nat, o: nat, piece: string, i: nat)
    requires FullChunks(now) && k < |now| && o + |piece| <= MAX_FILE_DATA_PER_CHUNK
    requires i < |now| * MAX_FILE_DATA_PER_CHUNK
    ensures FullChunks(Patched(now, k, o, piece))
    ensures var at := k * MAX_FILE_DATA_PER_CHUNK + o;
            ByteAt(Patched(now, k, o, piece), i) == if at <= i < at + |piece| then piece[i - at] else ByteAt(now, i)
  {
    InChunk(i, |now|);
    var j, r := i / MAX_FILE_DATA_PER_CHUNK, i % MAX_FILE_DATA_PER_CHUNK;
    assert i == j * MAX_FILE_DATA_PER_CHUNK + r;
    var chunk := now[k][..o] + piece + now[k][o + |piece|..];
    if j == k { assert chunk[r] == if o <= r < o + |piece| then piece[r - o] else now[k][r]; }
  }

  /** One memcpy of the write loop: the next n bytes, which lie inside chunk k. */
  lemma {:induction false} StoredStep(was: seq<string>, now: seq<string>, off: nat, b: string, w: nat, k: nat, o: nat,
          n: nat)
    requires Stored(was, now, off, b, w) && k < |now| && w + n <= |b|
    requires off + w == k * MAX_FILE_DATA_PER_CHUNK + o && o + n <= MAX_FILE_DATA_PER_CHUNK
    ensures Stored(was, Patched(now, k, o, b[w..w + n]), off, b, w + n)
  {
    var now' := Patched(now, k, o, b[w..w + n]);
    forall i: nat | i < |now| * MAX_FILE_DATA_PER_CHUNK
      ensures FullChunks(now')
      ensures ByteAt(now', i) == if off + w <= i < off + w + n then b[i - off] else ByteAt(now, i)
    {
      PatchedByte(now, k, o, b[w..w + n], i);
    }
    assert FullChunks(now') by { PatchedByte(now, k, o, b[w..w + n], k * MAX_FILE_DATA_PER_CHUNK); }
  }

  /** A finished write is an overwrite of the flat contents. */
  lemma {:induction false} StoredAll(was: seq<string>, now: seq<string>, off: nat, b: string, w: nat, cap: nat,
          cap': nat)
    requires Stored(was, now, off, b, w) && off <= cap <= |was| * MAX_FILE_DATA_PER_CHUNK
    requires cap' == if cap < off + w then off + w else cap
    ensures Flat(now, cap') == Overwrite(Flat(was, cap), off, b[..w])
  {
  }

  /** Fewer than all bytes were stored, but all those inside the old size: the size is kept. */
  lemma {:induction false} StoredPart(was: seq<string>, now: seq<string>, off: nat, b: string, w: nat, cap: nat)
    requires Stored(was, now, off, b, w) && off <= cap <= |was| * MAX_FILE_DATA_PER_CHUNK && cap <= off + w
    ensures Flat(now, cap) == Overwrite(Flat(was, cap), off, b[..cap - off])
  {
  }

  // ---- The file in place ----

  method CopyBytes(chunk: array<char>, o: nat, piece: string)
    requires o + |piece| <= chunk.Length
    modifies chunk
    ensures chunk[..] == old(chunk[..o]) + piece + old(chunk[o + |piece|..])
  {
    forall j | 0 <= j < |piece| { chunk[o + j] := piece[j]; }
  }

  class TmpfsFile {
    var cap: nat
    var chunks: seq<array<char>>  // the chain, first chunk first
    ghost var Repr: set<object>

    ghost predicate Valid()
      reads this
    {
      && this in Repr
      && (forall k | 0 <= k < |chunks| :: chunks[k] in Repr && chunks[k].Length == MAX_FILE_DATA_PER_CHUNK)
      && (forall j, k | 0 <= j < k < |chunks| :: chunks[j] != chunks[k])
      && cap <= |chunks| * MAX_FILE_DATA_PER_CHUNK
    }

    ghost function View(): (v: seq<string>)
      requires Valid()
      reads this, chunks
      ensures |v| == |chunks| && FullChunks(v) && forall k | 0 <= k < |chunks| :: v[k] == chunks[k][..]
    {
      var cs := chunks;
      seq(|cs|, k requires 0 <= k < |cs| reads cs => cs[k][..])
    }

    /** The flat bytes of the file. */
    ghost function Contents(): string
      requires Valid()
      reads this, chunks
    {
      Flat(View(), cap)
    }

    /** tmpfs_inode_create for a file: no chunks yet. */
    constructor ()
      ensures Valid() && fresh(Repr) && cap == 0 && Contents() == "" && chunks == []
    {
      cap := 0;
      chunks := [];
      Repr := {this};
    }

    /** tmpfs_new_data_chunk linked at the end of the chain. */
    method NewChunk()
      requires Valid()
      modifies this`chunks, this`Repr
      ensures Valid() && fresh(Repr - old(Repr)) && |chunks| == |old(chunks)| + 1
      ensures fresh(chunks[|old(chunks)|]) && chunks == old(chunks) + [chunks[|old(chunks)|]]
      ensures View() == old(View()) + [seq(MAX_FILE_DATA_PER_CHUNK, _ => '\0')]
    {
      ghost var was := View();
      var chunk := new char[MAX_FILE_DATA_PER_CHUNK](_ => '\0');
      chunks := chunks + [chunk];
      Repr := Repr + {chunk};
      assert chunk[..] == seq(MAX_FILE_DATA_PER_CHUNK, _ => '\0');
    }

    /** memcpy(file_data(curr) + o, b + w, n). */
    method StoreInto(k: nat, o: nat, b: string, w: nat, n: nat)
      requires Valid() && k < |chunks| && o + n <= MAX_FILE_DATA_PER_CHUNK && w + n <= |b|
      modifies chunks[k]
      ensures Valid() && View() == Patched(old(View()), k, o, b[w..w + n])
    {
      ghost var was := View();
      CopyBytes(chunks[k], o, b[w..w + n]);
      assert forall j | 0 <= j < |chunks| && j != k :: chunks[j][..] == was[j];
    }

    /** One turn of tmpfs_write's copy loop once the chunk exists. */
    method WriteStep(ghost was: seq<string>, off: nat, b: string, w: nat, k: nat, o: nat, n: nat)
      requires Valid() && k < |chunks| && w + n <= |b|
      requires Stored(was, View(), off, b, w) && off + w == k * MAX_FILE_DATA_PER_CHUNK + o
      requires o + n <= MAX_FILE_DATA_PER_CHUNK
      modifies chunks[k]
      ensures Valid() && Stored(was, View(), off, b, w + n)
    {
      StoredStep(was, View(), off, b, w, k, o, n);
      StoreInto(k, o, b, w, n);
    }

    /** The copy loop of tmpfs_write, from chunk k and offset o in it; `avail` chunks can still be allocated. */
    method CopyIn(b: string, off: nat, k0: nat, o0: nat, avail: nat) returns (w: nat)
      requires Valid() && off <= cap && off == k0 * MAX_FILE_DATA_PER_CHUNK + o0 && o0 < MAX_FILE_DATA_PER_CHUNK
      modifies this`chunks, this`Repr, chunks
      ensures Valid() && fresh(Repr - old(Repr)) && Stored(old(View()), View(), off, b, w)
      ensures |chunks| <= |old(chunks)| + avail
      ensures w < |b| ==> |chunks| == |old(chunks)| + avail && off + w == |chunks| * MAX_FILE_DATA_PER_CHUNK
    {
      ghost var was := View();
      var k: nat, o: nat, left: nat := k0, o0, avail;
      w := 0;
      while w < |b|
        invariant Valid() && Stored(was, View(), off, b, w) && w <= |b|
        invariant left <= avail && |chunks| + left == |old(chunks)| + avail && k <= |chunks|
        invariant w < |b| ==> off + w == k * MAX_FILE_DATA_PER_CHUNK + o && o < MAX_FILE_DATA_PER_CHUNK
        invariant k == |chunks| ==> w < |b| ==> o == 0
        invariant fresh(Repr - old(Repr)) && forall c | c in chunks :: c in old(chunks) || fresh(c)
        decreases |b| - w
      {
        if k == |chunks| {
          if left == 0 { return; }
          left := left - 1;
          StoredAppend(was, View(), off, b, w, seq(MAX_FILE_DATA_PER_CHUNK, _ => '\0'));
          NewChunk();
        }
        var chunkSpace := MAX_FILE_DATA_PER_CHUNK - o;
        var now := if |b| - w < chunkSpace then |b| - w else chunkSpace;
        assert chunks[k] in chunks;
        WriteStep(was, off, b, w, k, o, now);
        w := w + now;
        o := 0;
        k := k + 1;
      }
    }

    /** The skip loop of read and write: whole chunks before the offset. */
    method Skip(offset: nat) returns (k: nat, o: nat)
      requires Valid() && offset <= cap
      ensures offset == k * MAX_FILE_DATA_PER_CHUNK + o && o < MAX_FILE_DATA_PER_CHUNK && k <= |chunks|
    {
      k, o := 0, offset;
      while o >= MAX_FILE_DATA_PER_CHUNK
        invariant offset == k * MAX_FILE_DATA_PER_CHUNK + o && k <= |chunks|
      {
        // offset <= cap, so chunk k exists here and the source's allocation in this loop never runs.
        o := o - MAX_FILE_DATA_PER_CHUNK;
        k := k + 1;
      }
    }

    /**
     tmpfs_write. `avail` is how many chunks can still be allocated. Running out of memory is
     reported without growing the file, but every byte of the file from the offset on has by then
     been overwritten.
     */
    method Write(inBuf: Option<string>, count: nat, offset: nat, avail: nat) returns (r: int)
      requires Valid() && (inBuf.Some? ==> count <= |inBuf.value|)
      modifies Repr
      ensures Valid() && fresh(Repr - old(Repr))
      ensures inBuf.None? && count > 0 ==> r == -4 && Contents() == old(Contents())
      ensures count == 0 ==> r == 0 && Contents() == old(Contents())
      ensures inBuf.Some? && count > 0 && offset > old(cap) ==> r == -5 && Contents() == old(Contents())
      ensures inBuf.Some? && count > 0 && offset <= old(cap) ==>
                if offset + count <= (|old(chunks)| + avail) * 4088
                then r == count && Contents() == Overwrite(old(Contents()), offset, inBuf.value[..count])
                else r == -6 && old(cap) - offset <= count
                     && Contents() == Overwrite(old(Contents()), offset, inBuf.value[..old(cap) - offset])
    {
      if inBuf.None? && count > 0 { return E_FILE_NOT_FOUND; }
      if count == 0 { return 0; }
      if offset > cap { return E_OUT_OF_BOUNDS; }
      r := WriteAt(inBuf.value[..count], offset, avail);
    }

    /** tmpfs_write past its argument checks. */
    method WriteAt(b: string, offset: nat, avail: nat) returns (r: int)
      requires Valid() && b != "" && offset <= cap
      modifies Repr
      ensures Valid() && fresh(Repr - old(Repr))
      ensures if offset + |b| <= (|old(chunks)| + avail) * MAX_FILE_DATA_PER_CHUNK
              then r == |b| && Contents() == Overwrite(old(Contents()), offset, b)
              else r == E_OUT_OF_MEMORY && old(cap) - offset <= |b|
                   && Contents() == Overwrite(old(Contents()), offset, b[..old(cap) - offset])
    {
      ghost var was, cap0 := View(), cap;
      var k, o := Skip(offset);
      var w := CopyIn(b, offset, k, o, avail);
      if w < |b| {
        StoredPart(was, View(), offset, b, w, cap0);
        assert b[..cap0 - offset] == b[..w][..cap0 - offset];
        return E_OUT_OF_MEMORY;
      }
      StoredAll(was, View(), offset, b, w, cap0, if cap0 < offset + w then offset + w else cap0);
      assert b[..w] == b;
      if cap < offset + w { cap := offset + w; }
      r := w;
    }

    /** The n bytes of chunk k from o on, which are n bytes of the file. */
    method Piece(k: nat, o: nat, n: nat, ghost at: nat) returns (s: string)
      requires Valid() && k < |chunks| && o + n <= MAX_FILE_DATA_PER_CHUNK
      requires at == k * MAX_FILE_DATA_PER_CHUNK + o && at + n <= cap
      ensures s == Contents()[at..at + n]
    {
      s := chunks[k][o..o + n];
      assert s == View()[k][o..o + n];
      PieceOfFlat(View(), cap, k, o, n);
    }

    /** The copy loop of tmpfs_read: it never runs off the chain. */
    method CopyOut(offset: nat, count: nat, k0: nat, o0: nat) returns (out: string)
      requires Valid() && offset + count <= cap
      requires offset == k0 * MAX_FILE_DATA_PER_CHUNK + o0 && o0 < MAX_FILE_DATA_PER_CHUNK
      ensures out == Contents()[offset..offset + count]
    {
      var k: nat, o: nat := k0, o0;
      ghost var flat, at := Contents(), offset;
      out := "";
      while k < |chunks| && |out| < count
        invariant |out| <= count && at == offset + |out| && out == flat[offset..at]
        invariant |out| < count ==> at == k * MAX_FILE_DATA_PER_CHUNK + o && o < MAX_FILE_DATA_PER_CHUNK && k < |chunks|
        decreases count - |out|
      {
        var chunkSpace := MAX_FILE_DATA_PER_CHUNK - o;
        var now := if count - |out| < chunkSpace then count - |out| else chunkSpace;
        var piece := Piece(k, o, now, at);
        SliceJoin(flat, offset, at, at + now, out, piece);
        out := out + piece;
        at := at + now;
        o := 0;
        k := k + 1;
      }
    }

    /** tmpfs_read: the error code or byte count, and the bytes copied out. */
    method Read(hasBuf: bool, count: nat, offset: nat) returns (r: int, out: string)
      requires Valid()
      ensures !hasBuf && count > 0 ==> r == -4 && out == ""
      ensures count == 0 ==> r == 0 && out == ""
      ensures hasBuf && count > 0 && chunks == [] ==> r == -4 && out == ""
      ensures hasBuf && count > 0 && chunks != [] && offset >= cap ==> r == -5 && out == ""
      ensures hasBuf && count > 0 && offset < cap ==>
                r == |out| && out == Contents()[offset..if offset + count < cap then offset + count else cap]
    {
      out := "";
      if !hasBuf && count > 0 { return E_FILE_NOT_FOUND, ""; }
      if count == 0 { return 0, ""; }
      if |chunks| == 0 { return E_FILE_NOT_FOUND, ""; }
      if offset >= cap { return E_OUT_OF_BOUNDS, ""; }
      var n := if count > cap - offset then cap - offset else count;
      var k, o := Skip(offset);
      out := CopyOut(offset, n, k, o);
      r := |out|;
    }
  }

  lemma {:induction false} SliceJoin(s: string, a: nat, b: nat, c: nat, left: string, right: string)
    requires a <= b <= c <= |s| && left == s[a..b] && right == s[b..c]
    ensures left + right == s[a..c]
  {
  }

  /** A stretch inside one chunk is a stretch of the flat bytes. */
  lemma {:induction false} PieceOfFlat(chunks: seq<string>, cap: nat, k: nat, o: nat, n: nat)
    requires FullChunks(chunks) && k < |chunks| && o + n <= MAX_FILE_DATA_PER_CHUNK
    requires k * MAX_FILE_DATA_PER_CHUNK + o + n <= cap <= |chunks| * MAX_FILE_DATA_PER_CHUNK
    ensures var at := k * MAX_FILE_DATA_PER_CHUNK + o; chunks[k][o..o + n] == Flat(chunks, cap)[at..at + n]
  {
    var at := k * MAX_FILE_DATA_PER_CHUNK + o;
    var piece, part := chunks[k][o..o + n], Flat(chunks, cap)[at..at + n];
    forall i | 0 <= i < n ensures piece[i] == part[i] {
      Position(k, o + i);
      assert part[i] == ByteAt(chunks, at + i);
    }
  }

  /** Reading back what was just written, and the bytes around it, gives them. */
  lemma {:induction false} OverwriteReads(s: string, off: nat, b: string)
    requires off <= |s|
    ensures Overwrite(s, off, b)[off..off + |b|] == b && Overwrite(s, off, b)[..off] == s[..off]
    ensures off + |b| <= |s| ==> Overwrite(s, off, b)[off + |b|..] == s[off + |b|..]
    ensures |Overwrite(s, off, b)| == if off + |b| < |s| then |s| else off + |b|
  {
  }
}
