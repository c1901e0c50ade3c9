/** Double-buffered drawing: rectangles are drawn in the back buffer and copied, clipped, to the screen. */
module Surfaces {
  import opened Common

  const INT_MAX: int := 0x7fff_ffff

  /** An int passed where a size_t is expected. */
  function ToSize(v: int): nat
    requires -INT_MAX <= v
  {
    if v < 0 then v + WORD else v
  }

  datatype Rect = Rect(x: int, y: int, width: nat, height: nat)

  /** Coordinates and sums that an int holds. */
  predicate Fits(r: Rect) {
    -INT_MAX <= r.x && -INT_MAX <= r.y && r.width <= INT_MAX && r.height <= INT_MAX
    && r.x + r.width <= INT_MAX && r.y + r.height <= INT_MAX
  }

  predicate Inside(r: Rect, x: int, y: int) { r.x <= x < r.x + r.width && r.y <= y < r.y + r.height }

  /** A screen: `stride` pixels of memory a row, of which the first `width` are visible. */
  datatype Screen = Screen(width: nat, height: nat, stride: nat)

  /** The visible pixels of a rectangle. */
  predicate Clipped(s: Screen, r: Rect, x: int, y: int) { Inside(r, x, y) && 0 <= x < s.width && 0 <= y < s.height }

  function Index(s: Screen, x: nat, y: nat): nat { y * s.stride + x }

  predicate Cell(s: Screen, x: int, y: int) { 0 <= x < s.stride && 0 <= y < s.height }

  lemma {:induction false} IndexInjective(s: Screen, x: nat, y: nat, x': nat, y': nat)
    requires x < s.stride && x' < s.stride && Index(s, x, y) == Index(s, x', y')
    ensures x == x' && y == y'
  {
    assert y < y' ==> (y + 1) * s.stride <= y' * s.stride;
    assert y' < y ==> (y' + 1) * s.stride <= y * s.stride;
  }

  lemma {:induction false} IndexBound(s: Screen, x: nat, y: nat)
    requires Cell(s, x, y)
    ensures Index(s, x, y) < s.height * s.stride
  {
    assert (y + 1) * s.stride <= s.height * s.stride;
  }

  /** The row of n cells from (x0, y0) is contiguous, and holds no other cell. */
  lemma {:induction false} RowCells(s: Screen, x0: nat, y0: nat, n: nat, x: nat, y: nat)
    requires x0 + n <= s.stride && x < s.stride
    ensures Index(s, x0, y0) <= Index(s, x, y) < Index(s, x0, y0) + n <==> y == y0 && x0 <= x < x0 + n
  {
    assert y < y0 ==> (y + 1) * s.stride <= y0 * s.stride;
    assert y0 < y ==> (y0 + 1) * s.stride <= y * s.stride;
  }

  /** The pixel at (x, y) of a buffer. */
  ghost function At(s: Screen, b: seq<nat>, x: nat, y: nat): nat
    requires |b| == s.height * s.stride && Cell(s, x, y)
  {
    IndexBound(s, x, y);
    b[Index(s, x, y)]
  }

  lemma {:induction false} PixelSet(s: Screen, b: seq<nat>, x: nat, y: nat, color: nat)
    requires |b| == s.height * s.stride && Cell(s, x, y)
    ensures Index(s, x, y) < |b|
    ensures forall cx: nat, cy: nat | Cell(s, cx, cy) ::
      At(s, b[Index(s, x, y) := color], cx, cy) == if cx == x && cy == y then color else At(s, b, cx, cy)
  {
    IndexBound(s, x, y);
    forall cx: nat, cy: nat | Cell(s, cx, cy)
      ensures At(s, b[Index(s, x, y) := color], cx, cy) == if cx == x && cy == y then color else At(s, b, cx, cy)
    {
      IndexBound(s, cx, cy);
      if Index(s, cx, cy) == Index(s, x, y) { IndexInjective(s, cx, cy, x, y); }
    }
  }

  /** b' is b with the visible part of the rectangle in the given colour; no other cell differs. */
  ghost predicate Drawn(s: Screen, b: seq<nat>, b': seq<nat>, r: Rect, color: nat)
    requires |b| == |b'| == s.height * s.stride
  {
    forall x: nat, y: nat | Cell(s, x, y) :: At(s, b', x, y) == if Clipped(s, r, x, y) then color else At(s, b, x, y)
  }

  /** f' is f with the visible part of the rectangle copied from b; no other cell differs. */
  ghost predicate Copied(s: Screen, b: seq<nat>, f: seq<nat>, f': seq<nat>, r: Rect)
    requires |b| == |f| == |f'| == s.height * s.stride
  {
    forall x: nat, y: nat | Cell(s, x, y) ::
      At(s, f', x, y) == if Clipped(s, r, x, y) then At(s, b, x, y) else At(s, f, x, y)
  }

  /** The screen shows the back buffer at (x, y). */
  ghost predicate Shows(s: Screen, b: seq<nat>, f: seq<nat>, x: nat, y: nat)
    requires |b| == |f| == s.height * s.stride && Cell(s, x, y)
  {
    At(s, f, x, y) == At(s, b, x, y)
  }

  ghost predicate Coherent(s: Screen, b: seq<nat>, f: seq<nat>)
    requires |b| == |f| == s.height * s.stride && s.width <= s.stride
  {
    forall x: nat, y: nat | x < s.width && y < s.height :: Shows(s, b, f, x, y)
  }

  lemma {:induction false} DrawnJoin(s: Screen, b: seq<nat>, b1: seq<nat>, b2: seq<nat>, r1: Rect, r2: Rect, r: Rect,
          color: nat)
    requires |b| == |b1| == |b2| == s.height * s.stride
    requires Drawn(s, b, b1, r1, color) && Drawn(s, b1, b2, r2, color)
    requires forall x, y | 0 <= x < s.stride && 0 <= y < s.height ::
               Inside(r, x, y) <==> Inside(r1, x, y) || Inside(r2, x, y)
    ensures Drawn(s, b, b2, r, color)
  {
    forall x: nat, y: nat | Cell(s, x, y)
      ensures At(s, b2, x, y) == if Clipped(s, r, x, y) then color else At(s, b, x, y)
    {
      assert At(s, b1, x, y) == if Clipped(s, r1, x, y) then color else At(s, b, x, y);
    }
  }

  lemma {:induction false} CopiedJoin(s: Screen, b: seq<nat>, f: seq<nat>, f1: seq<nat>, f2: seq<nat>, r1: Rect,
          r2: Rect, r: Rect)
    requires |b| == |f| == |f1| == |f2| == s.height * s.stride
    requires Copied(s, b, f, f1, r1) && Copied(s, b, f1, f2, r2)
    requires forall x, y | 0 <= x < s.stride && 0 <= y < s.height ::
               Inside(r, x, y) <==> Inside(r1, x, y) || Inside(r2, x, y)
    ensures Copied(s, b, f, f2, r)
  {
    forall x: nat, y: nat | Cell(s, x, y)
      ensures At(s, f2, x, y) == if Clipped(s, r, x, y) then At(s, b, x, y) else At(s, f, x, y)
    {
      assert At(s, f1, x, y) == if Clipped(s, r1, x, y) then At(s, b, x, y) else At(s, f, x, y);
    }
  }

  /** Copying a rectangle makes the screen coherent exactly when it was coherent outside the rectangle. */
  lemma {:induction false} CopyRestores(s: Screen, b: seq<nat>, f: seq<nat>, f': seq<nat>, r: Rect)
    requires |b| == |f| == |f'| == s.height * s.stride && s.width <= s.stride && Copied(s, b, f, f', r)
    ensures Coherent(s, b, f') <==>
      forall x: nat, y: nat | x < s.width && y < s.height && !Inside(r, x, y) :: Shows(s, b, f, x, y)
  {
    forall x: nat, y: nat | x < s.width && y < s.height
      ensures Shows(s, b, f', x, y) <==> Inside(r, x, y) || Shows(s, b, f, x, y)
    {
      assert Cell(s, x, y);
    }
  }

  class Surface {
    const screen: Screen
    const pitch: nat
    const backbuffer: array<nat>
    const framebuffer: array<nat>

    ghost predicate Valid() {
      && pitch == 4 * screen.stride && screen.width <= screen.stride
      && screen.width <= INT_MAX && screen.height <= INT_MAX
      && backbuffer.Length == framebuffer.Length == screen.height * screen.stride && backbuffer != framebuffer
    }

    constructor (width: nat, height: nat, pitch: nat, framebuffer: array<nat>)
      requires pitch % 4 == 0 && width <= pitch / 4 && width <= INT_MAX && height <= INT_MAX
      requires framebuffer.Length == height * (pitch / 4)
      ensures Valid() && fresh(backbuffer) && this.framebuffer == framebuffer
      ensures screen == Screen(width, height, pitch / 4)
    {
      screen := Screen(width, height, pitch / 4);
      this.pitch, this.framebuffer := pitch, framebuffer;
      backbuffer := new nat[height * (pitch / 4)];
    }

    /** gfx_surface_put_pixel: nothing happens off the screen. */
    method PutPixel(x: nat, y: nat, color: nat)
      requires Valid()
      modifies backbuffer
      ensures forall cx: nat, cy: nat | Cell(screen, cx, cy) ::
        At(screen, backbuffer[..], cx, cy)
        == if cx == x < screen.width && cy == y < screen.height then color else At(screen, old(backbuffer[..]), cx, cy)
      ensures x < screen.width && y < screen.height ==>
        y * (pitch / 4) + x < backbuffer.Length && backbuffer[y * (pitch / 4) + x] == color
    {
      if x < screen.width && y < screen.height {
        PixelSet(screen, backbuffer[..], x, y, color);
        ghost var b := backbuffer[..];
        backbuffer[y * (pitch / 4) + x] := color;
        assert backbuffer[..] == b[Index(screen, x, y) := color];
      }
    }

    /** gfx_draw_rect. */
    method DrawRect(r: Rect, color: nat)
      requires Valid() && Fits(r)
      modifies backbuffer
      ensures Drawn(screen, old(backbuffer[..]), backbuffer[..], r, color)
    {
      ghost var was := backbuffer[..];
      for i := 0 to r.height
        invariant Drawn(screen, was, backbuffer[..], Rect(r.x, r.y, r.width, i), color)
      {
        ghost var before := backbuffer[..];
        for j := 0 to r.width
          invariant Drawn(screen, before, backbuffer[..], Rect(r.x, r.y + i, j, 1), color)
        {
          ghost var b := backbuffer[..];
          PutPixel(ToSize(r.x + j), ToSize(r.y + i), color);
          assert Drawn(screen, b, backbuffer[..], Rect(r.x + j, r.y + i, 1, 1), color);
          DrawnJoin(screen, before, b, backbuffer[..], Rect(r.x, r.y + i, j, 1), Rect(r.x + j, r.y + i, 1, 1),
                    Rect(r.x, r.y + i, j + 1, 1), color);
        }
        DrawnJoin(screen, was, before, backbuffer[..], Rect(r.x, r.y, r.width, i), Rect(r.x, r.y + i, r.width, 1),
                  Rect(r.x, r.y, r.width, i + 1), color);
      }
    }

    /** memcpy of n pixels at the same index of both buffers. */
    method CopyPixels(idx: nat, n: nat)
      requires Valid() && idx + n <= framebuffer.Length
      modifies framebuffer
      ensures forall k | 0 <= k < framebuffer.Length ::
        framebuffer[k] == if idx <= k < idx + n then backbuffer[k] else old(framebuffer[k])
    {
      for k := 0 to n
        invariant forall j | 0 <= j < framebuffer.Length ::
          framebuffer[j] == if idx <= j < idx + k then backbuffer[j] else old(framebuffer[j])
      {
        framebuffer[idx + k] := backbuffer[idx + k];
      }
    }

    /** One row of the loop: n pixels from (x0, y). */
    method CopyRow(x0: nat, y: nat, n: nat)
      requires Valid() && y < screen.height && 0 < n && x0 + n <= screen.width
      modifies framebuffer
      ensures Copied(screen, backbuffer[..], old(framebuffer[..]), framebuffer[..], Rect(x0, y, n, 1))
    {
      RowIndex(y, screen.stride);
      IndexBound(screen, x0 + n - 1, y);
      CopyPixels(y * pitch / 4 + x0, n);
      forall cx: nat, cy: nat | Cell(screen, cx, cy)
        ensures At(screen, framebuffer[..], cx, cy)
             == if Clipped(screen, Rect(x0, y, n, 1), cx, cy) then At(screen, backbuffer[..], cx, cy)
                else At(screen, old(framebuffer[..]), cx, cy)
      {
        RowCells(screen, x0, y, n, cx, cy);
        IndexBound(screen, cx, cy);
      }
    }

    /** gfx_surface_sync_chunk. */
    method SyncChunk(r: Rect)
      requires Valid() && Fits(r)
      modifies framebuffer
      ensures Copied(screen, backbuffer[..], old(framebuffer[..]), framebuffer[..], r)
    {
      var x0, y0 := r.x, r.y;
      var x1, y1 := r.x + r.width, r.y + r.height;
      if x0 < 0 { x0 := 0; }
      if y0 < 0 { y0 := 0; }
      if x1 > screen.width { x1 := screen.width; }
      if y1 > screen.height { y1 := screen.height; }
      if x0 < x1 && y0 < y1 {
        var width, height := x1 - x0, y1 - y0;
        ghost var was := framebuffer[..];
        for i := 0 to height
          invariant Copied(screen, backbuffer[..], was, framebuffer[..], Rect(x0, y0, width, i))
        {
          ghost var f := framebuffer[..];
          CopyRow(x0, y0 + i, width);
          CopiedJoin(screen, backbuffer[..], was, f, framebuffer[..], Rect(x0, y0, width, i),
            Rect(x0, y0 + i, width, 1),
                     Rect(x0, y0, width, i + 1));
        }
        assert forall x, y :: Clipped(screen, Rect(x0, y0, width, height), x, y) <==> Clipped(screen, r, x, y);
      }
    }

    /** Drawing a rectangle and copying the same one keeps a coherent screen coherent, and writes nothing else. */
    method Present(r: Rect, color: nat)
      requires Valid() && Fits(r) && Coherent(screen, backbuffer[..], framebuffer[..])
      modifies backbuffer, framebuffer
      ensures Coherent(screen, backbuffer[..], framebuffer[..])
      ensures forall x: nat, y: nat | Cell(screen, x, y) && !Clipped(screen, r, x, y) ::
        At(screen, framebuffer[..], x, y) == At(screen, old(framebuffer[..]), x, y)
    {
      ghost var b, f := backbuffer[..], framebuffer[..];
      DrawRect(r, color);
      SyncChunk(r);
      CopyRestores(screen, backbuffer[..], f, framebuffer[..], r);
      forall x: nat, y: nat | x < screen.width && y < screen.height && !Inside(r, x, y)
        ensures Shows(screen, backbuffer[..], f, x, y)
      {
        assert Cell(screen, x, y) && Shows(screen, b, f, x, y);
      }
    }
  }

  /** With a pitch divisible by 4 the row offset is exact. */
  lemma {:induction false} RowIndex(y: nat, stride: nat)
    ensures y * (4 * stride) / 4 == y * stride
  {
    assert y * (4 * stride) == 4 * (y * stride);
  }
}
