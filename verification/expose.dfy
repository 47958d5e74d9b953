/** `PrimitiveDrawer`: the drawing target over a raw frame buffer. Drawing
    is a sequence of pixel writes in iteration order; flushing converts the
    bounds to a `BoundingBox` and hands it to the buffer's own flush, which
    is an input here. */
module Expose {
  import opened MachineInts
  import opened Wrappers
  import opened Bits
  import opened Geometry
  import opened FrameBuffer
  import Abi

  /** `embedded_graphics::Pixel`: a point and its colour. */
  datatype Pixel = Pixel(point: Point, color: Rgb)

  datatype PrimitiveDrawer = PrimitiveDrawer(buf: RawFrameBuffer)

  /** The coordinates `draw_iter` passes to `set_pixel`: each `i32` cast
      `as u32`. */
  function X(p: Pixel): u32 { I32AsU32(p.point.x) }
  function Y(p: Pixel): u32 { I32AsU32(p.point.y) }

  /** The word a pixel's write lands in. */
  function WordOf(fb: RawFrameBuffer, p: Pixel): int {
    Offset(fb, X(p), Y(p)) / 4
  }

  /** Every pixel's write is in range and aligned. */
  predicate AllWritable(fb: RawFrameBuffer, pixels: seq<Pixel>) {
    forall k :: 0 <= k < |pixels| ==> Writable(fb, X(pixels[k]), Y(pixels[k]), 1)
  }

  /** Writability depends only on the layout and the mapping's length. */
  lemma WritableSameShape(a: RawFrameBuffer, b: RawFrameBuffer, pixels: seq<Pixel>)
    requires SameShape(a, b) && AllWritable(a, pixels)
    ensures AllWritable(b, pixels)
    ensures forall k :: 0 <= k < |pixels| ==> WordOf(b, pixels[k]) == WordOf(a, pixels[k])
  {
  }

  /** The buffer after `set_pixel` on each pixel, first to last. */
  function Paint(fb: RawFrameBuffer, pixels: seq<Pixel>): (r: RawFrameBuffer)
    requires ValidConfig(fb.config) && AllWritable(fb, pixels)
    ensures SameShape(fb, r)
    decreases |pixels|
  {
    if |pixels| == 0 then fb
    else
      var before := pixels[..|pixels| - 1];
      var p := pixels[|pixels| - 1];
      assert AllWritable(fb, before) by {
        forall k | 0 <= k < |before| ensures Writable(fb, X(before[k]), Y(before[k]), 1) {
          assert before[k] == pixels[k];
        }
      }
      var prev := Paint(fb, before);
      assert Writable(prev, X(p), Y(p), 1);
      SetPixel(prev, X(p), Y(p), p.color)
  }

  /** A word that no pixel lands in keeps its value. */
  lemma {:induction false} PaintUntouched(fb: RawFrameBuffer, pixels: seq<Pixel>, j: int)
    requires ValidConfig(fb.config) && AllWritable(fb, pixels)
    requires 0 <= j < |fb.buf.mem|
    requires forall k :: 0 <= k < |pixels| ==> WordOf(fb, pixels[k]) != j
    ensures Paint(fb, pixels).buf.mem[j] == fb.buf.mem[j]
    decreases |pixels|
  {
    if |pixels| > 0 {
      var before := pixels[..|pixels| - 1];
      assert forall k :: 0 <= k < |before| ==> before[k] == pixels[k];
      PaintUntouched(fb, before, j);
      var prev := Paint(fb, before);
      WritableSameShape(fb, prev, pixels);
    }
  }

  /** The word of pixel `k` holds pixel `k`'s colour when no later pixel
      lands in the same word: the last write wins. */
  lemma {:induction false} PaintLastWins(fb: RawFrameBuffer, pixels: seq<Pixel>, k: nat)
    requires ValidConfig(fb.config) && AllWritable(fb, pixels)
    requires k < |pixels|
    requires forall k' :: k < k' < |pixels| ==> WordOf(fb, pixels[k']) != WordOf(fb, pixels[k])
    ensures Paint(fb, pixels).buf.mem[WordOf(fb, pixels[k])] == GetRgbPixel(fb.config, pixels[k].color)
    decreases |pixels|
  {
    var before := pixels[..|pixels| - 1];
    assert forall i :: 0 <= i < |before| ==> before[i] == pixels[i];
    var prev := Paint(fb, before);
    WritableSameShape(fb, prev, pixels);
    if k < |pixels| - 1 {
      PaintLastWins(fb, before, k);
    }
  }

  /** A pixel inside its row: the whole pixel fits in the row's `pitch`
      bytes, and pixels are at least one byte wide. */
  predicate InRow(fb: RawFrameBuffer, p: Pixel) {
    Bpp(fb) / 8 > 0 && (X(p) + 1) * (Bpp(fb) / 8) <= Pitch(fb)
  }

  /** When two pixels name the same point, the later one's colour remains,
      provided no pixel after it names that point. */
  lemma SamePointLaterWins(fb: RawFrameBuffer, pixels: seq<Pixel>, k: nat)
    requires ValidConfig(fb.config) && AllWritable(fb, pixels)
    requires forall i :: 0 <= i < |pixels| ==> InRow(fb, pixels[i])
    requires k < |pixels|
    requires forall k' :: k < k' < |pixels| ==> pixels[k'].point != pixels[k].point
    ensures Paint(fb, pixels).buf.mem[WordOf(fb, pixels[k])] == GetRgbPixel(fb.config, pixels[k].color)
  {
    forall k' | k < k' < |pixels|
      ensures WordOf(fb, pixels[k']) != WordOf(fb, pixels[k])
    {
      var p, q := pixels[k'], pixels[k];
      assert X(p) != X(q) || Y(p) != Y(q) by {
        if X(p) == X(q) && Y(p) == Y(q) {
          I32AsU32Injective(p.point.x, q.point.x);
          I32AsU32Injective(p.point.y, q.point.y);
        }
      }
      DistinctPixelsDistinctWords(fb, X(p), Y(p), X(q), Y(q));
    }
    PaintLastWins(fb, pixels, k);
  }

  /** `draw_iter(pixels)`: `set_pixel` on each pixel in iteration order, with
      both coordinates cast `as u32`; always `Ok(())`. */
  method DrawIter(d: PrimitiveDrawer, pixels: seq<Pixel>) returns (d': PrimitiveDrawer, r: Result<(), Abi.GraphicsError>)
    requires ValidConfig(d.buf.config) && AllWritable(d.buf, pixels)
    ensures r == Ok(())
    ensures d'.buf == Paint(d.buf, pixels)
  {
    var fb := d.buf;
    var i := 0;
    while i < |pixels|
      invariant 0 <= i <= |pixels|
      invariant AllWritable(d.buf, pixels[..i])
      invariant fb == Paint(d.buf, pixels[..i])
    {
      var p := pixels[i];
      WritableSameShape(d.buf, fb, pixels);
      fb := SetPixel(fb, X(p), Y(p), p.color);
      assert pixels[..i + 1][..i] == pixels[..i];
      i := i + 1;
    }
    assert pixels[..i] == pixels;
    d' := PrimitiveDrawer(fb);
    r := Ok(());
  }

  /** `size()`: the buffer's width and height. */
  function Size(d: PrimitiveDrawer): (s: Geometry.Size)
    ensures s.width == Width(d.buf) && s.height == Height(d.buf)
  {
    Geometry.Size(Width(d.buf), Height(d.buf))
  }

  /** Drawing never changes the drawer's size. */
  lemma DrawKeepsSize(d: PrimitiveDrawer, pixels: seq<Pixel>)
    requires ValidConfig(d.buf.config) && AllWritable(d.buf, pixels)
    ensures Size(PrimitiveDrawer(Paint(d.buf, pixels))) == Size(d)
  {
  }

  /** The frame buffer's own flush of one bounding box, an input. */
  type BufferFlush = Abi.BoundingBox -> Result<(), Abi.GraphicsError>

  /** `flush(bounds)`: converts the bounds with `BoundingBox::from`, which
      panics on a negative corner, and flushes the buffer with the box. */
  function Flush(d: PrimitiveDrawer, bounds: Rectangle, flush: BufferFlush): (r: Outcome<Result<(), Abi.GraphicsError>>)
    ensures r.Panicked? <==> bounds.topLeft.x < 0 || bounds.topLeft.y < 0
    ensures r.Returned? ==> r.value == flush(Abi.BoundingBox(bounds.topLeft.x, bounds.topLeft.y, bounds.size.width, bounds.size.height))
  {
    match Abi.FromRectangle(bounds)
    case Panicked => Panicked
    case Returned(box) => Returned(flush(box))
  }

  /** The box a non-panicking flush hands on describes the bounds exactly. */
  lemma FlushBoxIsBounds(d: PrimitiveDrawer, bounds: Rectangle, flush: BufferFlush)
    requires bounds.topLeft.x >= 0 && bounds.topLeft.y >= 0
    ensures Abi.FromRectangle(bounds).Returned?
    ensures Flush(d, bounds, flush) == Returned(flush(Abi.FromRectangle(bounds).value))
    ensures Abi.ToRectangle(Abi.FromRectangle(bounds).value) == bounds
  {
    Abi.RectangleRoundTrip(bounds);
  }
}
