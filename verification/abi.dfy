/** The graphics ABI: the bounding box a flush names, the configuration the
    kernel reports, and the message `raw_flush` writes to the graphics
    device. The device write is an input. */
module Abi {
  import opened MachineInts
  import opened Wrappers
  import opened Geometry
  import opened Bits

  /** `GraphicsError`: its only variant. */
  datatype GraphicsError = Unknown

  datatype BoundingBox = BoundingBox(x: usize, y: usize, width: usize, height: usize)

  /** `BoundingBox::from(Rectangle)`: asserts that the top-left corner is not
      negative, then copies the four numbers. */
  function FromRectangle(r: Rectangle): (b: Outcome<BoundingBox>)
    ensures b.Returned? <==> r.topLeft.x >= 0 && r.topLeft.y >= 0
    ensures b.Returned? ==> b.value.x == r.topLeft.x && b.value.y == r.topLeft.y
    ensures b.Returned? ==> b.value.width == r.size.width && b.value.height == r.size.height
  {
    if r.topLeft.x < 0 || r.topLeft.y < 0 then Panicked
    else Returned(BoundingBox(r.topLeft.x, r.topLeft.y, r.size.width, r.size.height))
  }

  /** The rectangle a bounding box describes, when its numbers fit. */
  function ToRectangle(b: BoundingBox): Rectangle
    requires b.x < 0x8000_0000 && b.y < 0x8000_0000 && b.width < TWO_32 && b.height < TWO_32
  {
    Rectangle(Point(b.x, b.y), Size(b.width, b.height))
  }

  /** A rectangle with a non-negative corner survives the conversion. */
  lemma RectangleRoundTrip(r: Rectangle)
    requires r.topLeft.x >= 0 && r.topLeft.y >= 0
    ensures FromRectangle(r).Returned? && ToRectangle(FromRectangle(r).value) == r
  {
  }

  /** Every bounding box that fits a rectangle is the conversion of one. */
  lemma BoundingBoxRoundTrip(b: BoundingBox)
    requires b.x < 0x8000_0000 && b.y < 0x8000_0000 && b.width < TWO_32 && b.height < TWO_32
    ensures FromRectangle(ToRectangle(b)) == Returned(b)
  {
  }

  /** `RawBitMap`: the mapped framebuffer memory as `u32` words, its size in
      bytes, and the device's file descriptor. */
  datatype RawBitMap = RawBitMap(mem: seq<Word>, size: usize, fd: u32)

  /** `RawBitMap::new(size)`. `map_device` is an input: the descriptor it
      returns and the memory it maps, `None` when the address stays null,
      which the constructor's assertion turns into a panic. */
  function NewBitMap(size: usize, fd: u32, mapped: Option<seq<Word>>): (r: Outcome<RawBitMap>)
    ensures r.Panicked? <==> mapped.None?
    ensures r.Returned? ==> r.value.mem == mapped.value && r.value.size == size && r.value.fd == fd
  {
    match mapped
    case None => Panicked
    case Some(mem) => Returned(RawBitMap(mem, size, fd))
  }

  /** `GFXConfig`, as filled in by the kernel. */
  datatype GFXConfig = GFXConfig(
    redMaskShift: u8, redMaskSize: u8,
    greenMaskShift: u8, greenMaskSize: u8,
    blueMaskShift: u8, blueMaskSize: u8,
    bpp: u16, width: u32, height: u32, pitch: u32)

  // ---------------------------------------------------------- flush message

  /** Bytes in a `usize`. */
  const WORD_BYTES: nat := 8
  /** `size_of::<BoundingBox>()`: four `usize` fields. */
  const BOUNDING_BOX_BYTES: nat := 4 * WORD_BYTES

  /** A `#[repr(C)]` box as the `usize` words it occupies. */
  function BoxWords(b: BoundingBox): seq<usize> {
    [b.x, b.y, b.width, b.height]
  }

  /** An array of boxes as the `usize` words it occupies. */
  function Words(boxes: seq<BoundingBox>): (w: seq<usize>)
    ensures |w| == 4 * |boxes|
  {
    if |boxes| == 0 then [] else BoxWords(boxes[0]) + Words(boxes[1..])
  }

  /** Word `k` of the array is field `k % 4` of box `k / 4`. */
  lemma {:induction false} WordsAt(boxes: seq<BoundingBox>, k: nat)
    requires k < 4 * |boxes|
    ensures Words(boxes)[k] == BoxWords(boxes[k / 4])[k % 4]
    decreases |boxes|
  {
    if k >= 4 {
      WordsAt(boxes[1..], k - 4);
    }
  }

  /** The words `raw_flush` sends, as written: the box count, then the first
      `len * size_of::<BoundingBox>() / 64` words of the box array, which
      is `len / 2` words, the fields of the first `len / 8` boxes and a few
      more. */
  function FlushMessageAsWritten(boxes: seq<BoundingBox>): (msg: seq<usize>)
    requires |boxes| < TWO_64
    ensures |msg| == 1 + |boxes| / 2 && msg[0] == |boxes|
    ensures forall k :: 0 <= k < |boxes| / 2 ==> msg[1 + k] == BoxWords(boxes[k / 4])[k % 4]
  {
    var msg := [|boxes|] + Words(boxes)[..|boxes| * BOUNDING_BOX_BYTES / 64];
    assert forall k :: 0 <= k < |boxes| / 2 ==> msg[1 + k] == BoxWords(boxes[k / 4])[k % 4] by {
      forall k | 0 <= k < |boxes| / 2 {
        WordsAt(boxes, k);
      }
    }
    msg
  }

  /** The words `raw_flush` is meant to send: the box count, then the whole
      box array (`size_of` counts bytes, so the word count divides by 8). */
  function FlushMessage(boxes: seq<BoundingBox>): (msg: seq<usize>)
    requires |boxes| < TWO_64
    ensures |msg| == 1 + 4 * |boxes| && msg[0] == |boxes|
    ensures forall k :: 0 <= k < 4 * |boxes| ==> msg[1 + k] == BoxWords(boxes[k / 4])[k % 4]
  {
    var msg := [|boxes|] + Words(boxes)[..|boxes| * BOUNDING_BOX_BYTES / WORD_BYTES];
    assert forall k :: 0 <= k < 4 * |boxes| ==> msg[1 + k] == BoxWords(boxes[k / 4])[k % 4] by {
      forall k | 0 <= k < 4 * |boxes| {
        WordsAt(boxes, k);
      }
    }
    msg
  }

  /** Reads consecutive groups of four words back as boxes. */
  function DecodeWords(w: seq<usize>): (boxes: seq<BoundingBox>)
    requires |w| % 4 == 0
    ensures 4 * |boxes| == |w|
    decreases |w|
  {
    if |w| == 0 then [] else [BoundingBox(w[0], w[1], w[2], w[3])] + DecodeWords(w[4..])
  }

  /** Reading the words of an array of boxes gives back the boxes. */
  lemma {:induction false} DecodeWordsRoundTrip(boxes: seq<BoundingBox>)
    ensures DecodeWords(Words(boxes)) == boxes
    decreases |boxes|
  {
    if |boxes| > 0 {
      var w := Words(boxes);
      assert w[4..] == Words(boxes[1..]);
      DecodeWordsRoundTrip(boxes[1..]);
    }
  }

  /** How a reader of the message recovers the boxes: a count `n`, then
      `4 * n` words. */
  function DecodeFlushMessage(msg: seq<usize>): (r: Option<seq<BoundingBox>>)
    ensures r.Some? ==> |msg| == 1 + 4 * |r.value| && msg[0] == |r.value|
  {
    if |msg| == 0 || |msg| != 1 + 4 * (msg[0] as int) then None
    else Some(DecodeWords(msg[1..]))
  }

  /** The intended message carries every box, in order. */
  lemma FlushMessageRoundTrip(boxes: seq<BoundingBox>)
    requires |boxes| < TWO_64
    ensures DecodeFlushMessage(FlushMessage(boxes)) == Some(boxes)
  {
    var msg := FlushMessage(boxes);
    assert msg[1..] == Words(boxes);
    DecodeWordsRoundTrip(boxes);
  }

  /** As written, a non-empty batch is never carried in full: a reader finds
      fewer words than the count announces, and a single box is sent as the
      count alone. */
  lemma FlushMessageAsWrittenLosesBoxes(boxes: seq<BoundingBox>)
    requires 0 < |boxes| < TWO_64
    ensures DecodeFlushMessage(FlushMessageAsWritten(boxes)) == None
    ensures |boxes| == 1 ==> FlushMessageAsWritten(boxes) == [1]
  {
  }

  /** The device write: `libtinyos::write(fd, message, len)`'s result. */
  type DeviceWrite = (usize, seq<usize>, usize) -> isize

  /** `raw_flush(boxes, fd)`, as written: writes the message of
      `FlushMessageAsWritten` with length argument equal to the number of
      boxes, and fails exactly when the write reports a negative result. */
  function RawFlush(boxes: seq<BoundingBox>, fd: u32, write: DeviceWrite): (r: Result<(), GraphicsError>)
    requires |boxes| < TWO_64
    ensures r.Err? <==> write(fd, FlushMessageAsWritten(boxes), |boxes|) < 0
  {
    if write(fd, FlushMessageAsWritten(boxes), |boxes|) < 0 then Err(Unknown) else Ok(())
  }

  /** `raw_flush` with the payload length corrected to the whole box array:
      the same outcome rule, applied to the message that carries every box. */
  function RawFlushCorrected(boxes: seq<BoundingBox>, fd: u32, write: DeviceWrite): (r: Result<(), GraphicsError>)
    requires |boxes| < TWO_64
    ensures r.Err? <==> write(fd, FlushMessage(boxes), |boxes|) < 0
  {
    if write(fd, FlushMessage(boxes), |boxes|) < 0 then Err(Unknown) else Ok(())
  }

  /** The two flushes agree on an empty batch and, in general, differ only in
      the message: a device that accepts exactly the intended message can
      still reject the one sent as written. */
  lemma RawFlushesDiffer(b: BoundingBox, fd: u32)
    ensures var write: DeviceWrite := (f, m, n) => if m == FlushMessage([b]) then 0 else -1;
      && RawFlushCorrected([b], fd, write).Ok?
      && RawFlush([b], fd, write).Err?
  {
    FlushMessageAsWrittenLosesBoxes([b]);
  }
}
