/** `BatchedFlushes`: a queue of bounding boxes that one `raw_flush` sends
    together. The queue is cleared only when the flush succeeds. */
module Repr {
  import opened MachineInts
  import opened Wrappers
  import Abi

  datatype BatchedFlushes = BatchedFlushes(inner: seq<Abi.BoundingBox>)

  /** A `Vec` never holds more than `usize::MAX` elements. */
  predicate Valid(b: BatchedFlushes) {
    |b.inner| < TWO_64
  }

  /** `len()`. */
  function Len(b: BatchedFlushes): usize
    requires Valid(b)
  {
    |b.inner|
  }

  /** `is_empty()`: holds exactly when the length is zero. */
  function IsEmpty(b: BatchedFlushes): (r: bool)
    requires Valid(b)
    ensures r <==> Len(b) == 0
  {
    b.inner == []
  }

  /** `new()` and `default()`: an empty batch. */
  function New(): (b: BatchedFlushes)
    ensures Valid(b) && Len(b) == 0 && IsEmpty(b)
  {
    BatchedFlushes([])
  }

  /** `push(box)`: appends at the end; the earlier entries keep their
      places. */
  function Push(b: BatchedFlushes, box: Abi.BoundingBox): (r: BatchedFlushes)
    requires Valid(b) && Len(b) + 1 < TWO_64
    ensures Valid(r) && Len(r) == Len(b) + 1
    ensures r.inner[..Len(b)] == b.inner && r.inner[Len(b)] == box
  {
    BatchedFlushes(b.inner + [box])
  }

  /** Pushing the boxes one after another, first to last. */
  function PushAll(b: BatchedFlushes, boxes: seq<Abi.BoundingBox>): (r: BatchedFlushes)
    requires Valid(b) && Len(b) + |boxes| < TWO_64
    ensures Valid(r) && r.inner == b.inner + boxes
    decreases |boxes|
  {
    if |boxes| == 0 then b else PushAll(Push(b, boxes[0]), boxes[1..])
  }

  /** `flush()`: hands the whole batch to `raw_flush` on descriptor `fd`.
      On success the batch is emptied; on failure the error is returned and
      the batch is kept for another attempt. */
  function Flush(b: BatchedFlushes, fd: u32, write: Abi.DeviceWrite): (r: (BatchedFlushes, Result<(), Abi.GraphicsError>))
    requires Valid(b)
    ensures Valid(r.0)
    ensures r.1.Err? <==> write(fd, Abi.FlushMessageAsWritten(b.inner), Len(b)) < 0
    ensures r.1.Ok? ==> IsEmpty(r.0)
    ensures r.1.Err? ==> r.0 == b
  {
    match Abi.RawFlush(b.inner, fd, write)
    case Err(e) => (b, Err(e))
    case Ok(_) => (BatchedFlushes([]), Ok(()))
  }

  /** `flush()` over the corrected `raw_flush`: the same batch handling,
      with the message that carries every box. */
  function FlushCorrected(b: BatchedFlushes, fd: u32, write: Abi.DeviceWrite): (r: (BatchedFlushes, Result<(), Abi.GraphicsError>))
    requires Valid(b)
    ensures Valid(r.0)
    ensures r.1.Err? <==> write(fd, Abi.FlushMessage(b.inner), Len(b)) < 0
    ensures r.1.Ok? ==> IsEmpty(r.0)
    ensures r.1.Err? ==> r.0 == b
  {
    match Abi.RawFlushCorrected(b.inner, fd, write)
    case Err(e) => (b, Err(e))
    case Ok(_) => (BatchedFlushes([]), Ok(()))
  }

  /** As written, a flush after pushes onto an empty batch sends the count of
      pushed boxes and then the first `len / 2` words of their fields, in
      push order, so every box past the first `len / 8` is lost. */
  lemma FlushSendsPushOrder(boxes: seq<Abi.BoundingBox>)
    requires |boxes| < TWO_64
    ensures var msg := Abi.FlushMessageAsWritten(PushAll(New(), boxes).inner);
      && |msg| == 1 + |boxes| / 2 && msg[0] == |boxes|
      && (forall k :: 0 <= k < |boxes| / 2 ==> msg[1 + k] == Abi.BoxWords(boxes[k / 4])[k % 4])
      && (|boxes| > 0 ==> Abi.DecodeFlushMessage(msg) == None)
  {
    if |boxes| > 0 {
      Abi.FlushMessageAsWrittenLosesBoxes(boxes);
    }
  }

  /** With the corrected `raw_flush`, the message after pushes onto an empty
      batch carries exactly the pushed boxes, in push order. */
  lemma CorrectedFlushSendsPushOrder(boxes: seq<Abi.BoundingBox>)
    requires |boxes| < TWO_64
    ensures Abi.DecodeFlushMessage(Abi.FlushMessage(PushAll(New(), boxes).inner)) == Some(boxes)
  {
    Abi.FlushMessageRoundTrip(boxes);
  }

  /** A failed flush loses nothing: flushing again sends the same message,
      and a later push still comes after every earlier box. */
  lemma FailedFlushKeepsBatch(b: BatchedFlushes, fd: u32, write: Abi.DeviceWrite, box: Abi.BoundingBox)
    requires Valid(b) && Len(b) + 1 < TWO_64
    requires Flush(b, fd, write).1.Err?
    ensures var kept := Flush(b, fd, write).0;
      && Abi.FlushMessageAsWritten(kept.inner) == Abi.FlushMessageAsWritten(b.inner)
      && Push(kept, box).inner == b.inner + [box]
  {
  }

  /** After a successful flush the next flush starts from an empty batch:
      its message is the count zero alone. */
  lemma SuccessfulFlushStartsOver(b: BatchedFlushes, fd: u32, write: Abi.DeviceWrite)
    requires Valid(b) && Flush(b, fd, write).1.Ok?
    ensures Abi.FlushMessageAsWritten(Flush(b, fd, write).0.inner) == [0]
  {
  }
}
