/** Shared vocabulary of the keyframe picker: frame numbers, the frame cap,
    the items that travel through the frame queue, and the two pieces of
    state that the reader and the processor share by reference (the frame
    queue and the frame-timestamp dictionary). */
module Frames {

  /** Raw pixel buffer of one decoded frame; never inspected by the model. */
  type Image = seq<int>

  /** A clock reading (time.time() in the source); kept opaque. */
  type Timestamp = real

  /** Hard cap on frame numbers used by every loop of the pipeline. */
  const FrameCap: int := 500

  datatype Option<T> = None | Some(value: T)

  /** Value stored in frame_timestamps: the ingestion time and the frame. */
  datatype Stamped = Stamped(time: Timestamp, image: Image)

  /** An entry of the frame queue: a numbered frame, or the None sentinel. */
  datatype QueueItem = Frame(num: int, image: Image) | EndOfStream

  /** Value stored in detected_frames: the cut frame and the time elapsed
      between its ingestion and its detection. */
  datatype Detection = Detection(image: Image, elapsed: real)

  /** One image written to the output directory, named after its frame number. */
  datatype Write = Write(frame: int, image: Image)

  /** The dictionary lookup that raised KeyError. */
  datatype LookupError = MissingScore(frame: int) | MissingTimestamp(frame: int)

  /** What a saving pass did: the images written before it stopped, and the
      KeyError that stopped it, if any. */
  datatype Outcome = Outcome(writes: seq<Write>, error: Option<LookupError>)

  /** A pass that writes `w` and then does what `o` records. */
  function Prepend(w: Write, o: Outcome): Outcome
  {
    Outcome([w] + o.writes, o.error)
  }

  /** Writing `w` after `writes` and then the rest of a pass is writing
      `writes` and then the pass that starts with `w`. */
  lemma AppendThenPrepend(writes: seq<Write>, w: Write, o: Outcome)
    ensures (writes + [w]) + o.writes == writes + Prepend(w, o).writes
  {
  }

  /** Every frame in the queue already has its timestamp entry: the reader
      writes the timestamp before it enqueues the frame. */
  ghost predicate QueuedFramesStamped(items: seq<QueueItem>, entries: map<int, Stamped>)
  {
    forall i :: 0 <= i < |items| && items[i].Frame? ==> items[i].num in entries
  }

  /** The FIFO queue.Queue between the reader and the processor. */
  class FrameQueue {
    var items: seq<QueueItem>

    constructor ()
      ensures items == []
    {
      items := [];
    }

    method Put(item: QueueItem)
      modifies this
      ensures items == old(items) + [item]
    {
      items := items + [item];
    }

    /** The consumer only calls get() after seeing qsize() > 0. */
    method Get() returns (item: QueueItem)
      requires items != []
      modifies this
      ensures item == old(items)[0] && items == old(items)[1..]
    {
      item := items[0];
      items := items[1..];
    }
  }

  /** The frame_timestamps dictionary: frame number to (time, frame). */
  class FrameTimeline {
    var entries: map<int, Stamped>

    constructor ()
      ensures entries == map[]
    {
      entries := map[];
    }
  }
}
