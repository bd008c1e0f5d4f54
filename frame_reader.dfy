/** FrameReader: numbers the frames read from the capture device, records
    each one in frame_timestamps, enqueues it, and always ends the queue with
    the None sentinel. */
module FrameReading {
  import opened Frames

  /** One call to video_capture.read(), together with the clock reading
      time.time() taken when the frame is stamped. */
  datatype Capture = Capture(ok: bool, image: Image, time: Timestamp)

  /** The i-th read. Reading past the recorded results fails, as read() does
      at the end of a file. */
  function ReadAt(capture: seq<Capture>, i: int): Capture
  {
    if 0 <= i < |capture| then capture[i] else Capture(false, [], 0.0)
  }

  /** The reading loop from the moment `k` frames have been numbered:
      it stops on a stop request seen at the guard, at the cap, or on a
      failed read (which numbers nothing). */
  function NumberedFrom(capture: seq<Capture>, stop: Option<nat>, k: nat): (n: nat)
    requires k <= FrameCap
    ensures k <= n <= FrameCap
    ensures forall i :: k <= i < n ==> ReadAt(capture, i).ok
    ensures stop.Some? && k <= stop.value ==> n <= stop.value
    ensures n == FrameCap || stop == Some(n) || !ReadAt(capture, n).ok
    decreases FrameCap - k
  {
    if k == FrameCap || stop == Some(k) || !ReadAt(capture, k).ok then k
    else NumberedFrom(capture, stop, k + 1)
  }

  /** N, the number of frames start_reading numbers. `stop` is the number of
      frames numbered when a concurrent stop_reading takes effect, if any. */
  function FramesNumbered(capture: seq<Capture>, stop: Option<nat>): (n: nat)
    ensures n <= FrameCap
    ensures forall i :: 0 <= i < n ==> ReadAt(capture, i).ok
    ensures stop.Some? ==> n <= stop.value
    ensures n == FrameCap || stop == Some(n) || !ReadAt(capture, n).ok
  {
    NumberedFrom(capture, stop, 0)
  }

  /** The queue items (1, f1) ... (n, fn). */
  function Enqueued(capture: seq<Capture>, n: nat): (items: seq<QueueItem>)
  {
    seq(n, i => Frame(i + 1, ReadAt(capture, i).image))
  }

  /** The frame_timestamps entry of frame k: the k-th read's time and frame. */
  function StampOf(capture: seq<Capture>, k: int): Stamped
  {
    Stamped(ReadAt(capture, k - 1).time, ReadAt(capture, k - 1).image)
  }

  /** The frame_timestamps entries 1..n, each the frame read at that step. */
  function Stamps(capture: seq<Capture>, n: nat): (m: map<int, Stamped>)
  {
    map k | 1 <= k <= n :: StampOf(capture, k)
  }

  /** Numbering one more frame adds exactly its entry and its queue item. */
  lemma NumberOneMore(base: map<int, Stamped>, capture: seq<Capture>, k: nat)
    ensures (base + Stamps(capture, k))[k + 1 := StampOf(capture, k + 1)] == base + Stamps(capture, k + 1)
    ensures Enqueued(capture, k) + [Frame(k + 1, ReadAt(capture, k).image)] == Enqueued(capture, k + 1)
  {
  }

  /** Writing the timestamp entry and then enqueueing the frame keeps every
      queued frame stamped. */
  lemma PublishKeepsStamped(items: seq<QueueItem>, entries: map<int, Stamped>, k: int, image: Image, v: Stamped)
    requires QueuedFramesStamped(items, entries)
    ensures QueuedFramesStamped(items, entries[k := v])
    ensures QueuedFramesStamped(items + [Frame(k, image)], entries[k := v])
  {
  }

  /** Every frame the reader enqueues has its timestamp entry. */
  lemma ReaderQueueStamped(capture: seq<Capture>, n: nat)
    ensures QueuedFramesStamped(Enqueued(capture, n), Stamps(capture, n))
  {
  }

  class FrameReader {
    const videoSource: string
    const frameQueue: FrameQueue
    const frameTimestamps: FrameTimeline
    var isRunning: bool

    constructor (videoSource: string, frameQueue: FrameQueue, frameTimestamps: FrameTimeline)
      ensures this.videoSource == videoSource
      ensures this.frameQueue == frameQueue && this.frameTimestamps == frameTimestamps
      ensures !isRunning
    {
      this.videoSource := videoSource;
      this.frameQueue := frameQueue;
      this.frameTimestamps := frameTimestamps;
      isRunning := false;
    }

    /** `capture` stands for the successive results of read() on the device
        opened from videoSource; `stop` places the one concurrent stop_reading
        call, by the number of frames numbered when it takes effect. */
    method StartReading(capture: seq<Capture>, stop: Option<nat>)
      modifies this, frameQueue, frameTimestamps
      ensures var n := FramesNumbered(capture, stop);
        && frameQueue.items == old(frameQueue.items) + Enqueued(capture, n) + [EndOfStream]
        && frameTimestamps.entries == old(frameTimestamps.entries) + Stamps(capture, n)
        && isRunning == (stop != Some(n))
      ensures QueuedFramesStamped(old(frameQueue.items), old(frameTimestamps.entries))
              ==> QueuedFramesStamped(frameQueue.items, frameTimestamps.entries)
    {
      isRunning := true;
      var frameCount := 0;
      if stop == Some(frameCount) {
        StopReading();
      }
      while isRunning && frameCount < FrameCap
        invariant 0 <= frameCount <= FrameCap
        invariant NumberedFrom(capture, stop, frameCount) == FramesNumbered(capture, stop)
        invariant isRunning == (stop != Some(frameCount))
        invariant frameQueue.items == old(frameQueue.items) + Enqueued(capture, frameCount)
        invariant frameTimestamps.entries == old(frameTimestamps.entries) + Stamps(capture, frameCount)
        invariant QueuedFramesStamped(old(frameQueue.items), old(frameTimestamps.entries))
                  ==> QueuedFramesStamped(frameQueue.items, frameTimestamps.entries)
        decreases FrameCap - frameCount
      {
        var result := ReadAt(capture, frameCount);
        if !result.ok {
          break;
        }
        frameCount := frameCount + 1;
        // The timestamp is recorded before the frame becomes visible in the queue.
        NumberOneMore(old(frameTimestamps.entries), capture, frameCount - 1);
        if QueuedFramesStamped(old(frameQueue.items), old(frameTimestamps.entries)) {
          PublishKeepsStamped(frameQueue.items, frameTimestamps.entries, frameCount,
                              result.image, StampOf(capture, frameCount));
        }
        frameTimestamps.entries := frameTimestamps.entries[frameCount := StampOf(capture, frameCount)];
        frameQueue.Put(Frame(frameCount, result.image));
        if stop == Some(frameCount) {
          StopReading();
        }
      }
      frameQueue.Put(EndOfStream);
    }

    method StopReading()
      modifies this
      ensures !isRunning
    {
      isRunning := false;
    }
  }
}
