/** The consumer loop shared by VideoProcessor.process_video and the archived
    script, in its sequential reading: frames are dequeued one at a time; each
    is scored by the focus measure and shown to the cut detector, both joined
    before the next dequeue; the loop stops on the None sentinel or once the
    last consumed frame number reaches the cap. */
module FrameConsumer {
  import opened Frames
  import opened FrameReading

  /** How many queue items the loop takes from position k on, when the last
      consumed frame number is `current` (0 before the first frame). An empty
      queue with the loop still running would block for ever; a queue that
      holds the sentinel never gets there. */
  function Dequeued(items: seq<QueueItem>, k: nat, current: int): (d: nat)
    requires k <= |items|
    ensures k + d <= |items|
    decreases |items| - k
  {
    if current >= FrameCap || k == |items| then 0
    else if items[k].EndOfStream? then 1
    else 1 + Dequeued(items, k + 1, items[k].num)
  }

  /** The stopping rule: with a sentinel still queued at `end`, every item
      dequeued before the last one is a frame numbered below the cap, and the
      last one is the sentinel or a frame numbered at or beyond the cap (after
      which the sentinel stays queued). The loop never passes the sentinel. */
  lemma {:induction false} DequeuedStopRule(items: seq<QueueItem>, k: nat, current: int, end: nat)
    requires current < FrameCap
    requires k <= end < |items| && items[end] == EndOfStream
    ensures var d := Dequeued(items, k, current);
      && 1 <= d && k + d <= end + 1
      && (forall i :: k <= i < k + d - 1 ==> items[i].Frame? && items[i].num < FrameCap)
      && (items[k + d - 1].EndOfStream? || items[k + d - 1].num >= FrameCap)
    decreases |items| - k
  {
    if items[k].Frame? && items[k].num < FrameCap {
      DequeuedStopRule(items, k + 1, items[k].num, end);
    }
  }

  /** blur_detector.calculate_blur(n, image): the focus measure's score of
      the frame is stored under its number in the shared blur_map. */
  function Scored(blur: map<int, real>, n: int, image: Image, focus: Image -> real): map<int, real>
  {
    blur[n := focus(image)]
  }

  /** scene_detector.process_frame(n, image). `cutTimes` is the oracle for the
      external detector: it fires on frame n exactly when n is a key, and
      cutTimes[n] is the clock reading taken in its callback, which stores the
      frame with the time elapsed since frame n's entry in frame_timestamps.
      The lookup is guarded: every queued frame is stamped
      (QueuedFramesStamped), so the guard always holds on the reader's queue. */
  function Detected(detected: map<int, Detection>, n: int, image: Image,
                    cutTimes: map<int, Timestamp>, entries: map<int, Stamped>): map<int, Detection>
  {
    if n in cutTimes && n in entries then detected[n := Detection(image, cutTimes[n] - entries[n].time)]
    else detected
  }

  /** blur_map after the focus measure has run on the first k dequeued items. */
  function ScoreFrames(blur: map<int, real>, items: seq<QueueItem>, k: nat, focus: Image -> real): map<int, real>
    requires k <= |items|
  {
    if k == 0 then blur
    else
      var prev := ScoreFrames(blur, items, k - 1, focus);
      match items[k - 1]
      case Frame(n, image) => Scored(prev, n, image, focus)
      case EndOfStream => prev
  }

  /** detected_frames after the cut detector has seen the first k dequeued
      items. */
  function RecordCuts(detected: map<int, Detection>, items: seq<QueueItem>, k: nat,
                      cutTimes: map<int, Timestamp>, entries: map<int, Stamped>): map<int, Detection>
    requires k <= |items|
  {
    if k == 0 then detected
    else
      var prev := RecordCuts(detected, items, k - 1, cutTimes, entries);
      match items[k - 1]
      case Frame(n, image) => Detected(prev, n, image, cutTimes, entries)
      case EndOfStream => prev
  }

  /** The score of frame k as the focus measure gives it. */
  function ScoreOf(capture: seq<Capture>, focus: Image -> real, k: int): real
  {
    focus(StampOf(capture, k).image)
  }

  /** The detected_frames entry of frame k when the detector fires on it. */
  function DetectionOf(capture: seq<Capture>, cutTimes: map<int, Timestamp>, k: int): Detection
    requires k in cutTimes
  {
    Detection(StampOf(capture, k).image, cutTimes[k] - StampOf(capture, k).time)
  }

  /** The scores of frames 1..n. */
  function ReaderScores(capture: seq<Capture>, focus: Image -> real, n: nat): map<int, real>
  {
    map k | 1 <= k <= n :: ScoreOf(capture, focus, k)
  }

  /** The detections among frames 1..n. */
  function ReaderCuts(capture: seq<Capture>, cutTimes: map<int, Timestamp>, n: nat): map<int, Detection>
  {
    map k | 1 <= k <= n && k in cutTimes :: DetectionOf(capture, cutTimes, k)
  }

  /** The reader's queue (1, f1) ... (n, fn), None. */
  function ReaderQueue(capture: seq<Capture>, n: nat): seq<QueueItem>
  {
    Enqueued(capture, n) + [EndOfStream]
  }

  /** On the reader's queue the consumer takes all n frames, and also the
      sentinel unless the cap was reached. */
  lemma {:induction false} ReaderQueueDequeued(capture: seq<Capture>, n: nat, j: nat)
    requires j <= n <= FrameCap
    ensures Dequeued(ReaderQueue(capture, n), j, j) == if n == FrameCap then n - j else n - j + 1
    decreases n - j
  {
    var items := ReaderQueue(capture, n);
    if j < n {
      assert items[j] == Frame(j + 1, ReadAt(capture, j).image);
      ReaderQueueDequeued(capture, n, j + 1);
    } else {
      assert items[j] == EndOfStream;
    }
  }

  /** Frame k adds its score to the scores of frames 1..k-1. */
  lemma ReaderScoresStep(capture: seq<Capture>, focus: Image -> real, k: nat)
    requires 1 <= k
    ensures ReaderScores(capture, focus, k - 1)[k := ScoreOf(capture, focus, k)] == ReaderScores(capture, focus, k)
  {
  }

  /** Scoring the reader's frames 1..k records focus(fi) under every i in 1..k. */
  lemma {:induction false} ScoresOfReaderQueue(capture: seq<Capture>, n: nat, k: nat, focus: Image -> real)
    requires k <= n
    ensures ScoreFrames(map[], ReaderQueue(capture, n), k, focus) == ReaderScores(capture, focus, k)
  {
    if k == 0 {
      assert ReaderScores(capture, focus, k) == map[];
    } else {
      assert ReaderQueue(capture, n)[k - 1] == Frame(k, StampOf(capture, k).image);
      ScoresOfReaderQueue(capture, n, k - 1, focus);
      ReaderScoresStep(capture, focus, k);
    }
  }

  /** Frame k adds its detection to the detections of frames 1..k-1 exactly
      when the detector fires on it. */
  lemma ReaderCutsStep(capture: seq<Capture>, cutTimes: map<int, Timestamp>, k: nat)
    requires 1 <= k
    ensures k in cutTimes ==>
      ReaderCuts(capture, cutTimes, k - 1)[k := DetectionOf(capture, cutTimes, k)] == ReaderCuts(capture, cutTimes, k)
    ensures k !in cutTimes ==> ReaderCuts(capture, cutTimes, k - 1) == ReaderCuts(capture, cutTimes, k)
  {
  }

  /** Showing the reader's frames 1..k to the detector records exactly the
      frames the detector fires on, each with its image and elapsed time. */
  lemma {:induction false} CutsOfReaderQueue(capture: seq<Capture>, n: nat, k: nat,
                                             cutTimes: map<int, Timestamp>, entries: map<int, Stamped>)
    requires k <= n
    requires forall i :: 1 <= i <= n ==> i in entries && entries[i] == StampOf(capture, i)
    ensures RecordCuts(map[], ReaderQueue(capture, n), k, cutTimes, entries) == ReaderCuts(capture, cutTimes, k)
  {
    if k == 0 {
      assert ReaderCuts(capture, cutTimes, k) == map[];
    } else {
      assert ReaderQueue(capture, n)[k - 1] == Frame(k, StampOf(capture, k).image);
      CutsOfReaderQueue(capture, n, k - 1, cutTimes, entries);
      ReaderCutsStep(capture, cutTimes, k);
    }
  }

  /** What the consumer does with the whole reader's queue: it takes every
      frame (and the sentinel unless the cap was reached, in which case the
      sentinel stays queued), scores every frame 1..n and records every cut
      among them. */
  lemma ConsumerDrainsReaderQueue(capture: seq<Capture>, n: nat, focus: Image -> real,
                                  cutTimes: map<int, Timestamp>, entries: map<int, Stamped>)
    requires n <= FrameCap
    requires forall i :: 1 <= i <= n ==> i in entries && entries[i] == StampOf(capture, i)
    ensures var items := ReaderQueue(capture, n);
      var d := Dequeued(items, 0, 0);
      && items[d..] == (if n == FrameCap then [EndOfStream] else [])
      && ScoreFrames(map[], items, d, focus) == ReaderScores(capture, focus, n)
      && RecordCuts(map[], items, d, cutTimes, entries) == ReaderCuts(capture, cutTimes, n)
  {
    var items := ReaderQueue(capture, n);
    ReaderQueueDequeued(capture, n, 0);
    ScoresOfReaderQueue(capture, n, n, focus);
    CutsOfReaderQueue(capture, n, n, cutTimes, entries);
    if n < FrameCap {
      assert items[n] == EndOfStream;
      assert items[n + 1..] == [];
    } else {
      assert items[n..] == [EndOfStream];
    }
  }
}
