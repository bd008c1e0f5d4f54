/** The archived script: the same reader and consumer over module-level
    globals (frame_queue, frame_timestamps, blur_map, detected_list), an older
    keyframe pass with a fixed threshold of 35 that gives up at the cap, and a
    count of the frames scoring above 35. */
module ArchiveMain {
  import opened Frames
  import opened KeyframeScan
  import opened FrameReading
  import opened FrameConsumer

  /** The fixed blur threshold of the script. */
  const ArchiveThreshold: real := 35.0

  /** detected_list after the detector has seen the first k dequeued items:
      the older detector appends the number of every frame it fires on, the
      frames being those in `cuts`. */
  function CutList(items: seq<QueueItem>, k: nat, cuts: set<int>): seq<int>
    requires k <= |items|
  {
    if k == 0 then []
    else
      var prev := CutList(items, k - 1, cuts);
      match items[k - 1]
      case Frame(n, _) => if n in cuts then prev + [n] else prev
      case EndOfStream => prev
  }

  /** Proof aid: one more frame consumed appends its number to the list so far
      when the detector fires on it. */
  lemma CutListStep(list0: seq<int>, items: seq<QueueItem>, k: nat, cuts: set<int>)
    requires k < |items| && items[k].Frame?
    ensures items[k].num in cuts ==>
      list0 + CutList(items, k + 1, cuts) == (list0 + CutList(items, k, cuts)) + [items[k].num]
    ensures items[k].num !in cuts ==> list0 + CutList(items, k + 1, cuts) == list0 + CutList(items, k, cuts)
  {
  }

  /** The cut frames among 1..n. */
  function CutsUpTo(cuts: set<int>, n: nat): set<int>
  {
    set j | 1 <= j <= n && j in cuts
  }

  /** The cut frames among 1..k, collected in frame order. */
  function CutsAscending(cuts: set<int>, k: nat): seq<int>
  {
    if k == 0 then []
    else if k in cuts then CutsAscending(cuts, k - 1) + [k]
    else CutsAscending(cuts, k - 1)
  }

  /** On the reader's queue, detected_list after k frames is the cut frames
      among 1..k in frame order. */
  lemma {:induction false} CutListOfReaderQueue(capture: seq<Capture>, n: nat, k: nat, cuts: set<int>)
    requires k <= n
    ensures CutList(ReaderQueue(capture, n), k, cuts) == CutsAscending(cuts, k)
  {
    if k > 0 {
      assert ReaderQueue(capture, n)[k - 1] == Frame(k, StampOf(capture, k).image);
      CutListOfReaderQueue(capture, n, k - 1, cuts);
    }
  }

  /** Collected in frame order, the cut frames among 1..k come out each once,
      in increasing order. */
  lemma {:induction false} CutsAscendingInOrder(cuts: set<int>, k: nat)
    ensures AscendingListing(CutsAscending(cuts, k), CutsUpTo(cuts, k))
  {
    if k > 0 {
      CutsAscendingInOrder(cuts, k - 1);
      var prev := CutsAscending(cuts, k - 1);
      var l := CutsAscending(cuts, k);
      forall i | 0 <= i < |l| ensures l[i] in CutsUpTo(cuts, k) {
        if i < |prev| { assert l[i] == prev[i] && prev[i] in CutsUpTo(cuts, k - 1); } else { assert l[i] == k; }
      }
      forall i, j | 0 <= i < j < |l| ensures l[i] < l[j] {
        assert l[i] == prev[i] && prev[i] in CutsUpTo(cuts, k - 1);
        if j < |prev| { assert l[j] == prev[j]; } else { assert l[j] == k; }
      }
      forall x | x in CutsUpTo(cuts, k) ensures x in l {
        if x < k {
          assert x in CutsUpTo(cuts, k - 1);
          var i :| 0 <= i < |prev| && prev[i] == x;
          assert l[i] == x;
        } else {
          assert l[|l| - 1] == k;
        }
      }
    }
  }

  /** So the script's list order is the sorted order that save_blur_threshold_frames
      imposes: after the consumer has drained the reader's queue, detected_list
      is sorted(cut frames among 1..n). */
  lemma ArchiveListIsSorted(capture: seq<Capture>, n: nat, cuts: set<int>)
    requires n <= FrameCap
    ensures var items := ReaderQueue(capture, n);
      CutList(items, Dequeued(items, 0, 0), cuts) == SortedKeys(CutsUpTo(cuts, n))
  {
    var items := ReaderQueue(capture, n);
    ReaderQueueDequeued(capture, n, 0);
    assert CutList(items, Dequeued(items, 0, 0), cuts) == CutList(items, n, cuts) by {
      if n < FrameCap { assert items[n] == EndOfStream; }
    }
    CutListOfReaderQueue(capture, n, n, cuts);
    CutsAscendingInOrder(cuts, n);
    SortedKeysUnique(CutsUpTo(cuts, n), CutsAscending(cuts, n));
  }

  /** The keyframe pass of the script over detected_list from `cursor`: as
      the current pass, except that a scan reaching the cap ends the whole
      pass without writing. */
  function ArchiveSelect(cuts: seq<int>, cursor: int, blur: map<int, real>, stamps: map<int, Stamped>): Outcome
    decreases |cuts|
  {
    if cuts == [] then Outcome([], None)
    else if cursor > cuts[0] then ArchiveSelect(cuts[1..], cursor, blur, stamps)
    else match Scan(cuts[0], blur, ArchiveThreshold)
      case NoScore(f) => Outcome([], Some(MissingScore(f)))
      case Reached(s) =>
        if s >= FrameCap then Outcome([], None)
        else if s !in stamps then Outcome([], Some(MissingTimestamp(s)))
        else Prepend(Write(s, stamps[s].image), ArchiveSelect(cuts[1..], s, blur, stamps))
  }

  /** Proof aid: one unfolding of ArchiveSelect, for the loop of SelectKeyframes. */
  lemma ArchiveSelectStep(cuts: seq<int>, cursor: int, blur: map<int, real>, stamps: map<int, Stamped>)
    requires cuts != []
    ensures cursor > cuts[0] ==>
      ArchiveSelect(cuts, cursor, blur, stamps) == ArchiveSelect(cuts[1..], cursor, blur, stamps)
    ensures cursor <= cuts[0] && Scan(cuts[0], blur, ArchiveThreshold).NoScore? ==>
      ArchiveSelect(cuts, cursor, blur, stamps)
      == Outcome([], Some(MissingScore(Scan(cuts[0], blur, ArchiveThreshold).frame)))
    ensures cursor <= cuts[0] && Scan(cuts[0], blur, ArchiveThreshold).Reached? ==>
      var s := Scan(cuts[0], blur, ArchiveThreshold).frame;
      ArchiveSelect(cuts, cursor, blur, stamps)
      == if s >= FrameCap then Outcome([], None)
         else if s !in stamps then Outcome([], Some(MissingTimestamp(s)))
         else Prepend(Write(s, stamps[s].image), ArchiveSelect(cuts[1..], s, blur, stamps))
  {
  }

  /** Every frame the script writes is below the cap, scores at least 35, is
      written with its frame_timestamps image, and the frames written never
      decrease nor fall behind the starting cursor. */
  lemma {:induction false} ArchiveWritesSharp(cuts: seq<int>, cursor: int, blur: map<int, real>,
                                              stamps: map<int, Stamped>)
    ensures var w := ArchiveSelect(cuts, cursor, blur, stamps).writes;
      && (forall i :: 0 <= i < |w| ==> w[i].frame < FrameCap)
      && WritesQualify(w, blur, stamps, ArchiveThreshold)
      && NondecreasingFrom(w, cursor)
    decreases |cuts|
  {
    if cuts != [] {
      if cursor > cuts[0] {
        ArchiveWritesSharp(cuts[1..], cursor, blur, stamps);
      } else if Scan(cuts[0], blur, ArchiveThreshold).Reached? {
        var s := Scan(cuts[0], blur, ArchiveThreshold).frame;
        if s < FrameCap && s in stamps {
          var rest := ArchiveSelect(cuts[1..], s, blur, stamps).writes;
          ArchiveWritesSharp(cuts[1..], s, blur, stamps);
          var w := [Write(s, stamps[s].image)] + rest;
          assert ArchiveSelect(cuts, cursor, blur, stamps).writes == w;
          forall i | 0 <= i < |w|
            ensures w[i].frame < FrameCap && cursor <= w[i].frame
            ensures w[i].frame in stamps && w[i].image == stamps[w[i].frame].image
            ensures w[i].frame in blur && ArchiveThreshold <= blur[w[i].frame]
          {
            if i > 0 { assert w[i] == rest[i - 1]; }
          }
          forall i, j | 0 <= i < j < |w| ensures w[i].frame <= w[j].frame {
            assert w[j] == rest[j - 1];
            if i > 0 { assert w[i] == rest[i - 1]; }
          }
        }
      }
    }
  }

  /** The script's pass is the current pass (at threshold 35) cut short at
      the cap: its writes are a prefix of the current pass's writes; when it
      fails, both fail the same way after the same writes; when it writes
      less, the next frame the current pass writes is at or beyond the cap. */
  lemma {:induction false} ArchiveIsCurrentPassCutAtCap(cuts: seq<int>, cursor: int, blur: map<int, real>,
                                                        stamps: map<int, Stamped>)
    ensures var a := ArchiveSelect(cuts, cursor, blur, stamps);
      var c := Select(cuts, cursor, blur, stamps, ArchiveThreshold);
      && a.writes <= c.writes
      && (a.error.Some? ==> a == c)
      && (|a.writes| < |c.writes| ==> a.error == None && c.writes[|a.writes|].frame >= FrameCap)
    decreases |cuts|
  {
    if cuts != [] {
      SelectStep(cuts, cursor, blur, stamps, ArchiveThreshold);
      if cursor > cuts[0] {
        ArchiveIsCurrentPassCutAtCap(cuts[1..], cursor, blur, stamps);
      } else if Scan(cuts[0], blur, ArchiveThreshold).Reached? {
        var s := Scan(cuts[0], blur, ArchiveThreshold).frame;
        if s < FrameCap && s in stamps {
          ArchiveIsCurrentPassCutAtCap(cuts[1..], s, blur, stamps);
          var a := ArchiveSelect(cuts[1..], s, blur, stamps);
          var c := Select(cuts[1..], s, blur, stamps, ArchiveThreshold);
          var w := Write(s, stamps[s].image);
          assert ArchiveSelect(cuts, cursor, blur, stamps).writes == [w] + a.writes;
          assert Select(cuts, cursor, blur, stamps, ArchiveThreshold).writes == [w] + c.writes;
          if |a.writes| < |c.writes| {
            assert ([w] + c.writes)[|[w] + a.writes|] == c.writes[|a.writes|];
          }
        } else if s >= FrameCap && s in stamps {
          assert Select(cuts, cursor, blur, stamps, ArchiveThreshold).writes
              == [Write(s, stamps[s].image)] + Select(cuts[1..], s, blur, stamps, ArchiveThreshold).writes;
        }
      }
    }
  }

  /** The frames among `keys` whose score is strictly above the threshold. */
  function NonBlurAmong(blur: map<int, real>, keys: set<int>): set<int>
  {
    set k | k in keys && k in blur && blur[k] > ArchiveThreshold
  }

  /** Frames whose score is strictly above the threshold. */
  function NonBlurFrames(blur: map<int, real>): set<int>
  {
    NonBlurAmong(blur, blur.Keys)
  }

  /** Taking one key out of the keys still to visit. */
  lemma NonBlurAmongRemove(blur: map<int, real>, keys: set<int>, x: int)
    requires x in keys
    ensures x in blur && blur[x] > ArchiveThreshold ==>
      NonBlurAmong(blur, keys) == NonBlurAmong(blur, keys - {x}) + {x} && x !in NonBlurAmong(blur, keys - {x})
    ensures !(x in blur && blur[x] > ArchiveThreshold) ==> NonBlurAmong(blur, keys) == NonBlurAmong(blur, keys - {x})
  {
  }

  /** Every frame the counter counts, when below the cap, is one the scan
      stops on at once: counted frames are selectable. */
  lemma CountedFramesAreSelectable(blur: map<int, real>, k: int)
    requires k in NonBlurFrames(blur) && k < FrameCap
    ensures Scan(k, blur, ArchiveThreshold) == Reached(k)
  {
  }

  /** The converse fails at the threshold itself: a frame scoring exactly 35
      is chosen as a keyframe, yet it is not counted as a non-blur image. */
  lemma ThresholdFrameSelectableButNotCounted(image: Image, time: Timestamp)
    ensures var blur := map[1 := 35.0];
      var stamps := map[1 := Stamped(time, image)];
      && ArchiveSelect([1], 1, blur, stamps) == Outcome([Write(1, image)], None)
      && 1 !in NonBlurFrames(blur)
  {
    var blur := map[1 := 35.0];
    var stamps := map[1 := Stamped(time, image)];
    assert Scan(1, blur, ArchiveThreshold) == Reached(1);
    assert [1][1..] == [];
    assert ArchiveSelect([], 1, blur, stamps) == Outcome([], None);
  }

  /** At the cap the two passes part: with frame 499 blurry, the script
      writes nothing for the cut at 499, while the current pass writes
      frame 500. */
  lemma CapEndsArchivePass(image: Image, time: Timestamp)
    ensures var blur := map[499 := 10.0];
      var stamps := map[500 := Stamped(time, image)];
      && ArchiveSelect([499], 1, blur, stamps) == Outcome([], None)
      && Select([499], 1, blur, stamps, ArchiveThreshold) == Outcome([Write(500, image)], None)
  {
    var blur := map[499 := 10.0];
    var stamps := map[500 := Stamped(time, image)];
    assert Scan(500, blur, ArchiveThreshold) == Reached(500);
    assert Scan(499, blur, ArchiveThreshold) == Reached(500);
    assert [499][1..] == [];
    assert Select([], 500, blur, stamps, ArchiveThreshold) == Outcome([], None);
  }

  /** The globals of the script. */
  class ArchiveScript {
    const frameQueue: FrameQueue
    const frameTimestamps: FrameTimeline
    var blurMap: map<int, real>
    var detectedList: seq<int>

    constructor ()
      ensures fresh(frameQueue) && fresh(frameTimestamps)
      ensures frameQueue.items == [] && frameTimestamps.entries == map[]
      ensures blurMap == map[] && detectedList == []
    {
      frameQueue := new FrameQueue();
      frameTimestamps := new FrameTimeline();
      blurMap := map[];
      detectedList := [];
    }

    /** blur_detector.calculate_blur on the global blur_map. */
    method CalculateBlur(frameNum: int, frame: Image, focus: Image -> real)
      modifies this
      ensures blurMap == Scored(old(blurMap), frameNum, frame, focus)
      ensures detectedList == old(detectedList)
    {
      blurMap := blurMap[frameNum := focus(frame)];
    }

    /** scene_detector.process_frame in the script's version: the frame's
        number is appended to detected_list when the detector fires. */
    method ProcessFrame(frameNum: int, cuts: set<int>)
      modifies this
      ensures detectedList == if frameNum in cuts then old(detectedList) + [frameNum] else old(detectedList)
      ensures blurMap == old(blurMap)
    {
      if frameNum in cuts {
        detectedList := detectedList + [frameNum];
      }
    }

    /** Both analyzers on the k-th queued frame, joined before the next get(). */
    method AnalyzeFrame(ghost items: seq<QueueItem>, ghost k: nat, ghost blur0: map<int, real>,
                        ghost list0: seq<int>, frameNum: int, frame: Image, focus: Image -> real, cuts: set<int>)
      requires k < |items| && items[k] == Frame(frameNum, frame)
      requires blurMap == ScoreFrames(blur0, items, k, focus)
      requires detectedList == list0 + CutList(items, k, cuts)
      modifies this
      ensures blurMap == ScoreFrames(blur0, items, k + 1, focus)
      ensures detectedList == list0 + CutList(items, k + 1, cuts)
    {
      CutListStep(list0, items, k, cuts);
      ProcessFrame(frameNum, cuts);
      CalculateBlur(frameNum, frame, focus);
    }

    /** The consumer loop of the script (the same as process_video's). */
    method ConsumeFrames(focus: Image -> real, cuts: set<int>)
      requires EndOfStream in frameQueue.items
      modifies this, frameQueue
      ensures var items := old(frameQueue.items);
        var d := Dequeued(items, 0, 0);
        && frameQueue.items == items[d..]
        && blurMap == ScoreFrames(old(blurMap), items, d, focus)
        && detectedList == old(detectedList) + CutList(items, d, cuts)
    {
      ghost var items := frameQueue.items;
      ghost var blur0, list0 := blurMap, detectedList;
      ghost var taken := 0;
      // A sentinel in the queue; the loop never dequeues past it.
      ghost var end :| 0 <= end < |items| && items[end] == EndOfStream;
      var currentFrameCount := 0;
      while currentFrameCount < FrameCap
        invariant 0 <= taken <= end
        invariant frameQueue.items == items[taken..]
        invariant Dequeued(items, 0, 0) == taken + Dequeued(items, taken, currentFrameCount)
        invariant blurMap == ScoreFrames(blur0, items, taken, focus)
        invariant detectedList == list0 + CutList(items, taken, cuts)
        decreases |frameQueue.items|
      {
        var frameInfo := frameQueue.Get();
        assert frameInfo == items[taken];
        assert items[taken..][1..] == items[taken + 1..];
        taken := taken + 1;
        if frameInfo.EndOfStream? {
          break;
        }
        var frameNum, frame := frameInfo.num, frameInfo.image;
        AnalyzeFrame(items, taken - 1, blur0, list0, frameNum, frame, focus, cuts);
        currentFrameCount := frameNum;
      }
    }

    /** The keyframe loop over detected_list in list order. */
    method SelectKeyframes() returns (o: Outcome)
      ensures o == ArchiveSelect(detectedList, 1, blurMap, frameTimestamps.entries)
    {
      var cuts, blur, stamps := detectedList, blurMap, frameTimestamps.entries;
      var writes: seq<Write> := [];
      var currentFrameCount := 1;
      var i := 0;
      while i < |cuts|
        invariant 0 <= i <= |cuts|
        invariant var rest := ArchiveSelect(cuts[i..], currentFrameCount, blur, stamps);
          ArchiveSelect(cuts, 1, blur, stamps) == Outcome(writes + rest.writes, rest.error)
      {
        var x := cuts[i];
        assert cuts[i..][0] == x && cuts[i..][1..] == cuts[i + 1..];
        ArchiveSelectStep(cuts[i..], currentFrameCount, blur, stamps);
        if currentFrameCount > x {
          // "Frame detected too close"
          i := i + 1;
          continue;
        }
        var stop := ScanForward(x, blur, ArchiveThreshold);
        if stop.NoScore? {
          o := Outcome(writes, Some(MissingScore(stop.frame)));
          return;
        }
        currentFrameCount := stop.frame;
        if currentFrameCount >= FrameCap {
          break;
        }
        if currentFrameCount !in stamps {
          o := Outcome(writes, Some(MissingTimestamp(currentFrameCount)));
          return;
        }
        AppendThenPrepend(writes, Write(currentFrameCount, stamps[currentFrameCount].image),
                          ArchiveSelect(cuts[i + 1..], currentFrameCount, blur, stamps));
        writes := writes + [Write(currentFrameCount, stamps[currentFrameCount].image)];
        i := i + 1;
      }
      o := Outcome(writes, None);
    }

    /** blur_threshold_pass_count: the number of blur_map keys scoring
        strictly above 35. */
    method CountNonBlur() returns (count: nat)
      ensures count == |NonBlurFrames(blurMap)|
    {
      var blur := blurMap;
      var keys := blur.Keys;
      count := 0;
      assert NonBlurAmong(blur, keys) == NonBlurFrames(blur);
      while keys != {}
        invariant keys <= blur.Keys
        invariant count + |NonBlurAmong(blur, keys)| == |NonBlurFrames(blur)|
        decreases |keys|
      {
        if forall z :: z !in keys {
          assert false;
        }
        var x :| x in keys;
        NonBlurAmongRemove(blur, keys, x);
        if blur[x] > ArchiveThreshold {
          count := count + 1;
        }
        keys := keys - {x};
      }
    }

    /** The two passes after the consumer: the keyframe pass, then the
        non-blur count, which a KeyError in the keyframe pass never reaches. */
    method Report() returns (keyframes: Outcome, nonBlur: Option<nat>)
      ensures keyframes == ArchiveSelect(detectedList, 1, blurMap, frameTimestamps.entries)
      ensures nonBlur == (if keyframes.error == None then Some(|NonBlurFrames(blurMap)|) else None)
    {
      keyframes := SelectKeyframes();
      nonBlur := None;
      if keyframes.error == None {
        var count := CountNonBlur();
        nonBlur := Some(count);
      }
    }

    /** The script up to the end of its consumer loop, on freshly created
        globals: the reader fills the queue and the consumer drains it. */
    method Fill(reader: FrameReader, capture: seq<Capture>, stop: Option<nat>, focus: Image -> real, cuts: set<int>)
      requires reader.frameQueue == frameQueue && reader.frameTimestamps == frameTimestamps
      requires frameQueue.items == [] && frameTimestamps.entries == map[]
      requires blurMap == map[] && detectedList == []
      modifies this, reader, frameQueue, frameTimestamps
      ensures var n := FramesNumbered(capture, stop);
        && frameTimestamps.entries == Stamps(capture, n)
        && blurMap == ReaderScores(capture, focus, n)
        && detectedList == SortedKeys(CutsUpTo(cuts, n))
        && frameQueue.items == (if n == FrameCap then [EndOfStream] else [])
      ensures reader.isRunning == (stop != Some(FramesNumbered(capture, stop)))
    {
      ghost var n := FramesNumbered(capture, stop);
      reader.StartReading(capture, stop);
      assert frameQueue.items == ReaderQueue(capture, n);
      assert frameTimestamps.entries == Stamps(capture, n);
      assert frameQueue.items[n] == EndOfStream;
      ConsumeFrames(focus, cuts);
      ConsumerDrainsReaderQueue(capture, n, focus, map[], frameTimestamps.entries);
      ArchiveListIsSorted(capture, n, cuts);
    }

    /** The whole script on freshly created globals: the reader fills the
        queue, the consumer drains it, then the keyframe pass and the count of
        non-blur frames run. The keyframe pass walks the cut frames in
        increasing order over the scores of frames 1..n. A KeyError in that
        pass ends the script, so the count is only made when it succeeds. */
    method Run(reader: FrameReader, capture: seq<Capture>, stop: Option<nat>, focus: Image -> real, cuts: set<int>)
        returns (keyframes: Outcome, nonBlur: Option<nat>)
      requires reader.frameQueue == frameQueue && reader.frameTimestamps == frameTimestamps
      requires frameQueue.items == [] && frameTimestamps.entries == map[]
      requires blurMap == map[] && detectedList == []
      modifies this, reader, frameQueue, frameTimestamps
      ensures var n := FramesNumbered(capture, stop);
        var scores := ReaderScores(capture, focus, n);
        && frameTimestamps.entries == Stamps(capture, n)
        && blurMap == scores
        && detectedList == SortedKeys(CutsUpTo(cuts, n))
        && frameQueue.items == (if n == FrameCap then [EndOfStream] else [])
        && keyframes == ArchiveSelect(SortedKeys(CutsUpTo(cuts, n)), 1, scores, Stamps(capture, n))
        && nonBlur == (if keyframes.error == None then Some(|NonBlurFrames(scores)|) else None)
      ensures reader.isRunning == (stop != Some(FramesNumbered(capture, stop)))
    {
      Fill(reader, capture, stop, focus, cuts);
      keyframes, nonBlur := Report();
    }
  }
}
