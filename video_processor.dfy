/** VideoProcessor: owns the frame queue and the three shared dictionaries,
    drives the reader and the consumer loop, then saves the cut frames and the
    keyframe chosen after each cut. */
module VideoProcessing {
  import opened Frames
  import opened KeyframeScan
  import opened FrameReading
  import opened FrameConsumer

  /** save_detected_frames over the cut frames in `keys`: each cut's score is
      looked up (KeyError when missing) and then its frame is written. */
  function DetectedWrites(keys: seq<int>, detected: map<int, Detection>, blur: map<int, real>): Outcome
    requires forall i :: 0 <= i < |keys| ==> keys[i] in detected
    decreases |keys|
  {
    if keys == [] then Outcome([], None)
    else if keys[0] !in blur then Outcome([], Some(MissingScore(keys[0])))
    else Prepend(Write(keys[0], detected[keys[0]].image), DetectedWrites(keys[1..], detected, blur))
  }

  /** Proof aid: one unfolding of DetectedWrites, for the loop of SaveDetectedFrames. */
  lemma DetectedWritesStep(keys: seq<int>, detected: map<int, Detection>, blur: map<int, real>)
    requires keys != []
    requires forall i :: 0 <= i < |keys| ==> keys[i] in detected
    ensures DetectedWrites(keys, detected, blur)
            == if keys[0] !in blur then Outcome([], Some(MissingScore(keys[0])))
               else Prepend(Write(keys[0], detected[keys[0]].image), DetectedWrites(keys[1..], detected, blur))
  {
  }

  /** save_detected_frames succeeds exactly when every cut frame has a score;
      it then writes every cut frame, in order, with its own image. Otherwise
      it stops on a cut frame that has no score. */
  lemma {:induction false} DetectedWritesSucceedIff(keys: seq<int>, detected: map<int, Detection>, blur: map<int, real>)
    requires forall i :: 0 <= i < |keys| ==> keys[i] in detected
    ensures var o := DetectedWrites(keys, detected, blur);
      && (o.error == None <==> forall i :: 0 <= i < |keys| ==> keys[i] in blur)
      && (o.error == None ==> |o.writes| == |keys|)
      && (o.error == None ==> forall i :: 0 <= i < |keys| ==> o.writes[i] == Write(keys[i], detected[keys[i]].image))
      && (o.error.Some? ==> o.error.value.MissingScore? && o.error.value.frame in keys && o.error.value.frame !in blur)
    decreases |keys|
  {
    if keys != [] && keys[0] in blur {
      DetectedWritesSucceedIff(keys[1..], detected, blur);
      var o := DetectedWrites(keys, detected, blur);
      var rest := DetectedWrites(keys[1..], detected, blur);
      assert o.writes == [Write(keys[0], detected[keys[0]].image)] + rest.writes;
      if rest.error == None {
        forall i | 0 <= i < |keys| ensures o.writes[i] == Write(keys[i], detected[keys[i]].image) {
          if i > 0 { assert o.writes[i] == rest.writes[i - 1]; assert keys[i] == keys[1..][i - 1]; }
        }
      } else {
        assert !(keys[1..][0] in blur) || exists i :: 0 <= i < |keys[1..]| && keys[1..][i] !in blur;
        var i :| 0 <= i < |keys[1..]| && keys[1..][i] !in blur;
        assert keys[i + 1] !in blur;
      }
      assert (forall i :: 0 <= i < |keys| ==> keys[i] in blur) ==> (forall i :: 0 <= i < |keys[1..]| ==> keys[1..][i] in blur);
    }
  }

  /** Every cut the consumer records is a consumed frame, so it has a score:
      save_detected_frames never raises KeyError after process_video. */
  lemma SceneChangesAlwaysScored(capture: seq<Capture>, focus: Image -> real,
                                 cutTimes: map<int, Timestamp>, n: nat)
    ensures var cuts := ReaderCuts(capture, cutTimes, n);
      DetectedWrites(SortedKeys(cuts.Keys), cuts, ReaderScores(capture, focus, n)).error == None
  {
    var cuts := ReaderCuts(capture, cutTimes, n);
    var keys := SortedKeys(cuts.Keys);
    forall i | 0 <= i < |keys| ensures keys[i] in ReaderScores(capture, focus, n) {
      assert keys[i] in cuts.Keys;
    }
    DetectedWritesSucceedIff(keys, cuts, ReaderScores(capture, focus, n));
  }

  /** After a complete 500-frame run every frame up to the cap has its score
      and timestamp, so the keyframe pass raises no KeyError. */
  lemma FullStreamKeyframesNeverFail(capture: seq<Capture>, focus: Image -> real,
                                     cutTimes: map<int, Timestamp>, threshold: real)
    ensures Select(SortedKeys(ReaderCuts(capture, cutTimes, FrameCap).Keys), 1,
                   ReaderScores(capture, focus, FrameCap), Stamps(capture, FrameCap), threshold).error == None
  {
    var cuts := SortedKeys(ReaderCuts(capture, cutTimes, FrameCap).Keys);
    forall i | 0 <= i < |cuts| ensures cuts[i] <= FrameCap {
      assert cuts[i] in ReaderCuts(capture, cutTimes, FrameCap).Keys;
    }
    SelectCompleteMapsNoError(cuts, 1, ReaderScores(capture, focus, FrameCap), Stamps(capture, FrameCap), threshold);
  }

  /** On a stream that ends after n < 500 frames, a cut whose frames up to the
      last one are all blurry makes the scan look up the score of frame n + 1,
      which does not exist. */
  lemma {:induction false} BlurryTailOfShortStream(cut: int, n: int, blur: map<int, real>, threshold: real)
    requires 1 <= cut <= n && n + 1 < FrameCap
    requires forall f :: f in blur <==> 1 <= f <= n
    requires forall f :: cut <= f <= n ==> blur[f] < threshold
    ensures Scan(cut, blur, threshold) == NoScore(n + 1)
    decreases n - cut
  {
    if cut < n {
      BlurryTailOfShortStream(cut + 1, n, blur, threshold);
    } else {
      assert Scan(n + 1, blur, threshold) == NoScore(n + 1);
    }
  }

  class VideoProcessor {
    const videoSource: string
    const saveSceneChanges: bool
    const saveBlurFrames: bool
    const blurThreshold: real
    const contentThreshold: int
    const frameQueue: FrameQueue
    const frameTimestamps: FrameTimeline
    var blurMap: map<int, real>
    var detectedFrames: map<int, Detection>
    const frameReader: FrameReader

    /** The reader shares the processor's queue and timestamp dictionary. */
    ghost predicate Valid()
      reads this
    {
      frameReader.frameQueue == frameQueue && frameReader.frameTimestamps == frameTimestamps
    }

    /** The scene detector and the blur detector are not objects of the model:
        they are the `cutTimes` oracle and the `focus` function given to
        ProcessVideo. contentThreshold only configures the former. */
    constructor (videoSource: string, blurThreshold: real, contentThreshold: int,
                 saveSceneChanges: bool, saveBlurFrames: bool)
      ensures Valid()
      ensures this.videoSource == videoSource && this.blurThreshold == blurThreshold
      ensures this.contentThreshold == contentThreshold
      ensures this.saveSceneChanges == saveSceneChanges && this.saveBlurFrames == saveBlurFrames
      ensures fresh(frameQueue) && fresh(frameTimestamps) && fresh(frameReader)
      ensures frameQueue.items == [] && frameTimestamps.entries == map[]
      ensures blurMap == map[] && detectedFrames == map[]
      ensures frameReader.videoSource == videoSource && !frameReader.isRunning
    {
      this.videoSource := videoSource;
      this.saveSceneChanges := saveSceneChanges;
      this.saveBlurFrames := saveBlurFrames;
      this.blurThreshold := blurThreshold;
      this.contentThreshold := contentThreshold;
      var queue := new FrameQueue();
      var timeline := new FrameTimeline();
      frameQueue := queue;
      frameTimestamps := timeline;
      blurMap := map[];
      detectedFrames := map[];
      frameReader := new FrameReader(videoSource, queue, timeline);
    }

    /** The loop of process_video. Each dequeued frame gets one focus score and
        one visit of the cut detector (both joined before the next dequeue). */
    method ConsumeFrames(focus: Image -> real, cutTimes: map<int, Timestamp>)
      requires EndOfStream in frameQueue.items
      requires QueuedFramesStamped(frameQueue.items, frameTimestamps.entries)
      modifies this, frameQueue
      ensures var items := old(frameQueue.items);
        var d := Dequeued(items, 0, 0);
        && frameQueue.items == items[d..]
        && blurMap == ScoreFrames(old(blurMap), items, d, focus)
        && detectedFrames == RecordCuts(old(detectedFrames), items, d, cutTimes, frameTimestamps.entries)
    {
      ghost var items, entries := frameQueue.items, frameTimestamps.entries;
      ghost var blur0, detected0 := blurMap, detectedFrames;
      ghost var taken := 0;
      // A sentinel in the queue; the loop never dequeues past it.
      ghost var end :| 0 <= end < |items| && items[end] == EndOfStream;
      var currentFrameCount := 0;
      while currentFrameCount < FrameCap
        invariant 0 <= taken <= end
        invariant frameQueue.items == items[taken..]
        invariant Dequeued(items, 0, 0) == taken + Dequeued(items, taken, currentFrameCount)
        invariant blurMap == ScoreFrames(blur0, items, taken, focus)
        invariant detectedFrames == RecordCuts(detected0, items, taken, cutTimes, entries)
        decreases |frameQueue.items|
      {
        var frameInfo := frameQueue.Get();
        assert frameInfo == items[taken];
        assert items[taken..][1..] == items[taken + 1..];
        taken := taken + 1;
        if frameInfo.EndOfStream? {
          break;
        }
        var frameNum, frame := frameInfo.num, frameInfo.image;
        assert frameNum in entries;
        // Both analyzers run on the frame and are joined before the next get().
        ProcessFrame(frameNum, frame, cutTimes);
        CalculateBlur(frameNum, frame, focus);
        currentFrameCount := frameNum;
      }
    }

    /** blur_detector.calculate_blur: the blur detector holds blur_map by
        reference and stores the frame's focus measure under its number. */
    method CalculateBlur(frameNum: int, frame: Image, focus: Image -> real)
      modifies this
      ensures blurMap == Scored(old(blurMap), frameNum, frame, focus)
      ensures detectedFrames == old(detectedFrames)
    {
      blurMap := blurMap[frameNum := focus(frame)];
    }

    /** scene_detector.process_frame: when the detector fires on the frame,
        its callback looks the frame's timestamp up and stores the frame with
        the elapsed time in detected_frames, which it holds by reference. */
    method ProcessFrame(frameNum: int, frame: Image, cutTimes: map<int, Timestamp>)
      requires frameNum in frameTimestamps.entries
      modifies this
      ensures detectedFrames == Detected(old(detectedFrames), frameNum, frame, cutTimes, frameTimestamps.entries)
      ensures blurMap == old(blurMap)
    {
      if frameNum in cutTimes {
        var ingested := frameTimestamps.entries[frameNum].time;
        detectedFrames := detectedFrames[frameNum := Detection(frame, cutTimes[frameNum] - ingested)];
      }
    }

    /** save_detected_frames, visiting detected_frames in ascending frame
        order (its insertion order, since frames are consumed in order). */
    method SaveDetectedFrames() returns (o: Outcome)
      ensures o == DetectedWrites(SortedKeys(detectedFrames.Keys), detectedFrames, blurMap)
    {
      var detected, blur := detectedFrames, blurMap;
      var keys := SortedKeys(detected.Keys);
      assert forall i :: 0 <= i < |keys| ==> keys[i] in detected;
      var writes: seq<Write> := [];
      for i := 0 to |keys|
        invariant var rest := DetectedWrites(keys[i..], detected, blur);
          DetectedWrites(keys, detected, blur) == Outcome(writes + rest.writes, rest.error)
      {
        var frameNum := keys[i];
        var detection := detected[frameNum];
        DetectedWritesStep(keys[i..], detected, blur);
        assert keys[i..][1..] == keys[i + 1..];
        if frameNum !in blur {
          o := Outcome(writes, Some(MissingScore(frameNum)));
          return;
        }
        AppendThenPrepend(writes, Write(frameNum, detection.image), DetectedWrites(keys[i + 1..], detected, blur));
        writes := writes + [Write(frameNum, detection.image)];
      }
      o := Outcome(writes, None);
    }

    /** save_blur_threshold_frames: the cursor pass over the sorted cuts. */
    method SaveBlurThresholdFrames() returns (o: Outcome)
      ensures o == Select(SortedKeys(detectedFrames.Keys), 1, blurMap, frameTimestamps.entries, blurThreshold)
    {
      var blur, stamps, threshold := blurMap, frameTimestamps.entries, blurThreshold;
      var cuts := SortedKeys(detectedFrames.Keys);
      var writes: seq<Write> := [];
      var currentFrameCount := 1;
      var i := 0;
      while i < |cuts|
        invariant 0 <= i <= |cuts|
        invariant var rest := Select(cuts[i..], currentFrameCount, blur, stamps, threshold);
          Select(cuts, 1, blur, stamps, threshold) == Outcome(writes + rest.writes, rest.error)
      {
        var frameNum := cuts[i];
        assert cuts[i..][0] == frameNum && cuts[i..][1..] == cuts[i + 1..];
        SelectStep(cuts[i..], currentFrameCount, blur, stamps, threshold);
        if currentFrameCount > frameNum {
          i := i + 1;
          continue;
        }
        var stop := ScanForward(frameNum, blur, threshold);
        if stop.NoScore? {
          o := Outcome(writes, Some(MissingScore(stop.frame)));
          return;
        }
        currentFrameCount := stop.frame;
        if currentFrameCount !in stamps {
          o := Outcome(writes, Some(MissingTimestamp(currentFrameCount)));
          return;
        }
        AppendThenPrepend(writes, Write(currentFrameCount, stamps[currentFrameCount].image),
                          Select(cuts[i + 1..], currentFrameCount, blur, stamps, threshold));
        writes := writes + [Write(currentFrameCount, stamps[currentFrameCount].image)];
        i := i + 1;
      }
      o := Outcome(writes, None);
    }

    /** process_video on a freshly constructed processor. The reader is run to
        completion first; since the queue is FIFO and every frame is stamped
        before it is enqueued, the consumer sees the same items in the same
        order as under any interleaving of the two threads. */
    method ProcessVideo(capture: seq<Capture>, stop: Option<nat>, focus: Image -> real,
                        cutTimes: map<int, Timestamp>)
      returns (sceneChanges: Option<Outcome>, keyframes: Option<Outcome>)
      requires Valid()
      requires frameQueue.items == [] && frameTimestamps.entries == map[]
      requires blurMap == map[] && detectedFrames == map[]
      modifies this, frameQueue, frameTimestamps, frameReader
      ensures Valid()
      ensures frameReader.isRunning == (stop != Some(FramesNumbered(capture, stop)))
      ensures var n := FramesNumbered(capture, stop);
        && frameTimestamps.entries == Stamps(capture, n)
        && blurMap == ReaderScores(capture, focus, n)
        && detectedFrames == ReaderCuts(capture, cutTimes, n)
        && frameQueue.items == (if n == FrameCap then [EndOfStream] else [])
      ensures sceneChanges == if saveSceneChanges
        then Some(DetectedWrites(SortedKeys(detectedFrames.Keys), detectedFrames, blurMap)) else None
      ensures sceneChanges.Some? ==> sceneChanges.value.error == None
      ensures keyframes == if saveBlurFrames
        then Some(Select(SortedKeys(detectedFrames.Keys), 1, blurMap, frameTimestamps.entries, blurThreshold)) else None
      ensures FramesNumbered(capture, stop) == FrameCap && keyframes.Some? ==> keyframes.value.error == None
    {
      ghost var n := FramesNumbered(capture, stop);
      frameReader.StartReading(capture, stop);
      assert frameQueue.items == ReaderQueue(capture, n);
      assert frameTimestamps.entries == Stamps(capture, n);
      assert frameQueue.items[n] == EndOfStream;
      ConsumeFrames(focus, cutTimes);
      ConsumerDrainsReaderQueue(capture, n, focus, cutTimes, frameTimestamps.entries);

      // frame_reader_thread.join() has nothing left to wait for here.
      sceneChanges, keyframes := None, None;
      if saveSceneChanges {
        var written := SaveDetectedFrames();
        sceneChanges := Some(written);
        SceneChangesAlwaysScored(capture, focus, cutTimes, n);
      }
      if saveBlurFrames {
        var written := SaveBlurThresholdFrames();
        keyframes := Some(written);
        if n == FrameCap {
          FullStreamKeyframesNeverFail(capture, focus, cutTimes, blurThreshold);
        }
      }
    }
  }
}
