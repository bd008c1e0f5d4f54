# SCD-HoloLens keyframe picker, modelled in Dafny

SCD-HoloLens reads up to 500 frames from a video source. For every frame it
computes a focus ("blur") score and asks a scene-change detector whether a cut
happens there. Afterwards it saves the cut frames. For each cut not already
passed by the previous scan, it also saves a keyframe: the first frame at or
after the cut whose score reaches the blur threshold, or frame 500 if the scan
gets there first. The archived script instead saves nothing more once a scan
reaches 500. This project models the sequential bookkeeping of that pipeline:

- **Frame numbering and hand-off** (`FrameReader`, module `FrameReading`,
  `frame_reader.dfy`).
  - `start_reading` numbers successful reads 1..N with N ≤ 500.
  - It records each frame in `frame_timestamps` before putting `(k, frame)` on
    the queue.
  - It always ends the queue with one `None` sentinel.
  - `stop_reading` clears `is_running`.
  - The capture device is a sequence of `(ok, image, time)` read results. The
    one concurrent `stop_reading` call is placed by how many frames have been
    numbered when it takes effect.
- **The consumer loop** (module `FrameConsumer`; the `ConsumeFrames` methods of
  `VideoProcessor` and `ArchiveScript`).
  - Frames are dequeued in FIFO order.
  - Each frame is scored by an uninterpreted focus function and shown to the
    cut detector, which is an oracle.
  - The loop stops on the sentinel, or right after a frame numbered ≥ 500.
  - It is proved that, on the reader's queue, the loop scores exactly frames
    1..N and records exactly the cuts among them.
- **Post-hoc keyframe selection** (module `KeyframeScan`;
  `VideoProcessor.SaveBlurThresholdFrames`).
  - One cursor walks the sorted cut frames. A cut behind the cursor is skipped.
  - Otherwise the cursor scans forward while it is below 500 and the score is
    below the threshold. The frame where it stops is written.
  - Missing dictionary keys (Python `KeyError`) are a modelled error outcome.
    It keeps the writes done before the error.
- **`save_detected_frames`** (`VideoProcessor.SaveDetectedFrames`): writes every
  cut frame after looking up its score.
- **The archived script** (module `ArchiveMain`, `archive_main.dfy`).
  - It has the same consumer loop, over global dictionaries and `detected_list`.
  - Its keyframe pass uses a fixed threshold of 35 and breaks out of all
    remaining cuts once the cursor reaches 500.
  - It counts the frames whose score is strictly above 35.

Concurrency is modelled by one interleaving: the reader runs to completion,
then the consumer drains the queue. The queue is FIFO, and each frame's
timestamp entry exists before the frame is queued. So the consumer's effect
is the same under any interleaving.

Three edge cases of the keyframe pass, each proved:

- **Cap.** When a scan reaches 500, `save_blur_threshold_frames` writes frame
  500, whatever its score. Its docstring (VideoProcessor.py:120) speaks of
  saving "frames above the blur threshold", and frame 500 need not be one.
  See `AllBlurrySelectsCap`.
- **Reuse.** A cut that lands exactly on the previous keyframe selects and
  writes that frame again. See `RepeatedKeyframe`.
- **Short stream.** On a stream of N < 499 frames, a cut whose later frames
  are all blurry makes the scan look up the score of frame N+1, which raises
  `KeyError`. See `BlurryTailOfShortStream`.

## Model

| member | source | states |
|---|---|---|
| FrameReading.NumberedFrom | FrameReader.py:38-47 | from k numbered frames the loop numbers n frames with k ≤ n ≤ 500; every read in k..n-1 succeeded; it stops at the cap, at a stop request seen at the guard, or at a failed read; it never numbers past a pending stop |
| FrameReading.FramesNumbered | FrameReader.py:38-47 | N ≤ 500; reads 0..N-1 all succeeded; N is the cap, the stop point, or the index of the first failed read; a stop at s gives N ≤ s |
| FrameReading.Enqueued | FrameReader.py:45-47 | the queue items put by the reader: (1, f1) … (N, fN), frame k being the k-th read |
| FrameReading.Stamps | FrameReader.py:45-46 | the frame_timestamps entries the reader writes: key k ↦ (time, frame) of the k-th read, for 1 ≤ k ≤ N |
| FrameReading.ReaderQueueStamped | FrameReader.py:46-47 | every frame on the reader's queue already has its frame_timestamps entry |
| FrameReading.PublishKeepsStamped | FrameReader.py:46-47 | writing the timestamp entry and then enqueueing the frame keeps every queued frame stamped |
| FrameReading.FrameReader.constructor | FrameReader.py:16-28 | the reader holds the given source, queue and timestamp dictionary and is not running |
| FrameReading.FrameReader.StartReading | FrameReader.py:30-50 | the queue gains (1,f1)…(N,fN) and then exactly one sentinel; frame_timestamps gains exactly keys 1..N, each with the frame and time of that read; is_running ends false exactly when the stop was requested; queued frames stay stamped |
| FrameReading.FrameReader.StopReading | FrameReader.py:52-56 | is_running becomes false |
| FrameConsumer.Dequeued | VideoProcessor.py:71-91 | the loop never takes more items than the queue holds |
| FrameConsumer.Scored | BlurDetector.py:29-39 | calculate_blur's effect: blur_map[n] becomes the focus measure of the frame |
| FrameConsumer.Detected | SceneChangeDetector.py:30-41 | the callback's effect when the detector fires on frame n: detected_frames[n] becomes (frame, detection time − ingestion time) |
| FrameConsumer.ScoreFrames | VideoProcessor.py:79-91 | blur_map after the first k dequeued items: each frame scored once, in queue order; the sentinel changes nothing |
| FrameConsumer.RecordCuts | VideoProcessor.py:79-91 | detected_frames after the first k dequeued items: each frame shown to the detector once, in queue order |
| FrameConsumer.DequeuedStopRule | VideoProcessor.py:72-91 | with a sentinel queued, the loop takes at least one item and never passes the sentinel; every item before the last one taken is a frame numbered below 500; the last one taken is the sentinel or a frame numbered ≥ 500 |
| FrameConsumer.ReaderQueueDequeued | VideoProcessor.py:72-77 | on the reader's queue the loop takes all N frames, and also the sentinel exactly when N < 500 |
| FrameConsumer.ScoresOfReaderQueue | VideoProcessor.py:79-91 | scoring the first k frames of the reader's queue gives blur_map = {i: focus(fi) : 1 ≤ i ≤ k} |
| FrameConsumer.CutsOfReaderQueue | VideoProcessor.py:79-91 | showing the first k frames to the detector records exactly the frames among 1..k it fires on, each with its image and its time since ingestion |
| FrameConsumer.ConsumerDrainsReaderQueue | VideoProcessor.py:71-91 | after draining the reader's queue, only the sentinel is left (when N = 500) or nothing; blur_map holds the scores of exactly frames 1..N; detected_frames holds exactly the cuts among 1..N |
| KeyframeScan.SortedKeys | VideoProcessor.py:126 | sorted(keys): as many entries as keys, each a key, strictly ascending |
| KeyframeScan.SortedKeysComplete | VideoProcessor.py:126 | every key of detected_frames is visited |
| KeyframeScan.SortedKeysUnique | VideoProcessor.py:126 | any strictly ascending listing of exactly the keys is sorted(keys) |
| KeyframeScan.Scan | VideoProcessor.py:131-132 | the scan from a cut stops at the first frame s with score ≥ threshold, or at 500; every frame in [cut, s) scores below the threshold; KeyError only on a frame below 500 that has no score |
| KeyframeScan.Select | VideoProcessor.py:125-136 | the keyframe pass: a cut behind the cursor is skipped; otherwise the scan runs from the cut, the frame where it stops is looked up in frame_timestamps and written, and the cursor stays there; a missing key ends the pass with KeyError |
| KeyframeScan.ScanForward | VideoProcessor.py:130-132 | the scanning loop returns where Scan says the cursor stops, or the frame whose missing score raises KeyError |
| KeyframeScan.SelectNondecreasing | VideoProcessor.py:125-132 | the frames written never go behind the starting cursor and never decrease |
| KeyframeScan.SelectWritesQualify | VideoProcessor.py:130-136 | each written frame has its frame_timestamps image, and scores at least the threshold unless it is frame 500 or beyond |
| KeyframeScan.SelectAtMostOnePerCut | VideoProcessor.py:126-136 | each cut yields at most one write |
| KeyframeScan.SelectErrorIsMissingKey | VideoProcessor.py:131-134 | the pass fails only on a missing score for a frame from the cursor up to 499, or on a missing timestamp at or after the cursor |
| KeyframeScan.SelectCompleteMapsNoError | VideoProcessor.py:131-134 | with scores for every frame below 500, timestamps up to 500 and cuts ≤ 500, the pass raises no KeyError |
| KeyframeScan.BlurryRunReachesCap | VideoProcessor.py:131-132 | when every frame from the cursor to 499 is blurry, the scan stops at 500 |
| KeyframeScan.AllBlurrySelectsCap | VideoProcessor.py:131-136 | when every score is below the threshold, the pass succeeds, every write is frame 500, and a cut at or after the cursor writes at least once |
| KeyframeScan.RepeatedKeyframe | VideoProcessor.py:127-136 | a cut equal to the previously written keyframe writes that same frame again |
| KeyframeScan.ScanFindsFirstSharpFrame | VideoProcessor.py:130-136 | scores {1:10, 2:10, 3:70, 4:10}, threshold 50, one cut at 1: frame 3 is written |
| VideoProcessing.DetectedWrites | VideoProcessor.py:108-116 | save_detected_frames: for each cut its blur_map entry is looked up (KeyError if missing) and its frame is written |
| VideoProcessing.DetectedWritesSucceedIff | VideoProcessor.py:108-116 | save_detected_frames succeeds exactly when every cut has a score, and then writes every cut in order with its own image; otherwise it fails on a cut with no score |
| VideoProcessing.SceneChangesAlwaysScored | VideoProcessor.py:108-113 | after the consumer loop every recorded cut has a score, so save_detected_frames never raises KeyError |
| VideoProcessing.FullStreamKeyframesNeverFail | VideoProcessor.py:125-136 | after a full 500-frame run, the keyframe pass raises no KeyError |
| VideoProcessing.BlurryTailOfShortStream | VideoProcessor.py:131 | on a stream of N < 499 frames, a cut followed only by blurry frames makes the scan look up the missing score of frame N+1 |
| VideoProcessing.VideoProcessor.constructor | VideoProcessor.py:30-62 | fresh empty queue, timestamp dictionary, blur_map and detected_frames; the reader shares the queue and the dictionary |
| VideoProcessing.VideoProcessor.ConsumeFrames | VideoProcessor.py:71-91 | the loop removes exactly the items the stopping rule takes; blur_map and detected_frames become the score and cut folds over them |
| VideoProcessing.VideoProcessor.CalculateBlur | BlurDetector.py:29-39 | blur_map[frame_num] becomes the frame's focus measure; detected_frames is unchanged |
| VideoProcessing.VideoProcessor.ProcessFrame | SceneChangeDetector.py:30-52 | when the detector fires, detected_frames[frame_num] becomes (frame, detection time − ingestion time); otherwise nothing changes; blur_map is unchanged |
| VideoProcessing.VideoProcessor.SaveDetectedFrames | VideoProcessor.py:101-116 | the writes and outcome are those of the pass over the cuts in ascending order |
| VideoProcessing.VideoProcessor.SaveBlurThresholdFrames | VideoProcessor.py:118-136 | the writes and outcome are those of the cursor pass over the sorted cuts from cursor 1 |
| VideoProcessing.VideoProcessor.ProcessVideo | VideoProcessor.py:64-99 | after a run, frame_timestamps holds frames 1..N, blur_map their scores, detected_frames the cuts among them; save_detected_frames never fails; after a full 500-frame run the keyframe pass never fails; the reader's is_running ends false exactly when the stop was requested |
| ArchiveMain.CutList | archive/main.py:31-51 | detected_list after the first k dequeued items: the number of each frame the detector fires on, appended in queue order |
| ArchiveMain.CutListOfReaderQueue | archive/main.py:31-51 | on the reader's queue, detected_list after k frames is the cut frames among 1..k in frame order |
| ArchiveMain.CutsAscendingInOrder | archive/main.py:31-51 | the cut frames among 1..k, collected in frame order, are listed each once and in increasing order |
| ArchiveMain.ArchiveListIsSorted | archive/main.py:31-58 | after the loop, detected_list equals sorted(cuts among 1..N), so the script visits cuts in the same order as the current pass |
| ArchiveMain.ArchiveSelect | archive/main.py:58-74 | the script's keyframe pass over detected_list at threshold 35: as the current pass, except that a scan reaching 500 ends the whole pass without writing |
| ArchiveMain.ArchiveWritesSharp | archive/main.py:58-74 | every written frame is below 500, scores at least 35, carries its frame_timestamps image, and the written frames never decrease nor fall behind the cursor |
| ArchiveMain.ArchiveIsCurrentPassCutAtCap | archive/main.py:58-74 | the script's writes are a prefix of the current pass's writes at threshold 35; a failure is the same failure; writing fewer means the next current-pass write is frame ≥ 500 |
| ArchiveMain.NonBlurFrames | archive/main.py:76-79 | the blur_map keys whose score is strictly above 35 |
| ArchiveMain.CountedFramesAreSelectable | archive/main.py:64-66 | a counted frame below 500 is one the scan stops on at once |
| ArchiveMain.ThresholdFrameSelectableButNotCounted | archive/main.py:65 | a frame scoring exactly 35 is written as a keyframe but is not counted as non-blur |
| ArchiveMain.CapEndsArchivePass | archive/main.py:64-69 | with frame 499 blurry, the script writes nothing for a cut at 499 while the current pass writes frame 500 |
| ArchiveMain.ArchiveScript.constructor | archive/main.py:15-19 | fresh empty frame_queue, frame_timestamps, blur_map and detected_list |
| ArchiveMain.ArchiveScript.CalculateBlur | BlurDetector.py:29-39 | blur_map[frame_num] becomes the frame's focus measure; detected_list is unchanged |
| ArchiveMain.ArchiveScript.ProcessFrame | archive/main.py:42-49 | the frame's number is appended to detected_list exactly when the detector fires on it; blur_map is unchanged |
| ArchiveMain.ArchiveScript.ConsumeFrames | archive/main.py:31-51 | the loop removes exactly the items the stopping rule takes; blur_map becomes the score fold; detected_list gains the cut frames in consumption order |
| ArchiveMain.ArchiveScript.SelectKeyframes | archive/main.py:58-74 | the writes and outcome are those of the script's pass over detected_list from cursor 1 |
| ArchiveMain.ArchiveScript.CountNonBlur | archive/main.py:76-79 | the count is the number of blur_map keys scoring strictly above 35 |
| ArchiveMain.ArchiveScript.AnalyzeFrame | archive/main.py:42-49 | after both analyzers run on the next queued frame, blur_map and detected_list are the score fold and the cut list extended by that one frame |
| ArchiveMain.ArchiveScript.Fill | archive/main.py:28-55 | after the reader thread and the consumer loop, frame_timestamps holds frames 1..N, blur_map their scores, detected_list the cuts among 1..N in increasing order, the queue only the sentinel (N = 500) or nothing, and is_running is false exactly when the stop was requested |
| ArchiveMain.ArchiveScript.Report | archive/main.py:58-79 | the keyframe pass is the script's pass over detected_list; the non-blur count is made, and is that of blur_map, exactly when that pass raised no KeyError |
| ArchiveMain.ArchiveScript.Run | archive/main.py:28-79 | after the run, frame_timestamps holds frames 1..N, blur_map their scores, detected_list the cuts among 1..N in increasing order, and the queue only the sentinel (N = 500) or nothing; the keyframe pass is the script's pass over those cuts; the count of the non-blur frames among frames 1..N is made only when that pass raised no KeyError; the reader's is_running ends false exactly when the stop was requested |

## Left out

- Threads, `queue.Queue` blocking, the busy-wait on `qsize()` and the `join()` calls: only the sequential, post-join effect is modelled. The reader runs to completion before the consumer starts.
- `stop_reading` from another thread: modelled as the number of frames numbered when the flag is seen at the loop guard.
- The `waitKey(1) == 'q'` exit in `start_reading`: it needs a window and a key press. The model never takes it.
- `cv2.VideoCapture`, `read`, `imwrite` and `os.makedirs`: reads are the `capture` parameter; writes are the `Write` values of an outcome. Output paths and prints are not modelled.
- The Laplacian-variance focus measure (BlurDetector.py:41-51): floating-point image numerics, modelled as an uninterpreted `focus` function. Scores are `real`, so NaN and float rounding are not modelled.
- scenedetect's `ContentDetector` and `SceneManager._process_frame`: a foreign library. It is modelled by an oracle. `cutTimes` gives the clock reading at which the detector fires on a frame. The archive's `cuts` is the set of frames it fires on.
- `time.time()`: timestamps are opaque values taken from the capture sequence and the oracle.
- VideoProcessing.VideoProcessor.ProcessVideo: it is specified only for a freshly constructed processor, which is how the module-level example uses it.
- VideoProcessing.VideoProcessor.SaveDetectedFrames: detected_frames is iterated in ascending key order, not in dict insertion order. The consumer inserts cuts in ascending frame order, so the two agree.
- FrameConsumer.RecordCuts: the detector callback's timestamp lookup is guarded in the model. Every queued frame is stamped, which is proved, so the guard always holds on the reader's queue.
- The archived script's constructor calls (archive/main.py:22-24) pass arguments the current classes do not accept. The script is modelled with the current `FrameReader`.
- The older detector that appends to `detected_list` is not part of this model. It is assumed to append the frame number of each frame it fires on.
- The archived script's timing report (archive/main.py:81-88) is not modelled.
- CameraStream.py, KeyFrameSelection.py, VideoResizer.py and ResizeVideoScript.py are camera, FPS and resizing code outside the keyframe picker. They are not modelled.
