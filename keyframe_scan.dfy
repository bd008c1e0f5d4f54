/** The post-hoc keyframe selection of VideoProcessor.save_blur_threshold_frames,
    as specification functions: the sorted cut list, the forward scan from one
    cut, and the left-to-right pass with a cursor that never rewinds. */
module KeyframeScan {
  import opened Frames

  /** Every non-empty finite set of frame numbers has a least element. */
  lemma {:induction false} MinExists(s: set<int>)
    requires s != {}
    ensures exists m :: m in s && forall y :: y in s ==> m <= y
    decreases |s|
  {
    if forall z :: z !in s { assert false; }
    var x :| x in s;
    if s != {x} {
      MinExists(s - {x});
      var m :| m in s - {x} && forall y :: y in s - {x} ==> m <= y;
      if x < m {
        assert forall y :: y in s ==> x <= y by {
          forall y | y in s ensures x <= y {
            if y != x { assert y in s - {x}; }
          }
        }
      } else {
        assert forall y :: y in s ==> m <= y by {
          forall y | y in s ensures m <= y {
            if y != x { assert y in s - {x}; }
          }
        }
        assert m in s;
      }
    }
  }

  /** The least key of a non-empty key set. */
  function Least(s: set<int>): (m: int)
    requires s != {}
    ensures m in s && forall y :: y in s ==> m <= y
  {
    MinExists(s);
    var m :| m in s && forall y :: y in s ==> m <= y;
    m
  }

  /** sorted(keys): the keys in strictly ascending order, each exactly once. */
  function SortedKeys(s: set<int>): (r: seq<int>)
    ensures |r| == |s|
    ensures forall i :: 0 <= i < |r| ==> r[i] in s
    ensures forall i, j :: 0 <= i < j < |r| ==> r[i] < r[j]
    decreases |s|
  {
    if s == {} then []
    else
      var m := Least(s);
      var rest := SortedKeys(s - {m});
      assert forall j :: 0 <= j < |rest| ==> m < rest[j] by {
        forall j | 0 <= j < |rest| ensures m < rest[j] {
          assert rest[j] in s - {m};
        }
      }
      [m] + rest
  }

  /** Every key of the dictionary is visited. */
  lemma {:induction false} SortedKeysComplete(s: set<int>, x: int)
    requires x in s
    ensures x in SortedKeys(s)
    decreases |s|
  {
    var m := Least(s);
    if x != m {
      SortedKeysComplete(s - {m}, x);
      assert SortedKeys(s) == [m] + SortedKeys(s - {m});
    }
  }

  /** Past a common least element, every later element of `a` is a later
      element of `b`. */
  lemma TailsContained(a: seq<int>, b: seq<int>)
    requires a != [] && b != [] && a[0] == b[0]
    requires forall i, j :: 0 <= i < j < |a| ==> a[i] < a[j]
    requires forall x :: x in a ==> x in b
    ensures forall x :: x in a[1..] ==> x in b[1..]
  {
    forall x | x in a[1..] ensures x in b[1..] {
      var k :| 0 <= k < |a[1..]| && a[1..][k] == x;
      assert x == a[k + 1] && a[0] < x;
      assert x in a;
      var m :| 0 <= m < |b| && b[m] == x;
      assert b[1..][m - 1] == x;
    }
  }

  /** Two strictly increasing sequences with the same elements are equal. */
  lemma {:induction false} IncreasingSameElementsEqual(a: seq<int>, b: seq<int>)
    requires forall i, j :: 0 <= i < j < |a| ==> a[i] < a[j]
    requires forall i, j :: 0 <= i < j < |b| ==> b[i] < b[j]
    requires forall x :: x in a <==> x in b
    ensures a == b
    decreases |a|
  {
    if a != [] || b != [] {
      assert a != [] && b != [] by {
        if a != [] { assert a[0] in a; }
        if b != [] { assert b[0] in b; }
      }
      assert a[0] in a && b[0] in b;
      var i :| 0 <= i < |a| && a[i] == b[0];
      var j :| 0 <= j < |b| && b[j] == a[0];
      assert a[0] <= b[0] && b[0] <= a[0];
      TailsContained(a, b);
      TailsContained(b, a);
      IncreasingSameElementsEqual(a[1..], b[1..]);
      assert a == [a[0]] + a[1..] && b == [b[0]] + b[1..];
    }
  }

  /** `r` lists the elements of `s`, each once, in increasing order. */
  predicate AscendingListing(r: seq<int>, s: set<int>)
  {
    && (forall i :: 0 <= i < |r| ==> r[i] in s)
    && (forall i, j :: 0 <= i < j < |r| ==> r[i] < r[j])
    && (forall x :: x in s ==> x in r)
  }

  /** sorted() is the only strictly increasing enumeration of a key set. */
  lemma SortedKeysUnique(s: set<int>, r: seq<int>)
    requires AscendingListing(r, s)
    ensures r == SortedKeys(s)
  {
    var k := SortedKeys(s);
    forall x ensures x in r <==> x in k {
      if x in s { SortedKeysComplete(s, x); }
    }
    IncreasingSameElementsEqual(r, k);
  }

  /** Where the forward scan from a cut stops. */
  datatype ScanResult =
    | Reached(frame: int)   // the loop guard became false at this frame
    | NoScore(frame: int)   // blur_map[frame] raised KeyError

  /** `while cursor < 500 and blur_map[cursor] < threshold: cursor += 1`.
      Python's `and` only looks the score up when the cursor is below the cap. */
  function Scan(cursor: int, blur: map<int, real>, threshold: real): (r: ScanResult)
    decreases FrameCap - cursor
    ensures r.Reached? ==> cursor <= r.frame
    ensures r.Reached? && cursor >= FrameCap ==> r.frame == cursor
    ensures r.Reached? && cursor < FrameCap ==> r.frame <= FrameCap
    ensures r.Reached? && r.frame < FrameCap ==> r.frame in blur && threshold <= blur[r.frame]
    ensures r.NoScore? ==> cursor <= r.frame < FrameCap && r.frame !in blur
    ensures forall f :: cursor <= f < r.frame ==> f in blur && blur[f] < threshold
  {
    if cursor >= FrameCap then Reached(cursor)
    else if cursor !in blur then NoScore(cursor)
    else if blur[cursor] < threshold then Scan(cursor + 1, blur, threshold)
    else Reached(cursor)
  }

  /** The scanning loop itself, run on the scores: it returns where Scan says
      the cursor stops, or the frame whose missing score raises KeyError. */
  method ScanForward(cursor: int, blur: map<int, real>, threshold: real) returns (r: ScanResult)
    ensures r == Scan(cursor, blur, threshold)
  {
    var frame := cursor;
    while frame < FrameCap
      invariant Scan(frame, blur, threshold) == Scan(cursor, blur, threshold)
      decreases FrameCap - frame
    {
      if frame !in blur {
        return NoScore(frame);
      }
      if blur[frame] >= threshold {
        break;
      }
      frame := frame + 1;
    }
    return Reached(frame);
  }

  /** The loop body of save_blur_threshold_frames over the remaining cuts,
      starting from `cursor`: a cut behind the cursor is skipped; otherwise
      the scan runs from the cut and the frame where it stops is written,
      frame_timestamps being looked up for its image. */
  function Select(cuts: seq<int>, cursor: int, blur: map<int, real>,
                  stamps: map<int, Stamped>, threshold: real): Outcome
    decreases |cuts|
  {
    if cuts == [] then Outcome([], None)
    else if cursor > cuts[0] then Select(cuts[1..], cursor, blur, stamps, threshold)
    else match Scan(cuts[0], blur, threshold)
      case NoScore(f) => Outcome([], Some(MissingScore(f)))
      case Reached(s) =>
        if s !in stamps then Outcome([], Some(MissingTimestamp(s)))
        else Prepend(Write(s, stamps[s].image), Select(cuts[1..], s, blur, stamps, threshold))
  }

  /** Proof aid: one unfolding of Select, for the loop of SaveBlurThresholdFrames. */
  lemma SelectStep(cuts: seq<int>, cursor: int, blur: map<int, real>,
                   stamps: map<int, Stamped>, threshold: real)
    requires cuts != []
    ensures cursor > cuts[0] ==>
      Select(cuts, cursor, blur, stamps, threshold) == Select(cuts[1..], cursor, blur, stamps, threshold)
    ensures cursor <= cuts[0] && Scan(cuts[0], blur, threshold).NoScore? ==>
      Select(cuts, cursor, blur, stamps, threshold)
      == Outcome([], Some(MissingScore(Scan(cuts[0], blur, threshold).frame)))
    ensures cursor <= cuts[0] && Scan(cuts[0], blur, threshold).Reached? ==>
      var s := Scan(cuts[0], blur, threshold).frame;
      Select(cuts, cursor, blur, stamps, threshold)
      == if s !in stamps then Outcome([], Some(MissingTimestamp(s)))
         else Prepend(Write(s, stamps[s].image), Select(cuts[1..], s, blur, stamps, threshold))
  {
  }

  /** The written frame numbers never go below `lo` and never decrease. */
  ghost predicate NondecreasingFrom(w: seq<Write>, lo: int)
  {
    && (forall i :: 0 <= i < |w| ==> lo <= w[i].frame)
    && (forall i, j :: 0 <= i < j < |w| ==> w[i].frame <= w[j].frame)
  }

  /** Each written frame is looked up in frame_timestamps, and is sharp unless
      it is at or beyond the cap. */
  ghost predicate WritesQualify(w: seq<Write>, blur: map<int, real>, stamps: map<int, Stamped>, threshold: real)
  {
    forall i :: 0 <= i < |w| ==>
      && w[i].frame in stamps && w[i].image == stamps[w[i].frame].image
      && (w[i].frame < FrameCap ==> w[i].frame in blur && threshold <= blur[w[i].frame])
  }

  /** The cursor never rewinds: the frames written are non-decreasing and
      never behind the starting cursor. */
  lemma {:induction false} SelectNondecreasing(cuts: seq<int>, cursor: int, blur: map<int, real>,
                                               stamps: map<int, Stamped>, threshold: real)
    ensures NondecreasingFrom(Select(cuts, cursor, blur, stamps, threshold).writes, cursor)
    decreases |cuts|
  {
    if cuts != [] {
      if cursor > cuts[0] {
        SelectNondecreasing(cuts[1..], cursor, blur, stamps, threshold);
      } else if Scan(cuts[0], blur, threshold).Reached? {
        var s := Scan(cuts[0], blur, threshold).frame;
        if s in stamps {
          var rest := Select(cuts[1..], s, blur, stamps, threshold).writes;
          SelectNondecreasing(cuts[1..], s, blur, stamps, threshold);
          var w := [Write(s, stamps[s].image)] + rest;
          assert Select(cuts, cursor, blur, stamps, threshold).writes == w;
          forall i, j | 0 <= i < j < |w| ensures w[i].frame <= w[j].frame {
            assert w[j] == rest[j - 1];
            if i > 0 { assert w[i] == rest[i - 1]; }
          }
          forall i | 0 <= i < |w| ensures cursor <= w[i].frame {
            if i > 0 { assert w[i] == rest[i - 1]; }
          }
        }
      }
    }
  }

  /** Every written frame is sharp (score at least the threshold) unless it is
      the cap or beyond, and its image is the one recorded in frame_timestamps. */
  lemma {:induction false} SelectWritesQualify(cuts: seq<int>, cursor: int, blur: map<int, real>,
                                               stamps: map<int, Stamped>, threshold: real)
    ensures WritesQualify(Select(cuts, cursor, blur, stamps, threshold).writes, blur, stamps, threshold)
    decreases |cuts|
  {
    if cuts != [] {
      if cursor > cuts[0] {
        SelectWritesQualify(cuts[1..], cursor, blur, stamps, threshold);
      } else if Scan(cuts[0], blur, threshold).Reached? {
        var s := Scan(cuts[0], blur, threshold).frame;
        if s in stamps {
          var rest := Select(cuts[1..], s, blur, stamps, threshold).writes;
          SelectWritesQualify(cuts[1..], s, blur, stamps, threshold);
          var w := [Write(s, stamps[s].image)] + rest;
          assert Select(cuts, cursor, blur, stamps, threshold).writes == w;
          forall i | 0 <= i < |w|
            ensures w[i].frame in stamps && w[i].image == stamps[w[i].frame].image
            ensures w[i].frame < FrameCap ==> w[i].frame in blur && threshold <= blur[w[i].frame]
          {
            if i > 0 { assert w[i] == rest[i - 1]; }
          }
        }
      }
    }
  }

  /** Each cut yields at most one write. */
  lemma {:induction false} SelectAtMostOnePerCut(cuts: seq<int>, cursor: int, blur: map<int, real>,
                                                 stamps: map<int, Stamped>, threshold: real)
    ensures |Select(cuts, cursor, blur, stamps, threshold).writes| <= |cuts|
    decreases |cuts|
  {
    if cuts != [] {
      if cursor > cuts[0] {
        assert Select(cuts, cursor, blur, stamps, threshold) == Select(cuts[1..], cursor, blur, stamps, threshold);
        SelectAtMostOnePerCut(cuts[1..], cursor, blur, stamps, threshold);
      } else if Scan(cuts[0], blur, threshold).Reached? {
        var s := Scan(cuts[0], blur, threshold).frame;
        if s in stamps {
          assert Select(cuts, cursor, blur, stamps, threshold)
              == Prepend(Write(s, stamps[s].image), Select(cuts[1..], s, blur, stamps, threshold));
          SelectAtMostOnePerCut(cuts[1..], s, blur, stamps, threshold);
        }
      }
    }
  }

  /** The pass fails only on a genuinely missing key: a score for a frame at or
      after the cursor and below the cap, or a timestamp entry. */
  lemma {:induction false} SelectErrorIsMissingKey(cuts: seq<int>, cursor: int, blur: map<int, real>,
                                                   stamps: map<int, Stamped>, threshold: real)
    ensures var e := Select(cuts, cursor, blur, stamps, threshold).error;
      && (e.Some? && e.value.MissingScore? ==>
            cursor <= e.value.frame < FrameCap && e.value.frame !in blur)
      && (e.Some? && e.value.MissingTimestamp? ==>
            cursor <= e.value.frame && e.value.frame !in stamps)
    decreases |cuts|
  {
    if cuts != [] {
      if cursor > cuts[0] {
        assert Select(cuts, cursor, blur, stamps, threshold) == Select(cuts[1..], cursor, blur, stamps, threshold);
        SelectErrorIsMissingKey(cuts[1..], cursor, blur, stamps, threshold);
      } else if Scan(cuts[0], blur, threshold).Reached? {
        var s := Scan(cuts[0], blur, threshold).frame;
        if s in stamps {
          assert Select(cuts, cursor, blur, stamps, threshold)
              == Prepend(Write(s, stamps[s].image), Select(cuts[1..], s, blur, stamps, threshold));
          SelectErrorIsMissingKey(cuts[1..], s, blur, stamps, threshold);
        }
      }
    }
  }

  /** With a score for every frame below the cap, a timestamp for every frame
      up to the cap, and no cut beyond the cap, the pass raises no KeyError. */
  lemma {:induction false} SelectCompleteMapsNoError(cuts: seq<int>, cursor: int, blur: map<int, real>,
                                                     stamps: map<int, Stamped>, threshold: real)
    requires forall f :: cursor <= f < FrameCap ==> f in blur
    requires forall f :: cursor <= f <= FrameCap ==> f in stamps
    requires forall i :: 0 <= i < |cuts| ==> cuts[i] <= FrameCap
    ensures Select(cuts, cursor, blur, stamps, threshold).error == None
    decreases |cuts|
  {
    if cuts != [] {
      if cursor > cuts[0] {
        SelectCompleteMapsNoError(cuts[1..], cursor, blur, stamps, threshold);
      } else {
        var r := Scan(cuts[0], blur, threshold);
        assert r.Reached?;
        SelectCompleteMapsNoError(cuts[1..], r.frame, blur, stamps, threshold);
      }
    }
  }

  /** When every frame from the cursor to the cap is blurry, the scan still
      ends on the cap: there is no "no keyframe" outcome. */
  lemma {:induction false} BlurryRunReachesCap(cursor: int, blur: map<int, real>, threshold: real)
    requires cursor <= FrameCap
    requires forall f :: cursor <= f < FrameCap ==> f in blur && blur[f] < threshold
    ensures Scan(cursor, blur, threshold) == Reached(FrameCap)
    decreases FrameCap - cursor
  {
    if cursor < FrameCap {
      BlurryRunReachesCap(cursor + 1, blur, threshold);
    }
  }

  /** If every score is below the threshold, every write is frame 500, and a
      cut at or after the cursor always produces one. */
  lemma {:induction false} AllBlurrySelectsCap(cuts: seq<int>, cursor: int, blur: map<int, real>,
                                               stamps: map<int, Stamped>, threshold: real)
    requires cursor <= FrameCap
    requires forall f :: cursor <= f < FrameCap ==> f in blur && blur[f] < threshold
    requires FrameCap in stamps
    requires forall i :: 0 <= i < |cuts| ==> cuts[i] <= FrameCap
    ensures var o := Select(cuts, cursor, blur, stamps, threshold);
      && o.error == None
      && (forall i :: 0 <= i < |o.writes| ==> o.writes[i].frame == FrameCap)
      && ((exists i :: 0 <= i < |cuts| && cursor <= cuts[i]) ==> o.writes != [])
    decreases |cuts|
  {
    if cuts != [] {
      if cursor > cuts[0] {
        AllBlurrySelectsCap(cuts[1..], cursor, blur, stamps, threshold);
        if exists i :: 0 <= i < |cuts| && cursor <= cuts[i] {
          var i :| 0 <= i < |cuts| && cursor <= cuts[i];
          assert cuts[1..][i - 1] == cuts[i];
        }
      } else {
        BlurryRunReachesCap(cuts[0], blur, threshold);
        AllBlurrySelectsCap(cuts[1..], FrameCap, blur, stamps, threshold);
      }
    }
  }

  /** A cut that lands exactly on the previously written keyframe writes that
      same frame again: the written frames are not strictly increasing. */
  lemma RepeatedKeyframe(cut: int, blur: map<int, real>, stamps: map<int, Stamped>, threshold: real)
    requires 1 <= cut
    requires Scan(cut, blur, threshold).Reached?
    requires Scan(cut, blur, threshold).frame < FrameCap
    requires Scan(cut, blur, threshold).frame in stamps
    ensures var s := Scan(cut, blur, threshold).frame;
      Select([cut, s], 1, blur, stamps, threshold).writes == [Write(s, stamps[s].image), Write(s, stamps[s].image)]
  {
    var s := Scan(cut, blur, threshold).frame;
    assert [cut, s][1..] == [s];
    assert [s][1..] == [];
    assert Scan(s, blur, threshold) == Reached(s);
    assert Select([s], s, blur, stamps, threshold) == Outcome([Write(s, stamps[s].image)], None);
  }

  /** Scores {1:10, 2:10, 3:70, 4:10}, threshold 50, one cut at frame 1:
      frame 3 is the keyframe. */
  lemma ScanFindsFirstSharpFrame(stamps: map<int, Stamped>)
    requires 3 in stamps
    ensures Select([1], 1, map[1 := 10.0, 2 := 10.0, 3 := 70.0, 4 := 10.0], stamps, 50.0)
            == Outcome([Write(3, stamps[3].image)], None)
  {
    var blur := map[1 := 10.0, 2 := 10.0, 3 := 70.0, 4 := 10.0];
    assert Scan(3, blur, 50.0) == Reached(3);
    assert Scan(1, blur, 50.0) == Reached(3);
  }
}
