/**
 * What `save_label` derives from a folder's ordered frames and its anchor
 * file: the full label map. Control points are the user's anchors plus the
 * two virtual boundary anchors; between consecutive control points the labels
 * follow a straight line.
 */
module SaveLabel {
  import opened Basics
  import opened Anchors
  import opened Interpolation

  /** The label file `save_label` writes for these frames and anchors. */
  function Labels(frames: seq<string>, points: map<string, Stored>): map<string, real> {
    DenseLabels(frames, AnchorList(frames, points), |frames|)
  }

  /** The value the interpolation is pinned to at frame k, if any: the user's clamped anchor, else 0.0 at the first frame, else 1.0 at the last. */
  function ControlValue(frames: seq<string>, points: map<string, Stored>, k: int): Option<real>
    requires 0 <= k < |frames|
  {
    if Anchored(frames, points, k) then Some(AnchorValue(frames, points, k))
    else if k == 0 then Some(0.0)
    else if k == |frames| - 1 then Some(1.0)
    else None
  }

  /** Lines 195-238 of `save_label`: build the anchor list, then interpolate every frame. */
  method Recompute(frames: seq<string>, points: map<string, Stored>) returns (labels: map<string, real>)
    ensures labels == Labels(frames, points)
    ensures forall f :: f in labels <==> f in frames
    ensures forall f :: f in labels ==> 0.0 <= labels[f] <= 1.0
  {
    var anchors := BuildAnchorList(frames, points);
    labels := InterpolateAll(frames, anchors);
    DenseLabelsSpec(frames, anchors, |frames|);
    assert frames[..|frames|] == frames;
  }

  /** For a non-empty folder the sorted anchor list holds exactly the control points. */
  lemma {:induction false} AnchorListIsControlPoints(frames: seq<string>, points: map<string, Stored>)
    requires |frames| >= 1
    ensures forall a :: a in AnchorList(frames, points) <==>
      0 <= a.index < |frames| && ControlValue(frames, points, a.index) == Some(a.value)
  {
    var n := |frames|;
    var s := AnchorList(frames, points);
    AnchorListSpec(frames, points);
    forall a: Anchor | 0 <= a.index < n && ControlValue(frames, points, a.index) == Some(a.value)
      ensures a in s
    {
      if !Anchored(frames, points, a.index) {
        var e := if a.index == 0 then s[0] else s[|s| - 1];
        assert e in s && e.index == a.index;
        assert !IsUserAnchor(frames, points, e);
        assert IsVirtualAnchor(frames, points, e);
        assert e == a;
      }
    }
  }

  /** For a non-empty folder every frame has a pair at or before it and one at or after it, so the one-sided and no-anchor fallbacks are never taken. */
  lemma {:induction false} NeighboursAlwaysFound(frames: seq<string>, points: map<string, Stored>, i: int)
    requires 0 <= i < |frames|
    ensures LastAtMost(AnchorList(frames, points), i).Some?
    ensures FirstAtLeast(AnchorList(frames, points), i).Some?
  {
    var s := AnchorList(frames, points);
    AnchorListSpec(frames, points);
    LastAtMostFound(s, i, 0);
    FirstAtLeastFound(s, i, |s| - 1);
  }

  /** Without duplicate names, frame j's label is the one computed for index j. */
  lemma LabelOfFrame(frames: seq<string>, s: seq<Anchor>, j: int)
    requires Distinct(frames) && 0 <= j < |frames|
    ensures frames[j] in DenseLabels(frames, s, |frames|)
    ensures DenseLabels(frames, s, |frames|)[frames[j]] == LabelAt(s, j, |frames|)
  {
    DenseLabelsSpec(frames, s, |frames|);
    assert frames[j] in frames[..|frames|];
  }

  /** A control point's position in the sorted anchor list. */
  lemma {:induction false} ControlPosition(frames: seq<string>, points: map<string, Stored>, k: int) returns (p: nat)
    requires 0 <= k < |frames| && ControlValue(frames, points, k).Some?
    ensures var s := AnchorList(frames, points);
      p < |s| && s[p] == Anchor(k, ControlValue(frames, points, k).value)
  {
    var s := AnchorList(frames, points);
    AnchorListIsControlPoints(frames, points);
    assert Anchor(k, ControlValue(frames, points, k).value) in s;
    p :| 0 <= p < |s| && s[p] == Anchor(k, ControlValue(frames, points, k).value);
  }

  /** Two control points with none between them sit next to each other in the sorted anchor list. */
  lemma {:induction false} ConsecutiveControlPoints(frames: seq<string>, points: map<string, Stored>, a: int, b: int) returns (p: nat)
    requires 0 <= a < b < |frames|
    requires ControlValue(frames, points, a).Some? && ControlValue(frames, points, b).Some?
    requires forall k :: a < k < b ==> ControlValue(frames, points, k) == None
    ensures var s := AnchorList(frames, points);
      && StrictlyIncreasing(s) && p + 1 < |s|
      && s[p] == Anchor(a, ControlValue(frames, points, a).value)
      && s[p + 1] == Anchor(b, ControlValue(frames, points, b).value)
      && 0.0 <= s[p].value <= 1.0 && 0.0 <= s[p + 1].value <= 1.0
  {
    var s := AnchorList(frames, points);
    AnchorListSpec(frames, points);
    p := ControlPosition(frames, points, a);
    var q := ControlPosition(frames, points, b);
    assert p < q;
    AnchorListIsControlPoints(frames, points);
    var next := s[p + 1];
    assert next in s;
    assert ControlValue(frames, points, next.index) == Some(next.value);
    assert next.index >= b;
    assert q == p + 1;
    assert s[p] in s && s[q] in s;
  }

  /** At every control point the label is the control value: user anchors are reproduced exactly, and unanchored ends get 0.0 and 1.0. */
  lemma {:induction false} LabelsAtControlPoints(frames: seq<string>, points: map<string, Stored>, k: int)
    requires Distinct(frames) && 0 <= k < |frames|
    requires ControlValue(frames, points, k).Some?
    ensures frames[k] in Labels(frames, points)
    ensures Labels(frames, points)[frames[k]] == ControlValue(frames, points, k).value
  {
    var s := AnchorList(frames, points);
    AnchorListSpec(frames, points);
    var p := ControlPosition(frames, points, k);
    assert s[p] in s;
    LabelAtPair(s, |frames|, p);
    LabelOfFrame(frames, s, k);
  }

  /** Strictly between consecutive control points a < b the label is the straight line `va + (vb - va) * (i - a) / (b - a)`. */
  lemma {:induction false} LabelsBetweenControlPoints(frames: seq<string>, points: map<string, Stored>, a: int, b: int, i: int)
    requires Distinct(frames) && 0 <= a < i < b < |frames|
    requires ControlValue(frames, points, a).Some? && ControlValue(frames, points, b).Some?
    requires forall k :: a < k < b ==> ControlValue(frames, points, k) == None
    ensures frames[i] in Labels(frames, points)
    ensures var va := ControlValue(frames, points, a).value;
      var vb := ControlValue(frames, points, b).value;
      Labels(frames, points)[frames[i]] == Lerp(Anchor(a, va), Anchor(b, vb), i)
  {
    var s := AnchorList(frames, points);
    var va := ControlValue(frames, points, a).value;
    var vb := ControlValue(frames, points, b).value;
    var p := ConsecutiveControlPoints(frames, points, a, b);
    LabelInSegment(s, |frames|, p, i);
    LabelOfFrame(frames, s, i);
    assert Labels(frames, points)[frames[i]] == LabelAt(s, i, |frames|);
  }

  /** The line from (0, 0.0) to (n - 1, 1.0) is the uniform ramp. */
  lemma RampIsLine(i: int, n: int)
    requires n > 1
    ensures Lerp(Anchor(0, 0.0), Anchor(n - 1, 1.0), i) == Ramp(i, n)
  {
  }

  /** The ramp starts at 0.0 and, for more than one frame, ends at 1.0. */
  lemma RampEnds(n: int)
    ensures Ramp(0, n) == 0.0
    ensures n > 1 ==> Ramp(n - 1, n) == 1.0
  {
  }

  /** Without any usable anchor for these frames the labels are the uniform ramp that seeding writes. */
  lemma {:induction false} NoAnchorsGiveRamp(frames: seq<string>, points: map<string, Stored>, i: int)
    requires Distinct(frames) && 0 <= i < |frames|
    requires forall k :: 0 <= k < |frames| ==> !Anchored(frames, points, k)
    ensures frames[i] in Labels(frames, points)
    ensures Labels(frames, points)[frames[i]] == Ramp(i, |frames|)
  {
    var n := |frames|;
    RampEnds(n);
    if i == 0 {
      assert ControlValue(frames, points, 0) == Some(0.0);
      LabelsAtControlPoints(frames, points, 0);
    } else if i == n - 1 {
      assert ControlValue(frames, points, n - 1) == Some(1.0);
      LabelsAtControlPoints(frames, points, n - 1);
    } else {
      RampInterior(frames, points, i);
    }
  }

  /** The interior case of NoAnchorsGiveRamp: the frame lies on the line between the two virtual anchors. */
  lemma {:induction false} RampInterior(frames: seq<string>, points: map<string, Stored>, i: int)
    requires Distinct(frames) && 0 < i < |frames| - 1
    requires forall k :: 0 <= k < |frames| ==> !Anchored(frames, points, k)
    ensures frames[i] in Labels(frames, points)
    ensures Labels(frames, points)[frames[i]] == Ramp(i, |frames|)
  {
    var n := |frames|;
    assert ControlValue(frames, points, 0) == Some(0.0);
    assert ControlValue(frames, points, n - 1) == Some(1.0);
    forall k | 0 < k < n - 1 ensures ControlValue(frames, points, k) == None {
      assert !Anchored(frames, points, k);
    }
    LabelsBetweenControlPoints(frames, points, 0, n - 1, i);
    RampIsLine(i, n);
  }

  /** When the user's anchor values do not decrease along the frames, neither do the labels. */
  lemma {:induction false} LabelsMonotoneInFrames(frames: seq<string>, points: map<string, Stored>, i: int, j: int)
    requires Distinct(frames) && 0 <= i <= j < |frames|
    requires forall p, q :: 0 <= p < q < |frames| && Anchored(frames, points, p) && Anchored(frames, points, q) ==>
      AnchorValue(frames, points, p) <= AnchorValue(frames, points, q)
    ensures frames[i] in Labels(frames, points) && frames[j] in Labels(frames, points)
    ensures Labels(frames, points)[frames[i]] <= Labels(frames, points)[frames[j]]
  {
    var n := |frames|;
    var s := AnchorList(frames, points);
    AnchorListSpec(frames, points);
    forall p | 0 <= p < |s| ensures 0.0 <= s[p].value <= 1.0 {
      assert s[p] in s;
    }
    forall p, q | 0 <= p < q < |s| ensures s[p].value <= s[q].value {
      assert s[p] in s && s[q] in s;
      assert s[p].index < s[q].index;
    }
    Interpolation.LabelsMonotone(s, n, i, j);
    LabelOfFrame(frames, s, i);
    LabelOfFrame(frames, s, j);
  }

  /** Whatever the anchors, the label file has exactly the folder's frames as keys and every label in [0, 1]. */
  lemma LabelsCoverFrames(frames: seq<string>, points: map<string, Stored>)
    ensures forall f :: f in Labels(frames, points) <==> f in frames
    ensures forall f :: f in Labels(frames, points) ==> 0.0 <= Labels(frames, points)[f] <= 1.0
  {
    DenseLabelsSpec(frames, AnchorList(frames, points), |frames|);
    assert frames[..|frames|] == frames;
  }

  /** Right after a save, the label of the saved frame is the saved value, clamped to [0, 1]. */
  lemma SavedValueShown(frames: seq<string>, points: map<string, Stored>, frame: string, value: real)
    requires Distinct(frames) && frame in frames
    ensures frame in Labels(frames, Upsert(points, frame, value))
    ensures Labels(frames, Upsert(points, frame, value))[frame] == Clamp(value)
  {
    var updated := Upsert(points, frame, value);
    var k :| 0 <= k < |frames| && frames[k] == frame;
    assert Anchored(frames, updated, k);
    assert ControlValue(frames, updated, k) == Some(Clamp(value));
    LabelsAtControlPoints(frames, updated, k);
  }

  /** The walk over the frames only looks at the anchor-file entries of those frames. */
  lemma {:induction false} UserAnchorsLocal(frames: seq<string>, p1: map<string, Stored>, p2: map<string, Stored>, i: nat)
    requires i <= |frames|
    requires forall f :: f in frames ==> (f in p1 <==> f in p2) && (f in p1 ==> p1[f] == p2[f])
    ensures UserAnchors(frames, p1, i) == UserAnchors(frames, p2, i)
  {
    if i > 0 {
      UserAnchorsLocal(frames, p1, p2, i - 1);
      assert frames[i - 1] in frames;
    }
  }

  /** Saving a value for a name that is not one of the folder's frames leaves the labels as they were. */
  lemma StrayAnchorIgnored(frames: seq<string>, points: map<string, Stored>, frame: string, value: real)
    requires frame !in frames
    ensures Labels(frames, Upsert(points, frame, value)) == Labels(frames, points)
  {
    UserAnchorsLocal(frames, Upsert(points, frame, value), points, |frames|);
  }

  /** Five frames with anchors 0.0, 0.2 and 1.0 at frames 0, 2 and 4: the gaps are filled on the two lines. */
  lemma {:induction false} FiveFrameExample(frames: seq<string>, points: map<string, Stored>)
    requires frames == ["f0", "f1", "f2", "f3", "f4"]
    requires points == map["f0" := Num(0.0), "f4" := Num(1.0), "f2" := Num(0.2)]
    ensures Labels(frames, points) == map["f0" := 0.0, "f1" := 0.1, "f2" := 0.2, "f3" := 0.6, "f4" := 1.0]
  {
    var labels := Labels(frames, points);
    FiveFrameFirstHalf(frames, points);
    FiveFrameSecondHalf(frames, points);
    LabelsCoverFrames(frames, points);
    assert labels.Keys == {"f0", "f1", "f2", "f3", "f4"};
  }

  lemma {:induction false} FiveFrameFirstHalf(frames: seq<string>, points: map<string, Stored>)
    requires frames == ["f0", "f1", "f2", "f3", "f4"]
    requires points == map["f0" := Num(0.0), "f4" := Num(1.0), "f2" := Num(0.2)]
    ensures "f0" in Labels(frames, points) && Labels(frames, points)["f0"] == 0.0
    ensures "f1" in Labels(frames, points) && Labels(frames, points)["f1"] == 0.1
    ensures "f2" in Labels(frames, points) && Labels(frames, points)["f2"] == 0.2
  {
    assert Distinct(frames);
    assert ControlValue(frames, points, 0) == Some(0.0);
    assert ControlValue(frames, points, 1) == None;
    assert ControlValue(frames, points, 2) == Some(0.2);
    LabelsAtControlPoints(frames, points, 0);
    LabelsBetweenControlPoints(frames, points, 0, 2, 1);
    assert Lerp(Anchor(0, 0.0), Anchor(2, 0.2), 1) == 0.1;
    LabelsAtControlPoints(frames, points, 2);
  }

  lemma {:induction false} FiveFrameSecondHalf(frames: seq<string>, points: map<string, Stored>)
    requires frames == ["f0", "f1", "f2", "f3", "f4"]
    requires points == map["f0" := Num(0.0), "f4" := Num(1.0), "f2" := Num(0.2)]
    ensures "f3" in Labels(frames, points) && Labels(frames, points)["f3"] == 0.6
    ensures "f4" in Labels(frames, points) && Labels(frames, points)["f4"] == 1.0
  {
    assert Distinct(frames);
    assert ControlValue(frames, points, 2) == Some(0.2);
    assert ControlValue(frames, points, 3) == None;
    assert ControlValue(frames, points, 4) == Some(1.0);
    LabelsBetweenControlPoints(frames, points, 2, 4, 3);
    LabelsAtControlPoints(frames, points, 4);
    assert Lerp(Anchor(2, 0.2), Anchor(4, 1.0), 3) == 0.6;
  }

  /** Three frames with one interior anchor 0.5: the virtual anchors give 0.0 and 1.0 at the ends. */
  lemma {:induction false} ThreeFrameExample(frames: seq<string>, points: map<string, Stored>)
    requires frames == ["f0", "f1", "f2"] && points == map["f1" := Num(0.5)]
    ensures Labels(frames, points) == map["f0" := 0.0, "f1" := 0.5, "f2" := 1.0]
  {
    assert Distinct(frames);
    assert ControlValue(frames, points, 0) == Some(0.0);
    assert ControlValue(frames, points, 1) == Some(0.5);
    assert ControlValue(frames, points, 2) == Some(1.0);
    LabelsCoverFrames(frames, points);
    LabelsAtControlPoints(frames, points, 0);
    LabelsAtControlPoints(frames, points, 1);
    LabelsAtControlPoints(frames, points, 2);
  }
}
