/**
 * The interpolation loop of `save_label`: for every index, the inner loop
 * over the sorted anchor list picks `left` (the last pair at or before the
 * index) and `right` (the first pair at or after it), and the label is the
 * straight line between them, clamped to [0, 1].
 */
module Interpolation {
  import opened Basics
  import opened Anchors

  /** `left` after the inner loop has seen `s`: it is overwritten by every pair with index <= i. */
  function LastAtMost(s: seq<Anchor>, i: int): Option<Anchor> {
    if s == [] then None
    else if s[|s| - 1].index <= i then Some(s[|s| - 1])
    else LastAtMost(s[..|s| - 1], i)
  }

  /** `right` after the inner loop has seen `s`: set by the first pair with index >= i, then kept. */
  function FirstAtLeast(s: seq<Anchor>, i: int): Option<Anchor> {
    if s == [] then None
    else
      var earlier := FirstAtLeast(s[..|s| - 1], i);
      if earlier.Some? then earlier
      else if s[|s| - 1].index >= i then Some(s[|s| - 1])
      else None
  }

  /** `i / (n - 1) if n > 1 else 0.0`: the uniform ramp of the no-anchor fallback and of seeding. */
  function Ramp(i: int, n: int): real {
    if n > 1 then (i as real) / ((n - 1) as real) else 0.0
  }

  /** The straight line through two pairs at different indices, evaluated at index i. */
  function Lerp(left: Anchor, right: Anchor, i: int): real
    requires left.index != right.index
  {
    left.value + (right.value - left.value) * ((i - left.index) as real) / ((right.index - left.index) as real)
  }

  /** The value chosen from `left` and `right` before the clamp, with the fallbacks for a missing side. */
  function Interp(left: Option<Anchor>, right: Option<Anchor>, i: int, n: int): real {
    if left.Some? && right.Some? then
      if left.value.index == right.value.index then left.value.value
      else Lerp(left.value, right.value, i)
    else if left.Some? then left.value.value
    else if right.Some? then right.value.value
    else Ramp(i, n)
  }

  /** The label the loop stores for index i of a folder of n frames. */
  function LabelAt(s: seq<Anchor>, i: int, n: int): real {
    Clamp(Interp(LastAtMost(s, i), FirstAtLeast(s, i), i, n))
  }

  /** The `labels` dict after the outer loop has handled the first k frames. */
  function DenseLabels(frames: seq<string>, s: seq<Anchor>, k: nat): map<string, real>
    requires k <= |frames|
  {
    if k == 0 then map[]
    else DenseLabels(frames, s, k - 1)[frames[k - 1] := LabelAt(s, k - 1, |frames|)]
  }

  /** The inner loop: one pass over the sorted pairs. */
  method FindNeighbours(s: seq<Anchor>, i: int) returns (left: Option<Anchor>, right: Option<Anchor>)
    ensures left == LastAtMost(s, i) && right == FirstAtLeast(s, i)
  {
    left, right := None, None;
    for j := 0 to |s|
      invariant left == LastAtMost(s[..j], i)
      invariant right == FirstAtLeast(s[..j], i)
    {
      assert s[..j + 1][..j] == s[..j];
      var a := s[j];
      if a.index <= i {
        left := Some(a);
      }
      if a.index >= i && right.None? {
        right := Some(a);
      }
    }
    assert s[..|s|] == s;
  }

  /** The outer loop: one label per frame, in frame order. */
  method InterpolateAll(frames: seq<string>, s: seq<Anchor>) returns (labels: map<string, real>)
    ensures labels == DenseLabels(frames, s, |frames|)
  {
    labels := map[];
    var n := |frames|;
    for i := 0 to n
      invariant labels == DenseLabels(frames, s, i)
    {
      var left, right := FindNeighbours(s, i);
      var interp: real;
      if left.Some? && right.Some? {
        if left.value.index == right.value.index {
          interp := left.value.value;
        } else {
          interp := left.value.value + (right.value.value - left.value.value) * ((i - left.value.index) as real)
            / ((right.value.index - left.value.index) as real);
        }
      } else if left.Some? {
        interp := left.value.value;
      } else if right.Some? {
        interp := right.value.value;
      } else {
        interp := if n > 1 then (i as real) / ((n - 1) as real) else 0.0;
      }
      assert interp == Interp(left, right, i, n);
      interp := Clamp(interp);
      labels := labels[frames[i] := interp];
    }
  }

  /** The label map has exactly the frames as keys, every value lies in [0, 1], and without duplicate names frame j carries the label of index j. */
  lemma {:induction false} DenseLabelsSpec(frames: seq<string>, s: seq<Anchor>, k: nat)
    requires k <= |frames|
    ensures forall f :: f in DenseLabels(frames, s, k) <==> f in frames[..k]
    ensures forall f :: f in DenseLabels(frames, s, k) ==> 0.0 <= DenseLabels(frames, s, k)[f] <= 1.0
    ensures Distinct(frames) ==> forall j :: 0 <= j < k ==> DenseLabels(frames, s, k)[frames[j]] == LabelAt(s, j, |frames|)
  {
    if k > 0 {
      DenseLabelsSpec(frames, s, k - 1);
      assert frames[..k] == frames[..k - 1] + [frames[k - 1]];
    }
  }

  lemma {:induction false} LastAtMostFound(s: seq<Anchor>, i: int, p: nat)
    requires p < |s| && s[p].index <= i
    ensures LastAtMost(s, i).Some? && LastAtMost(s, i).value in s && LastAtMost(s, i).value.index <= i
  {
    if s[|s| - 1].index > i {
      LastAtMostFound(s[..|s| - 1], i, p);
    }
  }

  lemma {:induction false} FirstAtLeastFound(s: seq<Anchor>, i: int, p: nat)
    requires p < |s| && s[p].index >= i
    ensures FirstAtLeast(s, i).Some? && FirstAtLeast(s, i).value in s && FirstAtLeast(s, i).value.index >= i
  {
    var earlier := FirstAtLeast(s[..|s| - 1], i);
    if p < |s| - 1 {
      FirstAtLeastFound(s[..|s| - 1], i, p);
    } else if earlier.Some? {
      FirstAtLeastSome(s[..|s| - 1], i);
    }
  }

  lemma {:induction false} FirstAtLeastSome(s: seq<Anchor>, i: int)
    requires FirstAtLeast(s, i).Some?
    ensures FirstAtLeast(s, i).value in s && FirstAtLeast(s, i).value.index >= i
  {
    if FirstAtLeast(s[..|s| - 1], i).Some? {
      FirstAtLeastSome(s[..|s| - 1], i);
    }
  }

  lemma {:induction false} FirstAtLeastNone(s: seq<Anchor>, i: int)
    requires forall p :: 0 <= p < |s| ==> s[p].index < i
    ensures FirstAtLeast(s, i) == None
  {
    if s != [] {
      FirstAtLeastNone(s[..|s| - 1], i);
    }
  }

  /** In a strictly increasing list, `left` is the pair at position k exactly when k is the last position at or before i. */
  lemma {:induction false} LastAtMostAt(s: seq<Anchor>, i: int, k: nat)
    requires StrictlyIncreasing(s)
    requires k < |s| && s[k].index <= i
    requires k + 1 < |s| ==> i < s[k + 1].index
    ensures LastAtMost(s, i) == Some(s[k])
  {
    if k < |s| - 1 {
      assert s[k + 1].index <= s[|s| - 1].index;
      LastAtMostAt(s[..|s| - 1], i, k);
    }
  }

  /** In a strictly increasing list, `right` is the pair at position k exactly when k is the first position at or after i. */
  lemma {:induction false} FirstAtLeastAt(s: seq<Anchor>, i: int, k: nat)
    requires StrictlyIncreasing(s)
    requires k < |s| && s[k].index >= i
    requires k > 0 ==> s[k - 1].index < i
    ensures FirstAtLeast(s, i) == Some(s[k])
  {
    var prefix := s[..|s| - 1];
    if k == |s| - 1 {
      forall p | 0 <= p < |prefix| ensures prefix[p].index < i {
        assert p <= k - 1;
        assert s[p].index <= s[k - 1].index;
      }
      FirstAtLeastNone(prefix, i);
    } else {
      FirstAtLeastAt(prefix, i, k);
    }
  }

  /** A straight line between two values of [0, 1], at an index between its ends, stays between the two values. */
  lemma LerpBetween(left: Anchor, right: Anchor, i: int)
    requires left.index < right.index && left.index <= i <= right.index
    ensures left.value <= right.value ==> left.value <= Lerp(left, right, i) <= right.value
    ensures right.value <= left.value ==> right.value <= Lerp(left, right, i) <= left.value
  {
    var d := (right.index - left.index) as real;
    var x := (i - left.index) as real;
    var t := x / d;
    var dv := right.value - left.value;
    assert 0.0 <= t <= 1.0;
    assert Lerp(left, right, i) == left.value + dv * t;
    if dv >= 0.0 {
      assert 0.0 <= dv * t && dv * t <= dv * 1.0;
    } else {
      assert dv * 1.0 <= dv * t && dv * t <= 0.0;
    }
  }

  /** A straight line through a lower and a higher value rises with the index. */
  lemma LerpMonotone(left: Anchor, right: Anchor, i: int, j: int)
    requires left.index < right.index && i <= j
    requires left.value <= right.value
    ensures Lerp(left, right, i) <= Lerp(left, right, j)
  {
    var d := (right.index - left.index) as real;
    var dv := right.value - left.value;
    assert Lerp(left, right, i) == left.value + dv * (((i - left.index) as real) / d);
    assert Lerp(left, right, j) == left.value + dv * (((j - left.index) as real) / d);
    assert ((i - left.index) as real) / d <= ((j - left.index) as real) / d;
  }

  /** The ends of the line are the two pairs' values. */
  lemma LerpEnds(left: Anchor, right: Anchor)
    requires left.index != right.index
    ensures Lerp(left, right, left.index) == left.value
    ensures Lerp(left, right, right.index) == right.value
  {
    var d := (right.index - left.index) as real;
    assert (right.value - left.value) * d / d == right.value - left.value;
  }

  /** At the index of a pair of a strictly increasing list with values in [0, 1], the label is that pair's value. */
  lemma {:induction false} LabelAtPair(s: seq<Anchor>, n: int, k: nat)
    requires StrictlyIncreasing(s) && k < |s|
    requires 0.0 <= s[k].value <= 1.0
    ensures LabelAt(s, s[k].index, n) == s[k].value
  {
    LastAtMostAt(s, s[k].index, k);
    FirstAtLeastAt(s, s[k].index, k);
  }

  /** Between two consecutive pairs, ends included, the label is the straight line through them. */
  lemma {:induction false} LabelInSegment(s: seq<Anchor>, n: int, k: nat, i: int)
    requires StrictlyIncreasing(s) && k + 1 < |s|
    requires 0.0 <= s[k].value <= 1.0 && 0.0 <= s[k + 1].value <= 1.0
    requires s[k].index <= i <= s[k + 1].index
    ensures LabelAt(s, i, n) == Lerp(s[k], s[k + 1], i)
  {
    LerpEnds(s[k], s[k + 1]);
    if i == s[k].index {
      LabelAtPair(s, n, k);
    } else if i == s[k + 1].index {
      LabelAtPair(s, n, k + 1);
    } else {
      LastAtMostAt(s, i, k);
      FirstAtLeastAt(s, i, k + 1);
      LerpBetween(s[k], s[k + 1], i);
    }
  }

  /** Every index from the first pair's to the last pair's lies in some segment between consecutive pairs. */
  lemma {:induction false} FindSegment(s: seq<Anchor>, i: int) returns (k: nat)
    requires StrictlyIncreasing(s) && |s| >= 2
    requires s[0].index <= i <= s[|s| - 1].index
    ensures k + 1 < |s| && s[k].index <= i <= s[k + 1].index
  {
    if |s| == 2 || i >= s[|s| - 2].index {
      k := |s| - 2;
    } else {
      k := FindSegment(s[..|s| - 1], i);
    }
  }

  /** With pair values in [0, 1] and non-decreasing along the list, the labels do not decrease between the first and the last pair. */
  lemma {:induction false} LabelsMonotone(s: seq<Anchor>, n: int, i: int, j: int)
    requires StrictlyIncreasing(s) && |s| >= 1
    requires forall p :: 0 <= p < |s| ==> 0.0 <= s[p].value <= 1.0
    requires forall p, q :: 0 <= p < q < |s| ==> s[p].value <= s[q].value
    requires s[0].index <= i <= j <= s[|s| - 1].index
    ensures LabelAt(s, i, n) <= LabelAt(s, j, n)
  {
    if i < j {
      var ki := FindSegment(s, i);
      var kj := FindSegment(s, j);
      LabelInSegment(s, n, ki, i);
      LabelInSegment(s, n, kj, j);
      assert ki <= kj;
      if ki == kj {
        LerpMonotone(s[ki], s[ki + 1], i, j);
      } else {
        LerpBetween(s[ki], s[ki + 1], i);
        LerpBetween(s[kj], s[kj + 1], j);
        assert s[ki + 1].value <= s[kj].value;
      }
    }
  }
}
