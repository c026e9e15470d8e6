/**
 * Seed-on-first-view: when the viewer lists a folder, every frame that has no label yet
 * receives its place on the uniform ramp from 0.0 to 1.0; labels already present are kept.
 */
module Seeding {
  import opened Basics
  import opened Anchors
  import opened Interpolation
  import opened SaveLabel

  /** The `labels` dict after the seeding loop has visited the first k frames. */
  function Seeded(frames: seq<string>, labels: map<string, real>, k: nat): map<string, real>
    requires k <= |frames|
  {
    if k == 0 then labels
    else
      var prev := Seeded(frames, labels, k - 1);
      if frames[k - 1] in prev then prev else prev[frames[k - 1] := Ramp(k - 1, |frames|)]
  }

  /** The label file the viewer writes back for a folder with these frames. */
  function Seed(frames: seq<string>, labels: map<string, real>): map<string, real> {
    Seeded(frames, labels, |frames|)
  }

  /** The seeding step of the index page: the ramp for more than one frame, 0.0 for a single one. */
  method SeedLabels(frames: seq<string>, labels: map<string, real>) returns (r: map<string, real>)
    ensures r == Seed(frames, labels)
  {
    r := labels;
    var total := |frames|;
    if total > 1 {
      for i := 0 to total
        invariant r == Seeded(frames, labels, i)
      {
        var interp := (i as real) / ((total - 1) as real);
        if frames[i] !in r {
          r := r[frames[i] := interp];
        }
      }
    } else if total == 1 {
      assert Seed(frames, labels) == Seeded(frames, Seeded(frames, labels, 0), 1);
      if frames[0] !in r {
        r := r[frames[0] := 0.0];
      }
    }
  }

  /** Position i is the first occurrence of its frame name. */
  predicate FirstAt(frames: seq<string>, i: int) {
    0 <= i < |frames| && forall j :: 0 <= j < i ==> frames[j] != frames[i]
  }

  /** After k steps the keys are the old keys plus the visited frames. */
  lemma {:induction false} SeededKeys(frames: seq<string>, labels: map<string, real>, k: nat)
    requires k <= |frames|
    ensures forall f :: f in Seeded(frames, labels, k) <==> f in labels || f in frames[..k]
  {
    if k > 0 {
      SeededKeys(frames, labels, k - 1);
      assert frames[..k] == frames[..k - 1] + [frames[k - 1]];
    }
  }

  /** An old label is never overwritten. */
  lemma {:induction false} SeededKeeps(frames: seq<string>, labels: map<string, real>, k: nat)
    requires k <= |frames|
    ensures forall f :: f in labels ==> f in Seeded(frames, labels, k) && Seeded(frames, labels, k)[f] == labels[f]
  {
    if k > 0 {
      SeededKeeps(frames, labels, k - 1);
    }
  }

  /** A frame that had no label gets the ramp value of its first position. */
  lemma {:induction false} SeededRamp(frames: seq<string>, labels: map<string, real>, k: nat)
    requires k <= |frames|
    ensures forall i :: 0 <= i < k && FirstAt(frames, i) && frames[i] !in labels ==>
      frames[i] in Seeded(frames, labels, k) && Seeded(frames, labels, k)[frames[i]] == Ramp(i, |frames|)
  {
    if k > 0 {
      SeededRamp(frames, labels, k - 1);
      SeededKeys(frames, labels, k - 1);
      var prev := Seeded(frames, labels, k - 1);
      forall i | 0 <= i < k && FirstAt(frames, i) && frames[i] !in labels
        ensures frames[i] in Seeded(frames, labels, k) && Seeded(frames, labels, k)[frames[i]] == Ramp(i, |frames|)
      {
        if i < k - 1 {
          assert frames[i] in prev && prev[frames[i]] == Ramp(i, |frames|);
        } else {
          assert frames[k - 1] !in frames[..k - 1];
          assert frames[k - 1] !in prev;
        }
      }
    }
  }

  /** Every frame ends up labelled, old labels survive, and new labels follow the ramp. */
  lemma SeedSpec(frames: seq<string>, labels: map<string, real>)
    ensures forall f :: f in Seed(frames, labels) <==> f in labels || f in frames
    ensures forall f :: f in labels ==> Seed(frames, labels)[f] == labels[f]
    ensures forall i :: FirstAt(frames, i) && frames[i] !in labels ==> Seed(frames, labels)[frames[i]] == Ramp(i, |frames|)
  {
    SeededKeys(frames, labels, |frames|);
    SeededKeeps(frames, labels, |frames|);
    SeededRamp(frames, labels, |frames|);
    assert frames[..|frames|] == frames;
  }

  /** Ramp values lie in [0, 1] at every frame position. */
  lemma RampInRange(i: int, n: int)
    requires 0 <= i < n
    ensures 0.0 <= Ramp(i, n) <= 1.0
  {
    if n > 1 {
      assert (i as real) <= ((n - 1) as real);
    }
  }

  /** Seeding keeps every label in [0, 1] when the existing ones are. */
  lemma {:induction false} SeededInRange(frames: seq<string>, labels: map<string, real>, k: nat)
    requires k <= |frames|
    requires forall f :: f in labels ==> 0.0 <= labels[f] <= 1.0
    ensures forall f :: f in Seeded(frames, labels, k) ==> 0.0 <= Seeded(frames, labels, k)[f] <= 1.0
  {
    if k > 0 {
      SeededInRange(frames, labels, k - 1);
      RampInRange(k - 1, |frames|);
    }
  }

  /** Seeding a folder whose frames are all labelled changes nothing. */
  lemma {:induction false} SeededUnchanged(frames: seq<string>, labels: map<string, real>, k: nat)
    requires k <= |frames|
    requires forall i :: 0 <= i < k ==> frames[i] in labels
    ensures Seeded(frames, labels, k) == labels
  {
    if k > 0 {
      SeededUnchanged(frames, labels, k - 1);
    }
  }

  /** Viewing a folder twice writes the same label file as viewing it once. */
  lemma SeedIdempotent(frames: seq<string>, labels: map<string, real>)
    ensures Seed(frames, Seed(frames, labels)) == Seed(frames, labels)
  {
    SeedSpec(frames, labels);
    SeededUnchanged(frames, Seed(frames, labels), |frames|);
  }

  /**
   * A label file seeded from nothing agrees with what saving a label recomputes while the
   * folder has no usable anchor: both are the uniform ramp.
   */
  lemma SeedAgreesWithRecompute(frames: seq<string>, points: map<string, Stored>)
    requires Distinct(frames)
    requires forall k :: 0 <= k < |frames| ==> !Anchored(frames, points, k)
    ensures Seed(frames, map[]) == Labels(frames, points)
  {
    var seeded := Seed(frames, map[]);
    var labels := Labels(frames, points);
    SeedSpec(frames, map[]);
    LabelsCoverFrames(frames, points);
    forall f | f in seeded ensures f in labels && seeded[f] == labels[f] {
      var i :| 0 <= i < |frames| && frames[i] == f;
      assert FirstAt(frames, i);
      NoAnchorsGiveRamp(frames, points, i);
    }
    assert seeded.Keys == labels.Keys;
  }
}
