/**
 * Row paging on the index page: one start offset per folder, frames sampled for display, the
 * offset clamped so that a row stays inside the sampled frames, and a row of fixed width whose
 * slots past the end are empty.
 */
module Paging {
  import opened Basics

  const FRAMES_PER_ROW: nat := 7
  const SAMPLE_EVERY_X: nat := 16

  /** The per-folder start offsets, padded with 0 and cut to one per folder. */
  method PadStarts(starts: seq<nat>, count: nat) returns (r: seq<nat>)
    ensures |r| == count
    ensures forall i :: 0 <= i < count ==> r[i] == if i < |starts| then starts[i] else 0
  {
    r := starts;
    while |r| < count
      invariant |starts| <= |r|
      invariant r[..|starts|] == starts
      invariant forall i :: |starts| <= i < |r| ==> r[i] == 0
      decreases count - |r|
    {
      r := r + [0];
    }
    r := r[..count];
  }

  /** Every step-th element of s starting with the first, the slice `s[::step]`. */
  function Stride(s: seq<string>, step: nat): seq<string>
    requires step >= 1
    decreases |s|
  {
    if |s| == 0 then []
    else if |s| <= step then [s[0]]
    else [s[0]] + Stride(s[step..], step)
  }

  /** There are just enough elements to reach past the end: ceil(|s| / step) of them. */
  lemma {:induction false} StrideLength(s: seq<string>, step: nat)
    requires step >= 1
    ensures |s| <= |Stride(s, step)| * step
    ensures |Stride(s, step)| == 0 || (|Stride(s, step)| - 1) * step < |s|
    decreases |s|
  {
    if |s| > step {
      var c := |Stride(s[step..], step)|;
      StrideLength(s[step..], step);
      assert (c + 1) * step == c * step + step;
      assert c * step == (c - 1) * step + step;
    }
  }

  /** Element j of the stride is element j * step of s. */
  lemma {:induction false} StrideIndex(s: seq<string>, step: nat, j: nat)
    requires step >= 1 && j < |Stride(s, step)|
    ensures j * step < |s| && Stride(s, step)[j] == s[j * step]
    decreases |s|
  {
    if j > 0 {
      var tail := s[step..];
      StrideIndex(tail, step, j - 1);
      var k := (j - 1) * step;
      assert tail[k] == s[step + k];
      assert step + k == j * step;
    }
  }

  /** The frames shown in the row strip: `frames[::SAMPLE_EVERY_X]`, or all of them for a rate of 1. */
  function Sampled(frames: seq<string>): seq<string> {
    if SAMPLE_EVERY_X > 1 then Stride(frames, SAMPLE_EVERY_X) else frames
  }

  /** Sampling with step 1 keeps every frame, so the guard on the rate changes nothing. */
  lemma {:induction false} StrideOne(s: seq<string>)
    ensures Stride(s, 1) == s
  {
    var r := Stride(s, 1);
    StrideLength(s, 1);
    forall j | 0 <= j < |s| ensures r[j] == s[j] {
      StrideIndex(s, 1, j);
    }
  }

  /** The sampled frames are a subsequence of the frames, first frame first. */
  lemma SampledSpec(frames: seq<string>)
    ensures |frames| <= |Sampled(frames)| * SAMPLE_EVERY_X
    ensures |Sampled(frames)| == 0 || (|Sampled(frames)| - 1) * SAMPLE_EVERY_X < |frames|
    ensures forall j :: 0 <= j < |Sampled(frames)| ==> Sampled(frames)[j] == frames[j * SAMPLE_EVERY_X]
    ensures forall f :: f in Sampled(frames) ==> f in frames
  {
    var r := Sampled(frames);
    StrideLength(frames, SAMPLE_EVERY_X);
    forall j | 0 <= j < |r| ensures r[j] == frames[j * SAMPLE_EVERY_X] {
      StrideIndex(frames, SAMPLE_EVERY_X, j);
    }
    forall f | f in r ensures f in frames {
      var j :| 0 <= j < |r| && r[j] == f;
      StrideIndex(frames, SAMPLE_EVERY_X, j);
    }
  }

  /** The largest start that still fills a row, or 0 when there are fewer sampled frames than slots. */
  function MaxStart(sampledCount: nat): (r: nat)
    ensures sampledCount >= FRAMES_PER_ROW ==> r + FRAMES_PER_ROW == sampledCount
    ensures sampledCount < FRAMES_PER_ROW ==> r == 0
  {
    if sampledCount > FRAMES_PER_ROW then sampledCount - FRAMES_PER_ROW else 0
  }

  /**
   * The requested start, pulled back to the largest start that still fills the row: the
   * result never exceeds the request or MaxStart, and it is the request whenever that fits.
   */
  function StartOf(requested: nat, sampledCount: nat): (r: nat)
    ensures r <= requested && r <= MaxStart(sampledCount)
    ensures requested <= MaxStart(sampledCount) ==> r == requested
    ensures requested > MaxStart(sampledCount) ==> r == MaxStart(sampledCount)
  {
    var maxStart := MaxStart(sampledCount);
    if requested < maxStart then requested else maxStart
  }

  /** One thumbnail slot: the frame's file name and its label, if the label file has one. */
  datatype Slot = Slot(filename: string, boxVal: Option<real>)

  /** `labels.get(name)`: the label for name, or nothing (the page shows an empty box). */
  function Lookup(labels: map<string, real>, name: string): (r: Option<real>)
    ensures r.Some? <==> name in labels
    ensures r.Some? ==> r.value == labels[name]
  {
    if name in labels then Some(labels[name]) else None
  }

  /** The slot at position i of a row that starts at sampled frame `start`. */
  function SlotAt(sampled: seq<string>, start: nat, labels: map<string, real>, i: nat): Option<Slot> {
    if start + i < |sampled| then Some(Slot(sampled[start + i], Lookup(labels, sampled[start + i]))) else None
  }

  /** The row of FRAMES_PER_ROW slots, filled from the sampled frames and padded with empty slots. */
  method BuildRow(sampled: seq<string>, start: nat, labels: map<string, real>) returns (row: seq<Option<Slot>>)
    ensures |row| == FRAMES_PER_ROW
    ensures forall i :: 0 <= i < |row| ==> row[i] == SlotAt(sampled, start, labels, i)
  {
    row := [];
    for i := 0 to FRAMES_PER_ROW
      invariant |row| == i
      invariant forall k :: 0 <= k < i ==> row[k] == SlotAt(sampled, start, labels, k)
    {
      var frameIdx := start + i;
      if frameIdx < |sampled| {
        var name := sampled[frameIdx];
        row := row + [Some(Slot(name, Lookup(labels, name)))];
      } else {
        row := row + [None];
      }
    }
  }

  /**
   * With the start clamped by StartOf, a folder with at least FRAMES_PER_ROW sampled frames fills
   * every slot, and a smaller folder shows all of its sampled frames from the first one on.
   */
  lemma {:induction false} ClampedRowSlots(sampled: seq<string>, requested: nat, labels: map<string, real>, i: nat)
    requires i < FRAMES_PER_ROW
    ensures var start := StartOf(requested, |sampled|);
      |sampled| >= FRAMES_PER_ROW ==> SlotAt(sampled, start, labels, i).Some?
    ensures |sampled| < FRAMES_PER_ROW ==>
      (SlotAt(sampled, StartOf(requested, |sampled|), labels, i).Some? <==> i < |sampled|)
  {
    var start := StartOf(requested, |sampled|);
    if |sampled| >= FRAMES_PER_ROW {
      assert start + FRAMES_PER_ROW <= |sampled|;
    } else {
      assert start == 0;
    }
  }

  /** A slot shows a label exactly when its frame has one, and then it shows that label. */
  lemma SlotShowsLabel(sampled: seq<string>, start: nat, labels: map<string, real>, i: nat)
    requires start + i < |sampled|
    ensures SlotAt(sampled, start, labels, i).Some?
    ensures SlotAt(sampled, start, labels, i).value.filename == sampled[start + i]
    ensures SlotAt(sampled, start, labels, i).value.boxVal.Some? <==> sampled[start + i] in labels
  {
  }
}
