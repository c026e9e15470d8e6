/**
 * The anchor side of `save_label`: the clamped upsert into the anchor file,
 * the walk over the ordered frames that turns anchored frames into
 * (index, value) pairs, the two virtual boundary anchors, and the sort by
 * index.
 */
module Anchors {
  import opened Basics

  /** One value of the anchor file: a JSON value that `float()` accepts, or one it rejects. */
  datatype Stored = Num(number: real) | Unparsable

  /** `max(0.0, min(1.0, v))`: the clamp applied to every incoming and every computed value. */
  function Clamp(v: real): (r: real)
    ensures 0.0 <= r <= 1.0
    ensures 0.0 <= v <= 1.0 ==> r == v
    ensures v < 0.0 ==> r == 0.0
    ensures v > 1.0 ==> r == 1.0
  {
    var atMostOne := if v < 1.0 then v else 1.0;
    if atMostOne > 0.0 then atMostOne else 0.0
  }

  /** `user_points[frame] = value` after the clamp: one entry set, every other entry kept. */
  function Upsert(points: map<string, Stored>, frame: string, value: real): (r: map<string, Stored>)
    ensures r.Keys == points.Keys + {frame}
    ensures r[frame] == Num(Clamp(value)) && 0.0 <= r[frame].number <= 1.0
    ensures forall k :: k in points && k != frame ==> r[k] == points[k]
  {
    points[frame := Num(Clamp(value))]
  }

  /** A control point of the interpolation: a position in the frame list and its value. */
  datatype Anchor = Anchor(index: int, value: real)

  /** Frame `k` has an anchor-file entry that `float()` accepts. */
  predicate Anchored(frames: seq<string>, points: map<string, Stored>, k: int) {
    0 <= k < |frames| && frames[k] in points && points[frames[k]].Num?
  }

  function AnchorValue(frames: seq<string>, points: map<string, Stored>, k: int): real
    requires Anchored(frames, points, k)
  {
    Clamp(points[frames[k]].number)
  }

  /** `a` is the pair the walk produces for an anchored frame. */
  predicate IsUserAnchor(frames: seq<string>, points: map<string, Stored>, a: Anchor) {
    Anchored(frames, points, a.index) && a.value == AnchorValue(frames, points, a.index)
  }

  /** `a` is a virtual boundary anchor standing where the user set none. */
  predicate IsVirtualAnchor(frames: seq<string>, points: map<string, Stored>, a: Anchor) {
    var n := |frames|;
    || (a == Anchor(0, 0.0) && !Anchored(frames, points, 0))
    || (a == Anchor(n - 1, 1.0) && !Anchored(frames, points, n - 1) && n >= 2)
  }

  predicate StrictlyIncreasing(s: seq<Anchor>) {
    forall p, q :: 0 <= p < q < |s| ==> s[p].index < s[q].index
  }

  predicate NonDecreasing(s: seq<Anchor>) {
    forall p, q :: 0 <= p < q < |s| ==> s[p].index <= s[q].index
  }

  predicate DistinctIndices(s: seq<Anchor>) {
    forall p, q :: 0 <= p < q < |s| ==> s[p].index != s[q].index
  }

  /** `any(idx == k for idx, _ in user_points_list)` */
  predicate HasIndex(s: seq<Anchor>, k: int) {
    exists j :: 0 <= j < |s| && s[j].index == k
  }

  /** The pairs the walk over the first `i` frames has appended, in frame order. */
  function UserAnchors(frames: seq<string>, points: map<string, Stored>, i: nat): seq<Anchor>
    requires i <= |frames|
  {
    if i == 0 then []
    else if Anchored(frames, points, i - 1) then
      UserAnchors(frames, points, i - 1) + [Anchor(i - 1, AnchorValue(frames, points, i - 1))]
    else UserAnchors(frames, points, i - 1)
  }

  /** The two virtual anchors: `(0, 0.0)` and then `(n - 1, 1.0)`, each only where no pair sits yet. */
  function WithBoundaries(list: seq<Anchor>, n: int): seq<Anchor> {
    AddIfMissing(AddIfMissing(list, Anchor(0, 0.0)), Anchor(n - 1, 1.0))
  }

  /** `if not any(idx == x.index ...): append(x)` */
  function AddIfMissing(list: seq<Anchor>, x: Anchor): seq<Anchor> {
    if HasIndex(list, x.index) then list else list + [x]
  }

  function InsertByIndex(x: Anchor, t: seq<Anchor>): seq<Anchor> {
    if t == [] || x.index <= t[0].index then [x] + t
    else [t[0]] + InsertByIndex(x, t[1..])
  }

  /** `sorted(pairs, key=lambda t: t[0])`, stable like Python's sort. */
  function SortByIndex(s: seq<Anchor>): seq<Anchor> {
    if s == [] then []
    else InsertByIndex(s[0], SortByIndex(s[1..]))
  }

  /** The list the interpolation runs over. */
  function AnchorList(frames: seq<string>, points: map<string, Stored>): seq<Anchor> {
    SortByIndex(WithBoundaries(UserAnchors(frames, points, |frames|), |frames|))
  }

  /** The walk over the ordered frames (the `for idx, fname in enumerate(frames)` loop). */
  method CollectAnchors(frames: seq<string>, points: map<string, Stored>) returns (list: seq<Anchor>)
    ensures list == UserAnchors(frames, points, |frames|)
  {
    list := [];
    for idx := 0 to |frames|
      invariant list == UserAnchors(frames, points, idx)
    {
      var fname := frames[idx];
      if fname in points && points[fname].Num? {
        var v := Clamp(points[fname].number);
        list := list + [Anchor(idx, v)];
      }
    }
  }

  /** The anchor list of `save_label`: collect, add the virtual anchors, sort by index. */
  method BuildAnchorList(frames: seq<string>, points: map<string, Stored>) returns (list: seq<Anchor>)
    ensures list == AnchorList(frames, points)
  {
    list := CollectAnchors(frames, points);
    if !HasIndex(list, 0) {
      list := list + [Anchor(0, 0.0)];
    }
    if !HasIndex(list, |frames| - 1) {
      list := list + [Anchor(|frames| - 1, 1.0)];
    }
    list := SortByIndex(list);
  }

  /** Every collected pair is an anchored frame of the list with its clamped value, in index order; none is missed. */
  lemma {:induction false} UserAnchorsSpec(frames: seq<string>, points: map<string, Stored>, i: nat)
    requires i <= |frames|
    ensures StrictlyIncreasing(UserAnchors(frames, points, i))
    ensures forall a :: a in UserAnchors(frames, points, i) ==> 0 <= a.index < i && IsUserAnchor(frames, points, a)
    ensures forall k :: 0 <= k < i && Anchored(frames, points, k) ==>
      Anchor(k, AnchorValue(frames, points, k)) in UserAnchors(frames, points, i)
  {
    if i > 0 {
      UserAnchorsSpec(frames, points, i - 1);
    }
  }

  /** Inserting adds exactly one copy of x. */
  lemma {:induction false} InsertByIndexPerm(x: Anchor, t: seq<Anchor>)
    ensures multiset(InsertByIndex(x, t)) == multiset(t) + multiset{x}
  {
    if !(t == [] || x.index <= t[0].index) {
      InsertByIndexPerm(x, t[1..]);
      assert t == [t[0]] + t[1..];
    }
  }

  lemma {:induction false} InsertByIndexSorted(x: Anchor, t: seq<Anchor>)
    requires NonDecreasing(t)
    ensures NonDecreasing(InsertByIndex(x, t))
  {
    if t != [] && x.index > t[0].index {
      InsertByIndexSorted(x, t[1..]);
      InsertByIndexPerm(x, t[1..]);
      var rest := InsertByIndex(x, t[1..]);
      forall j | 0 <= j < |rest| ensures t[0].index <= rest[j].index {
        assert rest[j] in multiset(rest);
        assert rest[j] == x || rest[j] in t[1..];
      }
    }
  }

  lemma {:induction false} InsertByIndexStrict(x: Anchor, t: seq<Anchor>)
    requires StrictlyIncreasing(t)
    requires forall a :: a in t ==> a.index != x.index
    ensures StrictlyIncreasing(InsertByIndex(x, t))
  {
    if t != [] && x.index > t[0].index {
      InsertByIndexStrict(x, t[1..]);
      InsertByIndexPerm(x, t[1..]);
      var rest := InsertByIndex(x, t[1..]);
      forall j | 0 <= j < |rest| ensures t[0].index < rest[j].index {
        assert rest[j] in multiset(rest);
        assert rest[j] == x || rest[j] in t[1..];
      }
    }
  }

  /** Sorting is a permutation. */
  lemma {:induction false} SortByIndexPerm(s: seq<Anchor>)
    ensures multiset(SortByIndex(s)) == multiset(s)
  {
    if s != [] {
      SortByIndexPerm(s[1..]);
      InsertByIndexPerm(s[0], SortByIndex(s[1..]));
      assert s == [s[0]] + s[1..];
    }
  }

  /** The sort orders by index and keeps every pair; with distinct indices the order is strict. */
  lemma {:induction false} SortByIndexSpec(s: seq<Anchor>)
    ensures NonDecreasing(SortByIndex(s))
    ensures multiset(SortByIndex(s)) == multiset(s)
    ensures DistinctIndices(s) ==> StrictlyIncreasing(SortByIndex(s))
  {
    SortByIndexPerm(s);
    if s != [] {
      var t := SortByIndex(s[1..]);
      SortByIndexSpec(s[1..]);
      InsertByIndexSorted(s[0], t);
      if DistinctIndices(s) {
        forall a | a in t ensures a.index != s[0].index {
          assert a in multiset(s[1..]);
          var q :| 0 <= q < |s[1..]| && s[1..][q] == a;
          assert s[q + 1] == a;
        }
        InsertByIndexStrict(s[0], t);
      }
    }
  }

  /** Appending a pair only where its index is missing keeps the indices distinct and makes the index present. */
  lemma AddIfMissingSpec(list: seq<Anchor>, x: Anchor)
    requires DistinctIndices(list)
    ensures var r := AddIfMissing(list, x);
      && DistinctIndices(r) && HasIndex(r, x.index)
      && (forall k :: HasIndex(list, k) ==> HasIndex(r, k))
      && (forall a :: a in list ==> a in r)
      && (forall a :: a in r ==> a in list || (a == x && !HasIndex(list, x.index)))
  {
    var r := AddIfMissing(list, x);
    if !HasIndex(list, x.index) {
      assert r == list + [x];
      assert r[|list|].index == x.index;
      forall p, q | 0 <= p < q < |r| ensures r[p].index != r[q].index {
        assert r[p] == list[p];
        if q < |list| {
          assert r[q] == list[q];
        }
      }
      forall k | HasIndex(list, k) ensures HasIndex(r, k) {
        var j :| 0 <= j < |list| && list[j].index == k;
        assert r[j] == list[j];
      }
    }
  }

  lemma {:induction false} AnchoredHasIndex(frames: seq<string>, points: map<string, Stored>, list: seq<Anchor>, k: int)
    requires Anchored(frames, points, k)
    requires Anchor(k, AnchorValue(frames, points, k)) in list
    ensures HasIndex(list, k)
  {
    var j :| 0 <= j < |list| && list[j] == Anchor(k, AnchorValue(frames, points, k));
  }

  /** Before the sort: pairwise different indices, 0 and n - 1 present, every user anchor kept, every other pair a virtual anchor placed where no user anchor is. */
  lemma {:induction false} BoundariesSpec(frames: seq<string>, points: map<string, Stored>)
    requires |frames| >= 1
    ensures var n := |frames|;
      var u := UserAnchors(frames, points, n);
      var b := WithBoundaries(u, n);
      && DistinctIndices(b) && HasIndex(b, 0) && HasIndex(b, n - 1)
      && (forall a :: a in u ==> a in b)
      && (forall a :: a in b ==> 0 <= a.index < n && (IsUserAnchor(frames, points, a) || IsVirtualAnchor(frames, points, a)))
  {
    var n := |frames|;
    var u := UserAnchors(frames, points, n);
    UserAnchorsSpec(frames, points, n);
    var start := Anchor(0, 0.0);
    var end := Anchor(n - 1, 1.0);
    var w := AddIfMissing(u, start);
    var b := AddIfMissing(w, end);
    AddIfMissingSpec(u, start);
    AddIfMissingSpec(w, end);
    if Anchored(frames, points, 0) {
      AnchoredHasIndex(frames, points, u, 0);
    }
    if Anchored(frames, points, n - 1) {
      AnchoredHasIndex(frames, points, u, n - 1);
    }
    if !HasIndex(w, n - 1) {
      assert n - 1 != 0;
    }
    forall a | a in b ensures 0 <= a.index < n && (IsUserAnchor(frames, points, a) || IsVirtualAnchor(frames, points, a)) {
      if a in u {
      } else if a in w {
        assert a == start && !HasIndex(u, 0);
      } else {
        assert a == end && !HasIndex(w, n - 1);
      }
    }
  }

  lemma {:induction false} SortKeepsElements(s: seq<Anchor>)
    ensures forall a :: a in SortByIndex(s) <==> a in s
  {
    SortByIndexSpec(s);
    forall a ensures a in SortByIndex(s) <==> a in s {
      assert a in SortByIndex(s) <==> a in multiset(SortByIndex(s));
      assert a in s <==> a in multiset(s);
    }
  }

  lemma PairValueInRange(frames: seq<string>, points: map<string, Stored>, a: Anchor)
    requires IsUserAnchor(frames, points, a) || IsVirtualAnchor(frames, points, a)
    ensures 0.0 <= a.value <= 1.0
  {
    if IsUserAnchor(frames, points, a) {
      assert a.value == Clamp(points[frames[a.index]].number);
    }
  }

  /** Sorting pairs with distinct indices in 0..n-1 that include 0 and n - 1 gives a strictly increasing list from 0 to n - 1 with the same pairs. */
  lemma {:induction false} SortBoundedSpec(b: seq<Anchor>, n: int)
    requires DistinctIndices(b) && HasIndex(b, 0) && HasIndex(b, n - 1)
    requires forall a :: a in b ==> 0 <= a.index < n
    ensures var s := SortByIndex(b);
      && StrictlyIncreasing(s)
      && (forall a :: a in s <==> a in b)
      && |s| >= 1 && s[0].index == 0 && s[|s| - 1].index == n - 1
  {
    var s := SortByIndex(b);
    SortByIndexSpec(b);
    SortKeepsElements(b);
    var z :| 0 <= z < |b| && b[z].index == 0;
    var l :| 0 <= l < |b| && b[l].index == n - 1;
    assert b[z] in s && b[l] in s;
    var zs :| 0 <= zs < |s| && s[zs] == b[z];
    var ls :| 0 <= ls < |s| && s[ls] == b[l];
    assert s[0] in b && s[|s| - 1] in b;
    assert s[0].index >= 0 && s[|s| - 1].index < n;
    assert zs == 0 && ls == |s| - 1;
  }

  /** After the sort, for a non-empty frame list: strictly increasing indices from 0 to n - 1 and values in [0, 1]; every user anchor is kept and every other pair is a virtual anchor placed where no user anchor is. */
  lemma {:induction false} AnchorListSpec(frames: seq<string>, points: map<string, Stored>)
    requires |frames| >= 1
    ensures var s := AnchorList(frames, points);
      && StrictlyIncreasing(s)
      && |s| >= 1 && s[0].index == 0 && s[|s| - 1].index == |frames| - 1
      && (forall a :: a in s ==> 0 <= a.index < |frames| && 0.0 <= a.value <= 1.0)
      && (forall a :: a in s ==> IsUserAnchor(frames, points, a) || IsVirtualAnchor(frames, points, a))
      && (forall k :: 0 <= k < |frames| && Anchored(frames, points, k) ==> Anchor(k, AnchorValue(frames, points, k)) in s)
  {
    var n := |frames|;
    var u := UserAnchors(frames, points, n);
    var b := WithBoundaries(u, n);
    var s := SortByIndex(b);
    UserAnchorsSpec(frames, points, n);
    BoundariesSpec(frames, points);
    SortBoundedSpec(b, n);
    forall a | a in s
      ensures 0 <= a.index < n && 0.0 <= a.value <= 1.0
      ensures IsUserAnchor(frames, points, a) || IsVirtualAnchor(frames, points, a)
    {
      assert a in b;
      PairValueInRange(frames, points, a);
    }
    forall k | 0 <= k < n && Anchored(frames, points, k)
      ensures Anchor(k, AnchorValue(frames, points, k)) in s
    {
      assert Anchor(k, AnchorValue(frames, points, k)) in u;
    }
  }

  /** An empty folder, as written: the virtual anchors are `(-1, 1.0)` and `(0, 0.0)`. */
  lemma {:induction false} EmptyFolderAnchors(points: map<string, Stored>)
    ensures AnchorList([], points) == [Anchor(-1, 1.0), Anchor(0, 0.0)]
  {
    var u := UserAnchors([], points, 0);
    assert u == [];
    var w := [Anchor(0, 0.0)];
    assert !HasIndex(u, 0);
    assert AddIfMissing(u, Anchor(0, 0.0)) == w;
    assert !HasIndex(w, -1);
    var b := WithBoundaries(u, 0);
    assert b == [Anchor(0, 0.0), Anchor(-1, 1.0)];
    assert SortByIndex(b[1..]) == [Anchor(-1, 1.0)];
    assert InsertByIndex(Anchor(0, 0.0), [Anchor(-1, 1.0)]) == [Anchor(-1, 1.0), Anchor(0, 0.0)];
  }
}
