/**
 * Frame list resolution: the names of a frame folder that carry an image
 * extension, sorted ascending, and the sub-folders of the data directory,
 * sorted ascending. Positions in the sorted frame list are the only frame
 * coordinate used by anchors, interpolation, seeding and paging.
 */
module FrameList {
  import opened Basics

  /** `str.lower()` on one character; only the ASCII letters are folded. */
  function LowerChar(c: char): char {
    if 'A' <= c <= 'Z' then (c as int + 32) as char else c
  }

  function Lower(s: string): string {
    seq(|s|, i requires 0 <= i < |s| => LowerChar(s[i]))
  }

  predicate EndsWith(s: string, suffix: string) {
    |suffix| <= |s| && s[|s| - |suffix|..] == suffix
  }

  /** The accepted image extensions, compared case-insensitively. */
  predicate IsImageName(name: string) {
    var l := Lower(name);
    EndsWith(l, ".jpg") || EndsWith(l, ".jpeg") || EndsWith(l, ".png")
  }

  /** A list comprehension with a condition, in the order of s. */
  function Filter(s: seq<string>, keep: string -> bool): seq<string> {
    if s == [] then []
    else (if keep(s[0]) then [s[0]] else []) + Filter(s[1..], keep)
  }

  /** The comprehension keeps every kept name as often as s lists it, and drops the rest. */
  lemma {:induction false} FilterCount(s: seq<string>, keep: string -> bool)
    ensures forall x :: multiset(Filter(s, keep))[x] == if keep(x) then multiset(s)[x] else 0
  {
    if s != [] {
      FilterCount(s[1..], keep);
      assert s == [s[0]] + s[1..];
    }
  }

  /** Python's ordering of strings: code point by code point, a proper prefix first. */
  predicate NameLe(a: string, b: string)
    decreases |a|
  {
    |a| == 0 || (|b| > 0 && (a[0] < b[0] || (a[0] == b[0] && NameLe(a[1..], b[1..]))))
  }

  lemma {:induction false} NameLeTotal(a: string, b: string)
    ensures NameLe(a, b) || NameLe(b, a)
    decreases |a|
  {
    if |a| > 0 && |b| > 0 && a[0] == b[0] {
      NameLeTotal(a[1..], b[1..]);
    }
  }

  lemma {:induction false} NameLeTransitive(a: string, b: string, c: string)
    requires NameLe(a, b) && NameLe(b, c)
    ensures NameLe(a, c)
    decreases |a|
  {
    if |a| > 0 && a[0] == b[0] && b[0] == c[0] {
      NameLeTransitive(a[1..], b[1..], c[1..]);
    }
  }

  lemma {:induction false} NameLeAntisymmetric(a: string, b: string)
    requires NameLe(a, b) && NameLe(b, a)
    ensures a == b
    decreases |a|
  {
    if |a| > 0 {
      NameLeAntisymmetric(a[1..], b[1..]);
      assert a == [a[0]] + a[1..] && b == [b[0]] + b[1..];
    }
  }

  predicate Sorted(s: seq<string>) {
    forall i, j :: 0 <= i < j < |s| ==> NameLe(s[i], s[j])
  }

  function InsertName(x: string, t: seq<string>): seq<string> {
    if t == [] || NameLe(x, t[0]) then [x] + t
    else [t[0]] + InsertName(x, t[1..])
  }

  /** Python's `sorted` on strings (an insertion sort; a stable sort on a total order). */
  function SortNames(s: seq<string>): seq<string> {
    if s == [] then []
    else InsertName(s[0], SortNames(s[1..]))
  }

  /** Inserting adds exactly one copy of x. */
  lemma {:induction false} InsertNamePerm(x: string, t: seq<string>)
    ensures multiset(InsertName(x, t)) == multiset(t) + multiset{x}
  {
    if !(t == [] || NameLe(x, t[0])) {
      InsertNamePerm(x, t[1..]);
      assert t == [t[0]] + t[1..];
    }
  }

  /** Sorting is a permutation. */
  lemma {:induction false} SortNamesPerm(s: seq<string>)
    ensures multiset(SortNames(s)) == multiset(s)
  {
    if s != [] {
      SortNamesPerm(s[1..]);
      InsertNamePerm(s[0], SortNames(s[1..]));
      assert s == [s[0]] + s[1..];
    }
  }

  lemma {:induction false} InsertNameSorted(x: string, t: seq<string>)
    requires Sorted(t)
    ensures Sorted(InsertName(x, t))
  {
    if t == [] || NameLe(x, t[0]) {
      forall j | 0 <= j < |t| ensures NameLe(x, t[j]) {
        if j > 0 { NameLeTransitive(x, t[0], t[j]); }
      }
    } else {
      NameLeTotal(x, t[0]);
      InsertNameSorted(x, t[1..]);
      var rest := InsertName(x, t[1..]);
      InsertNamePerm(x, t[1..]);
      forall j | 0 <= j < |rest| ensures NameLe(t[0], rest[j]) {
        assert rest[j] in multiset(rest);
        assert rest[j] == x || rest[j] in t[1..];
      }
    }
  }

  lemma {:induction false} SortNamesSorted(s: seq<string>)
    ensures Sorted(SortNames(s))
  {
    if s != [] {
      SortNamesSorted(s[1..]);
      InsertNameSorted(s[0], SortNames(s[1..]));
    }
  }

  lemma DistinctByCount(s: seq<string>)
    requires forall x :: multiset(s)[x] <= 1
    ensures Distinct(s)
  {
    forall i, j | 0 <= i < j < |s| ensures s[i] != s[j] {
      assert s == s[..i] + [s[i]] + s[i + 1..j] + [s[j]] + s[j + 1..];
      assert multiset(s) == multiset(s[..i]) + multiset{s[i]} + multiset(s[i + 1..j]) + multiset{s[j]} + multiset(s[j + 1..]);
      var x := s[i];
      assert multiset(s)[x] >= 1 + multiset{s[j]}[x];
    }
  }

  lemma {:induction false} CountOfDistinct(s: seq<string>, x: string)
    requires Distinct(s)
    ensures multiset(s)[x] <= 1
  {
    if s != [] {
      assert s == [s[0]] + s[1..];
      CountOfDistinct(s[1..], x);
      assert s[0] !in s[1..];
    }
  }

  /** `get_frames` / the inline listing of `save_label`: image names of a folder, sorted. */
  function ResolveFrames(entries: seq<string>): seq<string> {
    SortNames(Filter(entries, IsImageName))
  }

  /** `get_video_folders`: the entries of the data directory that are directories, sorted. */
  function VideoFolders(entries: seq<string>, isDir: string -> bool): seq<string> {
    SortNames(Filter(entries, isDir))
  }

  /** Sorted selection: exactly the kept names, each as often as listed, ascending. */
  lemma SortedSelection(entries: seq<string>, keep: string -> bool)
    ensures var r := SortNames(Filter(entries, keep));
      && Sorted(r)
      && (forall x :: x in r <==> x in entries && keep(x))
      && (forall x :: multiset(r)[x] == if keep(x) then multiset(entries)[x] else 0)
      && (Distinct(entries) ==> Distinct(r))
  {
    var r := SortNames(Filter(entries, keep));
    FilterCount(entries, keep);
    SortNamesPerm(Filter(entries, keep));
    SortNamesSorted(Filter(entries, keep));
    forall x ensures x in r <==> x in entries && keep(x) {
      assert x in r <==> multiset(r)[x] > 0;
      assert x in entries <==> multiset(entries)[x] > 0;
    }
    if Distinct(entries) {
      forall x ensures multiset(r)[x] <= 1 { CountOfDistinct(entries, x); }
      DistinctByCount(r);
    }
  }

  /** The frame list holds exactly the image names, sorted, without duplicates when the listing has none. */
  lemma ResolveFramesSpec(entries: seq<string>)
    ensures Sorted(ResolveFrames(entries))
    ensures forall x :: x in ResolveFrames(entries) <==> x in entries && IsImageName(x)
    ensures forall x :: !IsImageName(x) ==> x !in ResolveFrames(entries)
    ensures forall x :: multiset(ResolveFrames(entries))[x] == if IsImageName(x) then multiset(entries)[x] else 0
    ensures Distinct(entries) ==> Distinct(ResolveFrames(entries))
  {
    SortedSelection(entries, IsImageName);
  }

  /** The folder list holds exactly the directory entries, sorted. */
  lemma VideoFoldersSpec(entries: seq<string>, isDir: string -> bool)
    ensures Sorted(VideoFolders(entries, isDir))
    ensures forall x :: x in VideoFolders(entries, isDir) <==> x in entries && isDir(x)
    ensures Distinct(entries) ==> Distinct(VideoFolders(entries, isDir))
  {
    SortedSelection(entries, isDir);
  }

  /** Sorting with `sorted` gives one answer: two sorted permutations of the same names are equal. */
  lemma {:induction false} SortedPermutationUnique(a: seq<string>, b: seq<string>)
    requires Sorted(a) && Sorted(b) && multiset(a) == multiset(b)
    ensures a == b
  {
    if a != [] {
      assert b != [] by { assert |multiset(b)| == |multiset(a)| > 0; }
      assert a[0] in multiset(b) && b[0] in multiset(a);
      var i :| 0 <= i < |b| && b[i] == a[0];
      var j :| 0 <= j < |a| && a[j] == b[0];
      if a[0] != b[0] {
        assert NameLe(b[0], b[i]) && NameLe(a[0], a[j]);
        NameLeAntisymmetric(a[0], b[0]);
      }
      assert a == [a[0]] + a[1..] && b == [b[0]] + b[1..];
      assert multiset(a) == multiset{a[0]} + multiset(a[1..]);
      assert multiset(b) == multiset{b[0]} + multiset(b[1..]);
      assert a[0] == b[0];
      forall x ensures multiset(a[1..])[x] == multiset(b[1..])[x] {
        assert multiset(a)[x] == multiset{a[0]}[x] + multiset(a[1..])[x];
        assert multiset(b)[x] == multiset{b[0]}[x] + multiset(b[1..])[x];
      }
      assert multiset(a[1..]) == multiset(b[1..]);
      SortedPermutationUnique(a[1..], b[1..]);
    }
  }
}
