/**
 * `get_filenames` (train.py): the rgb and mask paths found by glob, each
 * list sorted, paired by position and cut with the Python slice `[:limit]`.
 *
 * glob is a parameter: the two path lists arrive in whatever order the file
 * system gives. `list.sort` orders str values by code point, shorter prefix
 * first, which is `PathLe` below.
 */
module FileList {
  import opened Basics

  /** Python's `<=` on str: lexicographic by code point, a proper prefix before its extensions. */
  predicate PathLe(a: Path, b: Path)
  {
    if |a| == 0 then true
    else if |b| == 0 then false
    else if a[0] != b[0] then a[0] < b[0]
    else PathLe(a[1..], b[1..])
  }

  // PathLe is a total order: reflexive, total, transitive and antisymmetric.

  lemma {:induction false} PathLeRefl(a: Path)
    ensures PathLe(a, a)
  {
    if |a| > 0 {
      PathLeRefl(a[1..]);
    }
  }

  lemma {:induction false} PathLeTotal(a: Path, b: Path)
    ensures PathLe(a, b) || PathLe(b, a)
  {
    if |a| > 0 && |b| > 0 && a[0] == b[0] {
      PathLeTotal(a[1..], b[1..]);
    }
  }

  lemma {:induction false} PathLeTrans(a: Path, b: Path, c: Path)
    requires PathLe(a, b) && PathLe(b, c)
    ensures PathLe(a, c)
  {
    if |a| > 0 && |b| > 0 && |c| > 0 && a[0] == b[0] == c[0] {
      PathLeTrans(a[1..], b[1..], c[1..]);
    }
  }

  lemma {:induction false} PathLeAntisym(a: Path, b: Path)
    requires PathLe(a, b) && PathLe(b, a)
    ensures a == b
  {
    if |a| > 0 && |b| > 0 {
      PathLeAntisym(a[1..], b[1..]);
      assert a == [a[0]] + a[1..];
      assert b == [b[0]] + b[1..];
    }
  }

  /** Every path is PathLe every later path. */
  predicate Sorted(s: seq<Path>)
  {
    forall i, j :: 0 <= i < j < |s| ==> PathLe(s[i], s[j])
  }

  /** x placed before the first element it does not follow. */
  function Insert(x: Path, s: seq<Path>): (r: seq<Path>)
    requires Sorted(s)
    ensures Sorted(r)
    ensures multiset(r) == multiset(s) + multiset{x}
  {
    if |s| == 0 then [x]
    else if PathLe(x, s[0]) then
      InsertFront(x, s);
      [x] + s
    else
      var rest := Insert(x, s[1..]);
      PathLeTotal(x, s[0]);
      InsertBehind(x, s, rest);
      assert s == [s[0]] + s[1..];
      [s[0]] + rest
  }

  lemma InsertFront(x: Path, s: seq<Path>)
    requires Sorted(s) && |s| > 0 && PathLe(x, s[0])
    ensures Sorted([x] + s)
  {
    forall j | 0 < j <= |s| ensures PathLe(x, ([x] + s)[j]) {
      if j > 1 {
        PathLeTrans(x, s[0], s[j - 1]);
      }
    }
  }

  lemma InsertBehind(x: Path, s: seq<Path>, rest: seq<Path>)
    requires Sorted(s) && |s| > 0 && PathLe(s[0], x)
    requires Sorted(rest) && multiset(rest) == multiset(s[1..]) + multiset{x}
    ensures Sorted([s[0]] + rest)
  {
    forall j | 0 <= j < |rest| ensures PathLe(s[0], rest[j]) {
      assert rest[j] in multiset(rest);
      if rest[j] != x {
        assert rest[j] in multiset(s[1..]);
        var k :| 0 <= k < |s[1..]| && s[1..][k] == rest[j];
        assert s[k + 1] == rest[j];
      }
    }
  }

  /** The list as `list.sort()` leaves it: sorted, and the same paths with the same multiplicities. */
  function SortPaths(s: seq<Path>): (r: seq<Path>)
    ensures Sorted(r)
    ensures multiset(r) == multiset(s)
    ensures |r| == |s|
  {
    if |s| == 0 then []
    else
      assert s == [s[0]] + s[1..];
      Insert(s[0], SortPaths(s[1..]))
  }

  /** Two sorted lists with the same elements are the same list: the sort's result does not depend on its algorithm. */
  lemma {:induction false} SortedUnique(s: seq<Path>, t: seq<Path>)
    requires Sorted(s) && Sorted(t) && multiset(s) == multiset(t)
    ensures s == t
  {
    assert |s| == |multiset(s)| == |multiset(t)| == |t|;
    if |s| > 0 {
      SortedHeads(s, t);
      SortedTail(s);
      SortedTail(t);
      MultisetTail(s, t);
      SortedUnique(s[1..], t[1..]);
      assert s == [s[0]] + s[1..];
      assert t == [t[0]] + t[1..];
    }
  }

  /** The first element of a sorted list is its least: two sorted lists with the same elements start alike. */
  lemma SortedHeads(s: seq<Path>, t: seq<Path>)
    requires Sorted(s) && Sorted(t) && multiset(s) == multiset(t) && |s| > 0 && |t| > 0
    ensures s[0] == t[0]
  {
    assert s[0] in multiset(t);
    var j :| 0 <= j < |t| && t[j] == s[0];
    assert t[0] in multiset(s);
    var i :| 0 <= i < |s| && s[i] == t[0];
    PathLeRefl(s[0]);
    PathLeRefl(t[0]);
    assert PathLe(s[0], s[i]) && PathLe(t[0], t[j]);
    PathLeAntisym(s[0], t[0]);
  }

  lemma SortedTail(s: seq<Path>)
    requires Sorted(s) && |s| > 0
    ensures Sorted(s[1..])
  {
    forall a, b | 0 <= a < b < |s[1..]| ensures PathLe(s[1..][a], s[1..][b]) {
      assert s[1..][a] == s[a + 1] && s[1..][b] == s[b + 1];
    }
  }

  lemma MultisetTail(s: seq<Path>, t: seq<Path>)
    requires multiset(s) == multiset(t) && |s| > 0 && |t| > 0 && s[0] == t[0]
    ensures multiset(s[1..]) == multiset(t[1..])
  {
    assert s == [s[0]] + s[1..];
    assert t == [t[0]] + t[1..];
    assert multiset(s) == multiset{s[0]} + multiset(s[1..]);
    assert multiset(t) == multiset{s[0]} + multiset(t[1..]);
    forall p ensures multiset(s[1..])[p] == multiset(t[1..])[p] {
      assert multiset(s)[p] == multiset(t)[p];
    }
  }

  /** Two lists holding the same paths sort to the same list, whatever order glob returned them in. */
  lemma SortIgnoresOrder(s: seq<Path>, t: seq<Path>)
    requires multiset(s) == multiset(t)
    ensures SortPaths(s) == SortPaths(t)
  {
    SortedUnique(SortPaths(s), SortPaths(t));
  }

  /**
   * The length of `lst[:stop]` for a list of length n: None keeps all, a
   * non-negative stop is clipped to n, a negative one counts back from the end.
   */
  function SliceStop(n: nat, stop: Option<int>): (r: nat)
    ensures r <= n
  {
    match stop
    case None => n
    case Some(l) =>
      if l >= 0 then Min(l, n)
      else if n + l >= 0 then n + l
      else 0
  }

  /** A negative stop -k drops the last k elements, or all of them when there are fewer. */
  lemma SliceStopNegative(n: nat, k: int)
    requires k > 0
    ensures SliceStop(n, Some(-k)) == n - Min(k, n)
    ensures SliceStop(n, Some(-k)) < n || n == 0
  {
  }

  /** `zip(a, b)` as a list: pairs by position, as many as the shorter list. */
  function Zip(a: seq<Path>, b: seq<Path>): (r: seq<Sample>)
    ensures |r| == Min(|a|, |b|)
    ensures forall i :: 0 <= i < |r| ==> r[i] == (a[i], b[i])
  {
    if |a| == 0 || |b| == 0 then [] else [(a[0], b[0])] + Zip(a[1..], b[1..])
  }

  /** The training pairs get_filenames returns. */
  function TrainFiles(rgbFiles: seq<Path>, maskFiles: seq<Path>, limit: Option<int>): seq<Sample>
  {
    var pairs := Zip(SortPaths(rgbFiles), SortPaths(maskFiles));
    pairs[..SliceStop(|pairs|, limit)]
  }

  /**
   * Sort both lists (in place in the source), append the zipped pairs one by
   * one to train_files, and return train_files[:limit].
   */
  method GetFilenames(rgbFiles: seq<Path>, maskFiles: seq<Path>, limit: Option<int>)
    returns (trainFiles: seq<Sample>)
    ensures trainFiles == TrainFiles(rgbFiles, maskFiles, limit)
  {
    var rgbfiles := SortPaths(rgbFiles);
    var maskfiles := SortPaths(maskFiles);
    var files: seq<Sample> := [];
    var i := 0;
    while i < |rgbfiles| && i < |maskfiles|
      invariant 0 <= i <= Min(|rgbfiles|, |maskfiles|)
      invariant |files| == i
      invariant forall t :: 0 <= t < i ==> files[t] == (rgbfiles[t], maskfiles[t])
    {
      files := files + [(rgbfiles[i], maskfiles[i])];
      i := i + 1;
    }
    assert files == Zip(rgbfiles, maskfiles);
    trainFiles := files[..SliceStop(|files|, limit)];
  }

  /**
   * Pair i holds the i-th rgb path and the i-th mask path in sorted order, and
   * there are min(#rgb, #mask) pairs before the slice cuts them to its stop.
   */
  lemma TrainFilesPairs(rgbFiles: seq<Path>, maskFiles: seq<Path>, limit: Option<int>)
    ensures |TrainFiles(rgbFiles, maskFiles, limit)| == SliceStop(Min(|rgbFiles|, |maskFiles|), limit)
    ensures forall i :: 0 <= i < |TrainFiles(rgbFiles, maskFiles, limit)| ==>
      TrainFiles(rgbFiles, maskFiles, limit)[i] == (SortPaths(rgbFiles)[i], SortPaths(maskFiles)[i])
  {
  }

  /** The rgb column and the mask column of the result are each in sorted order. */
  lemma {:induction false} TrainFilesSorted(rgbFiles: seq<Path>, maskFiles: seq<Path>, limit: Option<int>)
    ensures var r := TrainFiles(rgbFiles, maskFiles, limit);
      forall i, j :: 0 <= i < j < |r| ==> PathLe(r[i].0, r[j].0) && PathLe(r[i].1, r[j].1)
  {
    var r := TrainFiles(rgbFiles, maskFiles, limit);
    var sa, sb := SortPaths(rgbFiles), SortPaths(maskFiles);
    forall i, j | 0 <= i < j < |r| ensures PathLe(r[i].0, r[j].0) && PathLe(r[i].1, r[j].1) {
      assert r[i] == (sa[i], sb[i]) && r[j] == (sa[j], sb[j]);
    }
  }

  /** The result does not depend on the order glob lists the files in. */
  lemma TrainFilesIgnoreGlobOrder(rgb1: seq<Path>, rgb2: seq<Path>, mask1: seq<Path>, mask2: seq<Path>, limit: Option<int>)
    requires multiset(rgb1) == multiset(rgb2) && multiset(mask1) == multiset(mask2)
    ensures TrainFiles(rgb1, mask1, limit) == TrainFiles(rgb2, mask2, limit)
  {
    SortIgnoresOrder(rgb1, rgb2);
    SortIgnoresOrder(mask1, mask2);
  }
}
