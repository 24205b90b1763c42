/**
 * The option values the `__main__` block of train.py derives: the
 * end-of-training weights file name, nb_classes, the shipped colour table and
 * class grouping, and the `limit` handed to get_filenames.
 */
module TrainMain {
  import opened Basics
  import opened MaskPrep
  import opened FileList

  // ---------------------------------------------------------------------------
  // The end-of-training weights file: str.replace of every dot in the model path.
  // ---------------------------------------------------------------------------

  /** Python's `s.replace('.', '_end.')`: every dot, in every path component, gets "_end" in front of it. */
  function ReplaceDots(s: string): (r: string)
  {
    if |s| == 0 then ""
    else (if s[0] == '.' then "_end." else [s[0]]) + ReplaceDots(s[1..])
  }

  /** A path without a dot comes back unchanged, so the end-of-training save reuses the checkpoint's name. */
  lemma {:induction false} ReplaceDotsNoDot(s: string)
    requires '.' !in s
    ensures ReplaceDots(s) == s
  {
    if |s| > 0 {
      assert forall c :: c in s[1..] ==> c in s;
      ReplaceDotsNoDot(s[1..]);
      assert s == [s[0]] + s[1..];
    }
  }

  /** Every dot is preceded by the four characters of "_end". */
  predicate DotsMarked(r: string)
  {
    forall i :: 0 <= i < |r| && r[i] == '.' ==>
      4 <= i && r[i - 4] == '_' && r[i - 3] == 'e' && r[i - 2] == 'n' && r[i - 1] == 'd'
  }

  /** Marked dots stay marked when two strings are joined. */
  lemma DotsMarkedAppend(a: string, b: string)
    requires DotsMarked(a) && DotsMarked(b)
    ensures DotsMarked(a + b)
  {
    var r := a + b;
    forall i | 0 <= i < |r| && r[i] == '.'
      ensures 4 <= i && r[i - 4] == '_' && r[i - 3] == 'e' && r[i - 2] == 'n' && r[i - 1] == 'd'
    {
      if i < |a| {
        assert r[i] == a[i];
        assert r[i - 4] == a[i - 4] && r[i - 3] == a[i - 3] && r[i - 2] == a[i - 2] && r[i - 1] == a[i - 1];
      } else {
        var k := i - |a|;
        assert b[k] == r[i];
        assert r[i - 4] == b[k - 4] && r[i - 3] == b[k - 3] && r[i - 2] == b[k - 2] && r[i - 1] == b[k - 1];
      }
    }
  }

  /** After the replacement no dot is left without "_end" in front of it. */
  lemma {:induction false} ReplaceDotsMarksEveryDot(s: string)
    ensures DotsMarked(ReplaceDots(s))
  {
    if |s| > 0 {
      ReplaceDotsMarksEveryDot(s[1..]);
      var head := if s[0] == '.' then "_end." else [s[0]];
      assert DotsMarked(head);
      DotsMarkedAppend(head, ReplaceDots(s[1..]));
    }
  }

  /** One more character per replaced dot, four each: |r| = |s| + 4 * (number of dots). */
  lemma {:induction false} ReplaceDotsLength(s: string)
    ensures |ReplaceDots(s)| == |s| + 4 * multiset(s)['.']
  {
    if |s| > 0 {
      ReplaceDotsLength(s[1..]);
      assert s == [s[0]] + s[1..];
      assert multiset(s) == multiset{s[0]} + multiset(s[1..]);
    }
  }

  /** The replacement works character by character, so it distributes over concatenation. */
  lemma {:induction false} ReplaceDotsAppend(a: string, b: string)
    ensures ReplaceDots(a + b) == ReplaceDots(a) + ReplaceDots(b)
  {
    if |a| > 0 {
      assert (a + b)[1..] == a[1..] + b;
      assert (a + b)[0] == a[0];
      ReplaceDotsAppend(a[1..], b);
    } else {
      assert a + b == b;
    }
  }

  /** A lone dot becomes "_end.". */
  lemma ReplaceDotsDot()
    ensures ReplaceDots(".") == "_end."
  {
    assert "."[1..] == "";
  }

  /** Reads "_end." back as a dot: the inverse of the replacement. */
  function RestoreDots(t: string): string
  {
    if |t| == 0 then ""
    else if |t| >= 5 && t[..5] == "_end." then "." + RestoreDots(t[5..])
    else [t[0]] + RestoreDots(t[1..])
  }

  /** No information is lost: restoring the dots gives back the model path. */
  lemma {:induction false} ReplaceDotsRoundTrip(s: string)
    ensures RestoreDots(ReplaceDots(s)) == s
  {
    if |s| > 0 {
      var rest := ReplaceDots(s[1..]);
      var r := ReplaceDots(s);
      ReplaceDotsRoundTrip(s[1..]);
      if s[0] == '.' {
        assert r == "_end." + rest;
        assert r[..5] == "_end." && r[5..] == rest;
      } else {
        assert r == [s[0]] + rest;
        ReplaceDotsMarksEveryDot(s[1..]);
        if |rest| > 3 {
          assert rest[3] != '.';
          assert r[4] == rest[3];
          assert r[..5] != "_end.";
        }
        assert r[1..] == rest;
      }
      assert s == [s[0]] + s[1..];
    }
  }

  /** Different model paths give different end-of-training names. */
  lemma ReplaceDotsInjective(a: string, b: string)
    requires ReplaceDots(a) == ReplaceDots(b)
    ensures a == b
  {
    ReplaceDotsRoundTrip(a);
    ReplaceDotsRoundTrip(b);
  }

  /**
   * A dot in the directory part, as in "./model.h5", is rewritten too: the
   * directory of the end-of-training file is not the model's directory.
   */
  lemma ReplaceDotsRewritesDirectory(dir: string, file: string)
    requires '.' in dir
    ensures ReplaceDots(dir + "/" + file) == ReplaceDots(dir) + "/" + ReplaceDots(file)
    ensures ReplaceDots(dir) != dir
  {
    ReplaceDotsAppend(dir + "/", file);
    ReplaceDotsAppend(dir, "/");
    ReplaceDotsNoDot("/");
    ReplaceDotsLength(dir);
  }

  /** Index of the last occurrence of c in s, or -1. */
  function LastIndex(s: string, c: char): (r: int)
    ensures -1 <= r < |s|
    ensures r >= 0 ==> s[r] == c
    ensures forall j :: r < j < |s| ==> s[j] != c
  {
    if |s| == 0 then -1
    else if s[|s| - 1] == c then |s| - 1
    else LastIndex(s[..|s| - 1], c)
  }

  /**
   * Where "_end" goes in the model path: inside the last path component,
   * right before its last dot, or at the very end when that component has no
   * dot at all.
   */
  ghost predicate ExtensionCut(model: Path, cut: int)
  {
    && 0 <= cut <= |model|
    && (forall j :: cut <= j < |model| ==> model[j] != '/')
    && (forall j :: cut < j < |model| ==> model[j] != '.')
    && (cut < |model| ==> model[cut] == '.')
    && (cut == |model| ==>
          forall j :: 0 <= j < |model| && model[j] == '.' ==> exists k :: j < k < |model| && model[k] == '/')
  }

  /** The insertion point is determined by the model path. */
  lemma ExtensionCutUnique(model: Path, c1: int, c2: int)
    requires ExtensionCut(model, c1) && ExtensionCut(model, c2)
    ensures c1 == c2
  {
    if c1 < c2 {
      assert false;
    } else if c2 < c1 {
      assert false;
    }
  }

  /** The insertion point of "_end": the last dot of the last path component, or the end. */
  function ExtensionCutOf(model: Path): (cut: int)
    ensures ExtensionCut(model, cut)
  {
    var slash := LastIndex(model, '/');
    var dot := LastIndex(model, '.');
    var cut := if dot > slash then dot else |model|;
    assert cut == |model| ==>
      forall j :: 0 <= j < |model| && model[j] == '.' ==> slash > j && model[slash] == '/';
    cut
  }

  /**
   * The end-of-training weights file as intended, a name of its own beside
   * the checkpoint's: the model path with "_end" put in front of the extension of its last path
   * component, or appended when that component has no extension.
   */
  function EndWeightsFile(model: Path): Path
  {
    var cut := ExtensionCutOf(model);
    model[..cut] + "_end" + model[cut..]
  }

  /** The intended name never coincides with the best-model checkpoint file. */
  lemma EndWeightsFileDistinct(model: Path)
    ensures EndWeightsFile(model) != model
  {
    assert |EndWeightsFile(model)| == |model| + 4;
  }

  /** The directory part of the model path is kept as it is. */
  lemma EndWeightsFileKeepsDirectory(dir: string, file: string)
    requires '/' !in file
    ensures dir + "/" <= EndWeightsFile(dir + "/" + file)
  {
    var m := dir + "/" + file;
    var cut := ExtensionCutOf(m);
    assert m[|dir|] == '/';
    assert |dir| < cut;
    assert m[..cut][..|dir| + 1] == dir + "/";
  }

  /** In "name.ext" with no other dot and no slash after it, "_end" goes right before the dot. */
  lemma NameExtCut(name: string, ext: string)
    requires '.' !in name && '.' !in ext && '/' !in ext
    ensures ExtensionCutOf(name + "." + ext) == |name|
  {
    var m := name + "." + ext;
    assert forall j :: |name| < j < |m| ==> m[j] == ext[j - |name| - 1];
    assert ExtensionCut(m, |name|);
    ExtensionCutUnique(m, ExtensionCutOf(m), |name|);
  }

  /** str.replace on "name.ext" with a single dot inserts "_end" once, before that dot. */
  lemma ReplaceDotsNameExt(name: string, ext: string)
    requires '.' !in name && '.' !in ext
    ensures ReplaceDots(name + "." + ext) == name + "_end." + ext
  {
    assert name + "." + ext == name + ("." + ext);
    ReplaceDotsAppend(name, "." + ext);
    ReplaceDotsAppend(".", ext);
    ReplaceDotsNoDot(name);
    ReplaceDotsNoDot(ext);
    ReplaceDotsDot();
  }

  /** On a name whose only dot is its extension dot, such as "model.h5", the source already agrees. */
  lemma EndWeightsFileAgrees(name: string, ext: string)
    requires '.' !in name && '.' !in ext && '/' !in ext
    ensures EndWeightsFile(name + "." + ext) == ReplaceDots(name + "." + ext)
  {
    var m := name + "." + ext;
    NameExtCut(name, ext);
    ReplaceDotsNameExt(name, ext);
    assert m[..|name|] == name && m[|name|..] == "." + ext;
  }

  // ---------------------------------------------------------------------------
  // nb_classes as the number of combined classes, and the shipped configuration
  // ---------------------------------------------------------------------------

  /** The options prepare_mask receives: nb_classes is the number of combined classes. */
  function DerivedMaskOptions(colors: seq<Triple>, combined: seq<ClassEntry>): (o: MaskOptions)
    ensures o.classColors == colors && o.combinedClasses == combined
    ensures o.nbClasses == |combined|
  {
    MaskOptions(colors, combined, |combined|)
  }

  /**
   * With nb_classes derived this way the channel index never runs past the
   * array, and a successful mask has exactly one channel per class, channel k
   * coming from entry k.
   */
  lemma DerivedOptionsFitChannels(colors: seq<Triple>, combined: seq<ClassEntry>, img: Image)
    ensures MaskOf(DerivedMaskOptions(colors, combined), img).Err? ==>
      !MaskOf(DerivedMaskOptions(colors, combined), img).error.ChannelOutOfRange?
    ensures MaskOf(DerivedMaskOptions(colors, combined), img).Ok? ==>
      forall k :: 0 <= k < DerivedMaskOptions(colors, combined).nbClasses ==>
        ClassRanges(DerivedMaskOptions(colors, combined), k).Ok?
  {
    var o := DerivedMaskOptions(colors, combined);
    var r := ResolveConfig(o);
    if r.Err? {
      var k :| 0 <= k < |combined| && ClassRanges(o, k) == Err(r.error) &&
        forall l :: 0 <= l < k ==> ClassRanges(o, l).Ok?;
      assert !ClassRanges(o, k).error.ChannelOutOfRange?;
    }
  }

  /** class_colors as shipped: label k is the colour (k, 0, 0), k = 0 .. 11. */
  const ShippedColors: seq<Triple> := [
    Triple(0, 0, 0), Triple(1, 0, 0), Triple(2, 0, 0), Triple(3, 0, 0),
    Triple(4, 0, 0), Triple(5, 0, 0), Triple(6, 0, 0), Triple(7, 0, 0),
    Triple(8, 0, 0), Triple(9, 0, 0), Triple(10, 0, 0), Triple(11, 0, 0)
  ]

  /** combined_classes as shipped, in insertion order. */
  const ShippedClasses: seq<ClassEntry> := [
    (1, [(0, 5), (8, 9), (11, 11)]),
    (2, [(6, 7)]),
    (3, [(10, 10)])
  ]

  /** The options the shipped script passes to prepare_mask. */
  function ShippedOptions(): (o: MaskOptions)
    ensures o.nbClasses == 3
  {
    DerivedMaskOptions(ShippedColors, ShippedClasses)
  }

  /** The range from label lo to label hi: colours (lo, 0, 0) .. (hi, 0, 0). */
  function LabelRange(lo: int, hi: int): ColorRange
  {
    (Triple(lo, 0, 0), Triple(hi, 0, 0))
  }

  /** The colour ranges the shipped classes resolve to, class by class. */
  function ShippedRanges(): seq<seq<ColorRange>>
  {
    [[LabelRange(0, 5), LabelRange(8, 9), LabelRange(11, 11)], [LabelRange(6, 7)], [LabelRange(10, 10)]]
  }

  /** Label k, for k = 0 .. 11, indexes the colour (k, 0, 0). */
  lemma LabelColor(k: int)
    requires 0 <= k < 12
    ensures PyIndex(ShippedColors, k) == Some(Triple(k, 0, 0))
  {
  }

  /** The ranges between the labels of each pair. */
  function LabelRanges(pairs: seq<(int, int)>): seq<ColorRange>
  {
    seq(|pairs|, t requires 0 <= t < |pairs| => LabelRange(pairs[t].0, pairs[t].1))
  }

  /** Pairs of label indices 0 .. 11 resolve, with no error, to the ranges between those labels. */
  lemma ResolveLabelPairs(pairs: seq<(int, int)>)
    requires forall t :: 0 <= t < |pairs| ==> 0 <= pairs[t].0 < 12 && 0 <= pairs[t].1 < 12
    ensures ResolvePairs(ShippedColors, pairs) == Ok(LabelRanges(pairs))
  {
    var r := LabelRanges(pairs);
    forall t | 0 <= t < |pairs| ensures ResolvePair(ShippedColors, pairs[t]) == Ok(r[t]) {
      LabelColor(pairs[t].0);
      LabelColor(pairs[t].1);
    }
    ResolvePairsAllOk(ShippedColors, pairs, r);
  }

  /** Each shipped class resolves to its label ranges. */
  lemma ShippedClassRanges(k: nat)
    requires k < 3
    ensures ClassRanges(ShippedOptions(), k) == Ok(ShippedRanges()[k])
  {
    var o := ShippedOptions();
    assert o.classColors == ShippedColors && o.combinedClasses == ShippedClasses;
    var pairs := ShippedClasses[k].1;
    ResolveLabelPairs(pairs);
    var rs := LabelRanges(pairs);
    if k == 0 {
      assert pairs == [(0, 5), (8, 9), (11, 11)];
      assert rs == ShippedRanges()[0];
    } else if k == 1 {
      assert pairs == [(6, 7)];
      assert rs == ShippedRanges()[1];
    } else {
      assert pairs == [(10, 10)];
      assert rs == ShippedRanges()[2];
    }
  }

  /** The shipped options resolve: three classes with their label ranges, no error. */
  lemma ShippedConfigResolves()
    ensures ResolveConfig(ShippedOptions()) == Ok(ShippedRanges())
  {
    var o := ShippedOptions();
    assert |o.combinedClasses| == 3;
    forall k | 0 <= k < 3 ensures ClassRanges(o, k) == Ok(ShippedRanges()[k]) {
      ShippedClassRanges(k);
    }
    ResolveClassesAllOk(o, 3);
    var r := ResolveConfig(o);
    assert |r.value| == 3 == |ShippedRanges()|;
    assert forall k :: 0 <= k < 3 ==> r.value[k] == ShippedRanges()[k];
    assert r.value == ShippedRanges();
  }

  /** Label value v of a pixel whose other two channels are 0; -1 for any other colour. */
  function Label(p: Pixel): int
  {
    if p.c1 == 0 && p.c2 == 0 then p.c0 else -1
  }

  /** A label range contains exactly the pixels whose label lies between its bounds. */
  lemma InLabelRange(p: Pixel, lo: int, hi: int)
    requires 0 <= lo
    ensures InRange(p, LabelRange(lo, hi).0, LabelRange(lo, hi).1) <==> lo <= Label(p) <= hi
  {
    assert Channel(p, 0) == p.c0 && Channel(p, 1) == p.c1 && Channel(p, 2) == p.c2;
  }

  /** One more range adds its indicator to the count. */
  lemma CountSnoc(ranges: seq<ColorRange>, r: ColorRange, p: Pixel)
    ensures CountMatches(ranges + [r], p) == CountMatches(ranges, p) + (if InRange(p, r.0, r.1) then 1 else 0)
  {
    assert (ranges + [r])[..|ranges|] == ranges;
  }

  /** The first shipped class counts a pixel once on labels 0-5, 8, 9 and 11, and not otherwise. */
  lemma ShippedCell0(p: Pixel)
    ensures var v := Label(p);
      Cell(ShippedRanges()[0], p) == (if 0 <= v <= 5 || v == 8 || v == 9 || v == 11 then 1 else 0)
  {
    InLabelRange(p, 0, 5);
    InLabelRange(p, 8, 9);
    InLabelRange(p, 11, 11);
    var r0, r1, r2 := LabelRange(0, 5), LabelRange(8, 9), LabelRange(11, 11);
    CountSnoc([], r0, p);
    CountSnoc([r0], r1, p);
    CountSnoc([r0, r1], r2, p);
    assert [] + [r0] == [r0];
    assert [r0] + [r1] == [r0, r1];
    assert [r0, r1] + [r2] == ShippedRanges()[0];
  }

  /** A shipped class with the single range lo .. hi counts a pixel once on those labels. */
  lemma SingleRangeCell(p: Pixel, lo: int, hi: int)
    requires 0 <= lo
    ensures Cell([LabelRange(lo, hi)], p) == (if lo <= Label(p) <= hi then 1 else 0)
  {
    InLabelRange(p, lo, hi);
    CountSnoc([], LabelRange(lo, hi), p);
    assert [] + [LabelRange(lo, hi)] == [LabelRange(lo, hi)];
  }

  /**
   * With the shipped options every mask cell is 0 or 1: channel 0 is set for
   * labels 0-5, 8, 9 and 11, channel 1 for labels 6 and 7, channel 2 for
   * label 10, so each labelled pixel has exactly one channel set and every
   * other colour none.
   */
  lemma ShippedMaskOneHot(img: Image, i: nat, j: nat)
    requires i < |img| && j < |img[i]|
    ensures MaskOf(ShippedOptions(), img).Ok?
    ensures var cell := MaskOf(ShippedOptions(), img).value[i][j];
      var v := Label(img[i][j]);
      cell == [if 0 <= v <= 5 || v == 8 || v == 9 || v == 11 then 1 else 0,
               if v == 6 || v == 7 then 1 else 0,
               if v == 10 then 1 else 0]
  {
    ShippedConfigResolves();
    var p := img[i][j];
    ShippedCell0(p);
    SingleRangeCell(p, 6, 7);
    SingleRangeCell(p, 10, 10);
    var cell := MaskOf(ShippedOptions(), img).value[i][j];
    assert |cell| == 3;
    assert cell[0] == Cell(ShippedRanges()[0], p);
    assert cell[1] == Cell(ShippedRanges()[1], p);
    assert cell[2] == Cell(ShippedRanges()[2], p);
  }

  // ---------------------------------------------------------------------------
  // The stop handed to get_filenames, and the stop its comment asks for.
  // ---------------------------------------------------------------------------

  /** The stop get_filenames slices with, as shipped. */
  const ShippedLimit: Option<int> := Some(-1)

  /** The stop that keeps all training samples, as the comment beside the shipped one says: Python's None. */
  const IntendedLimit: Option<int> := None

  /** The shipped stop always loses the last pair that zip produced. */
  lemma ShippedLimitDropsLast(rgbFiles: seq<Path>, maskFiles: seq<Path>)
    requires |rgbFiles| > 0 && |maskFiles| > 0
    ensures var all := Zip(SortPaths(rgbFiles), SortPaths(maskFiles));
      TrainFiles(rgbFiles, maskFiles, ShippedLimit) == all[..|all| - 1]
  {
  }

  /** The intended stop keeps every pair. */
  lemma IntendedLimitKeepsAll(rgbFiles: seq<Path>, maskFiles: seq<Path>)
    ensures TrainFiles(rgbFiles, maskFiles, IntendedLimit) == Zip(SortPaths(rgbFiles), SortPaths(maskFiles))
    ensures |TrainFiles(rgbFiles, maskFiles, IntendedLimit)| == Min(|rgbFiles|, |maskFiles|)
  {
  }
}
