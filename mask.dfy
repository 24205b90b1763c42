/**
 * `prepare_mask` (train.py): turning a colour-coded label image into a
 * height x width x nb_classes uint8 array with one channel per combined class.
 *
 * The vectorised numpy/OpenCV steps (cv2.inRange, boolean-index assignment,
 * np.add on uint8) are pure functions on planes; the loop over
 * `combined_classes` and the per-class accumulator are the method PrepareMask.
 */
module MaskPrep {
  import opened Basics

  /** Three colour channels in the order the image stores them. */
  datatype Triple = Triple(c0: int, c1: int, c2: int)

  function Channel(t: Triple, c: nat): int
    requires c < 3
  {
    if c == 0 then t.c0 else if c == 1 then t.c1 else t.c2
  }

  predicate IsPixel(t: Triple)
  {
    0 <= t.c0 < 256 && 0 <= t.c1 < 256 && 0 <= t.c2 < 256
  }

  /** A pixel of an 8-bit, three-channel image. */
  type Pixel = t: Triple | IsPixel(t) witness Triple(0, 0, 0)

  /** An image as its rows of pixels. */
  type Image = seq<seq<Pixel>>

  function Width(img: Image): nat
  {
    if |img| == 0 then 0 else |img[0]|
  }

  /** Every row has the same length, as in a numpy array. */
  predicate Rectangular(img: Image)
  {
    forall i :: 0 <= i < |img| ==> |img[i]| == Width(img)
  }

  /** A single-channel uint8 image. */
  type Plane = seq<seq<uint8>>

  /** A height x width x channels uint8 array, as values. */
  type Mask = seq<seq<seq<uint8>>>

  /** An inclusive (lower, upper) colour bound pair. */
  type ColorRange = (Triple, Triple)

  /** One entry of `combined_classes`: its key and its (low, high) indices into `class_colors`. */
  type ClassEntry = (int, seq<(int, int)>)

  /** The part of the option dictionary that `prepare_mask` reads. */
  datatype MaskOptions = MaskOptions(
    classColors: seq<Triple>,
    combinedClasses: seq<ClassEntry>,
    nbClasses: nat)

  /** The exceptions `prepare_mask` can raise, all decided by the options alone. */
  datatype MaskError =
    | ColorIndexOutOfRange(index: int)   // IndexError from `class_colors[...]`
    | NoColorRanges(channel: nat)        // mask_ch stays None: the class lists no pairs
    | ChannelOutOfRange(channel: nat)    // IndexError from `mask_image[..., iClass]`

  /** Python list indexing: negative indices count from the end, others out of range fail. */
  function PyIndex<T>(s: seq<T>, i: int): Option<T>
  {
    if 0 <= i < |s| then Some(s[i])
    else if -|s| <= i < 0 then Some(s[|s| + i])
    else None
  }

  /** cv2.inRange at one pixel: every channel within the bounds, both inclusive. */
  predicate InRange(p: Pixel, lo: Triple, hi: Triple)
  {
    forall c :: 0 <= c < 3 ==> Channel(lo, c) <= Channel(p, c) <= Channel(hi, c)
  }

  /** cv2.inRange over an image: 255 where the pixel lies within [lo, hi], 0 elsewhere. */
  function InRangeImage(img: Image, lo: Triple, hi: Triple): (m: Plane)
    ensures |m| == |img|
    ensures forall i :: 0 <= i < |img| ==> |m[i]| == |img[i]|
    ensures forall i, j :: 0 <= i < |img| && 0 <= j < |img[i]| ==>
      (m[i][j] == 255 || m[i][j] == 0) && (m[i][j] == 255 <==> InRange(img[i][j], lo, hi))
  {
    seq(|img|, i requires 0 <= i < |img| =>
      seq(|img[i]|, j requires 0 <= j < |img[i]| =>
        if InRange(img[i][j], lo, hi) then 255 else 0))
  }

  /** `ch = np.zeros_like(m); ch[m > 0] = 1`: the 0/1 indicator of a plane. */
  function Indicator(m: Plane): (r: Plane)
    ensures |r| == |m|
    ensures forall i :: 0 <= i < |m| ==> |r[i]| == |m[i]|
    ensures forall i, j :: 0 <= i < |m| && 0 <= j < |m[i]| ==>
      (r[i][j] == 1 <==> m[i][j] > 0) && (r[i][j] == 0 <==> m[i][j] == 0)
  {
    seq(|m|, i requires 0 <= i < |m| =>
      seq(|m[i]|, j requires 0 <= j < |m[i]| => if m[i][j] > 0 then 1 else 0))
  }

  /** np.add on two uint8 planes of one shape: element-wise, wrapping modulo 256. */
  function AddPlanes(a: Plane, b: Plane): (r: Plane)
    requires |a| == |b|
    requires forall i :: 0 <= i < |a| ==> |a[i]| == |b[i]|
    ensures |r| == |a|
    ensures forall i :: 0 <= i < |a| ==> |r[i]| == |a[i]|
    ensures forall i, j :: 0 <= i < |a| && 0 <= j < |a[i]| ==>
      r[i][j] == if a[i][j] as int + b[i][j] < 256 then a[i][j] as int + b[i][j] else a[i][j] as int + b[i][j] - 256
  {
    seq(|a|, i requires 0 <= i < |a| =>
      seq(|a[i]|, j requires 0 <= j < |a[i]| => (a[i][j] as int + b[i][j]) % 256))
  }

  /** How many of the ranges contain the pixel: the sum of the per-range 0/1 indicators. */
  function CountMatches(ranges: seq<ColorRange>, p: Pixel): (n: nat)
    ensures n <= |ranges|
  {
    if |ranges| == 0 then 0
    else
      var last := ranges[|ranges| - 1];
      CountMatches(ranges[..|ranges| - 1], p) + (if InRange(p, last.0, last.1) then 1 else 0)
  }

  /** The value one class's channel holds at a pixel: the match count as a uint8. */
  function Cell(ranges: seq<ColorRange>, p: Pixel): uint8
  {
    CountMatches(ranges, p) % 256
  }

  /** Looks up the two colours of one (low, high) pair. */
  function ResolvePair(colors: seq<Triple>, pair: (int, int)): Result<ColorRange, MaskError>
  {
    match PyIndex(colors, pair.0)
    case None => Err(ColorIndexOutOfRange(pair.0))
    case Some(lo) =>
      match PyIndex(colors, pair.1)
      case None => Err(ColorIndexOutOfRange(pair.1))
      case Some(hi) => Ok((lo, hi))
  }

  /** Looks up every pair in order, stopping at the first that fails. */
  function ResolvePairs(colors: seq<Triple>, pairs: seq<(int, int)>): (r: Result<seq<ColorRange>, MaskError>)
    ensures r.Ok? ==>
      |r.value| == |pairs| &&
      forall t :: 0 <= t < |pairs| ==> ResolvePair(colors, pairs[t]) == Ok(r.value[t])
    ensures r.Err? ==>
      exists t :: 0 <= t < |pairs| && ResolvePair(colors, pairs[t]) == Err(r.error) &&
        forall u :: 0 <= u < t ==> ResolvePair(colors, pairs[u]).Ok?
  {
    if |pairs| == 0 then Ok([])
    else
      match ResolvePairs(colors, pairs[..|pairs| - 1])
      case Err(e) => Err(e)
      case Ok(rs) =>
        match ResolvePair(colors, pairs[|pairs| - 1])
        case Err(e) => Err(e)
        case Ok(b) => Ok(rs + [b])
  }

  /** When every pair resolves on its own, the whole list resolves, pair by pair. */
  lemma {:induction false} ResolvePairsAllOk(colors: seq<Triple>, pairs: seq<(int, int)>, ranges: seq<ColorRange>)
    requires |ranges| == |pairs|
    requires forall t :: 0 <= t < |pairs| ==> ResolvePair(colors, pairs[t]) == Ok(ranges[t])
    ensures ResolvePairs(colors, pairs) == Ok(ranges)
  {
    if |pairs| > 0 {
      var n := |pairs| - 1;
      ResolvePairsAllOk(colors, pairs[..n], ranges[..n]);
      assert ranges == ranges[..n] + [ranges[n]];
    }
  }

  /**
   * The colour ranges of class k, or the error the k-th iteration of the
   * class loop raises: a bad colour index, then an empty pair list (mask_ch
   * left None, which the reshape or the channel assignment rejects), then a
   * channel index past nb_classes (the assignment).
   */
  function ClassRanges(opt: MaskOptions, k: nat): Result<seq<ColorRange>, MaskError>
    requires k < |opt.combinedClasses|
  {
    var pairs := opt.combinedClasses[k].1;
    match ResolvePairs(opt.classColors, pairs)
    case Err(e) => Err(e)
    case Ok(rs) =>
      if |pairs| == 0 then Err(NoColorRanges(k))
      else if k >= opt.nbClasses then Err(ChannelOutOfRange(k))
      else Ok(rs)
  }

  /** The ranges of the first n classes, or the first error among them. */
  function ResolveClasses(opt: MaskOptions, n: nat): (r: Result<seq<seq<ColorRange>>, MaskError>)
    requires n <= |opt.combinedClasses|
    ensures r.Ok? ==>
      |r.value| == n && forall k :: 0 <= k < n ==> ClassRanges(opt, k) == Ok(r.value[k])
    ensures r.Err? ==>
      exists k :: 0 <= k < n && ClassRanges(opt, k) == Err(r.error) &&
        forall l :: 0 <= l < k ==> ClassRanges(opt, l).Ok?
  {
    if n == 0 then Ok([])
    else
      match ResolveClasses(opt, n - 1)
      case Err(e) => Err(e)
      case Ok(rss) =>
        match ClassRanges(opt, n - 1)
        case Err(e) => Err(e)
        case Ok(rs) => Ok(rss + [rs])
  }

  /** The ranges of every class, or the error `prepare_mask` raises with these options. */
  function ResolveConfig(opt: MaskOptions): Result<seq<seq<ColorRange>>, MaskError>
  {
    ResolveClasses(opt, |opt.combinedClasses|)
  }

  /**
   * What `prepare_mask` returns, as a value: channel k at pixel (i, j) is the
   * number of class k's ranges that contain the pixel, modulo 256; channels
   * past the last class stay 0.
   */
  function MaskOf(opt: MaskOptions, img: Image): Result<Mask, MaskError>
  {
    match ResolveConfig(opt)
    case Err(e) => Err(e)
    case Ok(classes) =>
      Ok(seq(|img|, i requires 0 <= i < |img| =>
           seq(|img[i]|, j requires 0 <= j < |img[i]| =>
             seq(opt.nbClasses, k requires 0 <= k < opt.nbClasses => if k < |classes| then Cell(classes[k], img[i][j]) else 0))))
  }

  /** The values an array holds, as nested sequences: what np.array copies out of it. */
  function ArrayValue(a: array3<uint8>): (m: Mask)
    reads a
    ensures |m| == a.Length0
    ensures forall i :: 0 <= i < a.Length0 ==>
      |m[i]| == a.Length1 && forall j :: 0 <= j < a.Length1 ==> |m[i][j]| == a.Length2
    ensures forall i, j, k :: 0 <= i < a.Length0 && 0 <= j < a.Length1 && 0 <= k < a.Length2 ==>
      m[i][j][k] == a[i, j, k]
  {
    seq(a.Length0, i requires 0 <= i < a.Length0 reads a =>
      seq(a.Length1, j requires 0 <= j < a.Length1 reads a =>
        seq(a.Length2, k requires 0 <= k < a.Length2 reads a => a[i, j, k])))
  }

  /** An array whose shape and cells agree with a mask holds that mask. */
  lemma ArrayValueIs(a: array3<uint8>, m: Mask)
    requires |m| == a.Length0
    requires forall i :: 0 <= i < a.Length0 ==>
      |m[i]| == a.Length1 && forall j :: 0 <= j < a.Length1 ==> |m[i][j]| == a.Length2
    requires forall i, j, k :: 0 <= i < a.Length0 && 0 <= j < a.Length1 && 0 <= k < a.Length2 ==>
      m[i][j][k] == a[i, j, k]
    ensures ArrayValue(a) == m
  {
    var v := ArrayValue(a);
    forall i | 0 <= i < a.Length0 ensures v[i] == m[i] {
      forall j | 0 <= j < a.Length1 ensures v[i][j] == m[i][j] {
      }
    }
  }

  /**
   * The inner loop of prepare_mask for one class: for each (low, high) pair
   * in order, look up both colours, take the 0/1 in-range indicator and add it
   * into the accumulator `mask_ch`, which starts as None and is set by the
   * first pair.
   */
  method AccumulateClass(img: Image, colors: seq<Triple>, pairs: seq<(int, int)>)
    returns (r: Result<Option<Plane>, MaskError>)
    requires Rectangular(img)
    ensures r.Err? ==> ResolvePairs(colors, pairs) == Err(r.error)
    ensures r.Ok? ==> ResolvePairs(colors, pairs).Ok? && (r.value.None? <==> |pairs| == 0)
    ensures r.Ok? && r.value.Some? ==>
      |r.value.value| == |img| &&
      forall i :: 0 <= i < |img| ==>
        |r.value.value[i]| == Width(img) &&
        forall j :: 0 <= j < Width(img) ==>
          r.value.value[i][j] == Cell(ResolvePairs(colors, pairs).value, img[i][j])
  {
    var maskCh: Option<Plane> := None;
    ghost var ranges: seq<ColorRange> := [];
    var t := 0;
    while t < |pairs|
      invariant 0 <= t <= |pairs|
      invariant ResolvePairs(colors, pairs[..t]) == Ok(ranges)
      invariant maskCh.None? <==> t == 0
      invariant maskCh.Some? ==>
        |maskCh.value| == |img| &&
        forall i :: 0 <= i < |img| ==>
          |maskCh.value[i]| == Width(img) &&
          forall j :: 0 <= j < Width(img) ==> maskCh.value[i][j] == Cell(ranges, img[i][j])
    {
      var (lowIndex, highIndex) := pairs[t];
      assert pairs[..t + 1][..t] == pairs[..t];
      var low := PyIndex(colors, lowIndex);
      if low.None? {
        r := Err(ColorIndexOutOfRange(lowIndex));
        return;
      }
      var high := PyIndex(colors, highIndex);
      if high.None? {
        r := Err(ColorIndexOutOfRange(highIndex));
        return;
      }
      var mask := InRangeImage(img, low.value, high.value);
      var indicator := Indicator(mask);
      ghost var range := (low.value, high.value);
      assert (ranges + [range])[..|ranges|] == ranges;
      if maskCh.None? {
        maskCh := Some(indicator);
      } else {
        maskCh := Some(AddPlanes(maskCh.value, indicator));
      }
      ranges := ranges + [range];
      t := t + 1;
    }
    assert pairs[..t] == pairs;
    r := Ok(maskCh);
  }

  /**
   * prepare_mask: a zero array of height x width x nb_classes, then for each
   * class in order its accumulated channel, written to that class's index.
   */
  method PrepareMask(img: Image, opt: MaskOptions) returns (r: Result<array3<uint8>, MaskError>)
    requires Rectangular(img)
    ensures r.Err? ==> MaskOf(opt, img) == Err(r.error)
    ensures r.Ok? ==>
      r.value.Length0 == |img| && r.value.Length1 == Width(img) &&
      r.value.Length2 == opt.nbClasses && MaskOf(opt, img) == Ok(ArrayValue(r.value))
  {
    var height := |img|;
    var width := Width(img);
    var maskImage := new uint8[height, width, opt.nbClasses]((i, j, k) => 0);
    var classes := opt.combinedClasses;
    ghost var done: seq<seq<ColorRange>> := [];
    var iClass := 0;
    while iClass < |classes|
      invariant 0 <= iClass <= |classes|
      invariant ResolveClasses(opt, iClass) == Ok(done)
      invariant forall i, j, k :: 0 <= i < height && 0 <= j < width && 0 <= k < opt.nbClasses ==>
        maskImage[i, j, k] == if k < iClass then Cell(done[k], img[i][j]) else 0
    {
      var maskCh := AccumulateClass(img, opt.classColors, classes[iClass].1);
      if maskCh.Err? {
        FirstClassError(opt, img, iClass);
        r := Err(maskCh.error);
        return;
      }
      if maskCh.value.None? {
        FirstClassError(opt, img, iClass);
        r := Err(NoColorRanges(iClass));
        return;
      }
      if iClass >= opt.nbClasses {
        FirstClassError(opt, img, iClass);
        r := Err(ChannelOutOfRange(iClass));
        return;
      }
      var channel := maskCh.value.value;
      ghost var ranges := ResolvePairs(opt.classColors, classes[iClass].1).value;
      assert ClassRanges(opt, iClass) == Ok(ranges);
      forall i, j | 0 <= i < height && 0 <= j < width {
        maskImage[i, j, iClass] := channel[i][j];
      }
      ghost var prev := done;
      done := done + [ranges];
      forall i, j, k | 0 <= i < height && 0 <= j < width && 0 <= k < opt.nbClasses
        ensures maskImage[i, j, k] == if k < iClass + 1 then Cell(done[k], img[i][j]) else 0
      {
        if k < iClass {
          assert done[k] == prev[k];
        }
      }
      iClass := iClass + 1;
    }
    MaskCells(opt, img, done);
    ArrayValueIs(maskImage, MaskOf(opt, img).value);
    r := Ok(maskImage);
  }

  /** The first class whose ranges fail decides the error of the whole mask. */
  lemma FirstClassError(opt: MaskOptions, img: Image, k: nat)
    requires k < |opt.combinedClasses|
    requires ResolveClasses(opt, k).Ok? && ClassRanges(opt, k).Err?
    ensures MaskOf(opt, img) == Err(ClassRanges(opt, k).error)
  {
  }

  /** Conversely, when every class resolves on its own, prepare_mask raises nothing. */
  lemma {:induction false} ResolveClassesAllOk(opt: MaskOptions, n: nat)
    requires n <= |opt.combinedClasses|
    requires forall k :: 0 <= k < n ==> ClassRanges(opt, k).Ok?
    ensures ResolveClasses(opt, n).Ok?
  {
    if n > 0 {
      ResolveClassesAllOk(opt, n - 1);
    }
  }

  /** Once every class resolves, the mask's cells are the per-class counts. */
  lemma MaskCells(opt: MaskOptions, img: Image, classes: seq<seq<ColorRange>>)
    requires Rectangular(img)
    requires ResolveConfig(opt) == Ok(classes)
    ensures MaskOf(opt, img).Ok?
    ensures |MaskOf(opt, img).value| == |img|
    ensures forall i :: 0 <= i < |img| ==>
      |MaskOf(opt, img).value[i]| == Width(img) &&
      forall j :: 0 <= j < Width(img) ==> |MaskOf(opt, img).value[i][j]| == opt.nbClasses
    ensures forall i, j, k :: 0 <= i < |img| && 0 <= j < Width(img) && 0 <= k < opt.nbClasses ==>
      MaskOf(opt, img).value[i][j][k] == if k < |classes| then Cell(classes[k], img[i][j]) else 0
  {
  }

  // ---------------------------------------------------------------------------
  // Properties of the specification
  // ---------------------------------------------------------------------------

  /** The count is zero exactly when no range contains the pixel. */
  lemma {:induction false} CountZeroIff(ranges: seq<ColorRange>, p: Pixel)
    ensures CountMatches(ranges, p) == 0 <==>
      forall t :: 0 <= t < |ranges| ==> !InRange(p, ranges[t].0, ranges[t].1)
  {
    if |ranges| > 0 {
      var init := ranges[..|ranges| - 1];
      CountZeroIff(init, p);
      assert forall t :: 0 <= t < |init| ==> init[t] == ranges[t];
    }
  }

  /** When every range contains the pixel, the count is the number of ranges. */
  lemma {:induction false} CountAllMatch(ranges: seq<ColorRange>, p: Pixel)
    requires forall t :: 0 <= t < |ranges| ==> InRange(p, ranges[t].0, ranges[t].1)
    ensures CountMatches(ranges, p) == |ranges|
  {
    if |ranges| > 0 {
      CountAllMatch(ranges[..|ranges| - 1], p);
    }
  }

  /** No pixel lies in two of the ranges. */
  ghost predicate Disjoint(ranges: seq<ColorRange>)
  {
    forall s, t, p: Pixel :: 0 <= s < t < |ranges| ==>
      !(InRange(p, ranges[s].0, ranges[s].1) && InRange(p, ranges[t].0, ranges[t].1))
  }

  /** With pairwise disjoint ranges the count is 0 or 1. */
  lemma {:induction false} CountDisjoint(ranges: seq<ColorRange>, p: Pixel)
    requires Disjoint(ranges)
    ensures CountMatches(ranges, p) <= 1
  {
    if |ranges| > 0 {
      var init := ranges[..|ranges| - 1];
      var last := ranges[|ranges| - 1];
      assert Disjoint(init) by {
        forall s, t, q: Pixel | 0 <= s < t < |init|
          ensures !(InRange(q, init[s].0, init[s].1) && InRange(q, init[t].0, init[t].1))
        {
          assert init[s] == ranges[s] && init[t] == ranges[t];
        }
      }
      CountDisjoint(init, p);
      if InRange(p, last.0, last.1) {
        forall t | 0 <= t < |init| ensures !InRange(p, init[t].0, init[t].1) {
          assert init[t] == ranges[t];
        }
        CountZeroIff(init, p);
      }
    }
  }

  /** Overlapping ranges are summed, not OR-ed: one pixel in the same range twice gives 2. */
  lemma OverlapCountsTwice(range: ColorRange, p: Pixel)
    requires InRange(p, range.0, range.1)
    ensures Cell([range, range], p) == 2
  {
    assert [range, range][..1] == [range];
    assert [range][..0] == [];
    assert CountMatches([range], p) == 1;
    assert CountMatches([range, range], p) == 2;
  }

  /** 256 copies of a range that contains the pixel wrap the uint8 sum back to 0. */
  lemma WrapAround(range: ColorRange, p: Pixel)
    requires InRange(p, range.0, range.1)
    ensures CountMatches(seq(256, _ => range), p) == 256
    ensures Cell(seq(256, _ => range), p) == 0
  {
    CountAllMatch(seq(256, _ => range), p);
  }

  /** A successful mask has the image's height and width and nb_classes channels. */
  lemma MaskShape(opt: MaskOptions, img: Image)
    requires Rectangular(img)
    requires MaskOf(opt, img).Ok?
    ensures |MaskOf(opt, img).value| == |img|
    ensures forall i :: 0 <= i < |img| ==>
      |MaskOf(opt, img).value[i]| == Width(img) &&
      forall j :: 0 <= j < Width(img) ==> |MaskOf(opt, img).value[i][j]| == opt.nbClasses
  {
  }

  /**
   * Options that resolve have at most nb_classes classes, and class k resolves
   * to one colour range per listed pair, with at least one pair.
   */
  lemma ConfigResolves(opt: MaskOptions, k: nat)
    requires ResolveConfig(opt).Ok? && k < |opt.combinedClasses|
    ensures |opt.combinedClasses| <= opt.nbClasses
    ensures ClassRanges(opt, k) == Ok(ResolveConfig(opt).value[k])
    ensures |ResolveConfig(opt).value[k]| == |opt.combinedClasses[k].1| > 0
  {
    var n := |opt.combinedClasses|;
    assert ClassRanges(opt, n - 1) == Ok(ResolveConfig(opt).value[n - 1]);
  }

  /**
   * Channel k of a successful mask comes from the k-th entry of combined_classes:
   * it counts that class's matching pairs modulo 256. With fewer than 256 pairs it
   * is 0 exactly when no pair matches. Every class has its own channel.
   */
  lemma {:induction false} MaskChannel(opt: MaskOptions, img: Image, i: nat, j: nat, k: nat)
    requires MaskOf(opt, img).Ok?
    requires i < |img| && j < |img[i]| && k < |opt.combinedClasses|
    ensures |opt.combinedClasses| <= opt.nbClasses
    ensures ClassRanges(opt, k).Ok?
    ensures |ClassRanges(opt, k).value| == |opt.combinedClasses[k].1| > 0
    ensures MaskOf(opt, img).value[i][j][k] == CountMatches(ClassRanges(opt, k).value, img[i][j]) % 256
    ensures |opt.combinedClasses[k].1| < 256 ==>
      (MaskOf(opt, img).value[i][j][k] == 0 <==>
         forall t :: 0 <= t < |opt.combinedClasses[k].1| ==>
           !InRange(img[i][j], ClassRanges(opt, k).value[t].0, ClassRanges(opt, k).value[t].1))
  {
    ConfigResolves(opt, k);
    CountZeroIff(ResolveConfig(opt).value[k], img[i][j]);
  }

  /** Channels past the last class stay zero. */
  lemma MaskUnusedChannel(opt: MaskOptions, img: Image, i: nat, j: nat, k: nat)
    requires MaskOf(opt, img).Ok?
    requires i < |img| && j < |img[i]| && |opt.combinedClasses| <= k < opt.nbClasses
    ensures MaskOf(opt, img).value[i][j][k] == 0
  {
  }

  /** Whether prepare_mask fails, and with which error, does not depend on the image. */
  lemma MaskErrorIndependentOfImage(opt: MaskOptions, img1: Image, img2: Image)
    ensures MaskOf(opt, img1).Err? <==> MaskOf(opt, img2).Err?
    ensures MaskOf(opt, img1).Err? ==> MaskOf(opt, img1) == MaskOf(opt, img2)
  {
  }

  /** A class that lists no pairs makes prepare_mask fail. */
  lemma {:induction false} EmptyClassFails(opt: MaskOptions, img: Image, k: nat)
    requires k < |opt.combinedClasses| && |opt.combinedClasses[k].1| == 0
    ensures MaskOf(opt, img).Err?
  {
    var r := ResolveConfig(opt);
    if r.Ok? {
      assert ClassRanges(opt, k) == Ok(r.value[k]);
    }
  }

  /** With nb_classes below the number of classes, prepare_mask fails. */
  lemma {:induction false} TooFewChannelsFails(opt: MaskOptions, img: Image)
    requires opt.nbClasses < |opt.combinedClasses|
    ensures MaskOf(opt, img).Err?
  {
    var r := ResolveConfig(opt);
    if r.Ok? {
      assert ClassRanges(opt, opt.nbClasses) == Ok(r.value[opt.nbClasses]);
    }
  }
}
