/**
 * One pass of `generator` (train.py): the sample list cut into consecutive
 * slices of batch_size, each slice turned into a batch of the samples whose
 * two images both load, the mask image of each encoded by prepare_mask.
 *
 * Image loading (cv2.imread) is the map `images`: a path loads exactly when
 * it is a key, and then yields the image as read, in BGR channel order.
 */
module Batching {
  import opened Basics
  import opened MaskPrep

  /** X_train and y_train of one yielded batch: the rgb images and the encoded masks. */
  datatype Batch = Batch(x: seq<Image>, y: seq<Mask>)

  datatype GenError =
    | ZeroBatchSize            // range() arg 3 must not be zero
    | MaskFailed(error: MaskError)

  /**
   * What a pass hands to its consumer: the batches yielded, in order, and the
   * exception that ended the pass early, if any.
   */
  datatype Pass = Pass(yielded: seq<Batch>, error: Option<GenError>)

  /** The consecutive slices `samples[offset:offset+bs]` for offset in range(0, n, bs). */
  function Slices(samples: seq<Sample>, bs: nat): seq<seq<Sample>>
    requires bs > 0
    decreases |samples|
  {
    if |samples| == 0 then []
    else
      var m := Min(bs, |samples|);
      [samples[..m]] + Slices(samples[m..], bs)
  }

  /** Concatenation of a sequence of slices. */
  function Flatten(slices: seq<seq<Sample>>): seq<Sample>
  {
    if |slices| == 0 then [] else slices[0] + Flatten(slices[1..])
  }

  /** Both images of the sample load. */
  predicate Loads(s: Sample, images: map<Path, Image>)
  {
    s.0 in images && s.1 in images
  }

  /** Some sample of the list has both images loading. */
  predicate SomeLoads(s: seq<Sample>, images: map<Path, Image>)
  {
    exists i :: 0 <= i < |s| && Loads(s[i], images)
  }

  /** The samples of a slice that make it into the batch, in their order. */
  function Kept(batch: seq<Sample>, images: map<Path, Image>): (r: seq<Sample>)
    ensures |r| <= |batch|
    ensures forall t :: 0 <= t < |r| ==> Loads(r[t], images)
  {
    if |batch| == 0 then []
    else
      var s := batch[|batch| - 1];
      Kept(batch[..|batch| - 1], images) + (if Loads(s, images) then [s] else [])
  }

  /** cv2.cvtColor(img, cv2.COLOR_BGR2RGB): the first and third channel swap places. */
  function BgrToRgb(img: Image): (r: Image)
    ensures |r| == |img|
    ensures forall i :: 0 <= i < |img| ==> |r[i]| == |img[i]|
    ensures Rectangular(img) ==> Rectangular(r)
  {
    seq(|img|, i requires 0 <= i < |img| =>
      seq(|img[i]|, j requires 0 <= j < |img[i]| =>
        var p := img[i][j]; Triple(p.c2, p.c1, p.c0)))
  }

  /**
   * The batch one slice yields, or the error that stops it: the samples are
   * taken in order, one whose two images do not both load is skipped, and
   * the first one that reaches a failing prepare_mask ends the slice.
   */
  function BatchFor(slice: seq<Sample>, images: map<Path, Image>, opt: MaskOptions): Result<Batch, GenError>
  {
    if |slice| == 0 then Ok(Batch([], []))
    else
      var s := slice[|slice| - 1];
      match BatchFor(slice[..|slice| - 1], images, opt)
      case Err(e) => Err(e)
      case Ok(b) =>
        if !Loads(s, images) then Ok(b)
        else
          match MaskOf(opt, BgrToRgb(images[s.1]))
          case Err(e) => Err(MaskFailed(e))
          case Ok(m) => Ok(Batch(b.x + [BgrToRgb(images[s.0])], b.y + [m]))
  }

  /**
   * The batches of a sequence of slices in order; the first slice that fails
   * ends the sequence with its error, after the batches before it.
   */
  function BatchesFor(slices: seq<seq<Sample>>, images: map<Path, Image>, opt: MaskOptions): Pass
  {
    if |slices| == 0 then Pass([], None)
    else
      var p := BatchesFor(slices[..|slices| - 1], images, opt);
      if p.error.Some? then p
      else
        match BatchFor(slices[|slices| - 1], images, opt)
        case Err(e) => Pass(p.yielded, Some(e))
        case Ok(b) => Pass(p.yielded + [b], None)
  }

  /** What one pass of generator yields, and the error that ends it, if any. */
  function PassFor(samples: seq<Sample>, batchSize: int, images: map<Path, Image>, opt: MaskOptions): Pass
  {
    if batchSize == 0 then Pass([], Some(ZeroBatchSize))
    else if batchSize < 0 then Pass([], None)   // range(0, n, negative step) yields no offset
    else BatchesFor(Slices(samples, batchSize), images, opt)
  }

  /** np.array(images_Y): the masks the arrays hold, copied out as values. */
  function StackMasks(ys: seq<array3<uint8>>): (r: seq<Mask>)
    reads set t | 0 <= t < |ys| :: ys[t]
    ensures |r| == |ys| && forall t :: 0 <= t < |ys| ==> r[t] == ArrayValue(ys[t])
  {
    seq(|ys|, t reads set t | 0 <= t < |ys| :: ys[t] requires 0 <= t < |ys| => ArrayValue(ys[t]))
  }

  /**
   * The body of the offset loop for one slice: read both images of each
   * sample, skip the sample if either fails to load, otherwise convert both
   * to RGB, encode the mask and append to images_X and images_Y together.
   * A failing prepare_mask propagates.
   */
  method MakeBatch(batchSamples: seq<Sample>, images: map<Path, Image>, opt: MaskOptions)
    returns (r: Result<Batch, GenError>)
    requires forall p :: p in images ==> Rectangular(images[p])
    ensures r == BatchFor(batchSamples, images, opt)
  {
    var imagesX: seq<Image> := [];
    var imagesY: seq<array3<uint8>> := [];
    ghost var masks: seq<Mask> := [];
    var t := 0;
    while t < |batchSamples|
      invariant 0 <= t <= |batchSamples|
      invariant BatchFor(batchSamples[..t], images, opt) == Ok(Batch(imagesX, masks))
      invariant |masks| == |imagesY| && forall u :: 0 <= u < |imagesY| ==> ArrayValue(imagesY[u]) == masks[u]
    {
      var (imageAPath, imageBPath) := batchSamples[t];
      assert batchSamples[..t + 1][..t] == batchSamples[..t];
      if imageAPath in images {
        var imageA := images[imageAPath];
        if imageBPath in images {
          var imageB := images[imageBPath];
          imageA := BgrToRgb(imageA);
          imageB := BgrToRgb(imageB);
          var mask := PrepareMask(imageB, opt);
          if mask.Err? {
            r := Err(MaskFailed(mask.error));
            BatchForPrefixErr(batchSamples[..t + 1], batchSamples, images, opt);
            return;
          }
          imagesX := imagesX + [imageA];
          imagesY := imagesY + [mask.value];
          masks := masks + [ArrayValue(mask.value)];
        }
      }
      t := t + 1;
    }
    assert batchSamples[..t] == batchSamples;
    assert StackMasks(imagesY) == masks;
    r := Ok(Batch(imagesX, StackMasks(imagesY)));
  }

  /**
   * One pass of generator: for offset in range(0, n, batch_size), the batch
   * built from samples[offset:offset+batch_size].
   */
  method GeneratorPass(samples: seq<Sample>, batchSize: int, images: map<Path, Image>, opt: MaskOptions)
    returns (r: Pass)
    requires forall p :: p in images ==> Rectangular(images[p])
    ensures r == PassFor(samples, batchSize, images, opt)
  {
    if batchSize == 0 {
      r := Pass([], Some(ZeroBatchSize));
      return;
    }
    if batchSize < 0 {
      r := Pass([], None);
      return;
    }
    var numSamples := |samples|;
    var batches: seq<Batch> := [];
    ghost var done: seq<seq<Sample>> := [];
    ghost var consumed := 0;
    var offset := 0;
    while offset < numSamples
      invariant 0 <= offset && consumed == Min(offset, numSamples)
      invariant Slices(samples, batchSize) == done + Slices(samples[consumed..], batchSize)
      invariant BatchesFor(done, images, opt) == Pass(batches, None)
      decreases numSamples - offset
    {
      var batchSamples := samples[offset..Min(offset + batchSize, numSamples)];
      ghost var stop := Min(offset + batchSize, numSamples);
      NextSlice(samples, batchSize, offset, done);
      BatchesForSnoc(done, batchSamples, images, opt);
      var batch := MakeBatch(batchSamples, images, opt);
      if batch.Err? {
        BatchesForPrefixErr(done + [batchSamples], Slices(samples, batchSize), images, opt);
        r := Pass(batches, Some(batch.error));
        return;
      }
      batches := batches + [batch.value];
      done := done + [batchSamples];
      offset := offset + batchSize;
      consumed := stop;
    }
    assert Slices(samples, batchSize) == done;
    r := Pass(batches, None);
  }

  /** The slices from an offset on: the one the loop body takes, then the rest. */
  lemma NextSlice(samples: seq<Sample>, bs: nat, offset: nat, done: seq<seq<Sample>>)
    requires bs > 0 && offset < |samples|
    requires Slices(samples, bs) == done + Slices(samples[offset..], bs)
    ensures Slices(samples, bs) ==
      (done + [samples[offset..Min(offset + bs, |samples|)]]) + Slices(samples[Min(offset + bs, |samples|)..], bs)
  {
    var m := Min(bs, |samples| - offset);
    assert samples[offset..][..m] == samples[offset..Min(offset + bs, |samples|)];
    assert samples[offset..][m..] == samples[Min(offset + bs, |samples|)..];
  }

  /** One more slice: its batch is appended, or its error ends the pass after the batches so far. */
  lemma BatchesForSnoc(done: seq<seq<Sample>>, slice: seq<Sample>, images: map<Path, Image>, opt: MaskOptions)
    requires BatchesFor(done, images, opt).error.None?
    ensures BatchesFor(done + [slice], images, opt) ==
      if BatchFor(slice, images, opt).Err? then Pass(BatchesFor(done, images, opt).yielded, Some(BatchFor(slice, images, opt).error))
      else Pass(BatchesFor(done, images, opt).yielded + [BatchFor(slice, images, opt).value], None)
  {
    assert (done + [slice])[..|done|] == done;
  }

  /** Once a prefix of the slices fails, the later slices are never reached. */
  lemma {:induction false} BatchesForPrefixErr(prefix: seq<seq<Sample>>, slices: seq<seq<Sample>>,
                                               images: map<Path, Image>, opt: MaskOptions)
    requires prefix <= slices && BatchesFor(prefix, images, opt).error.Some?
    ensures BatchesFor(slices, images, opt) == BatchesFor(prefix, images, opt)
    decreases |slices|
  {
    if |slices| > |prefix| {
      var init := slices[..|slices| - 1];
      assert prefix <= init;
      BatchesForPrefixErr(prefix, init, images, opt);
    } else {
      assert prefix == slices;
    }
  }

  /** Once a prefix of a slice fails, the whole slice fails with that error. */
  lemma {:induction false} BatchForPrefixErr(prefix: seq<Sample>, slice: seq<Sample>,
                                             images: map<Path, Image>, opt: MaskOptions)
    requires prefix <= slice && BatchFor(prefix, images, opt).Err?
    ensures BatchFor(slice, images, opt) == BatchFor(prefix, images, opt)
    decreases |slice|
  {
    if |slice| > |prefix| {
      var init := slice[..|slice| - 1];
      assert prefix <= init;
      BatchForPrefixErr(prefix, init, images, opt);
    } else {
      assert prefix == slice;
    }
  }

  // ---------------------------------------------------------------------------
  // Properties of the slicing
  // ---------------------------------------------------------------------------

  /** Concatenating the slices in order gives back the sample list: each sample is visited once. */
  lemma {:induction false} SlicesCover(samples: seq<Sample>, bs: nat)
    requires bs > 0
    ensures Flatten(Slices(samples, bs)) == samples
  {
    if |samples| > 0 {
      var m := Min(bs, |samples|);
      SlicesCover(samples[m..], bs);
      assert Slices(samples, bs)[1..] == Slices(samples[m..], bs);
      assert samples[..m] + samples[m..] == samples;
    }
  }

  /**
   * There are ceil(n / bs) slices: the fewest whose total capacity covers the
   * list. Each is non-empty and holds at most bs samples.
   */
  lemma {:induction false} SlicesShape(samples: seq<Sample>, bs: nat)
    requires bs > 0
    ensures |Slices(samples, bs)| * bs >= |samples|
    ensures |Slices(samples, bs)| == 0 || (|Slices(samples, bs)| - 1) * bs < |samples|
    ensures forall k :: 0 <= k < |Slices(samples, bs)| ==> 0 < |Slices(samples, bs)[k]| <= bs
  {
    if |samples| > 0 {
      var m := Min(bs, |samples|);
      SlicesShape(samples[m..], bs);
      var rest := Slices(samples[m..], bs);
      var c := |rest|;
      assert Slices(samples, bs) == [samples[..m]] + rest;
      assert (c + 1) * bs == c * bs + bs;
      if c > 0 {
        assert c * bs == (c - 1) * bs + bs;
      }
    }
  }

  /** k * bs, counted up one batch at a time. */
  function Offset(k: nat, bs: nat): nat
  {
    if k == 0 then 0 else Offset(k - 1, bs) + bs
  }

  lemma {:induction false} OffsetIsProduct(k: nat, bs: nat)
    ensures Offset(k, bs) == k * bs
  {
    if k > 0 {
      OffsetIsProduct(k - 1, bs);
      assert (k - 1) * bs + bs == k * bs;
    }
  }

  lemma {:induction false} SliceAtOffset(samples: seq<Sample>, bs: nat, k: nat)
    requires bs > 0
    requires k < |Slices(samples, bs)|
    ensures Offset(k, bs) < |samples|
    ensures Slices(samples, bs)[k] == samples[Offset(k, bs) .. Min(Offset(k + 1, bs), |samples|)]
  {
    var m := Min(bs, |samples|);
    var rest := samples[m..];
    assert Slices(samples, bs) == [samples[..m]] + Slices(rest, bs);
    if k > 0 {
      SliceAtOffset(rest, bs, k - 1);
      assert Slices(samples, bs)[k] == Slices(rest, bs)[k - 1];
      assert m == bs;
      var lo, hi := Offset(k - 1, bs), Min(Offset(k, bs), |rest|);
      assert rest[lo..hi] == samples[lo + bs .. hi + bs];
    }
  }

  /** Batch k is samples[k*bs : (k+1)*bs], clipped at the end of the list. */
  lemma SliceAt(samples: seq<Sample>, bs: nat, k: nat)
    requires bs > 0
    requires k < |Slices(samples, bs)|
    ensures k * bs < |samples|
    ensures Slices(samples, bs)[k] == samples[k * bs .. Min((k + 1) * bs, |samples|)]
  {
    SliceAtOffset(samples, bs, k);
    OffsetIsProduct(k, bs);
    OffsetIsProduct(k + 1, bs);
  }

  // ---------------------------------------------------------------------------
  // Properties of the skip-on-failure rule and of a pass
  // ---------------------------------------------------------------------------

  /** Filtering distributes over concatenation: order is kept and nothing is reordered. */
  lemma {:induction false} KeptAppend(a: seq<Sample>, b: seq<Sample>, images: map<Path, Image>)
    ensures Kept(a + b, images) == Kept(a, images) + Kept(b, images)
  {
    if |b| > 0 {
      var init := b[..|b| - 1];
      KeptAppend(a, init, images);
      assert (a + b)[..|a + b| - 1] == a + init;
    } else {
      assert a + b == a;
    }
  }

  /** A sample that loads is kept; one that does not is skipped. */
  lemma KeptSingle(s: Sample, images: map<Path, Image>)
    ensures Kept([s], images) == if Loads(s, images) then [s] else []
  {
    assert [s][..0] == [];
  }

  /** The kept list is empty exactly when no sample of the slice loads. */
  lemma {:induction false} KeptEmptyIff(batch: seq<Sample>, images: map<Path, Image>)
    ensures |Kept(batch, images)| == 0 <==> !SomeLoads(batch, images)
  {
    if |batch| > 0 {
      var init := batch[..|batch| - 1];
      KeptEmptyIff(init, images);
      if SomeLoads(init, images) {
        var i :| 0 <= i < |init| && Loads(init[i], images);
        assert batch[i] == init[i];
      }
      if SomeLoads(batch, images) && !Loads(batch[|batch| - 1], images) {
        var i :| 0 <= i < |batch| && Loads(batch[i], images);
        assert init[i] == batch[i];
      }
    }
  }

  /** When every sample loads, nothing is skipped. */
  lemma {:induction false} KeptAll(batch: seq<Sample>, images: map<Path, Image>)
    requires forall s :: s in batch ==> Loads(s, images)
    ensures Kept(batch, images) == batch
  {
    if |batch| > 0 {
      var init := batch[..|batch| - 1];
      assert forall s :: s in init ==> s in batch;
      KeptAll(init, images);
      assert init + [batch[|batch| - 1]] == batch;
    }
  }

  /**
   * A batch holds one rgb image and one mask per kept sample, in the kept
   * order: X and Y grow together and hold at most the slice's samples, and
   * all of them when every sample loads.
   */
  lemma {:induction false} BatchContents(slice: seq<Sample>, images: map<Path, Image>, opt: MaskOptions)
    requires BatchFor(slice, images, opt).Ok?
    ensures var b := BatchFor(slice, images, opt).value;
      var kept := Kept(slice, images);
      |b.x| == |b.y| == |kept| <= |slice| &&
      ((forall s :: s in slice ==> Loads(s, images)) ==> |b.x| == |slice|) &&
      forall t :: 0 <= t < |kept| ==>
        b.x[t] == BgrToRgb(images[kept[t].0]) &&
        MaskOf(opt, BgrToRgb(images[kept[t].1])) == Ok(b.y[t])
  {
    if |slice| > 0 {
      var init := slice[..|slice| - 1];
      BatchContents(init, images, opt);
      if forall s :: s in slice ==> Loads(s, images) {
        KeptAll(slice, images);
      }
    }
  }

  /** A slice fails exactly when the options are bad and some sample reaches prepare_mask. */
  lemma {:induction false} BatchErrIff(slice: seq<Sample>, images: map<Path, Image>, opt: MaskOptions)
    ensures BatchFor(slice, images, opt).Err? <==> ResolveConfig(opt).Err? && SomeLoads(slice, images)
    ensures BatchFor(slice, images, opt).Err? ==>
      BatchFor(slice, images, opt).error == MaskFailed(ResolveConfig(opt).error)
  {
    if |slice| > 0 {
      var init := slice[..|slice| - 1];
      var last := slice[|slice| - 1];
      BatchErrIff(init, images, opt);
      assert init + [last] == slice;
      SomeLoadsAppend(init, [last], images);
      assert SomeLoads([last], images) <==> Loads(last, images) by {
        if Loads(last, images) {
          assert [last][0] == last;
        }
      }
    }
  }

  /** Some sample of a concatenation loads exactly when one of either part does. */
  lemma SomeLoadsAppend(a: seq<Sample>, b: seq<Sample>, images: map<Path, Image>)
    ensures SomeLoads(a + b, images) <==> SomeLoads(a, images) || SomeLoads(b, images)
  {
    if SomeLoads(a + b, images) {
      var i :| 0 <= i < |a + b| && Loads((a + b)[i], images);
      if i >= |a| {
        assert b[i - |a|] == (a + b)[i];
      }
    }
    if SomeLoads(b, images) {
      var i :| 0 <= i < |b| && Loads(b[i], images);
      assert (a + b)[|a| + i] == b[i];
    }
    if SomeLoads(a, images) {
      var i :| 0 <= i < |a| && Loads(a[i], images);
      assert (a + b)[i] == a[i];
    }
  }

  /** Flattening a sequence with one more slice appends that slice. */
  lemma {:induction false} FlattenSnoc(slices: seq<seq<Sample>>, s: seq<Sample>)
    ensures Flatten(slices + [s]) == Flatten(slices) + s
  {
    if |slices| > 0 {
      assert (slices + [s])[1..] == slices[1..] + [s];
      FlattenSnoc(slices[1..], s);
    } else {
      assert [s][1..] == [];
    }
  }

  /**
   * Over a sequence of slices: the pass ends with an error exactly when the
   * options are bad and some sample of some slice loads, and then with
   * prepare_mask's error, raised by the slice right after the batches yielded.
   * Batch k is the batch of slice k; without an error every slice yields one.
   */
  lemma {:induction false} BatchesForSpec(slices: seq<seq<Sample>>, images: map<Path, Image>, opt: MaskOptions)
    ensures BatchesFor(slices, images, opt).error.Some? <==>
      ResolveConfig(opt).Err? && SomeLoads(Flatten(slices), images)
    ensures BatchesFor(slices, images, opt).error.Some? ==>
      BatchesFor(slices, images, opt).error.value == MaskFailed(ResolveConfig(opt).error)
    ensures |BatchesFor(slices, images, opt).yielded| <= |slices|
    ensures BatchesFor(slices, images, opt).error.None? ==> |BatchesFor(slices, images, opt).yielded| == |slices|
    ensures BatchesFor(slices, images, opt).error.Some? ==>
      var n := |BatchesFor(slices, images, opt).yielded|;
      n < |slices| && BatchFor(slices[n], images, opt).Err?
    ensures forall k :: 0 <= k < |BatchesFor(slices, images, opt).yielded| ==>
      BatchFor(slices[k], images, opt) == Ok(BatchesFor(slices, images, opt).yielded[k])
  {
    if |slices| > 0 {
      var init := slices[..|slices| - 1];
      var last := slices[|slices| - 1];
      BatchesForSpec(init, images, opt);
      BatchErrIff(last, images, opt);
      FlattenSnoc(init, last);
      assert init + [last] == slices;
      SomeLoadsAppend(Flatten(init), last, images);
      var p := BatchesFor(init, images, opt);
      assert forall k :: 0 <= k < |init| ==> slices[k] == init[k];
      if p.error.None? {
        assert slices[|p.yielded|] == last;
      }
    }
  }

  /**
   * The batches yielded before the pass fails are all empty: with bad options
   * every earlier slice yielded a batch only because none of its samples loaded.
   */
  lemma YieldedBeforeErrorEmpty(slices: seq<seq<Sample>>, images: map<Path, Image>, opt: MaskOptions)
    requires BatchesFor(slices, images, opt).error.Some?
    ensures forall k :: 0 <= k < |BatchesFor(slices, images, opt).yielded| ==>
      BatchesFor(slices, images, opt).yielded[k] == Batch([], [])
  {
    var p := BatchesFor(slices, images, opt);
    BatchesForSpec(slices, images, opt);
    forall k | 0 <= k < |p.yielded| ensures p.yielded[k] == Batch([], []) {
      BatchErrIff(slices[k], images, opt);
      KeptEmptyIff(slices[k], images);
      BatchContents(slices[k], images, opt);
    }
  }

  /**
   * One pass with a positive batch size ends with an error exactly when the
   * options are bad and some sample loads, with prepare_mask's error, after
   * the batches of the slices before the failing one; otherwise it yields one
   * batch per slice, ceil(n / batch_size) of them.
   */
  lemma PassSpec(samples: seq<Sample>, bs: nat, images: map<Path, Image>, opt: MaskOptions)
    requires bs > 0
    ensures PassFor(samples, bs, images, opt).error.Some? <==> ResolveConfig(opt).Err? && SomeLoads(samples, images)
    ensures PassFor(samples, bs, images, opt).error.Some? ==>
      PassFor(samples, bs, images, opt).error.value == MaskFailed(ResolveConfig(opt).error)
    ensures PassFor(samples, bs, images, opt).error.Some? ==>
      |PassFor(samples, bs, images, opt).yielded| < |Slices(samples, bs)|
    ensures PassFor(samples, bs, images, opt).error.None? ==>
      |PassFor(samples, bs, images, opt).yielded| == |Slices(samples, bs)|
  {
    BatchesForSpec(Slices(samples, bs), images, opt);
    SlicesCover(samples, bs);
  }

  /** Batch k of a pass, whether or not the pass later fails, is the batch of samples[k*bs : (k+1)*bs]. */
  lemma PassBatchAt(samples: seq<Sample>, bs: nat, images: map<Path, Image>, opt: MaskOptions, k: nat)
    requires bs > 0
    requires k < |PassFor(samples, bs, images, opt).yielded|
    ensures k * bs < |samples|
    ensures BatchFor(samples[k * bs .. Min((k + 1) * bs, |samples|)], images, opt) ==
      Ok(PassFor(samples, bs, images, opt).yielded[k])
  {
    BatchesForSpec(Slices(samples, bs), images, opt);
    SliceAt(samples, bs, k);
  }

  /** Converting to RGB twice gives back the image read. */
  lemma BgrToRgbInvolution(img: Image)
    ensures BgrToRgb(BgrToRgb(img)) == img
  {
    var r := BgrToRgb(BgrToRgb(img));
    assert |r| == |img|;
    forall i | 0 <= i < |img| ensures r[i] == img[i] {
      assert |r[i]| == |img[i]|;
    }
  }
}
