# KerasSemSeg training data pipeline, in Dafny

This project models the data-preparation half of `train.py` in the KerasSemSeg
semantic-segmentation trainer and proves properties of it:

- **`prepare_mask`** (module `MaskPrep`, file `mask.dfy`). It turns a
  colour-coded label image into a `height × width × nb_classes` uint8 array.
  Class `k` is the k-th entry of `combined_classes`, which is a list of
  `(low, high)` index pairs into `class_colors`. The channel of class `k` at a
  pixel is the number of its pairs whose colour box (`cv2.inRange`, every
  channel within both bounds inclusive) contains the pixel. That count is
  summed in uint8, so it is taken modulo 256. The method writes a
  three-dimensional array class by class, with an accumulator over the pairs,
  and is proved equal to the value-level definition `MaskOf`. Python's
  exceptions are error values:
  - a colour index outside `class_colors`, where negative indices count from
    the end as in Python;
  - a class with no pairs, which leaves `mask_ch` as `None`: the reshape at
    line 50 rejects it, or, for a 1 × 1 image, the assignment of the reshaped
    `None` does;
  - a class index at or past `nb_classes`, where the channel assignment fails.
- **One pass of `generator`** (module `Batching`, file `batching.dfy`).
  - The pass slices the samples at offsets `0, bs, 2bs, …`.
  - Both images of each sample are read. A sample is skipped when either
    image fails to load.
  - Both images are converted from BGR to RGB. The second image is encoded
    with `prepare_mask`, and the pair is appended to `images_X` and
    `images_Y` together.
  - The method is proved equal to the recursive definitions `BatchFor`,
    `BatchesFor` and `PassFor`.
- **`get_filenames`** (module `FileList`, file `filenames.dfy`). It sorts both
  path lists by Python's `str` order, pairs them with `zip`, and cuts the
  result with the slice `[:limit]`, using Python's rules for negative stops.
- **The `__main__` derivations** (module `TrainMain`, file `main_config.dfy`):
  - the end-of-training weights name `args.model.replace('.', '_end.')`;
  - `nb_classes = len(combined_classes)`;
  - the shipped `class_colors` and `combined_classes`;
  - the shipped `limit = -1`.

`basics.dfy` (module `Basics`) holds the shared vocabulary: `Option`,
`Result`, `uint8`, paths and samples.

The model takes image reading, globbing and the command line as inputs:

- `cv2.imread` is a map from path to image. A path missing from the map is a
  failed read, which is `None` in the source.
- `glob.glob` results are the two path lists passed to `GetFilenames`.
- The model path and the option values are parameters.

## Model

| member | source | states |
|---|---|---|
| MaskPrep.AddPlanes | train.py:48 | np.add on uint8 planes keeps the shape and wraps each cell sum past 255 back by 256 |
| MaskPrep.ResolvePairs | train.py:35-37 | the class's pairs resolve to one colour box per pair, in order, or to the error of the first pair whose index is out of range, with every earlier pair resolving |
| MaskPrep.ResolvePairsAllOk | train.py:35-37 | the converse: when every pair resolves on its own, the list resolves to exactly those boxes |
| MaskPrep.ResolveClasses | train.py:32-51 | the classes resolve to one range list per class in iteration order, or to the error of the first failing class, with every earlier class resolving |
| MaskPrep.ResolveClassesAllOk | train.py:32-51 | when every class resolves on its own, prepare_mask raises nothing |
| MaskPrep.AccumulateClass | train.py:33-48 | the inner loop returns the index error of the first bad pair; otherwise None exactly when the class has no pairs; otherwise a plane of the image's shape whose cell is the class's match count modulo 256 |
| MaskPrep.PrepareMask | train.py:18-53 | fails exactly with the error MaskOf gives; on success the array is height × width × nb_classes and holds exactly MaskOf's value |
| MaskPrep.FirstClassError | train.py:32-51 | when classes before k resolve and class k fails, prepare_mask fails with class k's error |
| MaskPrep.MaskCells | train.py:30-51 | once the options resolve, the mask has the image's shape with nb_classes channels; channel k < number of classes is class k's count modulo 256, and the others are 0 |
| MaskPrep.CountZeroIff | train.py:42-48 | a class's count is 0 exactly when none of its boxes contains the pixel |
| MaskPrep.CountAllMatch | train.py:42-48 | when every box contains the pixel, the count is the number of boxes |
| MaskPrep.CountDisjoint | train.py:42-48 | with pairwise disjoint boxes the count is at most 1 |
| MaskPrep.OverlapCountsTwice | train.py:42-48 | the channel is a sum, not an OR: the same box listed twice gives 2 |
| MaskPrep.WrapAround | train.py:48 | 256 boxes containing the pixel count 256 and wrap the uint8 cell to 0 |
| MaskPrep.MaskShape | train.py:28-30 | a successful mask is height × width × nb_classes |
| MaskPrep.ConfigResolves | train.py:32-51 | options that resolve have no more classes than nb_classes, and class k resolves to one box per listed pair, with at least one pair |
| MaskPrep.MaskChannel | train.py:50-51 | channel k of a successful mask comes from the k-th class: its count modulo 256; with fewer than 256 pairs it is 0 exactly when no pair matches |
| MaskPrep.MaskUnusedChannel | train.py:30 | channels past the last class keep np.zeros' 0 |
| MaskPrep.MaskErrorIndependentOfImage | train.py:32-51 | whether prepare_mask fails, and with which error, depends on the options only and not on the image |
| MaskPrep.EmptyClassFails | train.py:50 | a class that lists no pairs makes prepare_mask fail |
| MaskPrep.TooFewChannelsFails | train.py:50 | with more classes than nb_classes, prepare_mask fails |
| Batching.Kept | train.py:73-82 | the kept samples are at most the slice's samples, and every kept sample has both images loading |
| Batching.BgrToRgb | train.py:84-85 | the colour conversion keeps the image's shape and rectangularity |
| Batching.BgrToRgbInvolution | train.py:84-85 | swapping the first and third channel twice gives back the image read |
| Batching.MakeBatch | train.py:70-95 | the body of the offset loop yields exactly BatchFor of its slice: in-order kept samples, skipping those that do not load, or the first prepare_mask error |
| Batching.GeneratorPass | train.py:63-68 | one pass yields exactly PassFor: the batches of the slices in order, then, if prepare_mask raises, that error after the batches already yielded; range's error for batch_size 0 |
| Batching.SlicesCover | train.py:67-68 | the slices, joined in order, give back the sample list, so each sample is visited once |
| Batching.SlicesShape | train.py:67-68 | there are ceil(n / bs) slices, each non-empty and at most bs long |
| Batching.SliceAt | train.py:67-68 | slice k is samples[k*bs : (k+1)*bs], clipped at the end of the list |
| Batching.KeptAppend | train.py:73-90 | skipping keeps relative order: the kept samples of a concatenation are the two parts' kept samples, joined |
| Batching.KeptSingle | train.py:76-82 | a sample is kept exactly when both its images load |
| Batching.KeptEmptyIff | train.py:76-82 | nothing is kept exactly when no sample of the slice loads |
| Batching.KeptAll | train.py:73-90 | when every sample loads, every sample is kept |
| Batching.BatchContents | train.py:73-90 | X and Y have one entry per kept sample, so len(X) == len(Y) <= len(batch) (equal when all load); entry t is the RGB image of kept sample t and the prepare_mask of its RGB mask image |
| Batching.BatchErrIff | train.py:76-87 | a slice fails exactly when the options are bad and some sample reaches prepare_mask, with prepare_mask's error |
| Batching.BatchesForSpec | train.py:67-95 | over a sequence of slices: an error ends it exactly when the options are bad and some sample loads; the failing slice is the one right after the yielded batches; batch k is the batch of slice k; with no error every slice yields a batch |
| Batching.PassSpec | train.py:63-68 | a pass with a positive batch size ends with prepare_mask's error exactly when the options are bad and some sample loads, having yielded fewer batches than slices; otherwise it yields one batch per slice |
| Batching.PassBatchAt | train.py:67-68 | every yielded batch k, also in a pass that later fails, is the batch of samples[k*bs : (k+1)*bs] |
| Batching.YieldedBeforeErrorEmpty | train.py:73-95 | the batches yielded before prepare_mask raises are all empty: with bad options only slices where no sample loads get past the mask step |
| FileList.SortPaths | train.py:118-119 | list.sort() leaves the paths sorted by str order, with the same paths and multiplicities |
| FileList.SortedUnique | train.py:118-119 | two sorted lists with the same paths are equal, so the sorted list does not depend on the sort algorithm |
| FileList.SortIgnoresOrder | train.py:113-119 | lists with the same paths sort to the same list, whatever order glob returned them in |
| FileList.SliceStop | train.py:124 | the stop of `[:limit]` never exceeds the length: None keeps all, a non-negative stop is clipped, a negative one counts back from the end |
| FileList.SliceStopNegative | train.py:124 | a stop of -k drops the last k elements, or all of them when there are fewer |
| FileList.Zip | train.py:121-122 | zip pairs by position and yields as many pairs as the shorter list |
| FileList.GetFilenames | train.py:104-124 | the method's result is TrainFiles: both lists sorted, zipped and cut at the slice stop |
| FileList.TrainFilesPairs | train.py:118-124 | pair i is (i-th sorted rgb path, i-th sorted mask path), and there are SliceStop(min(#rgb, #mask), limit) pairs |
| FileList.TrainFilesSorted | train.py:118-122 | the rgb column and the mask column of the result are each sorted |
| FileList.TrainFilesIgnoreGlobOrder | train.py:113-119 | the result does not depend on the order glob lists the files in |
| TrainMain.ReplaceDotsNoDot | train.py:298 | a model path without a dot is returned unchanged |
| TrainMain.ReplaceDotsMarksEveryDot | train.py:298 | every dot of the result has "_end" right before it |
| TrainMain.ReplaceDotsLength | train.py:298 | the result is four characters longer per dot of the model path |
| TrainMain.ReplaceDotsRoundTrip | train.py:298 | reading "_end." back as "." gives back the model path |
| TrainMain.ReplaceDotsInjective | train.py:298 | different model paths give different end-of-training names |
| TrainMain.ReplaceDotsRewritesDirectory | train.py:298 | a dot in the directory part is rewritten too, so the directory changes |
| TrainMain.ExtensionCutOf | train.py:297-298 | the place for "_end" is in the last path component, before its last dot, or at the end when that component has no dot |
| TrainMain.ExtensionCutUnique | train.py:297-298 | that place is determined by the path |
| TrainMain.EndWeightsFileDistinct | train.py:295-298 | the intended end-of-training name never equals the checkpoint name weights_file |
| TrainMain.EndWeightsFileKeepsDirectory | train.py:297-298 | the intended name keeps the model path's directory part unchanged |
| TrainMain.ReplaceDotsNameExt | train.py:298 | on "name.ext" with a single dot, the replacement inserts "_end" once, before that dot |
| TrainMain.EndWeightsFileAgrees | train.py:298 | on "name.ext" with a single dot and no slash after it, the source's name and the intended one agree |
| TrainMain.DerivedOptionsFitChannels | train.py:300 | with nb_classes derived this way, no class index runs past the channels; on success every channel k < nb_classes comes from a resolving class |
| TrainMain.ShippedOptions | train.py:264-300 | the shipped configuration has three channels |
| TrainMain.ShippedClassRanges | train.py:279-284 | each shipped class resolves to the colour boxes of its label ranges |
| TrainMain.ShippedConfigResolves | train.py:264-284 | the shipped options resolve, with no error, to the three classes' label ranges |
| TrainMain.ShippedCell0 | train.py:281 | the first shipped class counts a pixel once on labels 0-5, 8, 9 and 11, and 0 times otherwise |
| TrainMain.SingleRangeCell | train.py:282-283 | a class with one label range counts a pixel once on those labels, and 0 times otherwise |
| TrainMain.ShippedMaskOneHot | train.py:264-284 | with the shipped options every mask cell is one-hot or all zero: channel 0 for labels 0-5, 8, 9 and 11, channel 1 for 6-7, channel 2 for 10, nothing for other colours |
| TrainMain.ShippedLimitDropsLast | train.py:315 | with the shipped limit -1, get_filenames returns every zipped pair except the last |
| TrainMain.IntendedLimitKeepsAll | train.py:315 | with the stop the comment asks for, get_filenames returns every zipped pair, min(#rgb, #mask) of them |

## Left out

- models.py is not part of this model. It only assembles Keras layer graphs.
- `train` and `predict` are not modelled. They are orchestration over Keras
  (`fit_generator`, checkpoint callbacks, weight loading and saving), and
  `predict` casts floating-point outputs to bytes.
- `make_generators` and `train_test_split` are not modelled. The split is
  random and inside sklearn. GeneratorPass takes whatever sample list the
  split produced.
- `cv2.imread`, `glob.glob`, argparse and all printing are I/O. Images come
  from a map, glob results and the model path are parameters, and nothing
  is printed.
- `cv2.cvtColor` is modelled only as the swap of the first and third channels
  of each pixel.
- `cv2.inRange` is modelled only on three-channel pixels.
- `shuffle(samples)` is the identity. `sklearn.utils.shuffle` returns a
  shuffled copy, and line 66 discards it, so the list really is left as it
  was.
- The infinite `while 1` and the suspension at `yield` are not modelled.
  GeneratorPass is one finite pass. It returns the batches the pass yields
  and, when prepare_mask raises, that error after the batches yielded before
  it.
- GeneratorPass: with a negative batch size the pass yields no batches. In
  the source, the surrounding `while 1` then spins without ever yielding.
- `np.array` stacking is modelled as a sequence of the arrays' values. numpy's
  ragged-shape behaviour for images of different sizes is not modelled.
- The images handed to prepare_mask are assumed rectangular. cv2 never
  returns a ragged image.
- `list.sort()` sorts in place with Timsort. The model uses a pure insertion
  sort, SortPaths, and SortedUnique proves that any correct sort gives the
  same list. Update in place is the only part not captured.
- Python's dict `combined_classes` is an ordered list of (key, pairs)
  entries, as insertion order makes it. The keys are not used by the code.
- The source itself assumes each channel holds 0 or 1 (train.py:223). The
  code sums 0/1 indicators in uint8 instead of taking their union. The model
  follows the code, and OverlapCountsTwice and WrapAround show the
  difference.
- MaskPrep.ClassRanges: a class with no pairs is reported as NoColorRanges
  before its channel index is checked. On a 1 × 1 image, when that class's
  index is also at or past nb_classes, Python raises the channel-index error
  instead. The model records that the call fails, but not which of the two
  errors is raised in this corner.

## Findings

| source | as written | input that shows it | evidently intended | confidence | as-written member | corrected member |
|---|---|---|---|---|---|---|
| train.py:315 | `limit = -1`, commented "-1 when all training samples", is used as the stop of `train_files[:limit]` (line 124), which drops the last pair | any non-empty rgb and mask lists: with one pair each, no training sample is left | keep all pairs, the stop `None` | not executed; high, by Python's slice rules | TrainMain.ShippedLimitDropsLast | TrainMain.IntendedLimitKeepsAll |
| train.py:298 | `args.model.replace('.', '_end.')` also rewrites dots in the directory part | `--model ./model.h5` gives `_end./model_end.h5`, a file in a different directory | put "_end" only before the extension of the last path component | not executed; high, by str.replace's definition | TrainMain.ReplaceDotsRewritesDirectory | TrainMain.EndWeightsFileKeepsDirectory |
| train.py:298 | a model path without a dot is returned unchanged, so the end-of-training save (line 180) overwrites the best checkpoint weights_file (line 166) | `--model model` gives `model` for both files | a name distinct from the checkpoint's, as the comment at line 297 says | not executed; high, by str.replace's definition | TrainMain.ReplaceDotsNoDot | TrainMain.EndWeightsFileDistinct |
