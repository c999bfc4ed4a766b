# license_plates — a Dafny model of dataset preparation and inference

The program trains an image classifier that tells which US state or
territory issued a license plate. This project models its data-handling core:

- **Manifest indexing** (`index_observations`). Each CSV row is
  deserialised, its image path is joined onto the data directory, and the
  row is routed by its `data set` token into the train, test or valid
  list. The first bad row ends the call.
- **Label encoding** (`build_label_index`, `build_label_array`). The
  distinct training labels are numbered densely from 0 in ascending
  lexicographic order, the order a `BTreeSet` yields them. Each split is
  encoded through that map. A label missing from the map is an `unwrap`
  failure.
- **Pixel fill** (`build_observation_array`, and the same loop in
  `inference::run`). A zero block `channels x height x width` receives
  the first three samples of each pixel, scaled by 1/255. A pixel
  outside the block is an index panic.
- **Normalisation choice**. The training split computes the
  normalisation from its own filled array. Test and valid reuse it. The
  chosen value is applied to every cell and is the value persisted.
- **Preparation pipeline** (`prepare::run`): the steps above wired in
  source order.
- **Inference**:
  - the label map is inverted by iterating it in ascending label order;
  - each image is filled and normalised exactly as in preparation;
  - the network's predicted class index (`i64`, cast to `usize`) is
    looked up in the inverted map.
- **Learning-rate schedule** (`learning_rate` in `src/train.rs`).

Every failure of the program ends the command, whether it is an `anyhow`
error, an `unwrap` or an out-of-range index. The model folds all of them
into `Failures.Result`. The image decoder, the path join, the
normalisation statistic and transform, and the network are parameters of
the model.

Modules, one per file:

- `Failures`: `Option`, `Result` and the error kinds.
- `Lexicographic`: `String` order, proved a strict total order.
- `Manifest`: manifest indexing.
- `Labels`: label map and label arrays.
- `Layout`: pixel fill.
- `Normalisation`: building one observation array.
- `Preparation`: `prepare::run`.
- `Inference`: `inference::run`.
- `Schedule`: the learning-rate schedule.

## Model

| member | source | states |
|---|---|---|
| Manifest.IndexObservations | src/prepare.rs:93-119 | on success the three lists together hold exactly one entry per manifest row |
| Manifest.Route | src/prepare.rs:104-115 | one loop iteration accepts a row exactly when it deserialises and carries a known token; otherwise it fails with the deserialisation error or the unknown token |
| Manifest.RouteAppends | src/prepare.rs:105-113 | an accepted row, its path joined onto the data directory, is pushed onto the list of its own token and the other two lists stay as they were |
| Manifest.IndexSucceedsIff | src/prepare.rs:103-116 | indexing succeeds exactly when every row deserialises and carries the token train, test or valid |
| Manifest.IndexFailsAtFirstBadRow | src/prepare.rs:103-115 | the first bad row decides the error: a deserialisation error, or "unknown data set" with the offending token |
| Manifest.IndexMatchesSelect | src/prepare.rs:99-118 | on success each list equals an independent front-to-back selection of the rows with its token, in manifest order, paths joined onto the data directory |
| Manifest.SelectMembers | src/prepare.rs:104-113 | an entry is in a split exactly when a row with that token has the same class id and label, and the entry's path is that row's path joined onto the data directory |
| Manifest.IndexRoutesByToken | src/prepare.rs:110-113 | every row lands in the list named by its token, and every entry of a list carries that list's token |
| Lexicographic.StrictTotalOrder | src/prepare.rs:183-187 | the `String` order the `BTreeSet`/`BTreeMap` iteration follows is irreflexive, asymmetric, transitive and total |
| Labels.SortSet | src/prepare.rs:183-185 | iterating the label set yields each label once, in strictly ascending order, and nothing else |
| Labels.BuildLabelIndex | src/prepare.rs:179-188 | the keys of the label map are exactly the training labels, and its ids are exactly 0 .. n-1 for n distinct labels |
| Labels.LabelIndexPositions | src/prepare.rs:184-186 | the label at sorted position i has id i |
| Labels.LabelIndexOrderPreserving | src/prepare.rs:183-187 | label a sorts before label b if and only if a's id is smaller than b's |
| Labels.LabelIndexInjective | src/prepare.rs:183-187 | distinct labels get distinct ids |
| Labels.LabelIdIsRank | src/prepare.rs:179-188 | a label's id is the number of distinct labels sorting before it, so the map depends only on the set of labels |
| Labels.SortedRank | src/prepare.rs:183-186 | in a strictly sorted listing of a set, exactly i members sort before the one at position i |
| Labels.BuildLabelArray | src/prepare.rs:190-198 | encoding succeeds exactly when every label has an id; the result then holds one id per entry, in entry order; otherwise the call stops at the first entry whose label has no id (the program's `unwrap` panics there) |
| Labels.LabelArrayInRange | src/prepare.rs:195-198 | every encoded id lies in 0 .. n-1 for the n training labels |
| Labels.TwoLabelMap | src/prepare.rs:179-188 | two distinct labels are numbered 0 and 1 in lexicographic order |
| Labels.SmallManifestEncoding | src/prepare.rs:179-198 | training labels a, a, b give the map {a: 0, b: 1} and encode as [0, 0, 1]; a test label a encodes as [0] |
| Layout.Write | src/prepare.rs:158-160 | a cell assignment changes that cell only and keeps the shape |
| Layout.Fill | src/prepare.rs:145-162 | reference definition of one filled block: it exists exactly when no covered pixel lies outside the block, and it has the block's extent |
| Layout.FillPixels | src/prepare.rs:153-162 | the row/column loop fails exactly when a covered pixel lies outside the block; otherwise each cell holds channel c of pixel (x, y) scaled by 1/255 where the image covers it and 0 elsewhere |
| Normalisation.FillAll | src/prepare.rs:147-165 | filling succeeds exactly when every entry's image opens and fits; each block is that entry's fill; an error comes from some failing entry |
| Normalisation.LoadSlice | src/prepare.rs:154-162 | one entry loads exactly when its image opens and fits the block; an unreadable image and an oversized one are told apart |
| Normalisation.SelectNorm | src/prepare.rs:167-170 | the supplied normalisation wins; without one, the statistic of the filled array is used, and it fails exactly when that array has no observation (`mean().unwrap()` at src/prepare.rs:129) |
| Normalisation.BuildObservationArray | src/prepare.rs:140-176 | succeeds exactly when every image loads and fits and the split is non-empty or a normalisation is supplied; an empty split without one fails on the statistic, any other failure comes from a failing entry; returns the supplied normalisation if there is one, otherwise the statistic of the filled array; every cell is the transform, by the returned normalisation, of what the image puts there |
| Preparation.Prepare | src/prepare.rs:22-63 | an indexing error ends preparation with that error; a successful preparation had at least one training row |
| Preparation.PrepareStopsOnBadManifest | src/prepare.rs:22-23 | a manifest that fails to index ends preparation with the indexing error |
| Preparation.PrepareNormalisesWithTrainStatistics | src/prepare.rs:33-59 | the persisted normalisation is the statistic of the training array; it is the one applied to every cell of all three splits |
| Preparation.PrepareEncodesWithTrainLabelMap | src/prepare.rs:26-56 | every split is encoded with the map built from the training split, one id per observation in order; every test and valid label occurs in training |
| Preparation.PrepareKeepsEveryRow | src/prepare.rs:22-63 | the three image arrays together hold one observation per manifest row |
| Preparation.SeenInTrainIfPrepared | src/prepare.rs:41-56 | preparation succeeds only if every test and valid label also occurs in the training split |
| Preparation.PrepareRejectsUnseenLabel | src/prepare.rs:41-56 | a test or valid row whose label no training row carries makes preparation fail |
| Preparation.PrepareNeedsTrainingRow | src/prepare.rs:33 | a manifest that indexes but has no training row fails on the normalisation statistic (src/prepare.rs:129, 169) |
| Preparation.PrepareRejectsEmptyManifest | src/prepare.rs:22-33 | a manifest with no data rows does not prepare: it fails on the normalisation statistic |
| Inference.LastWith | src/inference.rs:27-30 | the last key, in iteration order, that carries a given id |
| Inference.InsertAll | src/inference.rs:27-30 | collecting (id, label) pairs keeps, for each id, the label inserted last |
| Inference.InsertAllKeys | src/inference.rs:27-30 | inserting every label of the map yields exactly the ids as keys |
| Inference.Invert | src/inference.rs:27-30 | the inverted map's keys are exactly the ids of the label map, and each id is sent to a label that carries it |
| Inference.InsertAllGreatestWins | src/inference.rs:27-30 | inserting labels in strictly ascending order, each id keeps the greatest label that carries it |
| Inference.InvertGreatestLabelWins | src/inference.rs:27-30 | on a repeated id, the lexicographically greatest label wins |
| Inference.ExactInverse | src/inference.rs:27-30 | any map with the ids as keys that points each id back to a label carrying it undoes an injective map and has as many entries |
| Inference.InvertInjective | src/inference.rs:27-30 | for an injective label map the inversion undoes it exactly and has as many entries |
| Inference.CardinalityOfValues | src/inference.rs:27-30 | an injective map has as many distinct ids as labels |
| Inference.InvertLabelIndex | src/inference.rs:26-30 | for a map that preparation builds, the inversion's keys are exactly 0 .. n-1 and it round-trips in both directions |
| Inference.LabelIndexIsInjective | src/prepare.rs:183-187 | the map preparation builds is injective |
| Inference.LookupPrediction | src/inference.rs:50-54 | the lookup of the `usize`-cast prediction succeeds exactly when that id is a key of the inverted map, and fails otherwise (the program's `unwrap` panics there) |
| Inference.LookupPredictionMeaning | src/inference.rs:50-54 | against the inverted map, the lookup succeeds exactly when some label carries the predicted id, and it yields such a label |
| Inference.AsUsize | src/inference.rs:54 | the `usize` cast keeps an index in 0 .. 2^64-1 and reads a negative `i64` as its two's-complement bit pattern, i.e. adds 2^64 |
| Inference.SingleInput | src/inference.rs:34-45 | the single-image input loads exactly when the image opens and fits; it has one observation whose cells are the normalised fill of the image |
| Inference.SingleInputMatchesPreparation | src/inference.rs:34-45 | the inference input equals the array preparation builds for one entry with that path and the same normalisation, and fails in exactly the same cases |
| Inference.ClassifyAll | src/inference.rs:32-57 | all images, in argument order, are classified with plate number = position; the first image that fails ends the command with its error |
| Inference.Classify | src/inference.rs:34-54 | one image's label is the inverted map's entry for the id the network predicts; it fails when the image does not load or no entry has that id |
| Inference.ClassifyAgainstLabels | src/inference.rs:26-54 | against the inverted label map, an image is classified exactly when it loads and some label carries the predicted id, and the label it gets carries that id |
| Inference.Run | src/inference.rs:18-58 | inference succeeds exactly when every image loads and some label carries its predicted id; each line numbers the plate by position and names a label carrying the predicted id; otherwise the first image that fails ends it |
| Schedule.LearningRate | src/train.rs:91-101 | the rate lies between 1e-6 and 1e-3; it is 1e-3 exactly before epoch 1 and 1e-6 exactly from epoch 3 on |
| Schedule.LearningRateNonIncreasing | src/train.rs:91-101 | the rate never rises with the epoch |
| Schedule.LearningRateDecades | src/train.rs:92-97 | each of the three steps divides the rate by exactly ten |
| Schedule.LearningRateMiddleEpochs | src/train.rs:94-97 | epochs 1 and 2 use 1e-4 and 1e-5 |

## Left out

- Partial output on failure: each split's arrays are written as soon as they are built (src/prepare.rs:173-174, 200-201) and the normalisation file last (src/prepare.rs:59). A failure in a later split therefore leaves the earlier files on disk and no new normalisation file. The model's `Err` says nothing about files already written; `Preparation.Artifacts` is what a successful run persists.
- Failures of `vs.load(args.model)?` (src/inference.rs:23) and of the tensor conversion `array.try_into()?` (src/inference.rs:46) are not modelled: loading the network and building the tensor are outside the model.
- Inference.Invert: `LabelMap` is not defined in the modelled files. The model takes it to be `BTreeMap<String, usize>`, the type `build_label_index` returns (src/prepare.rs:179), so it iterates in ascending label order; `Inference.InvertGreatestLabelWins` rests on that.
- Inference.AsUsize: assumes a 64-bit `usize`; on a 32-bit target the cast would wrap modulo 2^32.
- File I/O is not modelled:
  - the CSV reader is replaced by the `Row` values it yields;
  - the `rmp_serde` and JSON writes, `File::create` failures and reading the label map and normalisation back are left out;
  - `Preparation.Artifacts` holds what a successful run persists.
- The `to_str().unwrap()` panic on a non-UTF-8 path: the path join is the parameter `resolve`.
- Image decoding is the parameter `open`. A decoded image is its extent and a sample function.
- `Normalization::new` (f32 mean and population standard deviation) and `Normalization::norm` are the parameters `stat` and `apply`. Floating point is not modelled: the scaling uses exact reals, with no f32 rounding of `/ 255.`, and there is no guard against a zero standard deviation, which the program lacks too.
- Normalisation.FillAll: the program fills the entries on a rayon worker pool and reports whichever failing entry it meets. The contract only promises an error from some failing entry, not which one.
- The `as i64` cast of label ids: ids below 2^63 are unchanged by it, and a label map that large cannot be built.
- `prepare::run` builds the label map but does not write it to the label-map path that inference reads. The model states what inference does with any label map (`Inference.LookupPredictionMeaning`), and what happens for the map preparation builds (`Inference.InvertLabelIndex`).
- The network's forward pass, softmax and argmax are the parameter `model` of `Inference.Session`. Training, the dataset loader, the network definitions, argument parsing and `main` are not part of this model.
- Inference.ClassifyAll: the program prints each image's line before it moves on to the next, so a later failure leaves the earlier lines printed. The model's error result drops them; the contract only says which image failed first.
- Inference.Run: like `Inference.ClassifyAll`, its error result drops the lines already printed for earlier images.
- Spinners, progress bars, the label listing and the timing printout are not modelled.
- Schedule.LearningRate: rates are exact decimals, not the nearest `f64`.

