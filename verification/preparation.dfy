/** `run` in src/prepare.rs: the preparation pipeline.

    The manifest is indexed, the label map is built from the training
    split alone, and each split's image and label arrays are built in the
    order train, test, valid. The training split computes the
    normalisation; test and valid reuse it. The arrays and the
    normalisation are what the command persists.
 */
module Preparation {
  import opened Failures
  import opened Manifest
  import opened Labels
  import opened Layout
  import opened Normalisation

  /** The contents of the files `run` writes: one image array and one label
      array per split, and the normalisation. */
  datatype Artifacts = Artifacts(
    trainImages: Batch, trainLabels: seq<int>,
    testImages: Batch, testLabels: seq<int>,
    validImages: Batch, validLabels: seq<int>,
    norm: Normalization)

  /** The pipeline; the first failing step ends it. */
  function Prepare(
    d: Dims, resolve: string -> string, open: string -> Option<Image>,
    stat: Batch -> Normalization, apply: (Normalization, real) -> real,
    rows: seq<Row>): (r: Result<Artifacts>)
    ensures IndexObservations(resolve, rows).Err? ==> r == Err(IndexObservations(resolve, rows).error)
    ensures r.Ok? ==> IndexObservations(resolve, rows).Ok? && |IndexObservations(resolve, rows).value.train| > 0
  {
    var obs :- IndexObservations(resolve, rows);
    var labelMap := BuildLabelIndex(obs.train);
    var train :- BuildObservationArray(d, open, obs.train, None, stat, apply);
    var trainLabels :- BuildLabelArray(obs.train, labelMap);
    var test :- BuildObservationArray(d, open, obs.test, Some(train.norm), stat, apply);
    var testLabels :- BuildLabelArray(obs.test, labelMap);
    var valid :- BuildObservationArray(d, open, obs.valid, Some(train.norm), stat, apply);
    var validLabels :- BuildLabelArray(obs.valid, labelMap);
    Ok(Artifacts(train.images, trainLabels, test.images, testLabels, valid.images, validLabels, train.norm))
  }

  /** The steps of a successful run, named. */
  lemma PrepareSteps(
    d: Dims, resolve: string -> string, open: string -> Option<Image>,
    stat: Batch -> Normalization, apply: (Normalization, real) -> real,
    rows: seq<Row>)
    requires Prepare(d, resolve, open, stat, apply, rows).Ok?
    ensures IndexObservations(resolve, rows).Ok?
    ensures
      var obs := IndexObservations(resolve, rows).value;
      var m := BuildLabelIndex(obs.train);
      var train := BuildObservationArray(d, open, obs.train, None, stat, apply);
      && train.Ok?
      && var test := BuildObservationArray(d, open, obs.test, Some(train.value.norm), stat, apply);
      && var valid := BuildObservationArray(d, open, obs.valid, Some(train.value.norm), stat, apply);
      && test.Ok? && valid.Ok?
      && BuildLabelArray(obs.train, m).Ok? && BuildLabelArray(obs.test, m).Ok? && BuildLabelArray(obs.valid, m).Ok?
      && Prepare(d, resolve, open, stat, apply, rows).value
         == Artifacts(train.value.images, BuildLabelArray(obs.train, m).value,
                      test.value.images, BuildLabelArray(obs.test, m).value,
                      valid.value.images, BuildLabelArray(obs.valid, m).value,
                      train.value.norm)
  {
  }

  /** A manifest that fails to index ends the pipeline with the indexing
      error, before any array is built. */
  lemma PrepareStopsOnBadManifest(
    d: Dims, resolve: string -> string, open: string -> Option<Image>,
    stat: Batch -> Normalization, apply: (Normalization, real) -> real,
    rows: seq<Row>, k: nat)
    requires k < |rows| && !Recognised(rows[k])
    requires forall i :: 0 <= i < k ==> Recognised(rows[i])
    ensures Prepare(d, resolve, open, stat, apply, rows) == Err(RowError(rows[k]))
  {
    IndexFailsAtFirstBadRow(resolve, rows, k);
  }

  /** The normalisation is computed once, from the training split's own
      filled array, and that same value is applied to every cell of all
      three splits and is the value persisted. */
  lemma PrepareNormalisesWithTrainStatistics(
    d: Dims, resolve: string -> string, open: string -> Option<Image>,
    stat: Batch -> Normalization, apply: (Normalization, real) -> real,
    rows: seq<Row>)
    requires Prepare(d, resolve, open, stat, apply, rows).Ok?
    ensures IndexObservations(resolve, rows).Ok?
    ensures
      var obs := IndexObservations(resolve, rows).value;
      var a := Prepare(d, resolve, open, stat, apply, rows).value;
      && a.norm == stat(FillAll(d, open, obs.train).value)
      && Holds(d, open, obs.train, apply, Built(a.trainImages, a.norm))
      && Holds(d, open, obs.test, apply, Built(a.testImages, a.norm))
      && Holds(d, open, obs.valid, apply, Built(a.validImages, a.norm))
  {
    PrepareSteps(d, resolve, open, stat, apply, rows);
  }

  /** Every split is encoded with the map built from the training split,
      one id per observation in observation order; hence every test and
      valid label also occurs in the training split. */
  lemma PrepareEncodesWithTrainLabelMap(
    d: Dims, resolve: string -> string, open: string -> Option<Image>,
    stat: Batch -> Normalization, apply: (Normalization, real) -> real,
    rows: seq<Row>)
    requires Prepare(d, resolve, open, stat, apply, rows).Ok?
    ensures IndexObservations(resolve, rows).Ok?
    ensures
      var obs := IndexObservations(resolve, rows).value;
      var a := Prepare(d, resolve, open, stat, apply, rows).value;
      var m := BuildLabelIndex(obs.train);
      && |a.trainLabels| == |a.trainImages| == |obs.train|
      && |a.testLabels| == |a.testImages| == |obs.test|
      && |a.validLabels| == |a.validImages| == |obs.valid|
      && (forall i :: 0 <= i < |obs.train| ==> a.trainLabels[i] == m[obs.train[i].labels])
      && (forall i :: 0 <= i < |obs.test| ==> obs.test[i].labels in LabelSet(obs.train) && a.testLabels[i] == m[obs.test[i].labels])
      && (forall i :: 0 <= i < |obs.valid| ==> obs.valid[i].labels in LabelSet(obs.train) && a.validLabels[i] == m[obs.valid[i].labels])
  {
    PrepareSteps(d, resolve, open, stat, apply, rows);
  }

  /** Every manifest row ends up as exactly one observation of the
      persisted arrays. */
  lemma PrepareKeepsEveryRow(
    d: Dims, resolve: string -> string, open: string -> Option<Image>,
    stat: Batch -> Normalization, apply: (Normalization, real) -> real,
    rows: seq<Row>)
    requires Prepare(d, resolve, open, stat, apply, rows).Ok?
    ensures
      var a := Prepare(d, resolve, open, stat, apply, rows).value;
      |a.trainImages| + |a.testImages| + |a.validImages| == |rows|
  {
    PrepareSteps(d, resolve, open, stat, apply, rows);
  }

  /** A successful run has seen every test and valid label in the
      training split. */
  lemma SeenInTrainIfPrepared(
    d: Dims, resolve: string -> string, open: string -> Option<Image>,
    stat: Batch -> Normalization, apply: (Normalization, real) -> real,
    rows: seq<Row>, e: IndexEntry)
    requires IndexObservations(resolve, rows).Ok?
    requires e in IndexObservations(resolve, rows).value.test || e in IndexObservations(resolve, rows).value.valid
    ensures Prepare(d, resolve, open, stat, apply, rows).Ok? ==> e.labels in LabelSet(IndexObservations(resolve, rows).value.train)
  {
    if Prepare(d, resolve, open, stat, apply, rows).Ok? {
      PrepareEncodesWithTrainLabelMap(d, resolve, open, stat, apply, rows);
    }
  }

  /** A test or valid label that the training split lacks makes the
      pipeline fail (the `unwrap` on the label lookup). */
  lemma PrepareRejectsUnseenLabel(
    d: Dims, resolve: string -> string, open: string -> Option<Image>,
    stat: Batch -> Normalization, apply: (Normalization, real) -> real,
    rows: seq<Row>, k: nat)
    requires IndexObservations(resolve, rows).Ok?
    requires k < |rows| && rows[k].Parsed? && rows[k].entry.dataSet != "train"
    requires forall i :: 0 <= i < |rows| && rows[i].Parsed? && rows[i].entry.dataSet == "train" ==>
      rows[i].entry.labels != rows[k].entry.labels
    ensures Prepare(d, resolve, open, stat, apply, rows).Err?
  {
    var obs := IndexObservations(resolve, rows).value;
    IndexSucceedsIff(resolve, rows);
    IndexRoutesByToken(resolve, rows);
    var e := Resolve(resolve, rows[k].entry);
    assert e in obs.test || e in obs.valid;
    IndexMatchesSelect(resolve, rows);
    forall j | 0 <= j < |obs.train| ensures obs.train[j].labels != e.labels {
      SelectMembers(resolve, rows, "train", obs.train[j]);
    }
    SeenInTrainIfPrepared(d, resolve, open, stat, apply, rows, e);
  }

  /** A manifest that indexes but has no training row gives the statistic
      nothing to average, so the pipeline fails there, before any label
      array is built. */
  lemma PrepareNeedsTrainingRow(
    d: Dims, resolve: string -> string, open: string -> Option<Image>,
    stat: Batch -> Normalization, apply: (Normalization, real) -> real,
    rows: seq<Row>)
    requires IndexObservations(resolve, rows).Ok?
    requires forall i :: 0 <= i < |rows| ==> !(rows[i].Parsed? && rows[i].entry.dataSet == "train")
    ensures Prepare(d, resolve, open, stat, apply, rows) == Err(EmptyStatistic)
  {
    var obs := IndexObservations(resolve, rows).value;
    IndexMatchesSelect(resolve, rows);
    if |obs.train| > 0 {
      SelectMembers(resolve, rows, "train", obs.train[0]);
      assert false;
    }
  }

  /** A manifest with a header and no data rows is an instance. */
  lemma PrepareRejectsEmptyManifest(
    d: Dims, resolve: string -> string, open: string -> Option<Image>,
    stat: Batch -> Normalization, apply: (Normalization, real) -> real)
    ensures Prepare(d, resolve, open, stat, apply, []) == Err(EmptyStatistic)
  {
    PrepareNeedsTrainingRow(d, resolve, open, stat, apply, []);
  }
}
