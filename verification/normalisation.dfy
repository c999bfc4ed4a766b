/** `build_observation_array` in src/prepare.rs: fill one block per entry,
    choose the normalisation, apply it to every cell.

    The statistic (`Normalization::new`, a mean and a population standard
    deviation over all cells) and the per-cell transform
    (`Normalization::norm`, `(v - mean) / sd` in f32) are parameters of the
    model: `stat` and `apply`. Image decoding is the parameter `open`.
 */
module Normalisation {
  import opened Failures
  import opened Manifest
  import opened Layout

  /** The scalar pair persisted as JSON by preparation and read by inference. */
  datatype Normalization = Normalization(mean: real, sd: real)

  /** An array of observations, indexed `[observation][channel][row][column]`. */
  type Batch = seq<Slice>

  /** The normalised batch and the normalisation that was applied to it. */
  datatype Built = Built(images: Batch, norm: Normalization)

  /** Decode one image and fill its block: an unreadable image and an
      image too large for the block are told apart. */
  function LoadSlice(d: Dims, open: string -> Option<Image>, path: string): (r: Result<Slice>)
    ensures r.Ok? <==> open(path).Some? && Fits(d, open(path).value)
    ensures open(path).None? ==> r == Err(ImageUnreadable(path))
    ensures open(path).Some? && !Fits(d, open(path).value) ==> r == Err(ImageOutOfBounds(path))
    ensures r.Ok? ==> Shaped(d, r.value)
  {
    match open(path)
    case None => Err(ImageUnreadable(path))
    case Some(img) => Fill(d, path, img)
  }

  predicate Loads(d: Dims, open: string -> Option<Image>, path: string) {
    LoadSlice(d, open, path).Ok?
  }

  /** Fill the blocks of all entries. The program runs the entries on a
      worker pool, each writing its own block, and stops at some failing
      entry; the model fills them in order and promises only that the
      error comes from a failing entry. */
  function FillAll(d: Dims, open: string -> Option<Image>, entries: seq<IndexEntry>): (r: Result<Batch>)
    ensures r.Ok? <==> forall i :: 0 <= i < |entries| ==> Loads(d, open, entries[i].filepaths)
    ensures r.Ok? ==> |r.value| == |entries|
    ensures r.Ok? ==> forall i :: 0 <= i < |entries| ==> r.value[i] == LoadSlice(d, open, entries[i].filepaths).value
    ensures r.Err? ==> exists i :: 0 <= i < |entries| && LoadSlice(d, open, entries[i].filepaths) == Err(r.error)
    decreases |entries|
  {
    if |entries| == 0 then Ok([])
    else
      var first :- LoadSlice(d, open, entries[0].filepaths);
      var rest :- FillAll(d, open, entries[1..]);
      Ok([first] + rest)
  }

  /** `par_mapv_inplace(|v| norm.norm(v))` on one block. */
  function NormaliseSlice(apply: (Normalization, real) -> real, n: Normalization, v: Slice): (w: Slice)
    ensures |w| == |v|
    ensures forall c :: 0 <= c < |v| ==> |w[c]| == |v[c]|
    ensures forall c, y :: 0 <= c < |v| && 0 <= y < |v[c]| ==> |w[c][y]| == |v[c][y]|
    ensures forall c, y, x :: 0 <= c < |v| && 0 <= y < |v[c]| && 0 <= x < |v[c][y]| ==>
      w[c][y][x] == apply(n, v[c][y][x])
  {
    seq(|v|, c requires 0 <= c < |v| =>
      seq(|v[c]|, y requires 0 <= y < |v[c]| =>
        seq(|v[c][y]|, x requires 0 <= x < |v[c][y]| => apply(n, v[c][y][x]))))
  }

  /** `par_mapv_inplace(|v| norm.norm(v))` on a whole batch. */
  function NormaliseBatch(apply: (Normalization, real) -> real, n: Normalization, b: Batch): (w: Batch)
    ensures |w| == |b|
    ensures forall i :: 0 <= i < |b| ==> w[i] == NormaliseSlice(apply, n, b[i])
  {
    seq(|b|, i requires 0 <= i < |b| => NormaliseSlice(apply, n, b[i]))
  }

  /** The normalisation a split uses: the one supplied, or else the
      statistic of this split's own filled array. The statistic unwraps the
      array's mean, which an array without observations does not have. */
  function SelectNorm(supplied: Option<Normalization>, stat: Batch -> Normalization, raw: Batch): (r: Result<Normalization>)
    ensures r.Ok? <==> supplied.Some? || |raw| > 0
    ensures r.Err? ==> r.error == EmptyStatistic
    ensures supplied.Some? ==> r == Ok(supplied.value)
    ensures supplied.None? && |raw| > 0 ==> r == Ok(stat(raw))
  {
    match supplied
    case Some(n) => Ok(n)
    case None => if |raw| == 0 then Err(EmptyStatistic) else Ok(stat(raw))
  }

  /** `built` has one block per entry, and each cell is the transform, by
      `built.norm`, of what the entry's image puts there. */
  predicate Holds(
    d: Dims, open: string -> Option<Image>, entries: seq<IndexEntry>,
    apply: (Normalization, real) -> real, built: Built)
  {
    && |built.images| == |entries|
    && (forall i :: 0 <= i < |entries| ==> Shaped(d, built.images[i]) && open(entries[i].filepaths).Some?)
    && forall i, c, y, x ::
         0 <= i < |entries| && 0 <= c < d.channels && 0 <= y < d.height && 0 <= x < d.width ==>
           built.images[i][c][y][x] == apply(built.norm, Expected(open(entries[i].filepaths).value, c, y, x))
  }

  /** `build_observation_array` without the file write: the returned
      normalisation is the one applied to every cell. A split with no
      entries has no statistic, so it fails unless a normalisation is
      supplied. */
  function BuildObservationArray(
    d: Dims, open: string -> Option<Image>, entries: seq<IndexEntry>, supplied: Option<Normalization>,
    stat: Batch -> Normalization, apply: (Normalization, real) -> real): (r: Result<Built>)
    ensures r.Ok? <==> (supplied.Some? || |entries| > 0) && forall i :: 0 <= i < |entries| ==> Loads(d, open, entries[i].filepaths)
    ensures r.Err? && supplied.None? && |entries| == 0 ==> r.error == EmptyStatistic
    ensures r.Err? && (supplied.Some? || |entries| > 0) ==>
      exists i :: 0 <= i < |entries| && LoadSlice(d, open, entries[i].filepaths) == Err(r.error)
    ensures r.Ok? && supplied.Some? ==> r.value.norm == supplied.value
    ensures r.Ok? && supplied.None? ==> r.value.norm == stat(FillAll(d, open, entries).value)
    ensures r.Ok? ==> Holds(d, open, entries, apply, r.value)
  {
    var raw :- FillAll(d, open, entries);
    var n :- SelectNorm(supplied, stat, raw);
    Ok(Built(NormaliseBatch(apply, n, raw), n))
  }
}
