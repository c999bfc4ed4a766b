/** The manifest indexer: `index_observations` in src/prepare.rs.

    The CSV reader yields one row per manifest line; a row either
    deserialises into an `IndexEntry` or is an error. Each entry's file
    path is rewritten by joining it onto the data directory, and the entry
    is then routed by its `data set` token into one of three ordered lists.
 */
module Manifest {
  import opened Failures

  /** One manifest row: the four named CSV columns. */
  datatype IndexEntry = IndexEntry(classId: string, filepaths: string, labels: string, dataSet: string)

  /** What the CSV reader hands the indexer for one line. */
  datatype Row = Parsed(entry: IndexEntry) | Unparsable

  /** The three splits, each in manifest order. */
  datatype Observations = Observations(train: seq<IndexEntry>, test: seq<IndexEntry>, valid: seq<IndexEntry>)

  predicate IsSplitToken(token: string) {
    token == "train" || token == "test" || token == "valid"
  }

  /** A row the indexer accepts. */
  predicate Recognised(row: Row) {
    row.Parsed? && IsSplitToken(row.entry.dataSet)
  }

  /** The error an unaccepted row produces. */
  function RowError(row: Row): Error
    requires !Recognised(row)
  {
    match row
    case Unparsable => MalformedRecord
    case Parsed(e) => UnknownDataSet(e.dataSet)
  }

  /** The entry with its path joined onto the data directory; `resolve`
      stands for `data.join(p).to_str()`. */
  function Resolve(resolve: string -> string, e: IndexEntry): IndexEntry {
    e.(filepaths := resolve(e.filepaths))
  }

  /** The list of `obs` that a recognised token selects. */
  function Split(obs: Observations, token: string): seq<IndexEntry> {
    if token == "train" then obs.train
    else if token == "test" then obs.test
    else obs.valid
  }

  /** `after` is `before` with `e` pushed onto the `token` list and the
      other lists untouched. */
  ghost predicate Appended(before: Observations, after: Observations, token: string, e: IndexEntry) {
    forall t :: IsSplitToken(t) ==> Split(after, t) == Split(before, t) + (if t == token then [e] else [])
  }

  /** One iteration of the indexing loop. */
  function Route(resolve: string -> string, obs: Observations, row: Row): (r: Result<Observations>)
    ensures r.Ok? <==> Recognised(row)
    ensures r.Err? ==> r.error == RowError(row)
  {
    match row
    case Unparsable => Err(MalformedRecord)
    case Parsed(e) =>
      var e' := Resolve(resolve, e);
      if e.dataSet == "train" then Ok(obs.(train := obs.train + [e']))
      else if e.dataSet == "test" then Ok(obs.(test := obs.test + [e']))
      else if e.dataSet == "valid" then Ok(obs.(valid := obs.valid + [e']))
      else Err(UnknownDataSet(e.dataSet))
  }

  /** An accepted row is pushed onto the list of its own token, resolved,
      and the other two lists are left as they were. */
  lemma RouteAppends(resolve: string -> string, obs: Observations, row: Row)
    requires Recognised(row)
    ensures Route(resolve, obs, row).Ok?
    ensures Appended(obs, Route(resolve, obs, row).value, row.entry.dataSet, Resolve(resolve, row.entry))
  {
  }

  /** The indexing loop: rows are consumed in manifest order and the first
      bad row ends the call. */
  function IndexObservations(resolve: string -> string, rows: seq<Row>): (r: Result<Observations>)
    ensures r.Ok? ==> |r.value.train| + |r.value.test| + |r.value.valid| == |rows|
    decreases |rows|
  {
    if |rows| == 0 then Ok(Observations([], [], []))
    else
      var obs :- IndexObservations(resolve, rows[..|rows| - 1]);
      Route(resolve, obs, rows[|rows| - 1])
  }

  /** Reference definition of a split: the resolved entries of the rows
      carrying `token`, in manifest order. */
  function Select(resolve: string -> string, rows: seq<Row>, token: string): seq<IndexEntry>
    decreases |rows|
  {
    if |rows| == 0 then []
    else
      (if rows[0].Parsed? && rows[0].entry.dataSet == token then [Resolve(resolve, rows[0].entry)] else [])
      + Select(resolve, rows[1..], token)
  }

  lemma {:induction false} SelectSnoc(resolve: string -> string, rows: seq<Row>, row: Row, token: string)
    ensures Select(resolve, rows + [row], token)
         == Select(resolve, rows, token)
            + (if row.Parsed? && row.entry.dataSet == token then [Resolve(resolve, row.entry)] else [])
    decreases |rows|
  {
    if |rows| > 0 {
      assert (rows + [row])[1..] == rows[1..] + [row];
      SelectSnoc(resolve, rows[1..], row, token);
    }
  }

  /** Indexing succeeds exactly when every row deserialises and carries
      one of the three tokens. */
  lemma {:induction false} IndexSucceedsIff(resolve: string -> string, rows: seq<Row>)
    ensures IndexObservations(resolve, rows).Ok? <==> forall i :: 0 <= i < |rows| ==> Recognised(rows[i])
    decreases |rows|
  {
    if |rows| > 0 {
      var prefix := rows[..|rows| - 1];
      var last := rows[|rows| - 1];
      var before := IndexObservations(resolve, prefix);
      IndexSucceedsIff(resolve, prefix);
      assert IndexObservations(resolve, rows).Ok? <==> before.Ok? && Route(resolve, before.value, last).Ok?;
      if (forall i :: 0 <= i < |prefix| ==> Recognised(prefix[i])) && Recognised(last) {
        forall i | 0 <= i < |rows| ensures Recognised(rows[i]) {
          if i < |prefix| {
            assert rows[i] == prefix[i];
          }
        }
      }
      if forall i :: 0 <= i < |rows| ==> Recognised(rows[i]) {
        forall i | 0 <= i < |prefix| ensures Recognised(prefix[i]) {
          assert prefix[i] == rows[i];
        }
      }
    }
  }

  /** The first unaccepted row decides the error, and no `Observations`
      is produced. */
  lemma {:induction false} IndexFailsAtFirstBadRow(resolve: string -> string, rows: seq<Row>, k: nat)
    requires k < |rows| && !Recognised(rows[k])
    requires forall i :: 0 <= i < k ==> Recognised(rows[i])
    ensures IndexObservations(resolve, rows) == Err(RowError(rows[k]))
    decreases |rows|
  {
    var prefix := rows[..|rows| - 1];
    if k == |rows| - 1 {
      IndexSucceedsIff(resolve, prefix);
      assert forall i :: 0 <= i < |prefix| ==> prefix[i] == rows[i];
    } else {
      IndexFailsAtFirstBadRow(resolve, prefix, k);
    }
  }

  /** On success each list is exactly the reference selection of its token. */
  lemma {:induction false} IndexMatchesSelect(resolve: string -> string, rows: seq<Row>)
    requires IndexObservations(resolve, rows).Ok?
    ensures IndexObservations(resolve, rows).value
         == Observations(Select(resolve, rows, "train"), Select(resolve, rows, "test"), Select(resolve, rows, "valid"))
    decreases |rows|
  {
    if |rows| > 0 {
      var prefix := rows[..|rows| - 1];
      var last := rows[|rows| - 1];
      assert rows == prefix + [last];
      IndexMatchesSelect(resolve, prefix);
      SelectSnoc(resolve, prefix, last, "train");
      SelectSnoc(resolve, prefix, last, "test");
      SelectSnoc(resolve, prefix, last, "valid");
    }
  }

  /** What a selection holds: an entry is in the `token` list exactly when
      some row carrying `token` has the same class id, label and token and
      the entry's path is that row's path joined onto the data directory. */
  lemma {:induction false} SelectMembers(resolve: string -> string, rows: seq<Row>, token: string, x: IndexEntry)
    ensures x in Select(resolve, rows, token) <==>
      exists i :: 0 <= i < |rows| && rows[i].Parsed? && rows[i].entry.dataSet == token
        && x.classId == rows[i].entry.classId && x.labels == rows[i].entry.labels
        && x.dataSet == token && x.filepaths == resolve(rows[i].entry.filepaths)
    decreases |rows|
  {
    if |rows| > 0 {
      SelectMembers(resolve, rows[1..], token, x);
      forall i | 1 <= i < |rows| ensures rows[i] == rows[1..][i - 1] { }
    }
  }

  /** On success, a row's resolved entry lands in the list of its own
      token, and every entry of a list carries that list's token. */
  lemma IndexRoutesByToken(resolve: string -> string, rows: seq<Row>)
    requires IndexObservations(resolve, rows).Ok?
    ensures forall i :: 0 <= i < |rows| ==>
      rows[i].Parsed? && Resolve(resolve, rows[i].entry) in Split(IndexObservations(resolve, rows).value, rows[i].entry.dataSet)
    ensures forall token, j :: IsSplitToken(token) && 0 <= j < |Split(IndexObservations(resolve, rows).value, token)| ==>
      Split(IndexObservations(resolve, rows).value, token)[j].dataSet == token
  {
    IndexSucceedsIff(resolve, rows);
    IndexMatchesSelect(resolve, rows);
    var obs := IndexObservations(resolve, rows).value;
    forall i | 0 <= i < |rows|
      ensures rows[i].Parsed? && Resolve(resolve, rows[i].entry) in Split(obs, rows[i].entry.dataSet)
    {
      SelectMembers(resolve, rows, rows[i].entry.dataSet, Resolve(resolve, rows[i].entry));
    }
    forall token, j | IsSplitToken(token) && 0 <= j < |Split(obs, token)|
      ensures Split(obs, token)[j].dataSet == token
    {
      SelectMembers(resolve, rows, token, Split(obs, token)[j]);
    }
  }
}
