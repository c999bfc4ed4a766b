/** The label encoding: `build_label_index` and `build_label_array` in
    src/prepare.rs.

    The distinct labels of the given entries are collected into a
    `BTreeSet`, iterated in ascending order and numbered from 0; the
    resulting `BTreeMap` is the label map. A split is then encoded by
    looking up every entry's label, where a missing label is an `unwrap`
    failure.
 */
module Labels {
  import opened Failures
  import opened Manifest
  import Lex = Lexicographic

  /** The label map: label string to dense id. */
  type LabelMap = map<string, nat>

  predicate StrictlySorted(s: seq<string>) {
    forall i, j :: 0 <= i < j < |s| ==> Lex.Less(s[i], s[j])
  }

  /** The distinct labels of `entries`. */
  function LabelSet(entries: seq<IndexEntry>): set<string> {
    set i | 0 <= i < |entries| :: entries[i].labels
  }

  predicate IsLeast(k: string, s: set<string>) {
    k in s && forall j :: j in s && j != k ==> Lex.Less(k, j)
  }

  lemma {:induction false} LeastExists(s: set<string>)
    requires s != {}
    ensures exists k :: IsLeast(k, s)
    decreases |s|
  {
    var x :| x in s;
    if s - {x} == {} {
      assert forall j :: j in s && j != x ==> j in s - {x};
      assert IsLeast(x, s);
    } else {
      LeastExists(s - {x});
      var k :| IsLeast(k, s - {x});
      Lex.StrictTotalOrder();
      if Lex.Less(x, k) {
        assert IsLeast(x, s);
      } else {
        assert IsLeast(k, s);
      }
    }
  }

  /** The first element a `BTreeSet` of `s` yields. */
  function Least(s: set<string>): (k: string)
    requires s != {}
    ensures IsLeast(k, s)
  {
    LeastExists(s);
    Lex.StrictTotalOrder();
    var k :| IsLeast(k, s);
    k
  }

  /** The elements of `s` in the order a `BTreeSet` iterates them. */
  function SortSet(s: set<string>): (r: seq<string>)
    ensures StrictlySorted(r)
    ensures |r| == |s|
    ensures forall x :: x in s <==> x in r
    decreases |s|
  {
    if s == {} then []
    else
      var k := Least(s);
      var rest := SortSet(s - {k});
      assert forall i :: 0 <= i < |rest| ==> rest[i] in s - {k};
      [k] + rest
  }

  predicate Distinct(s: seq<string>) {
    forall i, j :: 0 <= i < |s| && 0 <= j < |s| && i != j ==> s[i] != s[j]
  }

  lemma StrictlySortedDistinct(s: seq<string>)
    requires StrictlySorted(s)
    ensures Distinct(s)
  {
    forall i, j | 0 <= i < |s| && 0 <= j < |s| && i != j
      ensures s[i] != s[j]
    {
      if i < j {
        Lex.Irreflexive(s[i]);
      } else {
        Lex.Irreflexive(s[j]);
      }
    }
  }

  /** `.enumerate()` collected into a map: each element keyed to its position. */
  function Enumerate(s: seq<string>): (m: LabelMap)
    requires Distinct(s)
    ensures forall x :: x in m <==> x in s
    ensures forall i :: 0 <= i < |s| ==> m[s[i]] == i
    ensures forall v :: v in m.Values <==> 0 <= v < |s|
  {
    var m := map i | 0 <= i < |s| :: s[i] := i;
    forall v | v in m.Values ensures 0 <= v < |s| {
      var k :| k in m && m[k] == v;
      var j :| 0 <= j < |s| && s[j] == k;
    }
    forall v | 0 <= v < |s| ensures v in m.Values {
      assert m[s[v]] == v;
    }
    m
  }

  /** `build_label_index`: number the distinct labels densely from 0 in
      ascending lexicographic order. */
  function BuildLabelIndex(entries: seq<IndexEntry>): (m: LabelMap)
    ensures m.Keys == LabelSet(entries)
    ensures forall v :: v in m.Values <==> 0 <= v < |LabelSet(entries)|
  {
    var labels := LabelSet(entries);
    var sorted := SortSet(labels);
    StrictlySortedDistinct(sorted);
    var m := Enumerate(sorted);
    assert m.Keys == labels by {
      forall x ensures x in m <==> x in labels {
        assert x in m <==> x in sorted;
      }
    }
    m
  }

  /** The label sorted at position `i` has id `i`. */
  lemma LabelIndexPositions(entries: seq<IndexEntry>)
    ensures forall i :: 0 <= i < |SortSet(LabelSet(entries))| ==>
      BuildLabelIndex(entries)[SortSet(LabelSet(entries))[i]] == i
  {
    var sorted := SortSet(LabelSet(entries));
    StrictlySortedDistinct(sorted);
  }

  /** Where a label of the map sits in the sorted label listing. */
  lemma PositionOf(entries: seq<IndexEntry>, l: string) returns (i: nat)
    requires l in BuildLabelIndex(entries)
    ensures i < |SortSet(LabelSet(entries))| && SortSet(LabelSet(entries))[i] == l
    ensures BuildLabelIndex(entries)[l] == i
  {
    var sorted := SortSet(LabelSet(entries));
    LabelIndexPositions(entries);
    i :| 0 <= i < |sorted| && sorted[i] == l;
  }

  /** Ids follow the lexicographic order of the labels, strictly. */
  lemma LabelIndexOrderPreserving(entries: seq<IndexEntry>, a: string, b: string)
    requires a in BuildLabelIndex(entries) && b in BuildLabelIndex(entries)
    ensures Lex.Less(a, b) <==> BuildLabelIndex(entries)[a] < BuildLabelIndex(entries)[b]
  {
    var sorted := SortSet(LabelSet(entries));
    var i := PositionOf(entries, a);
    var j := PositionOf(entries, b);
    if Lex.Less(a, b) {
      if j == i {
        Lex.Irreflexive(a);
      } else if j < i {
        Lex.Asymmetric(a, b);
      }
    }
  }

  /** Distinct labels get distinct ids. */
  lemma LabelIndexInjective(entries: seq<IndexEntry>, a: string, b: string)
    requires a in BuildLabelIndex(entries) && b in BuildLabelIndex(entries) && a != b
    ensures BuildLabelIndex(entries)[a] != BuildLabelIndex(entries)[b]
  {
    Lex.Connected(a, b);
    LabelIndexOrderPreserving(entries, a, b);
    LabelIndexOrderPreserving(entries, b, a);
  }

  /** Among distinct elements, the prefix of length `i` has `i` of them. */
  lemma {:induction false} PrefixCardinality(s: seq<string>, i: nat)
    requires i <= |s|
    requires Distinct(s)
    ensures |set j | 0 <= j < i :: s[j]| == i
    decreases i
  {
    if i > 0 {
      PrefixCardinality(s, i - 1);
      var smaller := set j | 0 <= j < i - 1 :: s[j];
      assert (set j | 0 <= j < i :: s[j]) == smaller + {s[i - 1]};
      assert s[i - 1] !in smaller;
    }
  }

  /** Independent characterisation: a label's id is the number of distinct
      labels that sort before it. The map therefore depends only on the
      set of labels, not on entry order or repetition. */
  lemma LabelIdIsRank(entries: seq<IndexEntry>, l: string)
    requires l in BuildLabelIndex(entries)
    ensures BuildLabelIndex(entries)[l] == |SortsBefore(LabelSet(entries), l)|
  {
    var sorted := SortSet(LabelSet(entries));
    var i := PositionOf(entries, l);
    SortedRank(LabelSet(entries), sorted, i);
  }

  /** The members of `labels` that sort before `l`. */
  function SortsBefore(labels: set<string>, l: string): set<string> {
    set x | x in labels && Lex.Less(x, l)
  }

  /** In a strictly sorted listing of a set, exactly `i` members sort
      before the one at position `i`. */
  lemma SortedRank(labels: set<string>, s: seq<string>, i: nat)
    requires StrictlySorted(s) && i < |s|
    requires forall x :: x in labels <==> x in s
    ensures |SortsBefore(labels, s[i])| == i
  {
    StrictlySortedDistinct(s);
    var before := SortsBefore(labels, s[i]);
    var prefix := set j | 0 <= j < i :: s[j];
    forall x | x in before ensures x in prefix {
      var p :| 0 <= p < |s| && s[p] == x;
      if p == i {
        Lex.Irreflexive(x);
      } else if p > i {
        Lex.Asymmetric(x, s[i]);
      }
    }
    forall x | x in prefix ensures x in before {
      var p :| 0 <= p < i && s[p] == x;
    }
    assert before == prefix;
    PrefixCardinality(s, i);
  }

  /** Entry `k` is the first whose label has no id. */
  predicate FirstMissing(entries: seq<IndexEntry>, m: LabelMap, k: int) {
    0 <= k < |entries| && entries[k].labels !in m && forall i :: 0 <= i < k ==> entries[i].labels in m
  }

  /** `build_label_array`: one id per entry, in entry order; the first
      entry whose label has no id ends the call. */
  function BuildLabelArray(entries: seq<IndexEntry>, m: LabelMap): (r: Result<seq<int>>)
    ensures r.Ok? <==> forall i :: 0 <= i < |entries| ==> entries[i].labels in m
    ensures r.Ok? ==> |r.value| == |entries|
    ensures r.Ok? ==> forall i :: 0 <= i < |entries| ==> r.value[i] == m[entries[i].labels]
    ensures r.Err? ==> exists k :: FirstMissing(entries, m, k) && r.error == LabelMissing(entries[k].labels)
    decreases |entries|
  {
    if |entries| == 0 then Ok([])
    else if entries[0].labels !in m then Err(LabelMissing(entries[0].labels))
    else
      var rest :- BuildLabelArray(entries[1..], m);
      Ok([m[entries[0].labels] as int] + rest)
  }

  /** A split encodes against the map built from `train` exactly when
      each of its labels also occurs in `train`. */
  lemma EncodableIffSeenInTrain(train: seq<IndexEntry>, split: seq<IndexEntry>)
    ensures BuildLabelArray(split, BuildLabelIndex(train)).Ok?
        <==> forall i :: 0 <= i < |split| ==> exists j :: 0 <= j < |train| && train[j].labels == split[i].labels
  {
  }

  /** The encoded array holds only valid ids. */
  lemma LabelArrayInRange(train: seq<IndexEntry>, split: seq<IndexEntry>)
    requires BuildLabelArray(split, BuildLabelIndex(train)).Ok?
    ensures forall i :: 0 <= i < |split| ==>
      0 <= BuildLabelArray(split, BuildLabelIndex(train)).value[i] < |LabelSet(train)|
  {
    var m := BuildLabelIndex(train);
    forall i | 0 <= i < |split|
      ensures 0 <= BuildLabelArray(split, m).value[i] < |LabelSet(train)|
    {
      assert m[split[i].labels] in m.Values;
    }
  }

  /** Two distinct labels are numbered 0 and 1 in lexicographic order. */
  lemma TwoLabelMap(entries: seq<IndexEntry>, a: string, b: string)
    requires LabelSet(entries) == {a, b} && Lex.Less(a, b)
    ensures BuildLabelIndex(entries) == map[a := 0, b := 1]
  {
    var m := BuildLabelIndex(entries);
    LesserOfTwoIsZero(entries, a, b);
    GreaterOfTwoIsOne(entries, a, b);
    assert m.Keys == {a, b};
  }

  lemma LesserOfTwoIsZero(entries: seq<IndexEntry>, a: string, b: string)
    requires LabelSet(entries) == {a, b} && Lex.Less(a, b)
    ensures BuildLabelIndex(entries)[a] == 0
  {
    var labels := LabelSet(entries);
    assert SortsBefore(labels, a) == {} by {
      Lex.Irreflexive(a);
      Lex.Asymmetric(a, b);
      assert forall x :: x in labels <==> x == a || x == b;
    }
    LabelIdIsRank(entries, a);
  }

  lemma GreaterOfTwoIsOne(entries: seq<IndexEntry>, a: string, b: string)
    requires LabelSet(entries) == {a, b} && Lex.Less(a, b)
    ensures BuildLabelIndex(entries)[b] == 1
  {
    var labels := LabelSet(entries);
    assert SortsBefore(labels, b) == {a} by {
      Lex.Irreflexive(b);
      assert forall x :: x in labels <==> x == a || x == b;
    }
    LabelIdIsRank(entries, b);
  }

  /** Any three training rows labelled "a", "a", "b" and any test row
      labelled "a": the map is {"a": 0, "b": 1}, the training labels encode
      as [0, 0, 1] and the test label as [0]. */
  lemma SmallManifestEncoding(train: seq<IndexEntry>, test: seq<IndexEntry>)
    requires |train| == 3 && train[0].labels == "a" && train[1].labels == "a" && train[2].labels == "b"
    requires |test| == 1 && test[0].labels == "a"
    ensures BuildLabelIndex(train) == map["a" := 0, "b" := 1]
    ensures BuildLabelArray(train, BuildLabelIndex(train)) == Ok([0, 0, 1])
    ensures BuildLabelArray(test, BuildLabelIndex(train)) == Ok([0])
  {
    assert LabelSet(train) == {"a", "b"};
    assert Lex.Less("a", "b");
    TwoLabelMap(train, "a", "b");
    EncodeSmall(train, test);
  }

  lemma EncodeSmall(train: seq<IndexEntry>, test: seq<IndexEntry>)
    requires |train| == 3 && train[0].labels == "a" && train[1].labels == "a" && train[2].labels == "b"
    requires |test| == 1 && test[0].labels == "a"
    ensures BuildLabelArray(train, map["a" := 0, "b" := 1]) == Ok([0, 0, 1])
    ensures BuildLabelArray(test, map["a" := 0, "b" := 1]) == Ok([0])
  {
    var m: LabelMap := map["a" := 0, "b" := 1];
    assert BuildLabelArray(train, m).value == [0, 0, 1];
    assert BuildLabelArray(test, m).value == [0];
  }
}
