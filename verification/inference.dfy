/** `run` in src/inference.rs, without the network.

    The label map read from disk is inverted into an id-to-label map by
    iterating it in ascending label order, so that on a repeated id the
    greatest label wins. Each image given on the command line, in order,
    is filled into a `(1, channels, height, width)` array exactly as
    preparation fills one observation, normalised with the persisted
    normalisation, and passed to the network; the predicted class index is
    looked up in the inverted map.
 */
module Inference {
  import opened Failures
  import opened Manifest
  import opened Labels
  import opened Layout
  import opened Normalisation
  import Lex = Lexicographic

  /** The id-to-label map. */
  type InverseMap = map<nat, string>

  /** The position of the last of `keys` whose id is `v`, or -1 if none is. */
  function LastWith(m: LabelMap, keys: seq<string>, v: nat): (r: int)
    requires forall i :: 0 <= i < |keys| ==> keys[i] in m
    ensures -1 <= r < |keys|
    ensures r >= 0 ==> m[keys[r]] == v
    ensures forall j :: 0 <= j < |keys| && m[keys[j]] == v ==> j <= r
    decreases |keys|
  {
    if |keys| == 0 then -1
    else if m[keys[|keys| - 1]] == v then |keys| - 1
    else LastWith(m, keys[..|keys| - 1], v)
  }

  /** Collect `(m[k], k)` for each `k` of `keys` in turn into a map; a later
      insertion under the same id replaces an earlier one, so each id ends
      up with the last key that carries it. */
  function InsertAll(m: LabelMap, keys: seq<string>): (inv: InverseMap)
    requires forall i :: 0 <= i < |keys| ==> keys[i] in m
    ensures forall v :: v in inv <==> LastWith(m, keys, v) >= 0
    ensures forall v :: v in inv ==> inv[v] == keys[LastWith(m, keys, v)]
    decreases |keys|
  {
    if |keys| == 0 then map[]
    else
      var prefix := keys[..|keys| - 1];
      var k := keys[|keys| - 1];
      var inv := InsertAll(m, prefix);
      assert forall j :: 0 <= j < |prefix| ==> prefix[j] == keys[j];
      inv[m[k] := k]
  }

  /** `int_label_map`: the label map inverted, iterating it in ascending
      label order as a `BTreeMap` does. Its keys are exactly the ids, and
      each id is sent to a label that carries it. */
  function Invert(m: LabelMap): (inv: InverseMap)
    ensures forall v :: v in inv <==> v in m.Values
    ensures forall v :: v in inv ==> inv[v] in m && m[inv[v]] == v
  {
    var keys := SortSet(m.Keys);
    InsertAllKeys(m, keys);
    InsertAllPointsBack(m, keys);
    InsertAll(m, keys)
  }

  /** Inserting every key of `m` yields exactly the ids as keys. */
  lemma InsertAllKeys(m: LabelMap, keys: seq<string>)
    requires forall i :: 0 <= i < |keys| ==> keys[i] in m
    requires forall k :: k in m ==> k in keys
    ensures forall v :: v in InsertAll(m, keys) <==> v in m.Values
  {
    var inv := InsertAll(m, keys);
    forall v | v in m.Values ensures v in inv {
      var k :| k in m && m[k] == v;
      var p :| 0 <= p < |keys| && keys[p] == k;
      assert LastWith(m, keys, v) >= p;
    }
    forall v | v in inv ensures v in m.Values {
      var r := LastWith(m, keys, v);
      assert keys[r] in m;
    }
  }

  /** Each inserted id maps back to a key that carries it. */
  lemma InsertAllPointsBack(m: LabelMap, keys: seq<string>)
    requires forall i :: 0 <= i < |keys| ==> keys[i] in m
    ensures forall v :: v in InsertAll(m, keys) ==> InsertAll(m, keys)[v] in m && m[InsertAll(m, keys)[v]] == v
  {
  }

  /** Inserting keys in strictly ascending order, the greatest key
      carrying an id is the one that id keeps. */
  lemma InsertAllGreatestWins(m: LabelMap, keys: seq<string>, p: nat)
    requires forall i :: 0 <= i < |keys| ==> keys[i] in m
    requires StrictlySorted(keys) && p < |keys|
    ensures m[keys[p]] in InsertAll(m, keys)
    ensures keys[p] == InsertAll(m, keys)[m[keys[p]]] || Lex.Less(keys[p], InsertAll(m, keys)[m[keys[p]]])
  {
    var r := LastWith(m, keys, m[keys[p]]);
    if p < r {
      assert Lex.Less(keys[p], keys[r]);
    }
  }

  /** On a repeated id the label inserted last, the greatest one, wins. */
  lemma InvertGreatestLabelWins(m: LabelMap, k: string)
    requires k in m
    ensures m[k] in Invert(m)
    ensures k == Invert(m)[m[k]] || Lex.Less(k, Invert(m)[m[k]])
  {
    var keys := SortSet(m.Keys);
    var p :| 0 <= p < |keys| && keys[p] == k;
    InsertAllGreatestWins(m, keys, p);
  }

  /** Ids that identify their label. */
  predicate Injective(m: LabelMap) {
    forall a, b :: a in m && b in m && a != b ==> m[a] != m[b]
  }

  /** For an injective map the inversion is exact: it undoes the map and
      has as many entries. */
  lemma InvertInjective(m: LabelMap)
    requires Injective(m)
    ensures forall k :: k in m ==> m[k] in Invert(m) && Invert(m)[m[k]] == k
    ensures |Invert(m)| == |m|
  {
    ExactInverse(m, Invert(m));
  }

  /** Any map with the ids as keys that points each id back to a label
      carrying it undoes an injective `m`. */
  lemma ExactInverse(m: LabelMap, inv: InverseMap)
    requires Injective(m)
    requires forall v :: v in inv <==> v in m.Values
    requires forall v :: v in inv ==> inv[v] in m && m[inv[v]] == v
    ensures forall k :: k in m ==> m[k] in inv && inv[m[k]] == k
    ensures |inv| == |m|
  {
    forall k | k in m ensures m[k] in inv && inv[m[k]] == k {
      assert m[k] in m.Values;
    }
    CardinalityOfValues(m);
    assert inv.Keys == m.Values;
  }

  lemma CardinalityOfValues(m: LabelMap)
    requires Injective(m)
    ensures |m.Values| == |m.Keys|
    decreases |m.Keys|
  {
    if m.Keys != {} {
      var k :| k in m.Keys;
      var rest := m - {k};
      assert rest.Keys == m.Keys - {k};
      CardinalityOfValues(rest);
      assert m.Values == rest.Values + {m[k]} by {
        forall v | v in m.Values ensures v in rest.Values + {m[k]} {
          var l :| l in m && m[l] == v;
          if l != k {
            assert rest[l] == v;
          }
        }
      }
      assert m[k] !in rest.Values by {
        forall v | v in rest.Values ensures v != m[k] {
          var l :| l in rest && rest[l] == v;
        }
      }
    }
  }

  /** For the map preparation builds, the inversion's keys are exactly
      `0 .. n-1`, it has one entry per label, and it round-trips in both
      directions. */
  lemma InvertLabelIndex(entries: seq<IndexEntry>)
    ensures forall v :: v in Invert(BuildLabelIndex(entries)) <==> 0 <= v < |LabelSet(entries)|
    ensures |Invert(BuildLabelIndex(entries))| == |BuildLabelIndex(entries)|
    ensures forall l :: l in BuildLabelIndex(entries) ==>
      BuildLabelIndex(entries)[l] in Invert(BuildLabelIndex(entries))
      && Invert(BuildLabelIndex(entries))[BuildLabelIndex(entries)[l]] == l
    ensures forall v :: v in Invert(BuildLabelIndex(entries)) ==>
      Invert(BuildLabelIndex(entries))[v] in BuildLabelIndex(entries)
      && BuildLabelIndex(entries)[Invert(BuildLabelIndex(entries))[v]] == v
  {
    var m := BuildLabelIndex(entries);
    LabelIndexIsInjective(entries);
    InvertInjective(m);
  }

  lemma LabelIndexIsInjective(entries: seq<IndexEntry>)
    ensures Injective(BuildLabelIndex(entries))
  {
    var m := BuildLabelIndex(entries);
    forall a, b | a in m && b in m && a != b ensures m[a] != m[b] {
      LabelIndexInjective(entries, a, b);
    }
  }

  /** `out as usize` on the network's `i64` class index, for a 64-bit
      `usize`: a non-negative index is kept, a negative one is read as
      its two's-complement bit pattern. */
  function AsUsize(out: int): (r: nat)
    ensures r < 0x1_0000_0000_0000_0000
    ensures 0 <= out < 0x1_0000_0000_0000_0000 ==> r == out
    ensures -0x1_0000_0000_0000_0000 <= out < 0 ==> r == out + 0x1_0000_0000_0000_0000
  {
    out % 0x1_0000_0000_0000_0000
  }

  /** `int_label_map.get(&(out as usize)).unwrap()`. */
  function LookupPrediction(inv: InverseMap, out: int): (r: Result<string>)
    ensures r.Ok? <==> AsUsize(out) in inv
    ensures r.Err? ==> r.error == PredictionMissing(out)
  {
    var key := AsUsize(out);
    if key in inv then Ok(inv[key]) else Err(PredictionMissing(out))
  }

  /** The lookup against the inverted label map fails exactly when no label
      carries the predicted id, and otherwise yields a label that does. */
  lemma LookupPredictionMeaning(m: LabelMap, out: int)
    ensures LookupPrediction(Invert(m), out).Ok? <==> exists l :: l in m && m[l] == AsUsize(out)
    ensures LookupPrediction(Invert(m), out).Ok? ==>
      LookupPrediction(Invert(m), out).value in m && m[LookupPrediction(Invert(m), out).value] == AsUsize(out)
  {
    if exists l :: l in m && m[l] == AsUsize(out) {
      var l :| l in m && m[l] == AsUsize(out);
      assert m[l] in m.Values;
    }
  }

  /** Everything one inference command works with; `model` is the forward
      pass followed by softmax and argmax, giving an `i64` class index. */
  datatype Session = Session(
    dims: Dims, open: string -> Option<Image>, norm: Normalization,
    apply: (Normalization, real) -> real, model: Batch -> int, labels: LabelMap)

  /** The `(1, channels, height, width)` network input for one image. */
  function SingleInput(s: Session, path: string): (r: Result<Batch>)
    ensures r.Ok? <==> Loads(s.dims, s.open, path)
    ensures r.Ok? ==> |r.value| == 1 && Shaped(s.dims, r.value[0]) && s.open(path).Some?
    ensures r.Ok? ==> forall c, y, x :: 0 <= c < s.dims.channels && 0 <= y < s.dims.height && 0 <= x < s.dims.width ==>
      r.value[0][c][y][x] == s.apply(s.norm, Expected(s.open(path).value, c, y, x))
  {
    var block :- LoadSlice(s.dims, s.open, path);
    Ok([NormaliseSlice(s.apply, s.norm, block)])
  }

  /** Inference fills its single observation exactly as preparation fills
      an observation whose path is the same, given the same normalisation. */
  lemma SingleInputMatchesPreparation(
    s: Session, e: IndexEntry, stat: Batch -> Normalization)
    ensures SingleInput(s, e.filepaths).Ok? <==> BuildObservationArray(s.dims, s.open, [e], Some(s.norm), stat, s.apply).Ok?
    ensures SingleInput(s, e.filepaths).Ok? ==>
      SingleInput(s, e.filepaths).value == BuildObservationArray(s.dims, s.open, [e], Some(s.norm), stat, s.apply).value.images
  {
    var built := BuildObservationArray(s.dims, s.open, [e], Some(s.norm), stat, s.apply);
    if built.Ok? {
      var single := SingleInput(s, e.filepaths).value;
      var b := built.value.images;
      assert |single| == |b| == 1;
      SliceExtensionality(s.dims, single[0], b[0]);
    }
  }

  /** The label reported for one image. */
  function Classify(s: Session, inv: InverseMap, path: string): (r: Result<string>)
    ensures SingleInput(s, path).Err? ==> r == Err(SingleInput(s, path).error)
    ensures SingleInput(s, path).Ok? ==>
      var id := AsUsize(s.model(SingleInput(s, path).value));
      && (r.Ok? <==> id in inv)
      && (r.Ok? ==> r.value == inv[id])
      && (r.Err? ==> r.error == PredictionMissing(s.model(SingleInput(s, path).value)))
  {
    var input :- SingleInput(s, path);
    LookupPrediction(inv, s.model(input))
  }

  /** One printed line: the image's 0-based position and its label. */
  datatype Prediction = Prediction(plate: nat, name: string)

  /** Image `k` is the first that cannot be classified. */
  predicate FirstFailure(s: Session, inv: InverseMap, images: seq<string>, k: int) {
    0 <= k < |images| && Classify(s, inv, images[k]).Err?
    && forall i :: 0 <= i < k ==> Classify(s, inv, images[i]).Ok?
  }

  /** The images in argument order, stopping at the first failure. */
  function ClassifyAll(s: Session, inv: InverseMap, images: seq<string>): (r: Result<seq<Prediction>>)
    ensures r.Ok? <==> forall i :: 0 <= i < |images| ==> Classify(s, inv, images[i]).Ok?
    ensures r.Ok? ==> |r.value| == |images|
    ensures r.Ok? ==> forall i :: 0 <= i < |images| ==>
      r.value[i] == Prediction(i, Classify(s, inv, images[i]).value)
    ensures r.Err? ==> exists k :: FirstFailure(s, inv, images, k) && Classify(s, inv, images[k]) == Err(r.error)
    decreases |images|
  {
    if |images| == 0 then Ok([])
    else
      var prefix := images[..|images| - 1];
      assert forall i :: 0 <= i < |prefix| ==> prefix[i] == images[i];
      match ClassifyAll(s, inv, prefix)
      case Err(e) =>
        assert forall k :: FirstFailure(s, inv, prefix, k) ==> FirstFailure(s, inv, images, k);
        Err(e)
      case Ok(earlier) =>
        match Classify(s, inv, images[|images| - 1])
        case Err(e) =>
          assert FirstFailure(s, inv, images, |images| - 1);
          Err(e)
        case Ok(name) => Ok(earlier + [Prediction(|images| - 1, name)])
  }

  /** The image at `path` loads and the network's id for it is carried
      by some label of the map. */
  predicate Predictable(s: Session, path: string) {
    SingleInput(s, path).Ok? && exists l :: l in s.labels && s.labels[l] == AsUsize(s.model(SingleInput(s, path).value))
  }

  /** Against the inverted label map, one image is classified exactly when
      it is predictable, and the label it gets carries the predicted id. */
  lemma ClassifyAgainstLabels(s: Session, path: string)
    ensures Classify(s, Invert(s.labels), path).Ok? <==> Predictable(s, path)
    ensures Classify(s, Invert(s.labels), path).Ok? ==>
      && SingleInput(s, path).Ok?
      && Classify(s, Invert(s.labels), path).value in s.labels
      && s.labels[Classify(s, Invert(s.labels), path).value] == AsUsize(s.model(SingleInput(s, path).value))
  {
    if SingleInput(s, path).Ok? {
      LookupPredictionMeaning(s.labels, s.model(SingleInput(s, path).value));
    }
  }

  /** The inference command: invert the label map once, then classify the
      images in order. It succeeds exactly when every image is
      predictable; each printed line then numbers the plate by position
      and names a label carrying the predicted id. Otherwise the first
      image that is not predictable ends it. */
  function Run(s: Session, images: seq<string>): (r: Result<seq<Prediction>>)
    ensures r.Ok? <==> forall i :: 0 <= i < |images| ==> Predictable(s, images[i])
    ensures r.Ok? ==> |r.value| == |images|
    ensures r.Ok? ==> forall i :: 0 <= i < |images| ==>
      && r.value[i].plate == i
      && SingleInput(s, images[i]).Ok?
      && r.value[i].name in s.labels
      && s.labels[r.value[i].name] == AsUsize(s.model(SingleInput(s, images[i]).value))
    ensures r.Err? ==>
      exists k :: 0 <= k < |images| && !Predictable(s, images[k]) && forall i :: 0 <= i < k ==> Predictable(s, images[i])
  {
    var inv := Invert(s.labels);
    assert forall i :: 0 <= i < |images| ==> (Classify(s, inv, images[i]).Ok? <==> Predictable(s, images[i])) by {
      forall i | 0 <= i < |images| ensures Classify(s, inv, images[i]).Ok? <==> Predictable(s, images[i]) {
        ClassifyAgainstLabels(s, images[i]);
      }
    }
    var r := ClassifyAll(s, inv, images);
    assert r.Ok? ==> forall i :: 0 <= i < |images| ==>
      && SingleInput(s, images[i]).Ok?
      && r.value[i].name in s.labels
      && s.labels[r.value[i].name] == AsUsize(s.model(SingleInput(s, images[i]).value)) by {
      if r.Ok? {
        forall i | 0 <= i < |images|
          ensures SingleInput(s, images[i]).Ok?
          ensures r.value[i].name in s.labels
          ensures s.labels[r.value[i].name] == AsUsize(s.model(SingleInput(s, images[i]).value))
        {
          ClassifyAgainstLabels(s, images[i]);
        }
      }
    }
    r
  }
}
