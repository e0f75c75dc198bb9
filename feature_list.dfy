/**
  The feature schema: a `Feature` is a label with its ordered legal values, and a
  feature list is an ordered sequence of features whose labels must be distinct.
  `FeatureType` is a stand-alone label with its values, kept for its
  membership test.
 */
module FeatureLists {
  import opened Wrappers
  import opened Errors

  /**
    A categorical feature: its label and its ordered legal values. The label
    field is called `name` because `label` is a reserved word in Dafny.
   */
  datatype Feature = Feature(name: string, values: seq<string>)

  /** No two features of `fl` share a label (the invariant of a constructed feature list). */
  predicate DistinctLabels(fl: seq<Feature>) {
    forall i, j :: 0 <= i < j < |fl| ==> fl[i].name != fl[j].name
  }

  /** `FeatureList.labels`: the set of the labels of `fl`. */
  function Labels(fl: seq<Feature>): (ls: set<string>)
    ensures forall l :: l in ls <==> exists i :: 0 <= i < |fl| && fl[i].name == l
  {
    set f | f in fl :: f.name
  }

  /** Two different features of `fl` carry the label `l`. */
  predicate DefinedMoreThanOnce(fl: seq<Feature>, l: string)
  {
    exists i, j :: 0 <= i < j < |fl| && fl[i].name == l && fl[j].name == l
  }

  /** A label is defined twice in a non-empty list iff the head defines it and the tail too, or the tail defines it twice. */
  lemma DefinedMoreThanOnceStep(fl: seq<Feature>, l: string)
    requires fl != []
    ensures DefinedMoreThanOnce(fl, l) <==>
      (fl[0].name == l && l in Labels(fl[1..])) || DefinedMoreThanOnce(fl[1..], l)
  {
    var rest := fl[1..];
    if DefinedMoreThanOnce(fl, l) {
      var i, j :| 0 <= i < j < |fl| && fl[i].name == l && fl[j].name == l;
      assert rest[j - 1] == fl[j];
      if i > 0 {
        assert rest[i - 1] == fl[i];
      }
    }
    if fl[0].name == l && l in Labels(rest) {
      var k :| 0 <= k < |rest| && rest[k].name == l;
      assert fl[k + 1] == rest[k];
    }
    if DefinedMoreThanOnce(rest, l) {
      var i, j :| 0 <= i < j < |rest| && rest[i].name == l && rest[j].name == l;
      assert fl[i + 1] == rest[i] && fl[j + 1] == rest[j];
    }
  }

  /**
    The features of `fl` labelled `l`, in order (the list comprehension of the
    source): none iff the label is not declared, more than one iff it is
    defined more than once.
   */
  function WithLabel(fl: seq<Feature>, l: string): (r: seq<Feature>)
    ensures |r| <= |fl|
    ensures forall f :: f in r ==> f in fl && f.name == l
    ensures |r| == 0 <==> l !in Labels(fl)
    ensures |r| > 1 <==> DefinedMoreThanOnce(fl, l)
  {
    if fl == [] then []
    else
      assert Labels(fl) == {fl[0].name} + Labels(fl[1..]);
      DefinedMoreThanOnceStep(fl, l);
      (if fl[0].name == l then [fl[0]] else []) + WithLabel(fl[1..], l)
  }

  /** The labels of a list whose labels are distinct are as many as its features. */
  lemma {:induction false} DistinctLabelsCount(fl: seq<Feature>)
    requires DistinctLabels(fl)
    ensures |Labels(fl)| == |fl|
  {
    if fl != [] {
      var rest := fl[1..];
      RestDistinct(fl);
      DistinctLabelsCount(rest);
      assert Labels(fl) == {fl[0].name} + Labels(rest);
      FirstLabelNotInRest(fl);
    }
  }

  /** In a list with distinct labels, the first label does not occur again. */
  lemma FirstLabelNotInRest(fl: seq<Feature>)
    requires fl != [] && DistinctLabels(fl)
    ensures fl[0].name !in Labels(fl[1..])
  {
    forall k | 0 <= k < |fl| - 1 ensures fl[1..][k].name != fl[0].name {
      assert fl[1..][k] == fl[k + 1];
    }
  }

  /** A tail of a list with distinct labels has distinct labels. */
  lemma RestDistinct(fl: seq<Feature>)
    requires fl != [] && DistinctLabels(fl)
    ensures DistinctLabels(fl[1..])
  {
    var rest := fl[1..];
    forall i, j | 0 <= i < j < |rest| ensures rest[i].name != rest[j].name {
      assert rest[i] == fl[i + 1] && rest[j] == fl[j + 1];
    }
  }

  /** In a list with distinct labels no label is defined by more than one feature. */
  lemma {:induction false} DistinctHasSingleDefinitions(fl: seq<Feature>, l: string)
    ensures DistinctLabels(fl) ==> |WithLabel(fl, l)| <= 1
  {
    if fl != [] && DistinctLabels(fl) {
      var rest := fl[1..];
      RestDistinct(fl);
      DistinctHasSingleDefinitions(rest, l);
      assert WithLabel(fl, l) == (if fl[0].name == l then [fl[0]] else []) + WithLabel(rest, l);
      if l == fl[0].name {
        FirstLabelNotInRest(fl);
      }
    }
  }

  /** A list in which no label is defined twice has distinct labels. */
  lemma {:induction false} SingleDefinitionsDistinct(fl: seq<Feature>)
    requires forall l :: |WithLabel(fl, l)| <= 1
    ensures DistinctLabels(fl)
  {
    if fl != [] {
      var rest := fl[1..];
      forall l ensures |WithLabel(rest, l)| <= 1 {
        assert WithLabel(fl, l) == (if fl[0].name == l then [fl[0]] else []) + WithLabel(rest, l);
      }
      SingleDefinitionsDistinct(rest);
      assert WithLabel(fl, fl[0].name) == [fl[0]] + WithLabel(rest, fl[0].name);
      assert fl[0].name !in Labels(rest);
      forall i, j | 0 <= i < j < |fl| ensures fl[i].name != fl[j].name {
        assert fl[j] == rest[j - 1];
        if i > 0 {
          assert fl[i] == rest[i - 1];
        }
      }
    }
  }

  /**
    `FeatureList._validate_distinct`, run when a feature list is built: for each
    label of the (unordered) label set, the features carrying it are collected,
    and a label carried by more than one raises. Which duplicated label is
    reported depends on the set's iteration order, left open here.
   */
  method ValidateDistinct(fl: seq<Feature>) returns (r: Result<seq<Feature>, Error>)
    ensures r.Ok? <==> DistinctLabels(fl)
    ensures r.Ok? ==> r.value == fl
    ensures r.Err? ==> r.error.DuplicateFeatureLabel? && |WithLabel(fl, r.error.name)| > 1
    ensures r.Err? ==> DefinedMoreThanOnce(fl, r.error.name)
  {
    var todo := Labels(fl);
    while todo != {}
      invariant todo <= Labels(fl)
      invariant forall l :: l in Labels(fl) && l !in todo ==> |WithLabel(fl, l)| <= 1
      decreases todo
    {
      var l :| l in todo;
      var definitions := WithLabel(fl, l);
      if |definitions| > 1 {
        DistinctHasSingleDefinitions(fl, l);
        return Err(DuplicateFeatureLabel(l));
      }
      todo := todo - {l};
    }
    SingleDefinitionsDistinct(fl);
    return Ok(fl);
  }

  /**
    `FeatureList.__getitem__` with a label: the values of the first feature so
    labelled, and `KeyError` for a label that is not declared.
   */
  function ValuesOf(fl: seq<Feature>, key: string): (r: Result<seq<string>, Error>)
    ensures r.Ok? <==> key in Labels(fl)
    ensures r.Err? ==> r.error == KeyError(key)
    ensures r.Ok? ==> exists i :: 0 <= i < |fl| && fl[i].name == key && fl[i].values == r.value
    ensures r.Ok? && DistinctLabels(fl) ==>
      forall i :: 0 <= i < |fl| && fl[i].name == key ==> fl[i].values == r.value
  {
    if key in Labels(fl) then
      var first := WithLabel(fl, key)[0];
      assert first in WithLabel(fl, key);
      Ok(first.values)
    else
      Err(KeyError(key))
  }

  /**
    `FeatureList.__getitem__` with an integer: Python list indexing, where a
    negative index counts from the end and an index out of range raises.
   */
  function FeatureAt(fl: seq<Feature>, i: int): (r: Result<Feature, Error>)
    ensures r.Ok? <==> -|fl| <= i < |fl|
    ensures r.Err? ==> r.error == IndexError(i)
    ensures r.Ok? && 0 <= i ==> r.value == fl[i]
    ensures r.Ok? && i < 0 ==> r.value == fl[|fl| + i]
  {
    if 0 <= i < |fl| then Ok(fl[i])
    else if -|fl| <= i < 0 then Ok(fl[|fl| + i])
    else Err(IndexError(i))
  }

  /** Positional access and label access agree: the i-th feature's label looks up its own values. */
  lemma FeatureAtThenValuesOf(fl: seq<Feature>, i: int)
    requires DistinctLabels(fl)
    requires -|fl| <= i < |fl|
    ensures FeatureAt(fl, i).Ok?
    ensures ValuesOf(fl, FeatureAt(fl, i).value.name) == Ok(FeatureAt(fl, i).value.values)
  {
    var k := if i < 0 then |fl| + i else i;
    assert FeatureAt(fl, i).value == fl[k];
  }

  /** `FeatureList.__contains__` with a string: membership in the label set. */
  predicate HasLabel(fl: seq<Feature>, key: string)
    ensures HasLabel(fl, key) <==> exists i :: 0 <= i < |fl| && fl[i].name == key
  {
    key in Labels(fl)
  }

  /** `FeatureList.__contains__` with a feature: membership in the feature list. */
  predicate HasFeature(fl: seq<Feature>, f: Feature)
    ensures HasFeature(fl, f) ==> HasLabel(fl, f.name)
  {
    f in fl
  }

  /** Containment by label succeeds exactly when lookup by label does. */
  lemma HasLabelIffLookup(fl: seq<Feature>, key: string)
    ensures HasLabel(fl, key) <==> ValuesOf(fl, key).Ok?
    ensures HasLabel(fl, key) <==> exists i :: 0 <= i < |fl| && fl[i].name == key
  {
  }

  /** A feature of the list is contained both as a feature and by its label. */
  lemma HasFeatureHasLabel(fl: seq<Feature>, f: Feature)
    requires HasFeature(fl, f)
    ensures HasLabel(fl, f.name)
  {
  }

  /** The stand-alone feature type: a label with its legal values. */
  datatype FeatureType = FeatureType(name: string, values: seq<string>) {

    /** `FeatureType.__contains__`: whether `item` is one of the legal values. */
    predicate Contains(item: string)
      ensures Contains(item) <==> exists i :: 0 <= i < |values| && values[i] == item
    {
      item in values
    }
  }
}
