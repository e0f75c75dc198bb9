/**
  The feature table: the validated mapping from every symbol of a segment
  inventory to its feature assignment, with one segment per symbol.

  The source builds it in `FeatureTable.__init__`, which raises on bad input.
  A Dafny constructor cannot fail, so that body is split here into the steps it
  performs in order, and `Load` runs them: the feature list is validated
  (`ValidateDistinct`), the table object is created and fills its feature order
  (the constructor), every row is validated (`ParseRow`) and stored (`Store`),
  and finally the segment list is built (`BuildSegments`).
 */
module FeatureTables {
  import opened Wrappers
  import opened Errors
  import opened FeatureLists
  import opened Segments

  /** One entry of the decoded `feature_table` dictionary: a symbol and its positional values. */
  datatype Row = Row(symbol: string, values: seq<string>)

  /**
    The decoded input `{"feature": [...], "feature_table": {symbol: [...]}}`;
    the rows are the dictionary's entries in its order.
   */
  datatype Inventory = Inventory(features: seq<Feature>, rows: seq<Row>)

  /** The rows come from a dictionary, so their symbols are distinct. */
  predicate IsDictionary(rows: seq<Row>)
  {
    forall i, j :: 0 <= i < j < |rows| ==> rows[i].symbol != rows[j].symbol
  }

  /** A row supplies one legal value per feature, in feature order. */
  predicate RowOk(fl: seq<Feature>, values: seq<string>)
  {
    |values| == |fl| && forall i :: 0 <= i < |values| ==> values[i] in fl[i].values
  }

  /** The error the validation of a row raises, if any. */
  function RowError(fl: seq<Feature>, symbol: string, values: seq<string>): Option<Error>
  {
    if |values| != |fl| then Some(FeatureCountMismatch(symbol))
    else if RowOk(fl, values) then None
    else Some(IllegalFeatureValue(symbol))
  }

  /** `m` is a complete, legal assignment for the features `fl`. */
  predicate IsAssignmentOf(fl: seq<Feature>, m: Assignment)
  {
    && m.Keys == Labels(fl)
    && forall i :: 0 <= i < |fl| ==> m[fl[i].name] in fl[i].values
  }

  /** The assignment `{label: value}` a row denotes. */
  function RowAssignment(fl: seq<Feature>, values: seq<string>): (m: Assignment)
    requires DistinctLabels(fl) && |values| == |fl|
    ensures m.Keys == Labels(fl)
    ensures forall i :: 0 <= i < |fl| ==> m[fl[i].name] == values[i]
    ensures RowOk(fl, values) ==> IsAssignmentOf(fl, m)
  {
    map i | 0 <= i < |fl| :: fl[i].name := values[i]
  }

  /**
    The inner loop of `FeatureTable.__init__` for one symbol: a row of the
    wrong length raises a count mismatch, a value outside its feature's values
    raises an illegal value, and otherwise the row becomes `{label: value}`.
   */
  method ParseRow(fl: seq<Feature>, symbol: string, values: seq<string>) returns (r: Result<Assignment, Error>)
    requires DistinctLabels(fl)
    ensures r.Ok? <==> RowOk(fl, values)
    ensures r.Ok? ==> r.value == RowAssignment(fl, values) && IsAssignmentOf(fl, r.value)
    ensures r.Err? ==> Some(r.error) == RowError(fl, symbol, values)
  {
    if |values| != |fl| {
      return Err(FeatureCountMismatch(symbol));
    }
    var m: Assignment := map[];
    for i := 0 to |values|
      invariant m.Keys == Labels(fl[..i])
      invariant forall j :: 0 <= j < i ==> values[j] in fl[j].values && m[fl[j].name] == values[j]
    {
      var feature := fl[i];
      if values[i] !in feature.values {
        return Err(IllegalFeatureValue(symbol));
      }
      assert fl[..i + 1] == fl[..i] + [feature];
      m := m[feature.name := values[i]];
    }
    assert fl[..|fl|] == fl;
    IsRowAssignment(fl, values, m);
    return Ok(m);
  }

  /** A map with the row's labels as keys and each label's value from the row is the row's assignment. */
  lemma IsRowAssignment(fl: seq<Feature>, values: seq<string>, m: Assignment)
    requires DistinctLabels(fl) && |values| == |fl|
    requires m.Keys == Labels(fl)
    requires forall i :: 0 <= i < |fl| ==> m[fl[i].name] == values[i]
    ensures m == RowAssignment(fl, values)
  {
    var r := RowAssignment(fl, values);
    forall l | l in m ensures m[l] == r[l] {
      var i :| 0 <= i < |fl| && fl[i].name == l;
    }
  }

  /**
    Row validation is membership in the feature types: a row is valid iff it
    has one value per feature and the stand-alone type of each feature
    contains the value at its position.
   */
  lemma RowOkIffFeatureTypesContain(fl: seq<Feature>, values: seq<string>)
    ensures RowOk(fl, values) <==>
      |values| == |fl| && forall i :: 0 <= i < |fl| ==> FeatureType(fl[i].name, fl[i].values).Contains(values[i])
  {
  }

  /** A segment of the table: its symbol with its row of the table. */
  function TableSegment(symbol: string, m: Assignment): Segment
  {
    Segment(symbol, Some(m))
  }

  class FeatureTable {
    /** `features_list` */
    var features: seq<Feature>
    /** `feature_order_dict`: position to feature */
    var featureOrder: map<int, Feature>
    /** the key order of `feature_table_dict` */
    var alphabet: seq<string>
    /** `feature_table_dict`: symbol to `{label: value}` */
    var assignments: map<string, Assignment>
    /** `segments_list` */
    var segments: seq<Segment>

    /** The dictionary part: the key order lists each key of `assignments` once. */
    ghost predicate KeysInOrder()
      reads this
    {
      && (forall i, j :: 0 <= i < j < |alphabet| ==> alphabet[i] != alphabet[j])
      && (forall s :: s in assignments <==> s in alphabet)
    }

    /** The schema part: distinct labels, the feature order, and every stored row legal. */
    ghost predicate Schema()
      reads this
    {
      && DistinctLabels(features)
      && (forall i :: i in featureOrder <==> 0 <= i < |features|)
      && (forall i :: 0 <= i < |features| ==> featureOrder[i] == features[i])
      && (forall s :: s in assignments ==> IsAssignmentOf(features, assignments[s]))
    }

    /** The invariant of a constructed table. */
    ghost predicate Valid()
      reads this
    {
      && Schema()
      && KeysInOrder()
      && |segments| == |alphabet|
      && forall i :: 0 <= i < |segments| ==> segments[i] == TableSegment(alphabet[i], assignments[alphabet[i]])
    }

    /**
      The first part of `FeatureTable.__init__`: an empty table over a
      validated feature list, whose feature order maps each position to the
      feature there.
     */
    constructor (fl: seq<Feature>)
      requires DistinctLabels(fl)
      ensures Schema() && KeysInOrder()
      ensures features == fl && alphabet == [] && assignments == map[] && segments == []
    {
      var order: map<int, Feature> := map[];
      for i := 0 to |fl|
        invariant forall k :: k in order <==> 0 <= k < i
        invariant forall k :: 0 <= k < i ==> order[k] == fl[k]
      {
        order := order[i := fl[i]];
      }
      features := fl;
      featureOrder := order;
      alphabet := [];
      assignments := map[];
      segments := [];
    }

    /**
      `self.feature_table_dict[symbol] = symbol_feature_dict`: a dictionary
      store, which keeps an existing key's position and appends a new key.
     */
    method Store(symbol: string, m: Assignment)
      requires Schema() && KeysInOrder()
      requires IsAssignmentOf(features, m)
      modifies this
      ensures Schema() && KeysInOrder()
      ensures assignments == old(assignments)[symbol := m]
      ensures alphabet == if symbol in old(assignments) then old(alphabet) else old(alphabet) + [symbol]
      ensures features == old(features) && segments == old(segments)
    {
      if symbol !in assignments {
        alphabet := alphabet + [symbol];
      }
      assignments := assignments[symbol := m];
    }

    /**
      The last loop of `FeatureTable.__init__`: one segment per symbol of the
      alphabet, in alphabet order, each carrying its row of the table.
     */
    method BuildSegments()
      requires Schema() && KeysInOrder() && segments == []
      modifies this
      ensures Valid()
      ensures features == old(features) && alphabet == old(alphabet) && assignments == old(assignments)
    {
      var symbols := Alphabet();
      for i := 0 to |symbols|
        invariant Schema() && KeysInOrder()
        invariant features == old(features) && alphabet == old(alphabet) && assignments == old(assignments)
        invariant |segments| == i
        invariant forall k :: 0 <= k < i ==> segments[k] == TableSegment(alphabet[k], assignments[alphabet[k]])
      {
        var row := Lookup(symbols[i]);
        segments := segments + [TableSegment(symbols[i], row.value)];
      }
    }

    /** `get_number_of_features`: every stored row has exactly this many entries. */
    function NumberOfFeatures(): (n: nat)
      reads this
      requires Schema()
      ensures n == |Labels(features)|
      ensures forall s :: s in assignments ==> |assignments[s]| == n
    {
      DistinctLabelsCount(features);
      |features|
    }

    /** `get_features`: the set of labels, which is every stored row's key set. */
    function Features(): (ls: set<string>)
      reads this
      requires Schema()
      ensures |ls| == NumberOfFeatures()
      ensures forall s :: s in assignments ==> assignments[s].Keys == ls
    {
      DistinctLabelsCount(features);
      Labels(features)
    }

    /** `get_alphabet`: the symbols of the table, each once, in the dictionary's order. */
    function Alphabet(): (symbols: seq<string>)
      reads this
      requires KeysInOrder()
      ensures forall s :: s in assignments <==> s in symbols
      ensures forall i, j :: 0 <= i < j < |symbols| ==> symbols[i] != symbols[j]
    {
      alphabet
    }

    /** `get_segments`: the segments, one per symbol in alphabet order, each with its row. */
    function SegmentList(): (segs: seq<Segment>)
      reads this
      requires Valid()
      ensures |segs| == |Alphabet()|
      ensures forall i :: 0 <= i < |segs| ==>
        segs[i].symbol == Alphabet()[i] && segs[i].assignment == Some(assignments[Alphabet()[i]])
    {
      segments
    }

    /** `is_valid_feature`: whether some feature carries the label. */
    predicate IsValidFeature(l: string)
      reads this
      ensures IsValidFeature(l) <==> exists i :: 0 <= i < |features| && features[i].name == l
    {
      HasLabel(features, l)
    }

    /** `is_valid_symbol`: whether the symbol is a key of the table. */
    predicate IsValidSymbol(symbol: string)
      reads this
      ensures KeysInOrder() ==> (IsValidSymbol(symbol) <==> symbol in alphabet)
    {
      symbol in assignments
    }

    /** `__getitem__` with a symbol: its row of the table, `KeyError` for an unknown symbol. */
    function Lookup(symbol: string): (r: Result<Assignment, Error>)
      reads this
      requires Schema()
      ensures r.Ok? <==> IsValidSymbol(symbol)
      ensures r.Ok? ==> r.value == assignments[symbol] && IsAssignmentOf(features, r.value)
      ensures r.Err? ==> r.error == KeyError(symbol)
    {
      if symbol in assignments then Ok(assignments[symbol]) else Err(KeyError(symbol))
    }

    /**
      `__getitem__` with a `(symbol, label)` pair: that symbol's value for that
      feature, a legal value of the feature; `KeyError` for an unknown symbol
      and then for an unknown label.
     */
    function LookupValue(symbol: string, l: string): (r: Result<string, Error>)
      reads this
      requires Schema()
      ensures r.Ok? <==> IsValidSymbol(symbol) && IsValidFeature(l)
      ensures r.Ok? ==> symbol in assignments && l in assignments[symbol] && r.value == assignments[symbol][l]
      ensures r.Ok? ==> exists i :: 0 <= i < |features| && features[i].name == l && r.value in features[i].values
      ensures !IsValidSymbol(symbol) ==> r == Err(KeyError(symbol))
      ensures IsValidSymbol(symbol) && !IsValidFeature(l) ==> r == Err(KeyError(l))
    {
      match Lookup(symbol)
      case Err(e) => Err(e)
      case Ok(m) =>
        if l in m then
          assert l in Labels(features);
          Ok(m[l])
        else Err(KeyError(l))
    }

    /** The keys by label, in feature order: what the ordered vector should look up. */
    function LabelKeys(): (keys: seq<Key>)
      reads this
    {
      seq(|features|, i requires 0 <= i < |features| reads this => LabelKey(features[i].name))
    }

    /** The keys taken from the feature order: what the ordered vector looks up as written. */
    function OrderKeys(): (keys: seq<Key>)
      reads this
      requires Schema()
    {
      seq(|features|, i requires i in featureOrder reads this => FeatureKey(featureOrder[i]))
    }

    /**
      `get_ordered_feature_vector`, as intended: the symbol's values in
      feature order, one per feature, each legal for its feature.
     */
    function OrderedFeatureVector(symbol: string): (r: Result<seq<string>, Error>)
      reads this
      requires Schema()
      ensures r.Ok? <==> IsValidSymbol(symbol) || |features| == 0
      ensures r.Err? ==> r.error == KeyError(symbol)
      ensures r.Ok? ==> |r.value| == |features|
      ensures r.Ok? && IsValidSymbol(symbol) ==> forall i :: 0 <= i < |r.value| ==>
        r.value[i] == assignments[symbol][features[i].name] && r.value[i] in features[i].values
    {
      if symbol in assignments then
        LabelLookupsSucceed(features, assignments[symbol], LabelKeys());
        CollectValues(Ok(assignments[symbol]), LabelKeys())
      else
        CollectValues(Err(KeyError(symbol)), LabelKeys())
    }

    /**
      `get_ordered_feature_vector`, as written: each element is looked up in
      the symbol's row with the `Feature` object from the feature order as the
      key. The row is keyed by label strings, so that lookup never succeeds.
     */
    function OrderedFeatureVectorAsWritten(symbol: string): (r: Result<seq<string>, Error>)
      reads this
      requires Schema()
      ensures |features| > 0 ==> r.Err?
      ensures |features| == 0 ==> r == Ok([])
    {
      var keys := OrderKeys();
      assert |features| > 0 ==> LookupByKey(map[], keys[0]).Err?;
      CollectValues(Lookup(symbol), keys)
    }
  }

  /** A Python dictionary key: a label string, or a `Feature` object. */
  datatype Key = LabelKey(l: string) | FeatureKey(f: Feature)

  /**
    Looking up a key in a label-keyed row: a label is found or raises
    `KeyError`; a `Feature` object is never a key of such a row (it is not
    even hashable), so that lookup always raises.
   */
  function LookupByKey(m: Assignment, k: Key): (r: Result<string, Error>)
    ensures k.FeatureKey? ==> r.Err?
    ensures k.LabelKey? ==> (r.Ok? <==> k.l in m) && (r.Ok? ==> r.value == m[k.l])
  {
    match k
    case LabelKey(l) => if l in m then Ok(m[l]) else Err(KeyError(l))
    case FeatureKey(f) => Err(UnhashableKey(f.name))
  }

  /**
    The comprehension `[self[char][key] for key in keys]`: the row of the
    symbol is fetched for every key, so an unknown symbol raises only when
    there is at least one key; the first failing lookup raises.
   */
  function CollectValues(row: Result<Assignment, Error>, keys: seq<Key>): (r: Result<seq<string>, Error>)
    ensures r.Ok? <==> keys == [] || (row.Ok? && forall i :: 0 <= i < |keys| ==> LookupByKey(row.value, keys[i]).Ok?)
    ensures r.Ok? ==> |r.value| == |keys|
    ensures r.Ok? ==> forall i :: 0 <= i < |keys| ==> LookupByKey(row.value, keys[i]) == Ok(r.value[i])
    ensures r.Err? && row.Err? ==> r.error == row.error
  {
    if keys == [] then Ok([])
    else
      match row
      case Err(e) => Err(e)
      case Ok(m) =>
        match LookupByKey(m, keys[0])
        case Err(e) => Err(e)
        case Ok(v) =>
          match CollectValues(row, keys[1..])
          case Err(e) => Err(e)
          case Ok(vs) =>
            assert forall i :: 1 <= i < |keys| ==> keys[i] == keys[1..][i - 1];
            Ok([v] + vs)
  }

  /** Looking up each feature's label in a complete assignment for those features succeeds. */
  lemma LabelLookupsSucceed(fl: seq<Feature>, m: Assignment, keys: seq<Key>)
    requires IsAssignmentOf(fl, m)
    requires |keys| == |fl| && forall i :: 0 <= i < |keys| ==> keys[i] == LabelKey(fl[i].name)
    ensures CollectValues(Ok(m), keys).Ok?
    ensures forall i :: 0 <= i < |keys| ==>
      CollectValues(Ok(m), keys).value[i] == m[fl[i].name] && m[fl[i].name] in fl[i].values
  {
    forall i | 0 <= i < |keys| ensures LookupByKey(m, keys[i]) == Ok(m[fl[i].name]) {
      assert fl[i].name in Labels(fl);
    }
  }

  /** The rows of `rows` are all valid for `fl`. */
  predicate AllRowsOk(fl: seq<Feature>, rows: seq<Row>)
  {
    forall k :: 0 <= k < |rows| ==> RowOk(fl, rows[k].values)
  }

  /** `e` is the error of the first invalid row of `rows`, in order. */
  predicate IsFirstRowError(fl: seq<Feature>, rows: seq<Row>, e: Error)
  {
    exists k :: 0 <= k < |rows| && Some(e) == RowError(fl, rows[k].symbol, rows[k].values) &&
      forall j :: 0 <= j < k ==> RowOk(fl, rows[j].values)
  }

  /** The next row of a dictionary brings a symbol that the rows stored so far do not have. */
  lemma NewSymbolOfDictionary(rows: seq<Row>, k: int, alphabet: seq<string>, assignments: map<string, Assignment>)
    requires IsDictionary(rows) && 0 <= k < |rows|
    requires |alphabet| == k && forall j :: 0 <= j < k ==> alphabet[j] == rows[j].symbol
    requires forall s :: s in assignments <==> s in alphabet
    ensures rows[k].symbol !in assignments
  {
    forall j | 0 <= j < k ensures alphabet[j] != rows[k].symbol {
      assert rows[j].symbol != rows[k].symbol;
    }
  }

  /** Storing the k-th row's value under its new symbol keeps the values stored for the rows before it. */
  lemma StoredRowsKept<V>(rows: seq<Row>, k: int, vals: seq<V>, before: map<string, V>, after: map<string, V>)
    requires IsDictionary(rows) && 0 <= k < |rows| && |vals| == k + 1
    requires forall j :: 0 <= j < k ==> rows[j].symbol in before && before[rows[j].symbol] == vals[j]
    requires after == before[rows[k].symbol := vals[k]]
    ensures forall j :: 0 <= j <= k ==> rows[j].symbol in after && after[rows[j].symbol] == vals[j]
  {
    forall j | 0 <= j < k ensures after[rows[j].symbol] == vals[j] {
      assert rows[j].symbol != rows[k].symbol;
    }
  }

  /**
    The state of the middle loop of `FeatureTable.__init__` after `k` rows: a
    table over `fl` whose alphabet is the first `k` symbols, each stored with
    the assignment its (valid) row denotes, kept in `stored`.
   */
  ghost predicate RowsStored(table: FeatureTable, fl: seq<Feature>, rows: seq<Row>, k: int, stored: seq<Assignment>)
    reads table
  {
    && table.Schema() && table.KeysInOrder()
    && table.features == fl && table.segments == []
    && 0 <= k <= |rows| && |table.alphabet| == k && |stored| == k
    && (forall j :: 0 <= j < k ==> RowOk(fl, rows[j].values))
    && (forall j :: 0 <= j < k ==> table.alphabet[j] == rows[j].symbol)
    && (forall j :: 0 <= j < k ==> stored[j] == RowAssignment(fl, rows[j].values))
    && (forall j :: 0 <= j < k ==> rows[j].symbol in table.assignments && table.assignments[rows[j].symbol] == stored[j])
  }

  /**
    One step of that loop: the k-th row is validated; an invalid row raises
    its error and a valid one is stored under its symbol.
   */
  method StoreRow(table: FeatureTable, rows: seq<Row>, k: int, ghost stored: seq<Assignment>)
    returns (err: Option<Error>, ghost stored': seq<Assignment>)
    requires IsDictionary(rows) && k < |rows| && RowsStored(table, table.features, rows, k, stored)
    modifies table
    ensures err.Some? ==> unchanged(table) && Some(err.value) == RowError(table.features, rows[k].symbol, rows[k].values)
    ensures err.None? ==> RowsStored(table, old(table.features), rows, k + 1, stored')
  {
    var fl := table.features;
    var row := rows[k];
    var parsed := ParseRow(fl, row.symbol, row.values);
    if parsed.Err? {
      return Some(parsed.error), stored;
    }
    NewSymbolOfDictionary(rows, k, table.alphabet, table.assignments);
    ghost var before := table.assignments;
    table.Store(row.symbol, parsed.value);
    stored' := stored + [parsed.value];
    StoredRowsKept(rows, k, stored', before, table.assignments);
    return None, stored';
  }

  /**
    The middle loop of `FeatureTable.__init__`: each row, in dictionary order,
    is validated and stored; the first invalid row stops the loop with its error.
   */
  method StoreRows(table: FeatureTable, rows: seq<Row>) returns (err: Option<Error>)
    requires table.Schema() && table.KeysInOrder() && table.alphabet == [] && table.segments == []
    requires IsDictionary(rows)
    modifies table
    ensures table.Schema() && table.KeysInOrder()
    ensures table.features == old(table.features) && table.segments == []
    ensures err.None? <==> AllRowsOk(table.features, rows)
    ensures err.Some? ==> IsFirstRowError(table.features, rows, err.value)
    ensures err.None? ==> |table.alphabet| == |rows|
    ensures err.None? ==> forall k :: 0 <= k < |rows| ==> table.alphabet[k] == rows[k].symbol
    ensures err.None? ==> forall k :: 0 <= k < |rows| ==>
      table.assignments[rows[k].symbol] == RowAssignment(table.features, rows[k].values)
  {
    var fl := table.features;
    ghost var stored: seq<Assignment> := [];
    for k := 0 to |rows|
      invariant RowsStored(table, fl, rows, k, stored)
    {
      ghost var before := stored;
      err, stored := StoreRow(table, rows, k, stored);
      if err.Some? {
        assert RowsStored(table, fl, rows, k, before);
        assert !RowOk(fl, rows[k].values);
        return;
      }
    }
    return None;
  }

  /**
    `FeatureTable.__init__` on a decoded inventory. It fails exactly when a
    feature label is declared twice or some row is invalid; the first invalid
    row, in dictionary order, decides the error. On success every row is
    stored under its symbol as `{label: value}`, the alphabet lists the
    symbols in order, and there is one segment per symbol.
   */
  method Load(input: Inventory) returns (r: Result<FeatureTable, Error>)
    requires IsDictionary(input.rows)
    ensures r.Ok? <==> DistinctLabels(input.features) && AllRowsOk(input.features, input.rows)
    ensures r.Err? && !DistinctLabels(input.features) ==>
      r.error.DuplicateFeatureLabel? && |WithLabel(input.features, r.error.name)| > 1
    ensures r.Err? && DistinctLabels(input.features) ==> IsFirstRowError(input.features, input.rows, r.error)
    ensures r.Ok? ==> fresh(r.value) && r.value.Valid() && r.value.features == input.features
    ensures r.Ok? ==> |r.value.alphabet| == |input.rows|
    ensures r.Ok? ==> forall k :: 0 <= k < |input.rows| ==> r.value.alphabet[k] == input.rows[k].symbol
    ensures r.Ok? ==> forall k :: 0 <= k < |input.rows| ==>
      r.value.assignments[input.rows[k].symbol] == RowAssignment(input.features, input.rows[k].values)
  {
    var checked := ValidateDistinct(input.features);
    if checked.Err? {
      return Err(checked.error);
    }
    var table := new FeatureTable(checked.value);
    var err := StoreRows(table, input.rows);
    if err.Some? {
      return Err(err.value);
    }
    table.BuildSegments();
    return Ok(table);
  }

  /** Round trip: the ordered feature vector of a stored symbol is the row it was built from. */
  lemma OrderedVectorRoundTrip(t: FeatureTable, symbol: string, values: seq<string>)
    requires t.Schema()
    requires symbol in t.assignments && |values| == |t.features|
    requires t.assignments[symbol] == RowAssignment(t.features, values)
    ensures t.OrderedFeatureVector(symbol) == Ok(values)
  {
    var m := t.assignments[symbol];
    var keys := t.LabelKeys();
    assert t.Lookup(symbol) == Ok(m);
    forall i | 0 <= i < |keys| ensures LookupByKey(m, keys[i]) == Ok(values[i]) {
      assert keys[i] == LabelKey(t.features[i].name);
      assert t.features[i].name in Labels(t.features);
    }
    var r := CollectValues(Ok(m), keys);
    assert r.Ok? && |r.value| == |values|;
    assert forall i :: 0 <= i < |values| ==> r.value[i] == values[i];
    assert r.value == values;
  }

  /**
    The two validity predicates never fail and agree with the queries: a
    symbol is valid iff it is in the alphabet (iff its row can be looked up),
    a label iff it is among the table's features.
   */
  lemma ValidityQueries(t: FeatureTable, symbol: string, l: string)
    requires t.Schema() && t.KeysInOrder()
    ensures t.IsValidSymbol(symbol) <==> symbol in t.Alphabet()
    ensures t.IsValidSymbol(symbol) <==> t.Lookup(symbol).Ok?
    ensures t.IsValidFeature(l) <==> l in t.Features()
    ensures t.IsValidFeature(l) <==> ValuesOf(t.features, l).Ok?
  {
  }

  /**
    The ordered vector has one value per feature, and its i-th value is the
    `(symbol, label)` lookup of the i-th feature's label.
   */
  lemma OrderedVectorAgreesWithLookup(t: FeatureTable, symbol: string, i: int)
    requires t.Schema() && t.IsValidSymbol(symbol) && 0 <= i < |t.features|
    ensures t.OrderedFeatureVector(symbol).Ok?
    ensures |t.OrderedFeatureVector(symbol).value| == t.NumberOfFeatures()
    ensures t.LookupValue(symbol, t.features[i].name) == Ok(t.OrderedFeatureVector(symbol).value[i])
  {
    assert t.features[i].name in Labels(t.features);
  }

  /** Every segment of a constructed table has one feature per feature of the table. */
  lemma TableSegmentEncodingLength(t: FeatureTable, i: int)
    requires t.Valid() && 0 <= i < |t.segments|
    ensures t.segments[i].assignment.Some?
    ensures EncodingLength(t.segments[i]) == t.NumberOfFeatures()
  {
    assert t.alphabet[i] in t.assignments;
  }

  /**
    On a table with at least one feature, the as-written ordered vector fails
    for every known symbol, while the intended one succeeds.
   */
  lemma AsWrittenVectorFails(t: FeatureTable, symbol: string)
    requires t.Schema() && |t.features| > 0 && t.IsValidSymbol(symbol)
    ensures t.OrderedFeatureVectorAsWritten(symbol).Err?
    ensures t.OrderedFeatureVector(symbol).Ok?
  {
  }

  /** A two-feature binary schema: voicing and consonantality. */
  function VoiceCons(): seq<Feature>
  {
    [Feature("voice", ["+", "-"]), Feature("cons", ["+", "-"])]
  }

  /** The worked inventory's row checks: a one-value row is a count mismatch, a "0" an illegal value. */
  lemma VoiceConsRowErrors()
    ensures RowError(VoiceCons(), "b", ["+"]) == Some(FeatureCountMismatch("b"))
    ensures RowError(VoiceCons(), "b", ["0", "+"]) == Some(IllegalFeatureValue("b"))
    ensures RowError(VoiceCons(), "b", ["+", "+"]) == None
  {
    var fl := VoiceCons();
    assert "0" != "+" && "0" != "-";
    assert ["0", "+"][0] !in fl[0].values;
  }

  /** A row of the two-feature schema assigns its first value to "voice" and its second to "cons". */
  lemma VoiceConsAssignment(voice: string, cons: string)
    ensures var m := RowAssignment(VoiceCons(), [voice, cons]);
      && "voice" in m && m["voice"] == voice && "cons" in m && m["cons"] == cons
      && forall l :: l in m ==> l == "voice" || l == "cons"
  {
    var fl := VoiceCons();
    assert fl[0].name == "voice" && fl[1].name == "cons";
    var m := RowAssignment(fl, [voice, cons]);
    forall l | l in m ensures l == "voice" || l == "cons" {
      var i :| 0 <= i < |fl| && fl[i].name == l;
    }
  }

  /**
    Two consonants "b" and "p" that differ in voicing: "b" unifies with the
    class {b, p} but not with "p"; "b" is in the class [+voice] and "p" is
    not, and both are in [+cons].
   */
  lemma VoicingPair(mb: Assignment, mp: Assignment)
    requires "voice" in mb && mb["voice"] == "+" && "cons" in mb && mb["cons"] == "+"
    requires "voice" in mp && mp["voice"] == "-" && "cons" in mp && mp["cons"] == "+"
    ensures Intersect(Single(TableSegment("b", mb)), Symbols({"b", "p"})) == Some(Single(TableSegment("b", mb)))
    ensures Intersect(Single(TableSegment("b", mb)), Single(TableSegment("p", mp))) == None
    ensures HasFeatureBundle(TableSegment("b", mb), map["voice" := "+"])
    ensures !HasFeatureBundle(TableSegment("p", mp), map["voice" := "+"])
    ensures HasFeatureBundle(TableSegment("p", mp), map["cons" := "+"])
  {
    var b := TableSegment("b", mb);
    var p := TableSegment("p", mp);
    assert "b" != "*" && "b" != "p" && "-" != "+";
    MismatchedBundleFails(p, map["voice" := "+"], "voice");
    HasFeatureBundleIff(b, map["voice" := "+"]);
    HasFeatureBundleIff(p, map["cons" := "+"]);
  }
}
