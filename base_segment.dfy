/**
  The row schema of the tabular inventory (`BaseSegment`): a frozen record
  with a `symbol` field followed by the feature fields a concrete schema
  declares. Every raw field value is passed through `ParseBool` first, so the
  spreadsheet's "+" and "-" arrive as booleans. Being frozen, a segment is a
  value: reading a field never changes it.
 */
module BaseSegments {
  import opened Wrappers
  import opened Errors

  /** A field value as the schema sees it: a raw string or a boolean. */
  datatype Value = Str(s: string) | Bool(b: bool)

  /** `BaseSegment.parse_bool`: "+" becomes true, "-" becomes false, any other value passes unchanged. */
  function ParseBool(item: Value): (r: Value)
    ensures r.Bool? <==> item.Bool? || item == Str("+") || item == Str("-")
    ensures r.Str? ==> r == item
  {
    if item == Str("+") then Bool(true)
    else if item == Str("-") then Bool(false)
    else item
  }

  /** The sign a table cell uses for a binary feature value. */
  function Sign(b: bool): string
  {
    if b then "+" else "-"
  }

  /** Parsing a sign gives back the boolean it encodes. */
  lemma ParseBoolOfSign(b: bool)
    ensures ParseBool(Str(Sign(b))) == Bool(b)
  {
  }

  /** Only the two signs are turned into booleans; other strings and all booleans pass. */
  lemma ParseBoolPassesOthers(item: Value)
    requires item != Str("+") && item != Str("-")
    ensures ParseBool(item) == item
  {
  }

  /** Parsing twice is parsing once. */
  lemma ParseBoolIdempotent(item: Value)
    ensures ParseBool(ParseBool(item)) == ParseBool(item)
  {
  }

  /** A field of the record: its name and its (parsed) value. */
  datatype Field = Field(name: string, value: Value)

  /**
    A constructed segment: its fields in declaration order (`symbol` first, as
    `model_dump` lists them) and the names of the fields set at construction.
   */
  datatype BaseSegment = BaseSegment(fields: seq<Field>, fieldsSet: set<string>)

  /** The names of the declared fields. */
  function Names(fs: seq<Field>): (ns: set<string>)
    ensures forall n :: n in ns <==> exists i :: 0 <= i < |fs| && fs[i].name == n
  {
    set f | f in fs :: f.name
  }

  /** The declared fields have distinct names. */
  predicate DistinctNames(fs: seq<Field>)
  {
    forall i, j :: 0 <= i < j < |fs| ==> fs[i].name != fs[j].name
  }

  /** `getattr(self, key)`: the value of the field named `key`. */
  function Attribute(fs: seq<Field>, key: string): (v: Value)
    requires key in Names(fs)
    ensures exists i :: 0 <= i < |fs| && fs[i].name == key && fs[i].value == v
    ensures DistinctNames(fs) ==> forall i :: 0 <= i < |fs| && fs[i].name == key ==> fs[i].value == v
  {
    if fs[0].name == key then fs[0].value
    else
      assert key in Names(fs[1..]) by {
        var i :| 0 <= i < |fs| && fs[i].name == key;
        assert fs[1..][i - 1] == fs[i];
      }
      var v := Attribute(fs[1..], key);
      assert forall i :: 1 <= i < |fs| ==> fs[i] == fs[1..][i - 1];
      v
  }

  /**
    `BaseSegment.__getitem__` with a string: the value of a field that was set
    at construction, `KeyError` for any other name.
   */
  function Get(seg: BaseSegment, key: string): (r: Result<Value, Error>)
    requires seg.fieldsSet <= Names(seg.fields)
    ensures r.Ok? <==> key in seg.fieldsSet
    ensures r.Err? ==> r.error == KeyError(key)
    ensures r.Ok? ==> exists i :: 0 <= i < |seg.fields| && seg.fields[i].name == key && seg.fields[i].value == r.value
  {
    if key in seg.fieldsSet then Ok(Attribute(seg.fields, key)) else Err(KeyError(key))
  }

  /** `[x for x in self.model_dump().values() if type(x) == bool]`: the boolean field values, in order. */
  function BoolValues(fs: seq<Field>): (bs: seq<bool>)
    ensures |bs| <= |fs|
    ensures forall k :: 0 <= k < |bs| ==> exists i :: 0 <= i < |fs| && fs[i].value == Bool(bs[k])
  {
    if fs == [] then []
    else
      var rest := BoolValues(fs[1..]);
      assert forall i :: 1 <= i < |fs| ==> fs[i] == fs[1..][i - 1];
      if fs[0].value.Bool? then [fs[0].value.b] + rest else rest
  }

  /**
    `BaseSegment.__getitem__` with an integer: the k-th boolean field value,
    with Python list indexing (a negative index counts from the end, one out
    of range raises).
   */
  function GetAt(seg: BaseSegment, k: int): (r: Result<Value, Error>)
    ensures r.Ok? <==> -|BoolValues(seg.fields)| <= k < |BoolValues(seg.fields)|
    ensures r.Ok? ==> r.value.Bool?
    ensures r.Ok? && k >= 0 ==> r.value == Bool(BoolValues(seg.fields)[k])
    ensures r.Ok? && k < 0 ==> r.value == Bool(BoolValues(seg.fields)[|BoolValues(seg.fields)| + k])
    ensures r.Err? ==> r.error == IndexError(k)
  {
    var features := BoolValues(seg.fields);
    if 0 <= k < |features| then Ok(Bool(features[k]))
    else if -|features| <= k < 0 then Ok(Bool(features[|features| + k]))
    else Err(IndexError(k))
  }

  /** Fields that are all booleans contribute every value, in declaration order. */
  lemma {:induction false} BoolValuesOfBoolFields(fs: seq<Field>)
    requires forall i :: 0 <= i < |fs| ==> fs[i].value.Bool?
    ensures |BoolValues(fs)| == |fs|
    ensures forall i :: 0 <= i < |fs| ==> BoolValues(fs)[i] == fs[i].value.b
  {
    if fs != [] {
      BoolValuesOfBoolFields(fs[1..]);
      assert forall i :: 1 <= i < |fs| ==> fs[i] == fs[1..][i - 1];
    }
  }

  /** The boolean values of a concatenation are those of each part, in order: the filter keeps declaration order. */
  lemma {:induction false} BoolValuesAppend(a: seq<Field>, b: seq<Field>)
    ensures BoolValues(a + b) == BoolValues(a) + BoolValues(b)
  {
    if a == [] {
      assert a + b == b;
    } else {
      assert (a + b)[1..] == a[1..] + b;
      BoolValuesAppend(a[1..], b);
    }
  }

  /** One field contributes its value if it is a boolean, and nothing otherwise. */
  lemma BoolValuesOfField(f: Field)
    ensures BoolValues([f]) == if f.value.Bool? then [f.value.b] else []
  {
    assert [f][1..] == [];
  }

  /**
    Position follows declaration order with non-boolean fields skipped: a
    boolean field is found at the position that counts the boolean fields
    declared before it, whatever other fields are interleaved.
   */
  lemma PositionOfFlag(seg: BaseSegment, i: int)
    requires 0 <= i < |seg.fields| && seg.fields[i].value.Bool?
    ensures GetAt(seg, |BoolValues(seg.fields[..i])|) == Ok(seg.fields[i].value)
  {
    var fs := seg.fields;
    assert fs == fs[..i] + ([fs[i]] + fs[i + 1..]);
    BoolValuesAppend(fs[..i], [fs[i]] + fs[i + 1..]);
    BoolValuesAppend([fs[i]], fs[i + 1..]);
    BoolValuesOfField(fs[i]);
  }

  /** A segment whose only non-boolean field is its leading string `symbol`. */
  predicate SymbolThenFlags(seg: BaseSegment)
  {
    && |seg.fields| >= 1
    && seg.fields[0] == Field("symbol", seg.fields[0].value)
    && seg.fields[0].value.Str?
    && (forall i :: 1 <= i < |seg.fields| ==> seg.fields[i].value.Bool?)
    && DistinctNames(seg.fields)
    && seg.fieldsSet == Names(seg.fields)
  }

  /**
    Position and label agree: the k-th boolean of a symbol-then-flags segment
    is the field declared k-th after `symbol` (the symbol is skipped), and
    looking that field up by name gives the same value.
   */
  lemma PositionSkipsSymbol(seg: BaseSegment, k: int)
    requires SymbolThenFlags(seg)
    requires 0 <= k < |seg.fields| - 1
    ensures GetAt(seg, k) == Ok(seg.fields[k + 1].value)
    ensures GetAt(seg, k) == Get(seg, seg.fields[k + 1].name)
  {
    var fs := seg.fields;
    BoolValuesOfBoolFields(fs[1..]);
    assert BoolValues(fs) == BoolValues(fs[1..]);
    assert fs[1..][k] == fs[k + 1];
    assert fs[k + 1].name in Names(fs);
  }

  /** The boolean fields of the French-deletion fixture, in declaration order. */
  const FRENCH_FLAGS: seq<string> := ["cons", "high", "stop", "son", "voice", "labial", "liquid"]

  /** A row of the French-deletion fixture schema, fully set. */
  function FrenchSegment(symbol: string, flags: seq<bool>): (seg: BaseSegment)
    requires |flags| == |FRENCH_FLAGS|
    ensures SymbolThenFlags(seg)
    ensures |seg.fields| == |FRENCH_FLAGS| + 1
    ensures forall k :: 0 <= k < |FRENCH_FLAGS| ==> seg.fields[k + 1] == Field(FRENCH_FLAGS[k], Bool(flags[k]))
  {
    var fs := [Field("symbol", Str(symbol))] + seq(|FRENCH_FLAGS|, i requires 0 <= i < |FRENCH_FLAGS| => Field(FRENCH_FLAGS[i], Bool(flags[i])));
    BaseSegment(fs, Names(fs))
  }

  /** In the fixture, position k and the k-th declared flag name read the same boolean. */
  lemma FrenchFixtureLookups(symbol: string, flags: seq<bool>, k: int)
    requires |flags| == |FRENCH_FLAGS| && 0 <= k < |FRENCH_FLAGS|
    ensures GetAt(FrenchSegment(symbol, flags), k) == Ok(Bool(flags[k]))
    ensures Get(FrenchSegment(symbol, flags), FRENCH_FLAGS[k]) == Ok(Bool(flags[k]))
    ensures Get(FrenchSegment(symbol, flags), "symbol") == Ok(Str(symbol))
  {
    var seg := FrenchSegment(symbol, flags);
    PositionSkipsSymbol(seg, k);
    assert seg.fields[0].name in Names(seg.fields);
  }
}
