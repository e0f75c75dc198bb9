# Feature table and segment unification

A Dafny model of the segment model behind a phonological-grammar learner.
A language's segment inventory is a table. Each symbol has one row, and each
categorical feature has one column. The model has four parts:

- the **feature list**: the schema of named features. Labels must be distinct,
  and each feature has its own ordered legal values.
- the **feature table**: built from a decoded inventory of the form
  `{"feature": [...], "feature_table": {symbol: [values]}}`. It checks every
  row against the schema and stores `symbol -> {label: value}`. It also makes
  one segment per symbol.
- the **segment** value and its unification algebra (Riggle's symbol
  unification). A segment meets another segment, the wildcard Joker (`*`) or a
  set of symbols. A feature bundle (a natural class) can be tested against it.
- the **row schema** of the tabular input (`BaseSegment`). It turns `+` and
  `-` into booleans and reads fields by name or by position.

Files, one module each: `wrappers.dfy` (Option, Result), `errors.dfy`
(the exceptions), `feature_list.dfy`, `segment.dfy`, `feature_table.dfy`,
`base_segment.dfy`.

The feature table is a class. Its fields are the source's fields:
`features_list`, `feature_order_dict`, `feature_table_dict` (its key order is
kept as the `alphabet` field) and `segments_list`. The loops of
`FeatureTable.__init__` are methods with loop invariants. A Dafny constructor
cannot raise, so `Load` runs the steps of `__init__` in order and returns
`Err` wherever the source raises. Those steps are: `ValidateDistinct`, the
constructor (which fills the feature order), then `StoreRows`, whose loop runs
`StoreRow` (`ParseRow`, then `Store`) for each row, then `BuildSegments`. The lookups, the segment algebra and the row
schema are functions and lemmas.

The central result is `IntersectIsMeet`. Give each operand a meaning: the
Joker admits every symbol, any other segment admits its own symbol, and a set
admits its members. Then a symbol is admitted by the unification result
exactly when both operands admit it. "No match" is returned only when no
symbol is admitted by both. Two sets, or the Joker and a set, can also meet
in the empty set.

## Model

| member | source | states |
|---|---|---|
| `FeatureLists.Labels` | source/grammar/feature_table.py:29-31 | the label set holds exactly the labels of the features |
| `FeatureLists.WithLabel` | source/grammar/feature_table.py:56 | the features with a given label are features of the list that carry it; there are none iff the label is not declared, and more than one iff two different positions carry it |
| `FeatureLists.DistinctHasSingleDefinitions` | source/grammar/feature_table.py:53-59 | in a list with distinct labels, no label is defined twice (so validation passes) |
| `FeatureLists.SingleDefinitionsDistinct` | source/grammar/feature_table.py:53-59 | if no label is defined twice, all labels are pairwise distinct |
| `FeatureLists.ValidateDistinct` | source/grammar/feature_table.py:53-59 | succeeds iff the labels are pairwise distinct and then returns the list unchanged; on failure it names a label carried by two different features |
| `FeatureLists.DistinctLabelsCount` | source/grammar/feature_table.py:29-31 | for a list with distinct labels, the label set is as large as the list |
| `FeatureLists.ValuesOf` | source/grammar/feature_table.py:33-38 | lookup by label succeeds iff the label is declared and returns a feature's values, the only feature so labelled when labels are distinct; otherwise `KeyError(label)` |
| `FeatureLists.FeatureAt` | source/grammar/feature_table.py:39-40 | lookup by position follows Python list indexing: `-n <= i < n` succeeds, a negative index counts from the end, anything else is `IndexError` |
| `FeatureLists.FeatureAtThenValuesOf` | source/grammar/feature_table.py:33-40 | lookup by position and lookup by label agree: the feature at a position looks up its own values by its label |
| `FeatureLists.HasLabelIffLookup` | source/grammar/feature_table.py:48-50 | `in` with a string is true iff some feature carries that label, iff lookup by that label succeeds |
| `FeatureLists.HasFeatureHasLabel` | source/grammar/feature_table.py:48-51 | a feature contained in the list is also contained by its label |
| `FeatureLists.FeatureType.Contains` | source/grammar/feature_table.py:255-256 | a feature type contains a value iff it is listed at some position |
| `FeatureTables.RowOkIffFeatureTypesContain` | source/grammar/feature_table.py:255-256 | a row is valid iff it has one value per feature and each feature's type contains the value at its position |
| `FeatureLists.HasLabel` | source/grammar/feature_table.py:48-50 | `in` with a string holds iff some feature carries that label |
| `FeatureLists.HasFeature` | source/grammar/feature_table.py:51 | a feature contained in the list has its label contained too |
| `FeatureTables.RowAssignment` | source/grammar/feature_table.py:76-81 | the assignment of a row has exactly the feature labels as keys and maps each label to the value at that feature's position; a legal row gives a legal assignment |
| `FeatureTables.ParseRow` | source/grammar/feature_table.py:73-81 | a row succeeds iff it has one value per feature and each value is legal for its feature; the result is the row's assignment; otherwise a wrong length raises `FeatureCountMismatch` and an illegal value raises `IllegalFeatureValue` |
| `FeatureTables.FeatureTable.constructor` | source/grammar/feature_table.py:64-70 | a new table is empty, and its feature order maps each position `0..n-1` to the feature there |
| `FeatureTables.FeatureTable.Store` | source/grammar/feature_table.py:82 | storing a row is a dictionary store: it maps the symbol to the row, keeps the position of a known symbol and appends a new one; the schema invariant is kept |
| `FeatureTables.FeatureTable.BuildSegments` | source/grammar/feature_table.py:84-85 | afterwards there is exactly one segment per alphabet symbol, in alphabet order, each carrying its row; schema, rows and alphabet are unchanged |
| `FeatureTables.IsRowAssignment` | source/grammar/feature_table.py:76-81 | a map whose keys are the row's labels and which gives each label the value at its position is the row's assignment |
| `FeatureTables.StoreRow` | source/grammar/feature_table.py:71-82 | one row: an invalid row raises its row error and leaves the table unchanged; a valid row is stored under its new symbol, extending the alphabet and the stored rows by one |
| `FeatureTables.StoreRows` | source/grammar/feature_table.py:71-82 | the row loop succeeds iff every row is valid, otherwise the error is that of the first invalid row; on success the alphabet is the row symbols in order and each symbol maps to its row's assignment; the schema invariant is kept |
| `FeatureTables.Load` | source/grammar/feature_table.py:63-85 | construction succeeds iff the labels are distinct and every row is valid; a duplicated label is reported first; otherwise the first invalid row in dictionary order decides the error; on success the alphabet is the row symbols in order, each symbol maps to its row's assignment, and the table invariant holds |
| `FeatureTables.FeatureTable.NumberOfFeatures` | source/grammar/feature_table.py:101-102 | the number of features equals the number of distinct labels, and every stored row has exactly that many entries |
| `FeatureTables.FeatureTable.Features` | source/grammar/feature_table.py:104-105 | the label set has one label per feature and is the key set of every stored row |
| `FeatureTables.FeatureTable.Alphabet` | source/grammar/feature_table.py:110-111 | the alphabet lists each key of the table once, and nothing else |
| `FeatureTables.FeatureTable.SegmentList` | source/grammar/feature_table.py:113-114 | one segment per alphabet symbol in alphabet order, each with that symbol's row |
| `FeatureTables.ValidityQueries` | source/grammar/feature_table.py:122-126 | `is_valid_symbol` holds iff the symbol is in the alphabet, iff its row can be looked up; `is_valid_feature` holds iff the label is a feature label, iff lookup by label succeeds |
| `FeatureTables.FeatureTable.Lookup` | source/grammar/feature_table.py:151-153 | lookup by symbol succeeds iff the symbol is valid and gives the symbol's stored row, a complete legal assignment; otherwise `KeyError(symbol)` |
| `FeatureTables.FeatureTable.LookupValue` | source/grammar/feature_table.py:157-159 | lookup by `(symbol, label)` succeeds iff both are known and gives the value stored for that symbol and label, a legal value of that feature; an unknown symbol raises before an unknown label |
| `FeatureTables.FeatureTable.IsValidFeature` | source/grammar/feature_table.py:122-123 | a label is valid iff some feature of the table carries it |
| `FeatureTables.FeatureTable.IsValidSymbol` | source/grammar/feature_table.py:125-126 | in a table whose keys follow the alphabet, a symbol is valid iff it is in the alphabet |
| `FeatureTables.FeatureTable.OrderedFeatureVector` | source/grammar/feature_table.py:119-120 | corrected: for a known symbol the vector has one value per feature, in feature order, each the symbol's stored value for that feature's label and legal for it; an unknown symbol raises `KeyError` unless there are no features |
| `FeatureTables.OrderedVectorAgreesWithLookup` | source/grammar/feature_table.py:119-120 | the corrected vector has `get_number_of_features()` entries, and its i-th entry is what `table[symbol, label]` gives for the i-th feature's label |
| `FeatureTables.FeatureTable.OrderedFeatureVectorAsWritten` | source/grammar/feature_table.py:119-120 | as written: with at least one feature the lookup always fails; with none it returns the empty list |
| `FeatureTables.LookupByKey` | source/grammar/feature_table.py:120 | a label key finds the row's value or fails; a `Feature` object as key always fails |
| `FeatureTables.CollectValues` | source/grammar/feature_table.py:120 | the comprehension succeeds iff there are no keys, or the row exists and every key is found; the result has one value per key, each the value found |
| `FeatureTables.OrderedVectorRoundTrip` | source/grammar/feature_table.py:76-82 | round trip: the ordered vector of a stored symbol is exactly the row it was built from |
| `FeatureTables.AsWrittenVectorFails` | source/grammar/feature_table.py:119-120 | with at least one feature, the as-written vector fails for every known symbol while the corrected one succeeds |
| `Segments.EncodingLength` | source/grammar/feature_table.py:171-172 | the number of labels in the segment's assignment; what it equals in a table is proved by `FeatureTables.TableSegmentEncodingLength` |
| `FeatureTables.TableSegmentEncodingLength` | source/grammar/feature_table.py:171-172 | every segment of a constructed table carries a row, and its encoding length equals the number of features |
| `FeatureTables.VoiceConsRowErrors` | source/grammar/feature_table.py:74-80 | worked example: a one-value row is a count mismatch, a `"0"` value is illegal, and `[+, +]` is accepted |
| `FeatureTables.VoiceConsAssignment` | source/grammar/feature_table.py:76-81 | worked example: a row `[v, c]` of the voice/cons schema has exactly the keys `voice` and `cons`, with `voice` giving v and `cons` giving c |
| `FeatureTables.VoicingPair` | source/grammar/feature_table.py:197-207 | worked example: for rows `b = [+, +]` and `p = [-, +]`, `b` meets `{b, p}` and does not meet `p`; `b` is in the class `[+voice]` and `p` is not; `p` is in `[+cons]` |
| `Segments.SpecialSegments` | source/grammar/feature_table.py:234-235 | `NULL_SEGMENT` and `JOKER_SEGMENT` carry no assignment; only the Joker is a wildcard, and Null meets only itself or the Joker |
| `Segments.Equals` | source/grammar/feature_table.py:209-212 | nothing equals `None`, and equal segments hash alike under every hash function |
| `Segments.Intersect` | source/grammar/feature_table.py:180-190 | the result admits exactly the symbols both operands admit, and a segment result is one of the operands |
| `Segments.EqualsIsEquivalence` | source/grammar/feature_table.py:209-212 | segment equality is reflexive, symmetric and transitive; it is false against `None` and true iff the symbols are equal, whatever the feature content |
| `Segments.EqualSegmentsHashAlike` | source/grammar/feature_table.py:209-215 | equal segments have equal hashes, since the hash depends only on the symbol |
| `Segments.And` | source/grammar/feature_table.py:192-207 | the result admits exactly the symbols both operands admit; it is the other operand or the segment itself, and the other operand only when the segment is the Joker |
| `Segments.IntersectIsMeet` | source/grammar/feature_table.py:180-207 | unification is exactly the meet of what the operands admit, for all four operand combinations |
| `Segments.JokerLeftIdentity` | source/grammar/feature_table.py:197-198 | `JOKER & x == x` for every segment or set `x` |
| `Segments.JokerRightIdentity` | source/grammar/feature_table.py:187-190 | `intersect(x, JOKER)` is `x` for a set or a non-Joker segment |
| `Segments.SegmentMeetsSet` | source/grammar/feature_table.py:187-201 | a non-Joker segment meets a set iff its symbol is a member, giving itself or no match; a set meets a segment as the segment meets the set |
| `Segments.SegmentMeetsSegment` | source/grammar/feature_table.py:202-207 | a non-Joker segment meets a segment iff the two are equal or the other is the Joker, and then the result is the first segment |
| `Segments.SetMeetsSet` | source/grammar/feature_table.py:187-190 | two sets meet by set intersection |
| `Segments.IntersectCommutes` | source/grammar/feature_table.py:180-207 | swapping the operands gives an equal outcome: both no match, segments with equal symbols, or equal sets |
| `Segments.IntersectRefines` | source/grammar/feature_table.py:192-207 | a segment result is one of the operands; a set result from a segment first operand arises only from the Joker, and it is the other operand |
| `Segments.DistinctSegmentsDoNotMeet` | source/grammar/feature_table.py:202-207 | two non-Joker segments with different symbols never unify |
| `Segments.HasFeatureBundle` | source/grammar/feature_table.py:174-175 | every pair of the bundle is an item of the segment's assignment; the empty bundle holds even for a segment without one |
| `Segments.HasFeatureBundleIff` | source/grammar/feature_table.py:174-175 | a segment has a bundle iff each bundle label is in its assignment with the bundle's value |
| `Segments.EmptyBundleHolds` | source/grammar/feature_table.py:174-175 | the empty bundle holds for every segment, the Joker and Null included |
| `Segments.MismatchedBundleFails` | source/grammar/feature_table.py:174-175 | a bundle asking for a label the segment lacks, or for a different value, fails |
| `Segments.SubBundleHolds` | source/grammar/feature_table.py:174-175 | membership passes to sub-bundles: a smaller bundle describes a larger class |
| `Segments.FeatureValue` | source/grammar/feature_table.py:228-229 | a segment's value for a label exists iff the label is in its assignment, and that single-pair bundle then holds; otherwise `KeyError` |
| `BaseSegments.ParseBool` | src/grammar/base_segment.py:16-23 | the result is a boolean iff the input was a boolean, `"+"` or `"-"`; a string result is the input unchanged |
| `BaseSegments.ParseBoolOfSign` | src/grammar/base_segment.py:19-22 | `"+"` parses to true and `"-"` to false |
| `BaseSegments.ParseBoolPassesOthers` | src/grammar/base_segment.py:23 | every other value is returned unchanged |
| `BaseSegments.ParseBoolIdempotent` | src/grammar/base_segment.py:16-23 | parsing twice gives the same value as parsing once |
| `BaseSegments.Attribute` | src/grammar/base_segment.py:29 | the attribute read is the value of a field with that name, and the only such field when names are distinct |
| `BaseSegments.Get` | src/grammar/base_segment.py:25-31 | lookup by name succeeds iff the field was set at construction and gives that field's value; otherwise `KeyError(name)` |
| `BaseSegments.BoolValues` | src/grammar/base_segment.py:34 | the boolean values are values of boolean fields, at most one per field |
| `BaseSegments.BoolValuesAppend` | src/grammar/base_segment.py:34 | the boolean values of two field lists joined are the boolean values of each, in order |
| `BaseSegments.BoolValuesOfField` | src/grammar/base_segment.py:34 | a single field contributes its value iff it is a boolean |
| `BaseSegments.GetAt` | src/grammar/base_segment.py:32-35 | lookup by position returns a boolean, the k-th boolean field with Python indexing (negative from the end); out of range is `IndexError` |
| `BaseSegments.PositionOfFlag` | src/grammar/base_segment.py:32-35 | for any schema, a boolean field is read at the position that counts the boolean fields declared before it; string fields in between are skipped |
| `BaseSegments.BoolValuesOfBoolFields` | src/grammar/base_segment.py:34 | when every field is boolean, each one contributes its value, in declaration order |
| `BaseSegments.PositionSkipsSymbol` | src/grammar/base_segment.py:25-35 | for a record with `symbol` followed by boolean fields, position k skips `symbol` and gives the field declared k-th after it, the same value as lookup by that field's name |
| `BaseSegments.FrenchSegment` | src/tests/fixtures/french_deletion/segment.py:4-11 | a fixture row has `symbol` and then the seven flags in declaration order, all set |
| `BaseSegments.FrenchFixtureLookups` | src/tests/fixtures/french_deletion/segment.py:4-11 | in the fixture, position k and the k-th flag name read the same boolean, and `symbol` reads the symbol |

## Findings

| source | as written | input that shows it | evidently intended | confidence | as-written member | corrected member |
|---|---|---|---|---|---|---|
| source/grammar/feature_table.py:119-120 | each element is `self[char][self.feature_order_dict[i]]`. The key is a `Feature` object, but the per-symbol dictionary is keyed by label strings (line 81), so the lookup raises | any table with at least one feature and any known symbol, e.g. features `voice`, `cons` and symbol `b` | `self[char][self.features_list[i].label]`: the symbol's values in feature order, `[+, +]` for `b` | high; not executed | `FeatureTables.FeatureTable.OrderedFeatureVectorAsWritten` (with `FeatureTables.AsWrittenVectorFails`) | `FeatureTables.FeatureTable.OrderedFeatureVector` (with `FeatureTables.OrderedVectorRoundTrip`) |

## Left out

- Randomness: `get_random_value`, `get_random_segment` and `FeatureType.get_random_value` only promise that the result comes from a list, and the random choice is not modelled.
- Input decoding and file reading (`FeatureTable.loads`, `FeatureTable.load`). The model starts from the decoded dictionary. `load` hands a list of records to a constructor that indexes it as a dictionary, so only the dictionary form is modelled.
- Duplicate symbols: the input is a dictionary, so its keys are distinct (`IsDictionary`). A repeated key in the JSON text has already collapsed before the constructor runs. `Store` still has the dictionary's overwrite semantics.
- `FeatureTable.__getitem__` with an integer (source/grammar/feature_table.py:154-156) indexes the symbol dictionary with a `Feature` object. As written it always fails, and the comment beside it leaves the intended result open, so it is not modelled.
- The string renderings (`__unicode__`, `__repr__`) are presentation only. So is `FeatureTable.__unicode__`'s use of the feature order.
- `get_segments` returns a deep copy. In a value model the copy equals the list, so `FeatureTables.FeatureTable.SegmentList` returns the sequence.
- A segment's back-reference to its table is not kept. A table segment carries its row, and the Joker and Null carry none.
- `Segments.EncodingLength`, `Segments.FeatureValue`: they require a segment with an assignment. The source raises `AttributeError` on the Joker and Null, and that error is not modelled.
- `Segments.HasFeatureBundle`: it requires a segment with an assignment or an empty bundle. The source raises `AttributeError` for a non-empty bundle on the Joker and Null, and that error is not modelled.
- The bundle's own type is external. A bundle is modelled by the dictionary its `get_feature_dict()` returns.
- `__hash__` is modelled as a hash function of the symbol, passed as a parameter. Python's string hash is not modelled.
- `BaseSegment` construction (pydantic's `model_validate`, its type checks and `extra="forbid"`) is library code. A segment is modelled as its already validated fields and the set of field names that were set. `parse_bool` is modelled on its own. Note that it also runs on the `symbol` field.
- Indexing with a key that is neither a string nor an integer returns `None` in `FeatureList.__getitem__` and `BaseSegment.__getitem__`. Such keys are not modelled.
- Configuration loading, logging, mail, timing and the randomisation helpers are outside the segment model.
