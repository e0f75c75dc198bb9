/**
  The segment value type (`Segment_`) and its unification algebra, after the
  "symbol unification" of Riggle (2004). A segment is identified by its symbol;
  a segment built from a feature table also carries that symbol's feature
  assignment, while the two special segments, Joker ("*") and Null ("-"), are
  built without a table and carry none.
 */
module Segments {
  import opened Wrappers
  import opened Errors

  /** A feature assignment: feature label to feature value. */
  type Assignment = map<string, string>

  datatype Segment = Segment(symbol: string, assignment: Option<Assignment>)

  const JOKER_SYMBOL: string := "*"
  const NULL_SYMBOL: string := "-"

  /** `JOKER_SEGMENT`: the wildcard, built without a feature table. */
  const JOKER: Segment := Segment(JOKER_SYMBOL, None)

  /** `NULL_SEGMENT`: the empty alignment slot, built without a feature table. */
  const NULL: Segment := Segment(NULL_SYMBOL, None)

  /** `Segment_.__eq__`: never equal to `None`, otherwise equal iff the symbols are equal. */
  predicate Equals(s: Segment, other: Option<Segment>)
    ensures Equals(s, other) ==> other.Some? && forall h: string -> int :: Hash(s, h) == Hash(other.value, h)
  {
    other.Some? && s.symbol == other.value.symbol
  }

  /** `self == JOKER_SEGMENT`: any segment whose symbol is the wildcard's. */
  predicate IsJoker(s: Segment)
  {
    Equals(s, Some(JOKER))
  }

  /** `Segment_.__hash__`: the hash of the symbol, for a given string hash `h`. */
  function Hash(s: Segment, h: string -> int): int
  {
    h(s.symbol)
  }

  /**
    The two special segments carry no assignment; only the Joker is a
    wildcard, and Null is an ordinary symbol that meets only itself or the
    Joker.
   */
  lemma SpecialSegments(t: Segment)
    ensures JOKER.assignment.None? && NULL.assignment.None?
    ensures IsJoker(JOKER) && !IsJoker(NULL)
    ensures Intersect(Single(NULL), Single(t)) == if t.symbol == NULL_SYMBOL || IsJoker(t) then Some(Single(NULL)) else None
  {
    assert NULL_SYMBOL != JOKER_SYMBOL;
  }

  /** Segment equality is an equivalence relation that ignores the feature content. */
  lemma EqualsIsEquivalence(a: Segment, b: Segment, c: Segment)
    ensures Equals(a, Some(a))
    ensures Equals(a, Some(b)) <==> Equals(b, Some(a))
    ensures Equals(a, Some(b)) && Equals(b, Some(c)) ==> Equals(a, Some(c))
    ensures !Equals(a, None)
    ensures Equals(a, Some(b)) <==> a.symbol == b.symbol
  {
  }

  /** Equal segments hash alike, whatever their feature content. */
  lemma EqualSegmentsHashAlike(a: Segment, b: Segment, h: string -> int)
    requires Equals(a, Some(b))
    ensures Hash(a, h) == Hash(b, h)
  {
  }

  /** An operand of unification: a segment, or a set of symbols (a natural class). */
  datatype Operand = Single(segment: Segment) | Symbols(symbols: set<string>)

  /**
    The symbols an operand admits: every symbol for the Joker, its own symbol
    for another segment, its members for a set. This is the reference meaning
    against which unification is proved.
   */
  predicate Admits(o: Operand, c: string)
  {
    match o
    case Single(s) => IsJoker(s) || s.symbol == c
    case Symbols(cs) => c in cs
  }

  /** What a unification result admits: nothing for "no match". */
  predicate ResultAdmits(r: Option<Operand>, c: string)
  {
    r.Some? && Admits(r.value, c)
  }

  /**
    `Segment_.__and__`: the Joker yields the other operand; a segment meets a
    set by membership of its symbol; it meets a segment that is equal to it or
    is the Joker. Anything else is "no match".
   */
  function And(s: Segment, other: Operand): (r: Option<Operand>)
    ensures forall c :: ResultAdmits(r, c) <==> Admits(Single(s), c) && Admits(other, c)
    ensures r.Some? ==> r == Some(other) || r == Some(Single(s))
    ensures r == Some(other) && r != Some(Single(s)) ==> IsJoker(s)
  {
    if IsJoker(s) then Some(other)
    else match other
      case Symbols(cs) => if s.symbol in cs then Some(Single(s)) else None
      case Single(t) =>
        if Equals(s, Some(t)) then Some(Single(s))
        else if IsJoker(t) then Some(Single(s))
        else None
  }

  /**
    `Segment_.intersect`: a set first operand is swapped to second so that a
    segment's `&` applies; two sets meet by ordinary set intersection.
   */
  function Intersect(x: Operand, y: Operand): (r: Option<Operand>)
    ensures forall c :: ResultAdmits(r, c) <==> Admits(x, c) && Admits(y, c)
    ensures r.Some? && r.value.Single? ==> r.value == x || r.value == y
  {
    match x
    case Symbols(a) =>
      (match y
       case Symbols(b) => Some(Symbols(a * b))
       case Single(s) => And(s, x))
    case Single(s) => And(s, y)
  }

  /**
    Unification is exactly the meet of what the two operands admit: a symbol
    is admitted by the result iff both operands admit it, and "no match" is
    returned only when no symbol is admitted by both.
   */
  lemma IntersectIsMeet(x: Operand, y: Operand, c: string)
    ensures ResultAdmits(Intersect(x, y), c) <==> Admits(x, c) && Admits(y, c)
  {
  }

  /** The Joker is a left identity: `JOKER & x == x` for every operand. */
  lemma JokerLeftIdentity(x: Operand)
    ensures Intersect(Single(JOKER), x) == Some(x)
  {
  }

  /** The Joker is a right identity for segments and sets alike. */
  lemma JokerRightIdentity(x: Operand)
    ensures x.Symbols? || !IsJoker(x.segment) ==> Intersect(x, Single(JOKER)) == Some(x)
    ensures x.Single? && IsJoker(x.segment) ==> Intersect(x, Single(JOKER)) == Some(Single(JOKER))
  {
  }

  /** A segment meets a set of symbols iff its symbol is a member (or it is the Joker). */
  lemma SegmentMeetsSet(s: Segment, cs: set<string>)
    ensures !IsJoker(s) ==> (Intersect(Single(s), Symbols(cs)) == if s.symbol in cs then Some(Single(s)) else None)
    ensures Intersect(Symbols(cs), Single(s)) == Intersect(Single(s), Symbols(cs))
  {
  }

  /** Two segments meet iff they are equal or one is the Joker; the first one is returned. */
  lemma SegmentMeetsSegment(s: Segment, t: Segment)
    requires !IsJoker(s)
    ensures Intersect(Single(s), Single(t)) == if Equals(s, Some(t)) || IsJoker(t) then Some(Single(s)) else None
  {
  }

  /** Two sets meet by set intersection. */
  lemma SetMeetsSet(a: set<string>, b: set<string>)
    ensures Intersect(Symbols(a), Symbols(b)) == Some(Symbols(a * b))
  {
  }

  /**
    Two unification results compare equal in the source's terms: both "no
    match", two segments with the same symbol, or two equal sets.
   */
  predicate SameOutcome(r: Option<Operand>, q: Option<Operand>)
  {
    match (r, q)
    case (None, None) => true
    case (Some(Single(s)), Some(Single(t))) => Equals(s, Some(t))
    case (Some(Symbols(a)), Some(Symbols(b))) => a == b
    case _ => false
  }

  /**
    Unification is commutative: swapping the operands gives the same outcome
    (two segments may come back as different, equal, segment values).
   */
  lemma IntersectCommutes(x: Operand, y: Operand)
    ensures SameOutcome(Intersect(x, y), Intersect(y, x))
  {
    match (x, y)
    case (Symbols(a), Symbols(b)) =>
      assert a * b == b * a;
    case _ =>
  }

  /**
    A non-"no match" result never loses information: a segment result is one
    of the operands, and a set result is a set operand met by the Joker or the
    intersection of two sets.
   */
  lemma IntersectRefines(x: Operand, y: Operand)
    ensures Intersect(x, y).Some? && Intersect(x, y).value.Single? ==>
      Intersect(x, y).value == x || Intersect(x, y).value == y
    ensures Intersect(x, y).Some? && Intersect(x, y).value.Symbols? && x.Single? ==>
      IsJoker(x.segment) && Intersect(x, y) == Some(y)
  {
  }

  /** Distinct non-wildcard segments never unify. */
  lemma DistinctSegmentsDoNotMeet(s: Segment, t: Segment)
    requires s.symbol != t.symbol && !IsJoker(s) && !IsJoker(t)
    ensures Intersect(Single(s), Single(t)) == None
  {
  }

  /**
    `Segment_.has_feature_bundle`: every (label, value) pair of the bundle is
    an item of the segment's assignment. Only segments built from a table have
    an assignment. The source reads it once per pair of the bundle, so on the
    Joker and Null it fails for a non-empty bundle and holds for the empty one.
   */
  predicate HasFeatureBundle(s: Segment, bundle: Assignment)
    requires s.assignment.Some? || bundle == map[]
  {
    s.assignment.None? || bundle.Items <= s.assignment.value.Items
  }

  /** Membership in a natural class, pointwise: each bundle label is present with the bundle's value. */
  lemma HasFeatureBundleIff(s: Segment, bundle: Assignment)
    requires s.assignment.Some?
    ensures HasFeatureBundle(s, bundle) <==>
      forall l :: l in bundle ==> l in s.assignment.value && s.assignment.value[l] == bundle[l]
  {
    var a := s.assignment.value;
    if HasFeatureBundle(s, bundle) {
      forall l | l in bundle ensures l in a && a[l] == bundle[l] {
        assert (l, bundle[l]) in bundle.Items;
      }
    }
    if forall l :: l in bundle ==> l in a && a[l] == bundle[l] {
      forall item | item in bundle.Items ensures item in a.Items {
        assert item.0 in bundle && bundle[item.0] == item.1;
        assert (item.0, a[item.0]) in a.Items;
      }
    }
  }

  /** The empty bundle describes every segment, the Joker and Null included. */
  lemma EmptyBundleHolds(s: Segment)
    ensures HasFeatureBundle(s, map[])
  {
  }

  /** A bundle that asks for a value the segment does not hold fails. */
  lemma MismatchedBundleFails(s: Segment, bundle: Assignment, l: string)
    requires s.assignment.Some?
    requires l in bundle && (l !in s.assignment.value || s.assignment.value[l] != bundle[l])
    ensures !HasFeatureBundle(s, bundle)
  {
    HasFeatureBundleIff(s, bundle);
  }

  /** A smaller bundle describes a larger class: membership is inherited by sub-bundles. */
  lemma SubBundleHolds(s: Segment, small: Assignment, large: Assignment)
    requires s.assignment.Some?
    requires small.Items <= large.Items
    requires HasFeatureBundle(s, large)
    ensures HasFeatureBundle(s, small)
  {
  }

  /**
    `Segment_.get_encoding_length`: the number of features in the segment's
    assignment.
   */
  function EncodingLength(s: Segment): (n: nat)
    requires s.assignment.Some?
  {
    |s.assignment.value|
  }

  /** `Segment_.__getitem__`: the segment's value for a label, `KeyError` when it has none. */
  function FeatureValue(s: Segment, l: string): (r: Result<string, Error>)
    requires s.assignment.Some?
    ensures r.Ok? <==> l in s.assignment.value
    ensures r.Ok? ==> HasFeatureBundle(s, map[l := r.value])
    ensures r.Err? ==> r.error == KeyError(l)
  {
    if l in s.assignment.value then
      assert (l, s.assignment.value[l]) in s.assignment.value.Items;
      Ok(s.assignment.value[l])
    else Err(KeyError(l))
  }
}
