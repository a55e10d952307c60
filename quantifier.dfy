/** lib/quantifier.py: the four repetition kinds, each a string enum whose
    value is its suffix. */
module Quantifiers {
  import opened Errors
  import opened Core

  datatype Quantifier = One | ZeroOrOne | ZeroOrMore | OneOrMore

  /** The enum value of each member: the suffix printed after an element. */
  function Suffix(q: Quantifier): (s: seq<Char>)
    ensures |s| <= 1
    ensures s == [] <==> q == One
  {
    match q
    case One => []
    case ZeroOrOne => [QMark]
    case ZeroOrMore => [Star]
    case OneOrMore => [Plus]
  }

  /** `Quantifier(value)`: the member whose value is `s`, if there is one. */
  function FromValue(s: seq<Char>): (r: Option<Quantifier>)
    ensures r.Some? ==> Suffix(r.value) == s
  {
    if s == [] then Some(One)
    else if s == [QMark] then Some(ZeroOrOne)
    else if s == [Star] then Some(ZeroOrMore)
    else if s == [Plus] then Some(OneOrMore)
    else None
  }

  /** The characters the parser reads as a suffix quantifier. */
  predicate IsQuantifierChar(c: Char)
  {
    c == QMark || c == Star || c == Plus
  }

  /** Looking a member up by its own value gives it back, so the values are
      distinct. */
  lemma ValueRoundTrip(q: Quantifier)
    ensures FromValue(Suffix(q)) == Some(q)
  {
  }

  /** Exactly the three quantifier characters name a member, and none of them
      names `One`. */
  lemma {:induction false} QuantifierCharRoundTrip(c: Char)
    ensures IsQuantifierChar(c) <==> FromValue([c]).Some? && FromValue([c]) != Some(One)
    ensures IsQuantifierChar(c) ==> Suffix(FromValue([c]).value) == [c]
  {
    assert [c] != [];
    if c != QMark && c != Star && c != Plus {
      assert [c] != [QMark] && [c] != [Star] && [c] != [Plus];
    }
  }

  /** Distinct members have distinct suffixes. */
  lemma SuffixInjective(a: Quantifier, b: Quantifier)
    ensures Suffix(a) == Suffix(b) ==> a == b
  {
    ValueRoundTrip(a);
    ValueRoundTrip(b);
  }
}
