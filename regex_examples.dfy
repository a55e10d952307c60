/** Parses of small patterns, one per rule of the parser in lib/regex.py. */
module RegexExamples {
  import opened Errors
  import opened Core
  import opened Quantifiers
  import opened CharSeqs
  import opened Chars
  import opened Regexes

  /** The element a plain character becomes. */
  function Letter(c: char): Element
  {
    Class(CharClass([c as int], One, false))
  }

  const A: Char := 'a' as int
  const B: Char := 'b' as int
  const C: Char := 'c' as int

  /** "ab": two one-character classes. */
  lemma PlainPattern()
    ensures Parse([A, B]) == Ok(Regex([Letter('a'), Letter('b')], One))
  {
    var s: seq<Char> := [A, B];
    PlainRule(s, 1, true, [Letter('a')]);
    PlainRule(s, 0, true, []);
    assert [] + [Class(CharClass([s[0]], One, false))] == [Letter('a')];
    assert [Letter('a')] + [Class(CharClass([s[1]], One, false))] == [Letter('a'), Letter('b')];
    assert Parsed(s, 0, true, []) == Ok(([Letter('a'), Letter('b')], 2));
  }

  /** "a*": the class of `a` with quantifier `*`. */
  lemma StarPattern()
    ensures Parse([A, Star]) == Ok(Regex([Class(CharClass([A], ZeroOrMore, false))], One))
  {
    var s: seq<Char> := [A, Star];
    var a := Class(CharClass([A], ZeroOrMore, false));
    QuantifierRule(s, 1, true, [Letter('a')]);
    PlainRule(s, 0, true, []);
    assert [] + [Class(CharClass([s[0]], One, false))] == [Letter('a')];
    assert FromValue([Star]) == Some(ZeroOrMore);
    assert [Letter('a')][..0] + [WithQuantifier(Letter('a'), ZeroOrMore)] == [a];
    assert Parsed(s, 0, true, []) == Ok(([a], 2));
  }

  /** "*": nothing to repeat. */
  lemma BareQuantifier()
    ensures Parse([Star]) == Err(NothingToRepeat)
  {
    QuantifierRule([Star], 0, true, []);
    assert Parsed([Star], 0, true, []) == Err(NothingToRepeat);
  }

  /** The group body of "(ab)?": two classes, ending after the `)`. */
  lemma GroupBody(s: seq<Char>)
    requires s == [OParen, A, B, CParen, QMark]
    ensures Parsed(s, 1, false, []) == Ok(([Letter('a'), Letter('b')], 4))
  {
    PlainRule(s, 2, false, [Letter('a')]);
    PlainRule(s, 1, false, []);
    assert [] + [Class(CharClass([s[1]], One, false))] == [Letter('a')];
    assert [Letter('a')] + [Class(CharClass([s[2]], One, false))] == [Letter('a'), Letter('b')];
    assert Parsed(s, 3, false, [Letter('a'), Letter('b')]) == Ok(([Letter('a'), Letter('b')], 4));
  }

  /** "(ab)?": a group of two classes, quantified as a whole. */
  lemma GroupPattern()
    ensures Parse([OParen, A, B, CParen, QMark]) ==
      Ok(Regex([Group(Regex([Letter('a'), Letter('b')], ZeroOrOne))], One))
  {
    var s: seq<Char> := [OParen, A, B, CParen, QMark];
    var g := Group(Regex([Letter('a'), Letter('b')], One));
    GroupBody(s);
    assert [] + [g] == [g];
    assert Step(s, 0, true, []) == Ok(([g], 4));
    QuantifierRule(s, 4, true, [g]);
    var q := Group(Regex([Letter('a'), Letter('b')], ZeroOrOne));
    assert FromValue([QMark]) == Some(ZeroOrOne);
    assert [g][..0] + [WithQuantifier(g, ZeroOrOne)] == [q];
    assert Parsed(s, 0, true, []) == Ok(([q], 5));
  }

  /** "(a": the group is never closed. */
  lemma OpenGroup()
    ensures Parse([OParen, A]) == Err(UnterminatedGroup)
  {
    var s: seq<Char> := [OParen, A];
    UnterminatedRule(s, 1, []);
    assert Parsed(s, 1, false, []) == Err(UnterminatedGroup) by {
      PlainRule(s, 1, false, []);
    }
    assert Parsed(s, 0, true, []) == Err(UnterminatedGroup);
  }

  /** "a)b": at top level a `)` ends the pattern; the rest is not read. */
  lemma StrayParen()
    ensures Parse([A, CParen, B]) == Ok(Regex([Letter('a')], One))
  {
    var s: seq<Char> := [A, CParen, B];
    PlainRule(s, 0, true, []);
    assert [] + [Class(CharClass([s[0]], One, false))] == [Letter('a')];
    assert Parsed(s, 1, true, [Letter('a')]) == Ok(([Letter('a')], 2));
    assert Parsed(s, 0, true, []) == Ok(([Letter('a')], 2));
  }

  /** "a|b": one union of the parse before and the parse after. */
  lemma UnionPattern()
    ensures Parse([A, Bar, B]) ==
      Ok(Regex([Union(RegexUnion(Regex([Letter('a')], One), Regex([Letter('b')], One), One))], One))
  {
    var s: seq<Char> := [A, Bar, B];
    var u := Union(RegexUnion(Regex([Letter('a')], One), Regex([Letter('b')], One), One));
    PlainRule(s, 2, true, []);
    assert [] + [Class(CharClass([s[2]], One, false))] == [Letter('b')];
    assert Parsed(s, 2, true, []) == Ok(([Letter('b')], 3));
    assert Step(s, 1, true, [Letter('a')]) == Ok(([u], 3));
    assert Parsed(s, 1, true, [Letter('a')]) == Ok(([u], 3));
    PlainRule(s, 0, true, []);
    assert [] + [Class(CharClass([s[0]], One, false))] == [Letter('a')];
    assert Parsed(s, 0, true, []) == Ok(([u], 3));
  }

  /** The group "(a|b)" at the start of "(a|b)c". */
  lemma NestedUnionGroup()
    ensures Parsed([OParen, A, Bar, B, CParen, C], 1, false, []) ==
      Ok(([Union(RegexUnion(Regex([Letter('a')], One), Regex([Letter('b')], One), One))], 5))
  {
    var s: seq<Char> := [OParen, A, Bar, B, CParen, C];
    PlainRule(s, 3, false, []);
    assert [] + [Class(CharClass([s[3]], One, false))] == [Letter('b')];
    assert Parsed(s, 3, false, []) == Ok(([Letter('b')], 5));
    NestedUnionRule(s, 2, [Letter('a')]);
    PlainRule(s, 1, false, []);
    assert [] + [Class(CharClass([s[1]], One, false))] == [Letter('a')];
  }

  /** "(a|b)c": the union's second branch consumes the group's `)`, which is
      put back, so `c` follows the group. */
  lemma NestedUnionPattern()
    ensures Parse([OParen, A, Bar, B, CParen, C]) ==
      Ok(Regex([Group(Regex([Union(RegexUnion(Regex([Letter('a')], One), Regex([Letter('b')], One), One))],
                            One)), Letter('c')], One))
  {
    var s: seq<Char> := [OParen, A, Bar, B, CParen, C];
    var u := Union(RegexUnion(Regex([Letter('a')], One), Regex([Letter('b')], One), One));
    var g := Group(Regex([u], One));
    NestedUnionGroup();
    assert [] + [g] == [g];
    assert Step(s, 0, true, []) == Ok(([g], 5));
    PlainRule(s, 5, true, [g]);
    assert [g] + [Class(CharClass([s[5]], One, false))] == [g, Letter('c')];
    assert Parsed(s, 6, true, [g, Letter('c')]) == Ok(([g, Letter('c')], 6));
    assert Parsed(s, 0, true, []) == Ok(([g, Letter('c')], 6));
  }

  /** The bracket of "[a-c]": one range item, closed at the end. */
  lemma RangeBracket(s: seq<Char>)
    requires s == [OBrack, A, Dash, C, CBrack]
    ensures ParsedBracket(s, 1) == Ok((CharClass([A, B, C], One, false), 5))
  {
    assert [Lit(A)][..0] + [Span(A, C)] == [Span(A, C)];
    assert BracketItems(s, 4, [Span(A, C)]) == Ok(([Span(A, C)], 5));
    assert BracketItems(s, 2, [Lit(A)]) == Ok(([Span(A, C)], 5));
    var cls := AddCharRangeSpec(EmptyClass, A, C).value;
    assert Range(A, C) == [A, B, C];
    RangeSorted(A, C);
    SortedUnique(cls.chars, [A, B, C]);
    assert BuildClass(EmptyClass, [Span(A, C)]) == Ok(CharClass([A, B, C], One, false));
  }

  /** "[a-c]": one class holding the whole range. */
  lemma RangePattern()
    ensures Parse([OBrack, A, Dash, C, CBrack]) == Ok(Regex([Class(CharClass([A, B, C], One, false))], One))
  {
    var s: seq<Char> := [OBrack, A, Dash, C, CBrack];
    RangeBracket(s);
    var k := Class(CharClass([A, B, C], One, false));
    assert [] + [k] == [k];
    assert Step(s, 0, true, []) == Ok(([k], 5));
    assert Parsed(s, 0, true, []) == Ok(([k], 5));
  }

  /** "[c-a]": a range that does not run upwards. */
  lemma BackwardRange()
    ensures Parse([OBrack, C, Dash, A, CBrack]) == Err(InvalidCharRange)
  {
    var s: seq<Char> := [OBrack, C, Dash, A, CBrack];
    assert [Lit(C)][..0] + [Span(C, A)] == [Span(C, A)];
    assert BracketItems(s, 4, [Span(C, A)]) == Ok(([Span(C, A)], 5));
    assert BracketItems(s, 2, [Lit(C)]) == Ok(([Span(C, A)], 5));
    assert Parsed(s, 0, true, []) == Err(InvalidCharRange);
  }

  /** The bracket of "[a-b-c]": the second `-` follows a range. */
  lemma RangeAfterRangeBracket(s: seq<Char>)
    requires s == [OBrack, A, Dash, B, Dash, C, CBrack]
    ensures ParsedBracket(s, 1) == Err(InvalidBracketRange)
  {
    assert [Lit(A)][..0] + [Span(A, B)] == [Span(A, B)];
    assert BracketItems(s, 4, [Span(A, B)]) == Err(InvalidBracketRange);
    assert BracketItems(s, 2, [Lit(A)]) == Err(InvalidBracketRange);
  }

  /** "[a-b-c]": a `-` straight after a range. */
  lemma RangeAfterRange()
    ensures Parse([OBrack, A, Dash, B, Dash, C, CBrack]) == Err(InvalidBracketRange)
  {
    var s: seq<Char> := [OBrack, A, Dash, B, Dash, C, CBrack];
    RangeAfterRangeBracket(s);
    assert Step(s, 0, true, []) == Err(InvalidBracketRange);
    assert Parsed(s, 0, true, []) == Err(InvalidBracketRange);
  }

  /** "[": nothing after the bracket. */
  lemma BracketAtEnd()
    ensures Parse([OBrack]) == Err(EmptyBracket)
  {
    assert Parsed([OBrack], 0, true, []) == Err(EmptyBracket);
  }

  /** "[]": the `]` is taken as the first member, so the bracket never closes. */
  lemma EmptyBrackets()
    ensures Parse([OBrack, CBrack]) == Err(UnterminatedBracket)
  {
    assert Parsed([OBrack, CBrack], 0, true, []) == Err(UnterminatedBracket);
  }

  /** "\d": the class of the ten digits. */
  lemma DigitEscape()
    ensures Parse([BSlash, 'd' as int]) == Ok(Regex([Class(CharClass(Range('0' as int, '9' as int), One, false))], One))
  {
    var s: seq<Char> := [BSlash, 'd' as int];
    var k := Class(CharClass(Range('0' as int, '9' as int), One, false));
    assert [] + [k] == [k];
    assert Step(s, 0, true, []) == Ok(([k], 2));
    assert Parsed(s, 0, true, []) == Ok(([k], 2));
  }

  /** "\": an escape with nothing to escape. */
  lemma EscapeAtEndPattern()
    ensures Parse([BSlash]) == Err(EscapeAtEnd)
  {
    assert Parsed([BSlash], 0, true, []) == Err(EscapeAtEnd);
  }
}
