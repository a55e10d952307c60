/** lib/regex.py: the pattern tree and the recursive-descent parser that
    builds it from a `CoreIter` over the pattern's characters. */
module Regexes {
  import opened Errors
  import opened Core
  import opened Quantifiers
  import opened CharSeqs
  import opened Chars

  /** `Regex`: its elements in order and its own quantifier. */
  datatype Regex = Regex(patterns: seq<Element>, quantifier: Quantifier)

  /** One entry of `Regex.__patterns`: a nested group, a class or a union. */
  datatype Element =
    | Group(group: Regex)
    | Class(cls: CharClass)
    | Union(union: RegexUnion)

  /** `RegexUnion`: the element list before `|`, the parse after it, and a
      quantifier (`ONE` by default). */
  datatype RegexUnion = RegexUnion(first: Regex, second: Regex, quantifier: Quantifier)

  function QuantifierOf(e: Element): Quantifier
  {
    match e
    case Group(g) => g.quantifier
    case Class(c) => c.quantifier
    case Union(u) => u.quantifier
  }

  /** `set_quantifier` on whichever of the three kinds `e` is. */
  function WithQuantifier(e: Element, q: Quantifier): (r: Element)
    ensures QuantifierOf(r) == q
    ensures r.Group? <==> e.Group?
    ensures r.Class? <==> e.Class?
    ensures r.Group? ==> r.group.patterns == e.group.patterns
    ensures r.Class? ==> r.cls.chars == e.cls.chars && r.cls.wildcard == e.cls.wildcard
    ensures r.Union? ==> r.union.first == e.union.first && r.union.second == e.union.second
  {
    match e
    case Group(g) => Group(g.(quantifier := q))
    case Class(c) => Class(Chars.SetQuantifier(c, q))
    case Union(u) => Union(u.(quantifier := q))
  }

  /** The class a plain character stands for, `CharClass().with_char(ch)`. */
  function Literal(c: Char): (r: CharClass)
    ensures r == CharClass([c], One, false)
  {
    var r := Added(EmptyClass, c);
    SortedUnique(r.chars, [c]);
    r
  }

  /** The character class named by an escape. */
  function EscapeClass(c: Char): (r: CharClass)
    ensures r.quantifier == One && !r.wildcard && Sorted(r.chars)
    ensures c == 'w' as int ==>
      multiset(r.chars) == multiset(AlphaChars()) + multiset(Range('0' as int, '9' as int))
    ensures c == 'd' as int ==> r.chars == Range('0' as int, '9' as int)
    ensures c == 's' as int ==> r.chars == [' ' as int]
    ensures c != 'w' as int && c != 'd' as int && c != 's' as int ==> r.chars == [c]
  {
    if c == 'w' as int then
      var alpha := AddAlpha(EmptyClass);
      assert multiset(alpha.chars) == multiset(AlphaChars());
      AddNumeric(alpha)
    else if c == 'd' as int then FreshClasses(); AddNumeric(EmptyClass)
    else if c == 's' as int then FreshClasses(); AddWhitespace(EmptyClass)
    else Literal(c)
  }

  /** `parse_escape_char` on `s` from `at` (just after the backslash): the
      class and where reading resumes. */
  function ParsedEscape(s: seq<Char>, at: nat): (r: Result<(CharClass, nat)>)
    requires at <= |s|
    ensures r.Err? <==> at == |s|
    ensures r.Err? ==> r.error == EscapeAtEnd
    ensures r.Ok? ==> r.value == (EscapeClass(s[at]), at + 1)
  {
    if at == |s| then Err(EscapeAtEnd) else Ok((EscapeClass(s[at]), at + 1))
  }

  /** An entry of the local `chars` list of `parse_char_class`. */
  datatype Item = Lit(c: Char) | Span(lo: Char, hi: Char)

  /** The bracket body from `at` on, with `items` collected so far: the items
      and the position just past the closing `]`. */
  function BracketItems(s: seq<Char>, at: nat, items: seq<Item>): (r: Result<(seq<Item>, nat)>)
    requires at <= |s| && |items| > 0
    decreases |s| - at
    ensures r.Ok? ==> at < r.value.1 <= |s| && s[r.value.1 - 1] == CBrack && |r.value.0| > 0
    ensures r.Err? ==> r.error == UnterminatedBracket || r.error == InvalidBracketRange
  {
    if at == |s| then Err(UnterminatedBracket)
    else if s[at] == CBrack then Ok((items, at + 1))
    else if s[at] == Dash then
      var last := items[|items| - 1];
      if last.Span? || at + 1 == |s| then Err(InvalidBracketRange)
      else BracketItems(s, at + 2, items[..|items| - 1] + [Span(last.c, s[at + 1])])
    else BracketItems(s, at + 1, items + [Lit(s[at])])
  }

  /** When the item loop fails, for every input: a body with no `]` left
      cannot close; one with neither `]` nor `-` left is unterminated; a
      `-` reached right after a range, or as the last character, is an
      invalid range. Without any `-`, the loop succeeds exactly when a `]`
      is left, and ends at the first one. */
  lemma {:induction false} BracketErrors(s: seq<Char>, at: nat, items: seq<Item>)
    requires at <= |s| && |items| > 0
    decreases |s| - at
    ensures CBrack !in s[at..] ==> BracketItems(s, at, items).Err?
    ensures CBrack !in s[at..] && Dash !in s[at..] ==> BracketItems(s, at, items) == Err(UnterminatedBracket)
    ensures at < |s| && s[at] == Dash && (items[|items| - 1].Span? || at + 1 == |s|) ==>
      BracketItems(s, at, items) == Err(InvalidBracketRange)
    ensures Dash !in s[at..] ==> (BracketItems(s, at, items).Ok? <==> CBrack in s[at..])
    ensures Dash !in s[at..] && BracketItems(s, at, items).Ok? ==>
      CBrack !in s[at..BracketItems(s, at, items).value.1 - 1]
  {
    if at < |s| && s[at] != CBrack {
      assert s[at..] == [s[at]] + s[at + 1..];
      if s[at] == Dash {
        var last := items[|items| - 1];
        if !(last.Span? || at + 1 == |s|) {
          BracketErrors(s, at + 2, items[..|items| - 1] + [Span(last.c, s[at + 1])]);
          assert s[at + 1..] == [s[at + 1]] + s[at + 2..];
        }
      } else {
        BracketErrors(s, at + 1, items + [Lit(s[at])]);
        var r := BracketItems(s, at + 1, items + [Lit(s[at])]);
        if r.Ok? {
          assert s[at..r.value.1 - 1] == [s[at]] + s[at + 1..r.value.1 - 1];
        }
      }
    }
  }

  /** The characters the items list. */
  function ItemChars(items: seq<Item>): seq<Char>
  {
    if items == [] then []
    else
      (match items[0] case Lit(c) => [c] case Span(lo, hi) => Range(lo, hi))
      + ItemChars(items[1..])
  }

  /** Every range of the items runs upwards. */
  predicate RangesValid(items: seq<Item>)
  {
    forall i :: 0 <= i < |items| && items[i].Span? ==> items[i].lo < items[i].hi
  }

  /** The closing loop of `parse_char_class`: `add_char` or `add_char_range`
      for each item in turn. */
  function BuildClass(cc: CharClass, items: seq<Item>): Result<CharClass>
    decreases |items|
  {
    if items == [] then Ok(cc)
    else
      match items[0]
      case Lit(c) => BuildClass(Added(cc, c), items[1..])
      case Span(lo, hi) =>
        var next :- AddCharRangeSpec(cc, lo, hi);
        BuildClass(next, items[1..])
  }

  /** The class holds every listed character and every character of every
      listed range, and fails exactly on a range that does not run upwards. */
  lemma {:induction false} BuildClassContents(cc: CharClass, items: seq<Item>)
    decreases |items|
    ensures BuildClass(cc, items).Ok? <==> RangesValid(items)
    ensures BuildClass(cc, items).Err? ==> BuildClass(cc, items).error == InvalidCharRange
    ensures BuildClass(cc, items).Ok? ==>
      && BuildClass(cc, items).value.quantifier == cc.quantifier
      && BuildClass(cc, items).value.wildcard == cc.wildcard
      && multiset(BuildClass(cc, items).value.chars) == multiset(cc.chars) + multiset(ItemChars(items))
      && (Sorted(cc.chars) || |items| > 0 ==> Sorted(BuildClass(cc, items).value.chars))
  {
    if items != [] {
      var rest := items[1..];
      assert RangesValid(items) <==> (items[0].Span? ==> items[0].lo < items[0].hi) && RangesValid(rest) by {
        forall i | 0 < i < |items| ensures items[i] == rest[i - 1] { }
      }
      match items[0]
      case Lit(c) =>
        BuildClassContents(Added(cc, c), rest);
      case Span(lo, hi) =>
        if lo < hi {
          BuildClassContents(AddCharRangeSpec(cc, lo, hi).value, rest);
        }
    }
  }

  /** `parse_char_class` from `at` (just after `[`): the class and where
      reading resumes. A missing first character reads as NUL. */
  function ParsedBracket(s: seq<Char>, at: nat): (r: Result<(CharClass, nat)>)
    requires at <= |s|
    ensures r.Ok? ==> at < r.value.1 <= |s| && s[r.value.1 - 1] == CBrack
    ensures at == |s| || s[at] == 0 ==> r == Err(EmptyBracket)
  {
    if at == |s| || s[at] == 0 then Err(EmptyBracket)
    else
      var items :- BracketItems(s, at + 1, [Lit(s[at])]);
      var cls :- BuildClass(EmptyClass, items.0);
      Ok((cls, items.1))
  }

  /** `Regex.__init__` on `s` from `at`, with the elements `acc` parsed so
      far: the element list and where reading resumes. `top` is the keyword
      of the same name: a nested parse must end at `)`, and at top level a
      `)` ends the parse. */
  function Parsed(s: seq<Char>, at: nat, top: bool, acc: seq<Element>): (r: Result<(seq<Element>, nat)>)
    requires at <= |s|
    decreases |s| - at, 1
    ensures r.Ok? ==> at <= r.value.1 <= |s|
    ensures r.Ok? && !top ==> at < r.value.1 && s[r.value.1 - 1] == CParen
    ensures r.Err? && at == |s| ==> !top && r.error == UnterminatedGroup
  {
    if at == |s| then
      if top then Ok((acc, at)) else Err(UnterminatedGroup)
    else if s[at] == CParen then Ok((acc, at + 1))
    else
      var step :- Step(s, at, top, acc);
      Parsed(s, step.1, top, step.0)
  }

  /** One pass of the parse loop on the character `s[at]`, which is not `)`:
      the new element list and where reading resumes. */
  function Step(s: seq<Char>, at: nat, top: bool, acc: seq<Element>): (r: Result<(seq<Element>, nat)>)
    requires at < |s| && s[at] != CParen
    decreases |s| - at, 0
    ensures r.Ok? ==> at < r.value.1 <= |s|
  {
    var c := s[at];
    if c == OParen then
      var g :- Parsed(s, at + 1, false, []);
      Ok((acc + [Group(Regex(g.0, One))], g.1))
    else if c == OBrack then
      var b :- ParsedBracket(s, at + 1);
      Ok((acc + [Class(b.0)], b.1))
    else if c == BSlash then
      var e :- ParsedEscape(s, at + 1);
      Ok((acc + [Class(e.0)], e.1))
    else if c == Bar then
      var second :- Parsed(s, at + 1, top, []);
      var u := RegexUnion(Regex(acc, One), Regex(second.0, One), One);
      // A nested second branch has consumed the `)`, which is put back.
      Ok(([Union(u)], if top then second.1 else second.1 - 1))
    else if IsQuantifierChar(c) then
      if acc == [] then Err(NothingToRepeat)
      else
        QuantifierCharRoundTrip(c);
        var q := FromValue([c]).value;
        Ok((acc[..|acc| - 1] + [WithQuantifier(acc[|acc| - 1], q)], at + 1))
    else Ok((acc + [Class(Literal(c))], at + 1))
  }

  /** `Regex(s)`: the whole pattern parsed at top level. */
  function Parse(s: seq<Char>): (r: Result<Regex>)
    ensures r.Ok? ==> r.value.quantifier == One && AllOk(r.value.patterns)
  {
    ParsedOk(s, 0, true, []);
    var p :- Parsed(s, 0, true, []);
    Ok(Regex(p.0, One))
  }

  /** A character with no meaning to the parser. */
  predicate IsPlain(c: Char)
  {
    c != OParen && c != CParen && c != OBrack && c != BSlash && c != Bar && !IsQuantifierChar(c)
  }

  /** A plain character appends one class holding just that character, with
      quantifier `ONE`. */
  lemma PlainRule(s: seq<Char>, at: nat, top: bool, acc: seq<Element>)
    requires at < |s| && IsPlain(s[at])
    ensures Parsed(s, at, top, acc) == Parsed(s, at + 1, top, acc + [Class(CharClass([s[at]], One, false))])
  {
  }

  /** A quantifier character needs an element before it, and then replaces
      the quantifier of that last element only. */
  lemma QuantifierRule(s: seq<Char>, at: nat, top: bool, acc: seq<Element>)
    requires at < |s| && IsQuantifierChar(s[at])
    ensures acc == [] ==> Parsed(s, at, top, acc) == Err(NothingToRepeat)
    ensures acc != [] ==>
      && FromValue([s[at]]).Some?
      && Suffix(FromValue([s[at]]).value) == [s[at]]
      && Parsed(s, at, top, acc) ==
         Parsed(s, at + 1, top, acc[..|acc| - 1] + [WithQuantifier(acc[|acc| - 1], FromValue([s[at]]).value)])
  {
    QuantifierCharRoundTrip(s[at]);
  }

  /** Inside a group, a union's second branch ends at the group's `)`; the
      put-back `)` then closes the group at the same place, holding just the
      union. */
  lemma NestedUnionRule(s: seq<Char>, at: nat, acc: seq<Element>)
    requires at < |s| && s[at] == Bar
    requires Parsed(s, at + 1, false, []).Ok?
    ensures var second := Parsed(s, at + 1, false, []).value;
      Parsed(s, at, false, acc) ==
        Ok(([Union(RegexUnion(Regex(acc, One), Regex(second.0, One), One))], second.1))
  {
    var second := Parsed(s, at + 1, false, []).value;
    var u := Union(RegexUnion(Regex(acc, One), Regex(second.0, One), One));
    assert Step(s, at, false, acc) == Ok(([u], second.1 - 1));
    assert Parsed(s, second.1 - 1, false, [u]) == Ok(([u], second.1));
  }

  /** A nested parse with no `)` left fails. */
  lemma UnterminatedRule(s: seq<Char>, at: nat, acc: seq<Element>)
    requires at <= |s| && CParen !in s[at..]
    ensures Parsed(s, at, false, acc).Err?
  {
    forall k | at <= k < |s| ensures s[k] != CParen {
      assert s[k] == s[at..][k - at];
    }
  }

  /** What the parser guarantees of every class it builds: sorted, not
      empty, and no wildcard (the parser never sets one). */
  ghost predicate ClassOk(c: CharClass)
  {
    Sorted(c.chars) && |c.chars| > 0 && !c.wildcard
  }

  ghost predicate ElementOk(e: Element)
    decreases e
  {
    match e
    case Group(g) => forall i :: 0 <= i < |g.patterns| ==> ElementOk(g.patterns[i])
    case Class(c) => ClassOk(c)
    case Union(u) =>
      && (forall i :: 0 <= i < |u.first.patterns| ==> ElementOk(u.first.patterns[i]))
      && (forall i :: 0 <= i < |u.second.patterns| ==> ElementOk(u.second.patterns[i]))
  }

  ghost predicate AllOk(es: seq<Element>)
  {
    forall i :: 0 <= i < |es| ==> ElementOk(es[i])
  }

  lemma {:induction false} ItemCharsNonEmpty(items: seq<Item>)
    requires |items| > 0 && RangesValid(items)
    ensures |ItemChars(items)| > 0
  {
    match items[0]
    case Lit(_) =>
    case Span(lo, hi) => assert |Range(lo, hi)| > 0;
  }

  lemma BracketOk(s: seq<Char>, at: nat)
    requires at <= |s|
    ensures ParsedBracket(s, at).Ok? ==> ClassOk(ParsedBracket(s, at).value.0)
  {
    if ParsedBracket(s, at).Ok? {
      var items := BracketItems(s, at + 1, [Lit(s[at])]).value.0;
      BuildClassContents(EmptyClass, items);
      ItemCharsNonEmpty(items);
      var cls := BuildClass(EmptyClass, items).value;
      assert |cls.chars| == |multiset(cls.chars)|;
    }
  }

  lemma EscapeOk(c: Char)
    ensures ClassOk(EscapeClass(c))
  {
    var r := EscapeClass(c);
    if c == 'w' as int {
      assert '0' as int in multiset(r.chars) by {
        assert Range('0' as int, '9' as int)[0] == '0' as int;
      }
    } else if c == 'd' as int {
      assert |Range('0' as int, '9' as int)| == 10;
    }
  }

  /** Every class in a successful parse is sorted, non-empty and without a
      wildcard, however deeply it is nested. */
  lemma {:induction false} ParsedOk(s: seq<Char>, at: nat, top: bool, acc: seq<Element>)
    requires at <= |s| && AllOk(acc)
    decreases |s| - at, 1
    ensures Parsed(s, at, top, acc).Ok? ==> AllOk(Parsed(s, at, top, acc).value.0)
  {
    if at < |s| && s[at] != CParen {
      StepOk(s, at, top, acc);
      var step := Step(s, at, top, acc);
      if step.Ok? {
        ParsedOk(s, step.value.1, top, step.value.0);
      }
    }
  }

  lemma {:induction false} StepOk(s: seq<Char>, at: nat, top: bool, acc: seq<Element>)
    requires at < |s| && s[at] != CParen && AllOk(acc)
    decreases |s| - at, 0
    ensures Step(s, at, top, acc).Ok? ==> AllOk(Step(s, at, top, acc).value.0)
  {
    var c := s[at];
    if c == OParen {
      ParsedOk(s, at + 1, false, []);
    } else if c == OBrack {
      BracketOk(s, at + 1);
    } else if c == BSlash {
      if at + 1 < |s| {
        EscapeOk(s[at + 1]);
      }
    } else if c == Bar {
      ParsedOk(s, at + 1, top, []);
    } else if IsQuantifierChar(c) {
      if acc != [] {
        QuantifierCharRoundTrip(c);
        var last := acc[|acc| - 1];
        var q := FromValue([c]).value;
        assert ElementOk(last);
        match last
        case Group(g) =>
        case Class(k) =>
        case Union(u) =>
      }
    } else {
      assert ClassOk(Literal(c));
    }
  }

  /** `parse_escape_char`. */
  method ParseEscapeChar(sit: CoreIter<Char>) returns (r: Result<CharClass>)
    requires sit.Tracking()
    modifies sit
    ensures sit.Tracking() && sit.hold.None?
    ensures var spec := ParsedEscape(sit.obj, old(sit.Position()));
      && (r.Ok? <==> spec.Ok?)
      && (spec.Ok? ==> r.value == spec.value.0 && sit.Position() == spec.value.1)
      && (spec.Err? ==> r.error == spec.error)
  {
    var ch := sit.Next();
    if ch.None? {
      return Err(EscapeAtEnd);
    }
    var c := ch.value;
    if c == 'w' as int {
      return Ok(AddNumeric(AddAlpha(EmptyClass)));
    } else if c == 'd' as int {
      return Ok(AddNumeric(EmptyClass));
    } else if c == 's' as int {
      return Ok(AddWhitespace(EmptyClass));
    }
    return Ok(Literal(c));
  }

  /** `parse_char_class`: collect the items up to `]`, then build one class. */
  method ParseCharClass(sit: CoreIter<Char>) returns (r: Result<CharClass>)
    requires sit.Tracking()
    modifies sit
    ensures sit.Tracking() && sit.hold.None?
    ensures var spec := ParsedBracket(sit.obj, old(sit.Position()));
      && (r.Ok? <==> spec.Ok?)
      && (spec.Ok? ==> r.value == spec.value.0 && sit.Position() == spec.value.1)
      && (spec.Err? ==> r.error == spec.error)
  {
    ghost var s := sit.obj;
    ghost var start := sit.Position();
    var first := sit.Next();
    if first.None? || first.value == 0 {
      return Err(EmptyBracket);
    }
    var items := [Lit(first.value)];
    while true
      invariant sit.Tracking() && sit.hold.None? && start < sit.Position() <= |s|
      invariant |items| > 0
      invariant BracketItems(s, sit.Position(), items) == BracketItems(s, start + 1, [Lit(first.value)])
      decreases |s| - sit.Position()
    {
      var ch := sit.Next();
      if ch.None? {
        return Err(UnterminatedBracket);
      }
      if ch.value == CBrack {
        break;
      }
      if ch.value == Dash {
        var last := items[|items| - 1];
        if last.Span? {
          return Err(InvalidBracketRange);
        }
        var hi := sit.Next();
        if hi.None? {
          return Err(InvalidBracketRange);
        }
        items := items[..|items| - 1] + [Span(last.c, hi.value)];
      } else {
        items := items + [Lit(ch.value)];
      }
    }
    r := BuildCharClass(items);
  }

  /** The closing loop of `parse_char_class`, from a fresh class. */
  method BuildCharClass(items: seq<Item>) returns (r: Result<CharClass>)
    ensures r == BuildClass(EmptyClass, items)
  {
    var cls := EmptyClass;
    for i := 0 to |items|
      invariant BuildClass(cls, items[i..]) == BuildClass(EmptyClass, items)
    {
      assert items[i..][1..] == items[i + 1..];
      match items[i]
      case Lit(c) =>
        cls := AddChar(cls, [c]).value;
      case Span(lo, hi) =>
        var next := AddCharRange(cls, lo, hi);
        if next.Err? {
          return Err(next.error);
        }
        cls := next.value;
    }
    return Ok(cls);
  }

  /** The parse loop of `Regex.__init__` over a shared cursor. */
  method ParseRegex(sit: CoreIter<Char>, top: bool) returns (r: Result<Regex>)
    requires sit.Tracking()
    modifies sit
    decreases |sit.obj| - sit.Position(), 1
    ensures sit.Tracking()
    ensures var spec := Parsed(sit.obj, old(sit.Position()), top, []);
      && (r.Ok? <==> spec.Ok?)
      && (spec.Ok? ==> r.value == Regex(spec.value.0, One) && sit.Position() == spec.value.1 && sit.hold.None?)
      && (spec.Err? ==> r.error == spec.error)
  {
    ghost var s := sit.obj;
    ghost var start := sit.Position();
    var patterns: seq<Element> := [];
    while true
      invariant sit.Tracking() && start <= sit.Position() <= |s|
      invariant Parsed(s, sit.Position(), top, patterns) == Parsed(s, start, top, [])
      decreases |s| - sit.Position()
    {
      var ch := sit.Next();
      if ch.None? {
        if !top {
          return Err(UnterminatedGroup);
        }
        return Ok(Regex(patterns, One));
      }
      if ch.value == CParen {
        return Ok(Regex(patterns, One));
      }
      var next := ParseElement(sit, top, patterns, ch.value);
      if next.Err? {
        return Err(next.error);
      }
      patterns := next.value;
    }
  }

  /** The `match` in the parse loop, on the character `c` just read. */
  method ParseElement(sit: CoreIter<Char>, top: bool, patterns: seq<Element>, c: Char)
    returns (r: Result<seq<Element>>)
    requires sit.Tracking() && sit.hold.None? && 0 < sit.Position()
    requires sit.obj[sit.Position() - 1] == c && c != CParen
    modifies sit
    decreases |sit.obj| - sit.Position() + 1, 0
    ensures sit.Tracking()
    ensures var spec := Step(sit.obj, old(sit.Position()) - 1, top, patterns);
      && (r.Ok? <==> spec.Ok?)
      && (spec.Ok? ==> r.value == spec.value.0 && sit.Position() == spec.value.1)
      && (spec.Err? ==> r.error == spec.error)
  {
    if c == OParen {
      var g := ParseRegex(sit, false);
      if g.Err? {
        return Err(g.error);
      }
      return Ok(patterns + [Group(g.value)]);
    } else if c == OBrack {
      var cls := ParseCharClass(sit);
      if cls.Err? {
        return Err(cls.error);
      }
      return Ok(patterns + [Class(cls.value)]);
    } else if c == BSlash {
      var cls := ParseEscapeChar(sit);
      if cls.Err? {
        return Err(cls.error);
      }
      return Ok(patterns + [Class(cls.value)]);
    } else if c == Bar {
      var second := ParseRegex(sit, top);
      if second.Err? {
        return Err(second.error);
      }
      if !top {
        sit.Putback();
      }
      return Ok([Union(RegexUnion(Regex(patterns, One), second.value, One))]);
    } else if IsQuantifierChar(c) {
      if |patterns| == 0 {
        return Err(NothingToRepeat);
      }
      QuantifierCharRoundTrip(c);
      var q := FromValue([c]).value;
      return Ok(patterns[..|patterns| - 1] + [WithQuantifier(patterns[|patterns| - 1], q)]);
    }
    return Ok(patterns + [Class(Literal(c))]);
  }

  /** `Regex(s)` for a string: a fresh cursor, parsed at top level. */
  method ParseString(s: seq<Char>) returns (r: Result<Regex>)
    ensures r == Parse(s)
  {
    var sit := new CoreIter(s);
    r := ParseRegex(sit, true);
  }
}
