/** lib/char.py: `CharClass`, a sorted list of characters with a quantifier
    and a wildcard flag. Classes are values here: each operation that updates
    a class in place returns the updated class. */
module Chars {
  import opened Errors
  import opened Core
  import opened Quantifiers
  import opened CharSeqs

  /** `chars` keeps duplicates: `add_char` appends and sorts. */
  datatype CharClass = CharClass(chars: seq<Char>, quantifier: Quantifier, wildcard: bool)

  /** `CharClass()`: no characters, quantifier `One`, no wildcard. */
  const EmptyClass: CharClass := CharClass([], One, false)

  /** `__eq__`: structural equality over the three fields; `__hash__` hashes the
      same triple, so it is a function of the value. */
  function Equal(a: CharClass, b: CharClass): (r: bool)
    ensures r <==> a == b
  {
    a.chars == b.chars && a.quantifier == b.quantifier && a.wildcard == b.wildcard
  }

  /** `add_char` on one character: the class with `c` appended and the
      characters sorted again. */
  function Added(cc: CharClass, c: Char): (r: CharClass)
    ensures r.quantifier == cc.quantifier && r.wildcard == cc.wildcard
    ensures Sorted(r.chars)
    ensures multiset(r.chars) == multiset(cc.chars) + multiset{c}
    ensures |r.chars| == |cc.chars| + 1 && c in r.chars
    ensures Sorted(cc.chars) ==> r.chars == Insert(cc.chars, c)
  {
    var s := cc.chars + [c];
    SortProps(s);
    assert s[..|s| - 1] == cc.chars;
    assert c in multiset(s);
    assert |Sort(s)| == |multiset(Sort(s))| == |multiset(s)| == |s|;
    assert Sorted(cc.chars) ==> Sort(s) == Insert(cc.chars, c) by {
      if Sorted(cc.chars) { SortOfSorted(cc.chars); }
    }
    cc.(chars := Sort(s))
  }

  /** `add_char`: a string of exactly one character, appended and sorted. */
  function AddChar(cc: CharClass, ch: seq<Char>): (r: Result<CharClass>)
    ensures r.Err? <==> |ch| != 1
    ensures |ch| == 0 ==> r == Err(EmptyChar)
    ensures |ch| > 1 ==> r == Err(NotSingleChar)
    ensures r.Ok? ==> r.value.quantifier == cc.quantifier && r.value.wildcard == cc.wildcard
    ensures r.Ok? ==> Sorted(r.value.chars)
    ensures r.Ok? ==> multiset(r.value.chars) == multiset(cc.chars) + multiset{ch[0]}
    ensures r.Ok? ==> |r.value.chars| == |cc.chars| + 1 && ch[0] in r.value.chars
    ensures r.Ok? && Sorted(cc.chars) ==> r.value.chars == Insert(cc.chars, ch[0])
  {
    if |ch| == 0 then Err(EmptyChar)
    else if |ch| != 1 then Err(NotSingleChar)
    else Ok(Added(cc, ch[0]))
  }

  /** The order of additions to a class does not matter: two characters
      added either way round give equal classes. */
  lemma AddCharCommutes(cc: CharClass, x: Char, y: Char)
    ensures AddChar(AddChar(cc, [x]).value, [y]) == AddChar(AddChar(cc, [y]).value, [x])
  {
    AddedCommutes(cc, x, y);
  }

  lemma AddedCommutes(cc: CharClass, x: Char, y: Char)
    ensures Added(Added(cc, x), y) == Added(Added(cc, y), x)
  {
    var ax := Added(cc, x);
    var ay := Added(cc, y);
    var a := Added(ax, y);
    var b := Added(ay, x);
    assert multiset(a.chars) == multiset(b.chars) by {
      var m := multiset(cc.chars);
      assert multiset(a.chars) == m + multiset{x} + multiset{y};
      assert multiset(b.chars) == m + multiset{y} + multiset{x};
    }
    SortedUnique(a.chars, b.chars);
    assert a.quantifier == b.quantifier && a.wildcard == b.wildcard;
  }

  /** `add_char_range` as a value: every code point from `s` to `e` inclusive,
      provided `s` is strictly below `e`, merged into the sorted characters. */
  function AddCharRangeSpec(cc: CharClass, s: Char, e: Char): (r: Result<CharClass>)
    ensures r.Ok? <==> s < e
    ensures r.Err? ==> r.error == InvalidCharRange
    ensures r.Ok? ==> r.value.quantifier == cc.quantifier && r.value.wildcard == cc.wildcard
    ensures r.Ok? ==> Sorted(r.value.chars)
    ensures r.Ok? ==> multiset(r.value.chars) == multiset(cc.chars) + multiset(Range(s, e))
    ensures r.Ok? ==> |r.value.chars| == |cc.chars| + (e - s + 1)
  {
    if !(s < e) then Err(InvalidCharRange)
    else
      var all := cc.chars + Range(s, e);
      SortProps(all);
      assert |Sort(all)| == |multiset(Sort(all))| == |multiset(all)| == |all|;
      Ok(cc.(chars := Sort(all)))
  }

  /** One round of `add_char_range` adds the next code point of the range. */
  lemma RangeStep(cc: CharClass, cur: CharClass, s: Char, n: Char)
    requires s <= n
    requires multiset(cur.chars) == multiset(cc.chars) + multiset(Range(s, n - 1))
    ensures multiset(Added(cur, n).chars) == multiset(cc.chars) + multiset(Range(s, n))
  {
    assert Range(s, n) == Range(s, n - 1) + [n];
    assert multiset(Range(s, n)) == multiset(Range(s, n - 1)) + multiset{n};
  }

  /** A sorted class with the fields of `cc` and the characters of `cc` and
      the range is the one the merged sort describes. */
  lemma RangeResult(cc: CharClass, cur: CharClass, s: Char, e: Char)
    requires s < e
    requires cur.quantifier == cc.quantifier && cur.wildcard == cc.wildcard
    requires Sorted(cur.chars)
    requires multiset(cur.chars) == multiset(cc.chars) + multiset(Range(s, e))
    ensures AddCharRangeSpec(cc, s, e) == Ok(cur)
  {
    var spec := AddCharRangeSpec(cc, s, e).value;
    SortedUnique(cur.chars, spec.chars);
  }

  /** `add_char_range`: the range check, then `add_char` for each code point in
      turn; the class it ends with is the one the merged sort describes. */
  method AddCharRange(cc: CharClass, s: Char, e: Char) returns (r: Result<CharClass>)
    ensures r == AddCharRangeSpec(cc, s, e)
  {
    if !(s < e) {
      return Err(InvalidCharRange);
    }
    var cur := AddEach(cc, s, e);
    RangeResult(cc, cur, s, e);
    return Ok(cur);
  }

  /** The loop of `add_char_range`: `add_char` for each code point from `s`
      to `e`. */
  method AddEach(cc: CharClass, s: Char, e: Char) returns (cur: CharClass)
    requires s < e
    ensures cur.quantifier == cc.quantifier && cur.wildcard == cc.wildcard
    ensures Sorted(cur.chars)
    ensures multiset(cur.chars) == multiset(cc.chars) + multiset(Range(s, e))
  {
    cur := cc;
    var n: int := s;
    while n <= e
      invariant s <= n <= e + 1
      invariant cur.quantifier == cc.quantifier && cur.wildcard == cc.wildcard
      invariant n > s ==> Sorted(cur.chars)
      invariant multiset(cur.chars) == multiset(cc.chars) + multiset(Range(s, n - 1))
      decreases e - n + 1
    {
      RangeStep(cc, cur, s, n);
      cur := Added(cur, n as Char);
      n := n + 1;
    }
  }

  /** The characters of `add_alpha`: `A-Z`, `_` and `a-z`. */
  function AlphaChars(): seq<Char>
  {
    Range('A' as int, 'Z' as int) + ['_' as int] + Range('a' as int, 'z' as int)
  }

  /** `add_alpha`. */
  function AddAlpha(cc: CharClass): (r: CharClass)
    ensures r.quantifier == cc.quantifier && r.wildcard == cc.wildcard
    ensures Sorted(r.chars)
    ensures multiset(r.chars) == multiset(cc.chars) + multiset(AlphaChars())
  {
    var upper := AddCharRangeSpec(cc, 'A' as int, 'Z' as int).value;
    var under := Added(upper, '_' as int);
    var r := AddCharRangeSpec(under, 'a' as int, 'z' as int).value;
    assert multiset(AlphaChars()) ==
      multiset(Range('A' as int, 'Z' as int)) + multiset{'_' as Char} + multiset(Range('a' as int, 'z' as int));
    r
  }

  /** `add_numeric`: `0-9`. */
  function AddNumeric(cc: CharClass): (r: CharClass)
    ensures r.quantifier == cc.quantifier && r.wildcard == cc.wildcard
    ensures Sorted(r.chars)
    ensures multiset(r.chars) == multiset(cc.chars) + multiset(Range('0' as int, '9' as int))
  {
    AddCharRangeSpec(cc, '0' as int, '9' as int).value
  }

  /** `add_whitespace`: a single space. */
  function AddWhitespace(cc: CharClass): (r: CharClass)
    ensures r.quantifier == cc.quantifier && r.wildcard == cc.wildcard
    ensures Sorted(r.chars)
    ensures multiset(r.chars) == multiset(cc.chars) + multiset{' ' as Char}
  {
    Added(cc, ' ' as int)
  }

  /** A fresh class built by the additions holds exactly the sorted listing
      of what was added. */
  lemma FreshClasses()
    ensures AddNumeric(EmptyClass) == CharClass(Range('0' as int, '9' as int), One, false)
    ensures AddWhitespace(EmptyClass) == CharClass([' ' as int], One, false)
    ensures AddChar(EmptyClass, [Star]) == Ok(CharClass([Star], One, false))
  {
    RangeSorted('0' as int, '9' as int);
    SortedUnique(AddNumeric(EmptyClass).chars, Range('0' as int, '9' as int));
    SortedUnique(AddWhitespace(EmptyClass).chars, [' ' as int]);
    SortedUnique(AddChar(EmptyClass, [Star]).value.chars, [Star]);
  }

  /** `set_quantifier`: only the quantifier changes. */
  function SetQuantifier(cc: CharClass, q: Quantifier): (r: CharClass)
    ensures r.quantifier == q && r.chars == cc.chars && r.wildcard == cc.wildcard
  {
    cc.(quantifier := q)
  }

  /** `set_wildcard`: allowed only while the class holds no characters. */
  function SetWildcard(cc: CharClass): (r: Result<CharClass>)
    ensures r.Ok? <==> cc.chars == []
    ensures r.Err? ==> r.error == WildcardWithChars
    ensures r.Ok? ==> r.value == CharClass([], cc.quantifier, true)
  {
    if |cc.chars| != 0 then Err(WildcardWithChars) else Ok(cc.(wildcard := true))
  }

  /** `remove_char`: `list.remove`, which fails on an absent character. */
  function RemoveChar(cc: CharClass, c: Char): (r: Result<CharClass>)
    ensures r.Ok? <==> c in cc.chars
    ensures r.Err? ==> r.error == CharNotInClass
    ensures r.Ok? ==> r.value.quantifier == cc.quantifier && r.value.wildcard == cc.wildcard
    ensures r.Ok? ==> multiset(r.value.chars) == multiset(cc.chars) - multiset{c}
    ensures r.Ok? ==> |r.value.chars| == |cc.chars| - 1
    ensures r.Ok? && Sorted(cc.chars) ==> Sorted(r.value.chars)
    ensures r.Ok? && NoDup(cc.chars) ==> r.value.chars == Without(cc.chars, {c})
  {
    if c !in cc.chars then Err(CharNotInClass)
    else
      RemoveFirstShape(cc.chars, c);
      var rest := RemoveFirst(cc.chars, c);
      assert c in multiset(cc.chars);
      assert |rest| == |multiset(rest)| == |multiset(cc.chars)| - 1;
      assert NoDup(cc.chars) ==> rest == Without(cc.chars, {c}) by {
        if NoDup(cc.chars) { RemoveFirstNoDup(cc.chars, c); }
      }
      Ok(cc.(chars := rest))
  }

  /** One entry of `group_chars`: a bare character or an inclusive run. */
  datatype Group = Single(c: Char) | Run(first: Char, last: Char)

  function Start(g: Group): Char
  {
    match g
    case Single(c) => c
    case Run(a, _) => a
  }

  function End(g: Group): Char
  {
    match g
    case Single(c) => c
    case Run(_, b) => b
  }

  /** The characters a group stands for. */
  function Expand(g: Group): seq<Char>
  {
    match g
    case Single(c) => [c]
    case Run(a, b) => Range(a, b)
  }

  function Flatten(gs: seq<Group>): seq<Char>
  {
    if gs == [] then [] else Flatten(gs[..|gs| - 1]) + Expand(gs[|gs| - 1])
  }

  /** `gs` groups `chars`: expanding gives `chars` back, runs span at least
      two code points and adjacent groups could not have been merged. */
  ghost predicate Grouping(gs: seq<Group>, chars: seq<Char>)
  {
    && Flatten(gs) == chars
    && (forall i :: 0 <= i < |gs| && gs[i].Run? ==> gs[i].first < gs[i].last)
    && (forall i :: 0 < i < |gs| ==> Start(gs[i]) != End(gs[i - 1]) + 1)
  }

  /** A grouping extended by one group that cannot merge with the last one. */
  lemma GroupingSnoc(gs: seq<Group>, chars: seq<Char>, g: Group, more: seq<Char>)
    requires Grouping(gs, chars)
    requires Expand(g) == more
    requires g.Run? ==> g.first < g.last
    requires |gs| > 0 ==> Start(g) != End(gs[|gs| - 1]) + 1
    ensures Grouping(gs + [g], chars + more)
  {
    assert (gs + [g])[..|gs|] == gs;
  }

  /** A run of consecutive code points found by the inner loop expands back
      to the characters it covers. */
  lemma RunExpands(chars: seq<Char>, i: nat, j: nat, start: Char, end: Char)
    requires i < j <= |chars| && end == start + (j - i - 1)
    requires forall k :: i <= k < j ==> chars[k] == start + (k - i)
    ensures Expand(if start == end then Single(end) else Run(start, end)) == chars[i..j]
  {
    assert |Range(start, end)| == j - i;
    forall k | 0 <= k < j - i ensures Range(start, end)[k] == chars[i..j][k] {
      assert chars[i..j][k] == chars[i + k];
    }
  }

  /** One round of `group_chars`: the run from `i` to `j` extends the
      grouping of the characters before `i`. */
  lemma GroupStep(gs: seq<Group>, chars: seq<Char>, i: nat, j: nat, end: Char)
    requires i < j <= |chars| && end == chars[i] + (j - i - 1)
    requires forall k :: i <= k < j ==> chars[k] == chars[i] + (k - i)
    requires Grouping(gs, chars[..i])
    requires i == 0 ==> gs == []
    requires i > 0 ==> |gs| > 0 && chars[i] != End(gs[|gs| - 1]) + 1
    ensures Grouping(gs + [if chars[i] == end then Single(end) else Run(chars[i], end)], chars[..j])
  {
    var g := if chars[i] == end then Single(end) else Run(chars[i], end);
    RunExpands(chars, i, j, chars[i], end);
    assert chars[..j] == chars[..i] + chars[i..j];
    GroupingSnoc(gs, chars[..i], g, chars[i..j]);
  }

  /** The inner loop of `group_chars`: extend the run from `i` while the
      next code point follows the last; `j` is just past the run. */
  method RunFrom(chars: seq<Char>, i: nat) returns (end: Char, j: nat)
    requires i < |chars|
    ensures i < j <= |chars| && end == chars[i] + (j - i - 1)
    ensures forall k :: i <= k < j ==> chars[k] == chars[i] + (k - i)
    ensures j < |chars| ==> chars[j] != end + 1
  {
    end := chars[i];
    j := i + 1;
    while j < |chars| && chars[j] == end + 1
      invariant i < j <= |chars|
      invariant end == chars[i] + (j - i - 1)
      invariant forall k :: i <= k < j ==> chars[k] == chars[i] + (k - i)
    {
      end := chars[j];
      j := j + 1;
    }
  }

  /** `group_chars`: greedy runs of consecutive code points. */
  method GroupChars(cc: CharClass) returns (gs: seq<Group>)
    ensures Grouping(gs, cc.chars)
  {
    var chars := cc.chars;
    var n := |chars|;
    gs := [];
    var i := 0;
    while i < n
      invariant 0 <= i <= n
      invariant Grouping(gs, chars[..i])
      invariant i == 0 ==> gs == []
      invariant i > 0 && i < n ==> |gs| > 0 && chars[i] != End(gs[|gs| - 1]) + 1
    {
      var start := chars[i];
      var end, j := RunFrom(chars, i);
      var g := if start == end then Single(end) else Run(start, end);
      GroupStep(gs, chars, i, j, end);
      gs := gs + [g];
      i := j;
    }
    assert chars[..n] == chars;
  }

  /** All characters of a list of classes. */
  function CharsOf(cs: seq<CharClass>): set<Char>
  {
    if cs == [] then {} else CharsOf(cs[..|cs| - 1]) + Elems(cs[|cs| - 1].chars)
  }

  /** One removal of `RemoveEach` keeps its invariants. */
  lemma RemoveEachStep(cc: CharClass, cur: CharClass, hits: seq<Char>, k: nat)
    requires k < |hits| && hits[k] in cur.chars
    requires NoDup(cc.chars) ==> NoDup(cur.chars) && cur.chars == Without(cc.chars, Elems(hits[..k]))
    ensures NoDup(cc.chars) ==>
      && NoDup(RemoveChar(cur, hits[k]).value.chars)
      && RemoveChar(cur, hits[k]).value.chars == Without(cc.chars, Elems(hits[..k + 1]))
    ensures NoDup(cc.chars) && NoDup(hits) && (forall m :: k <= m < |hits| ==> hits[m] in cur.chars) ==>
      forall m :: k + 1 <= m < |hits| ==> hits[m] in RemoveChar(cur, hits[k]).value.chars
  {
    if NoDup(cc.chars) {
      var next := RemoveChar(cur, hits[k]).value;
      WithoutShape(cur.chars, {hits[k]});
      WithoutTwice(cc.chars, Elems(hits[..k]), {hits[k]});
      ElemsSnoc(hits, k);
      if NoDup(hits) && forall m :: k <= m < |hits| ==> hits[m] in cur.chars {
        forall m | k + 1 <= m < |hits| ensures hits[m] in next.chars {
          assert hits[m] != hits[k];
          WithoutMembers(cur.chars, {hits[k]}, hits[m]);
        }
      }
    }
  }

  /** `remove_char` of each character of `hits` in turn, from the front,
      stopping at the first one that is absent. */
  function RemoveAll(cc: CharClass, hits: seq<Char>): Result<CharClass>
    decreases |hits|
  {
    if hits == [] then Ok(cc)
    else
      var next :- RemoveChar(cc, hits[0]);
      RemoveAll(next, hits[1..])
  }

  /** `strip` as a fold: for each other class in turn, `RemoveAll` of the
      characters of that class that the current class holds. */
  function StripSpec(cc: CharClass, others: seq<CharClass>): Result<CharClass>
    decreases |others|
  {
    if others == [] then Ok(cc)
    else
      var next :- RemoveAll(cc, Keep(others[0].chars, Elems(cc.chars)));
      StripSpec(next, others[1..])
  }

  /** On a class without repeats, a successful `RemoveAll` has removed
      exactly the characters of `hits`, and leaves no repeats. */
  lemma {:induction false} RemoveAllWithout(cur: CharClass, hits: seq<Char>)
    requires NoDup(cur.chars)
    decreases |hits|
    ensures RemoveAll(cur, hits).Ok? ==>
      && NoDup(RemoveAll(cur, hits).value.chars)
      && RemoveAll(cur, hits).value.chars == Without(cur.chars, Elems(hits))
  {
    if hits == [] {
      WithoutNone(cur.chars, Elems(hits));
    } else if hits[0] in cur.chars {
      var next := RemoveChar(cur, hits[0]).value;
      WithoutShape(cur.chars, {hits[0]});
      RemoveAllWithout(next, hits[1..]);
      WithoutTwice(cur.chars, {hits[0]}, Elems(hits[1..]));
      ElemsCons(hits);
    }
  }

  /** On a class without repeats, a successful `strip` from the `j`-th other
      class on, after the first `j` are stripped, keeps exactly the
      characters that occur in no other class. */
  lemma {:induction false} StripWithout(cc: CharClass, cur: CharClass, others: seq<CharClass>, j: nat)
    requires j <= |others| && NoDup(cc.chars)
    requires NoDup(cur.chars) && cur.chars == Without(cc.chars, CharsOf(others[..j]))
    decreases |others| - j
    ensures StripSpec(cur, others[j..]).Ok? ==>
      StripSpec(cur, others[j..]).value.chars == Without(cc.chars, CharsOf(others))
  {
    if j == |others| {
      assert others[..j] == others;
    } else {
      var hits := Keep(others[j].chars, Elems(cur.chars));
      assert others[j..][0] == others[j] && others[j..][1..] == others[j + 1..];
      RemoveAllWithout(cur, hits);
      var next := RemoveAll(cur, hits);
      if next.Ok? {
        StripStep(cc.chars, cur.chars, others, j, next.value.chars);
        StripWithout(cc, next.value, others, j + 1);
      }
    }
  }

  /** One round of `RemoveEach`: `remove_char` of the next character, which
      keeps the loop's invariants. */
  method RemoveNext(cc: CharClass, cur: CharClass, hits: seq<Char>, k: nat, ghost nd: bool, ghost present: bool)
    returns (r: Result<CharClass>)
    requires k < |hits| && nd == NoDup(cc.chars) && (present ==> nd && NoDup(hits))
    requires cur.quantifier == cc.quantifier && cur.wildcard == cc.wildcard
    requires multiset(cur.chars) <= multiset(cc.chars)
    requires Sorted(cc.chars) ==> Sorted(cur.chars)
    requires nd ==> NoDup(cur.chars) && cur.chars == Without(cc.chars, Elems(hits[..k]))
    requires present ==> forall m :: k <= m < |hits| ==> hits[m] in cur.chars
    ensures r.Err? ==> r.error == CharNotInClass && !present
    ensures r.Ok? ==> r.value.quantifier == cc.quantifier && r.value.wildcard == cc.wildcard
    ensures r.Ok? ==> multiset(r.value.chars) <= multiset(cc.chars)
    ensures r.Ok? ==> (Sorted(cc.chars) ==> Sorted(r.value.chars))
    ensures r.Ok? ==> (nd ==> NoDup(r.value.chars) && r.value.chars == Without(cc.chars, Elems(hits[..k + 1])))
    ensures r.Ok? ==> (present ==> forall m :: k + 1 <= m < |hits| ==> hits[m] in r.value.chars)
    ensures r == RemoveChar(cur, hits[k])
  {
    r := RemoveChar(cur, hits[k]);
    if r.Ok? {
      RemoveEachStep(cc, cur, hits, k);
      assert multiset(r.value.chars) <= multiset(cur.chars);
    }
  }

  /** The inner `foreach` of `strip`: `remove_char` for each character of
      `hits` in turn, stopping at the first one that is absent. */
  method RemoveEach(cc: CharClass, hits: seq<Char>) returns (r: Result<CharClass>)
    ensures r.Err? ==> r.error == CharNotInClass
    ensures r.Ok? ==> r.value.quantifier == cc.quantifier && r.value.wildcard == cc.wildcard
    ensures r.Ok? ==> multiset(r.value.chars) <= multiset(cc.chars)
    ensures r.Ok? && Sorted(cc.chars) ==> Sorted(r.value.chars)
    ensures NoDup(cc.chars) && NoDup(hits) && (forall k :: 0 <= k < |hits| ==> hits[k] in cc.chars) ==> r.Ok?
    ensures r.Ok? && NoDup(cc.chars) ==>
      NoDup(r.value.chars) && r.value.chars == Without(cc.chars, Elems(hits))
    ensures r == RemoveAll(cc, hits)
  {
    ghost var nd := NoDup(cc.chars);
    ghost var present := nd && NoDup(hits) && forall k :: 0 <= k < |hits| ==> hits[k] in cc.chars;
    var cur := cc;
    if nd {
      WithoutNone(cc.chars, Elems(hits[..0]));
    }
    for k := 0 to |hits|
      invariant cur.quantifier == cc.quantifier && cur.wildcard == cc.wildcard
      invariant multiset(cur.chars) <= multiset(cc.chars)
      invariant Sorted(cc.chars) ==> Sorted(cur.chars)
      invariant nd ==> NoDup(cur.chars) && cur.chars == Without(cc.chars, Elems(hits[..k]))
      invariant present ==> forall m :: k <= m < |hits| ==> hits[m] in cur.chars
      invariant RemoveAll(cur, hits[k..]) == RemoveAll(cc, hits)
    {
      var removed := RemoveNext(cc, cur, hits, k, nd, present);
      assert hits[k..][1..] == hits[k + 1..];
      if removed.Err? {
        return Err(removed.error);
      }
      cur := removed.value;
    }
    assert hits[..|hits|] == hits && hits[|hits|..] == [];
    return Ok(cur);
  }

  /** The characters of `other` that `cur` holds, as `filter` lists them:
      all present, and distinct when `other`'s are. */
  lemma HitsPresent(other: seq<Char>, cur: seq<Char>)
    ensures forall k :: 0 <= k < |Keep(other, Elems(cur))| ==> Keep(other, Elems(cur))[k] in cur
    ensures NoDup(other) ==> NoDup(Keep(other, Elems(cur)))
  {
    var hits := Keep(other, Elems(cur));
    forall k | 0 <= k < |hits| ensures hits[k] in cur {
      assert hits[k] in hits;
      KeepMembers(other, Elems(cur), hits[k]);
    }
    if NoDup(other) {
      KeepNoDup(other, Elems(cur));
    }
  }

  /** Removing the hits of one more class removes its characters. */
  lemma StripStep(cc: seq<Char>, cur: seq<Char>, others: seq<CharClass>, j: nat, next: seq<Char>)
    requires j < |others|
    requires cur == Without(cc, CharsOf(others[..j]))
    requires next == Without(cur, Elems(Keep(others[j].chars, Elems(cur))))
    ensures next == Without(cc, CharsOf(others[..j + 1]))
  {
    var other := others[j].chars;
    var hits := Keep(other, Elems(cur));
    forall c | c in cur ensures c in Elems(hits) <==> c in Elems(other) {
      KeepMembers(other, Elems(cur), c);
    }
    WithoutAgree(cur, Elems(hits), Elems(other));
    WithoutTwice(cc, CharsOf(others[..j]), Elems(other));
    assert others[..j + 1][..j] == others[..j];
  }

  /** One round of `strip`: remove from `cur` the characters of `other`
      that `cur` holds. */
  method StripOne(cur: CharClass, other: CharClass) returns (r: Result<CharClass>)
    ensures r.Err? ==> r.error == CharNotInClass
    ensures r.Ok? ==> r.value.quantifier == cur.quantifier && r.value.wildcard == cur.wildcard
    ensures r.Ok? ==> multiset(r.value.chars) <= multiset(cur.chars)
    ensures r.Ok? && Sorted(cur.chars) ==> Sorted(r.value.chars)
    ensures NoDup(cur.chars) && NoDup(other.chars) ==> r.Ok?
    ensures r.Ok? && NoDup(cur.chars) ==>
      NoDup(r.value.chars) && r.value.chars == Without(cur.chars, Elems(Keep(other.chars, Elems(cur.chars))))
    ensures r == RemoveAll(cur, Keep(other.chars, Elems(cur.chars)))
  {
    var hits := Keep(other.chars, Elems(cur.chars));
    HitsPresent(other.chars, cur.chars);
    r := RemoveEach(cur, hits);
  }

  /** `strip`: for each other class, remove from this class each of the
      other's characters that this class holds, collected before the
      removals. */
  method Strip(cc: CharClass, others: seq<CharClass>) returns (r: Result<CharClass>)
    ensures r.Err? ==> r.error == CharNotInClass
    ensures r.Ok? ==> r.value.quantifier == cc.quantifier && r.value.wildcard == cc.wildcard
    ensures r.Ok? ==> multiset(r.value.chars) <= multiset(cc.chars)
    ensures r.Ok? && Sorted(cc.chars) ==> Sorted(r.value.chars)
    ensures NoDup(cc.chars) && (forall i :: 0 <= i < |others| ==> NoDup(others[i].chars)) ==> r.Ok?
    ensures r.Ok? && NoDup(cc.chars) ==> r.value.chars == Without(cc.chars, CharsOf(others))
    ensures r == StripSpec(cc, others)
  {
    ghost var nd := NoDup(cc.chars);
    ghost var allNd := nd && forall i :: 0 <= i < |others| ==> NoDup(others[i].chars);
    var cur := cc;
    if nd {
      WithoutNone(cc.chars, CharsOf(others[..0]));
    }
    for j := 0 to |others|
      invariant cur.quantifier == cc.quantifier && cur.wildcard == cc.wildcard
      invariant multiset(cur.chars) <= multiset(cc.chars)
      invariant Sorted(cc.chars) ==> Sorted(cur.chars)
      invariant nd ==> NoDup(cur.chars) && cur.chars == Without(cc.chars, CharsOf(others[..j]))
      invariant StripSpec(cur, others[j..]) == StripSpec(cc, others)
    {
      var removed := StripOne(cur, others[j]);
      assert others[j..][1..] == others[j + 1..];
      if removed.Err? {
        return Err(removed.error);
      }
      if nd {
        StripStep(cc.chars, cur.chars, others, j, removed.value.chars);
      }
      cur := removed.value;
    }
    assert others[..|others|] == others && others[|others|..] == [];
    return Ok(cur);
  }
}
