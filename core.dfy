/** lib/core.py: the reserved characters and `CoreIter`, a cursor over a
    sequence with a one-slot pushback buffer and a few eager combinators. */
module Core {
  import opened Errors

  /** A Unicode code point: one character of a Python string. */
  type Char = c: int | 0 <= c < 0x11_0000

  const OParen: Char := '(' as int
  const CParen: Char := ')' as int
  const OBrack: Char := '[' as int
  const CBrack: Char := ']' as int
  const BSlash: Char := '\\' as int
  const Bar: Char := '|' as int
  const Dash: Char := '-' as int
  const QMark: Char := '?' as int
  const Star: Char := '*' as int
  const Plus: Char := '+' as int

  /** The code points of a Dafny string literal. */
  function Str(s: string): (r: seq<Char>)
    ensures |r| == |s|
    ensures forall i :: 0 <= i < |s| ==> r[i] == s[i] as int
  {
    if s == [] then [] else [s[0] as int] + Str(s[1..])
  }

  /** The elements of `s` that satisfy `f`, in their original order. */
  function Filtered<T>(f: T -> bool, s: seq<T>): seq<T>
  {
    if s == [] then [] else (if f(s[0]) then [s[0]] else []) + Filtered(f, s[1..])
  }

  /** Filtering keeps exactly the elements that satisfy `f`. */
  lemma {:induction false} FilteredMembers<T>(f: T -> bool, s: seq<T>, x: T)
    ensures x in Filtered(f, s) <==> x in s && f(x)
  {
    if s != [] {
      FilteredMembers(f, s[1..], x);
      assert s == [s[0]] + s[1..];
    }
  }

  /** Filtering commutes with concatenation, so it keeps the original order. */
  lemma {:induction false} FilteredAppend<T>(f: T -> bool, a: seq<T>, b: seq<T>)
    ensures Filtered(f, a + b) == Filtered(f, a) + Filtered(f, b)
  {
    if a == [] {
      assert a + b == b;
    } else {
      assert (a + b)[1..] == a[1..] + b;
      FilteredAppend(f, a[1..], b);
    }
  }

  /** Filtering never lengthens a sequence, and keeps it whole exactly when
      every element passes. */
  lemma {:induction false} FilteredLength<T>(f: T -> bool, s: seq<T>)
    ensures |Filtered(f, s)| <= |s|
    ensures |Filtered(f, s)| == |s| <==> forall i :: 0 <= i < |s| ==> f(s[i])
  {
    if s != [] {
      FilteredLength(f, s[1..]);
      if |Filtered(f, s)| == |s| {
        assert f(s[0]);
        forall i | 0 <= i < |s| ensures f(s[i]) {
          if i > 0 { assert s[i] == s[1..][i - 1]; }
        }
      }
      if forall i :: 0 <= i < |s| ==> f(s[i]) {
        assert f(s[0]);
        assert forall i :: 0 <= i < |s[1..]| ==> f(s[1..][i]) by {
          forall i | 0 <= i < |s[1..]| ensures f(s[1..][i]) { assert s[1..][i] == s[i + 1]; }
        }
      }
    }
  }

  /** `CoreIter`: `pos` is how far the underlying iterator has gone, `prev` the
      last element `next` took from it, and `hold` the pushed-back element
      (Python's `__next`); an empty hold is Python's `None`. */
  class CoreIter<T> {
    const obj: seq<T>
    var pos: nat
    var prev: Option<T>
    var hold: Option<T>

    ghost predicate Valid()
      reads this
    {
      pos <= |obj| && (hold.Some? ==> hold == prev)
    }

    /** The state that `next` and `putback` alone keep: `prev` is the element
        just before `pos`. The combinators, which read the underlying iterator
        directly, do not keep it. */
    ghost predicate Tracking()
      reads this
    {
      Valid() && prev == (if pos == 0 then None else Some(obj[pos - 1]))
    }

    /** Where reading resumes: one step back while an element is held. */
    ghost function Position(): (p: nat)
      reads this
      requires Tracking()
      ensures p <= |obj|
    {
      if hold.Some? then pos - 1 else pos
    }

    constructor (s: seq<T>)
      ensures Tracking() && obj == s && pos == 0 && prev == None && hold == None
      ensures Position() == 0
    {
      obj := s;
      pos := 0;
      prev := None;
      hold := None;
    }

    /** `putback`: hold the last element read; before anything was read the
        held value is `None`, which counts as no hold. */
    method Putback()
      requires Valid()
      modifies this
      ensures Valid()
      ensures hold == prev && prev == old(prev) && pos == old(pos)
      ensures old(Tracking()) ==> Tracking()
      ensures old(Tracking()) ==>
        Position() == (if old(hold).None? && old(prev).Some? then old(Position()) - 1 else old(Position()))
    {
      hold := prev;
    }

    /** `next`: the held element if there is one, else the next element of the
        underlying sequence, else `None` (the default). */
    method Next() returns (r: Option<T>)
      requires Valid()
      modifies this
      ensures Valid() && hold == None
      ensures old(hold).Some? ==> r == old(hold) && pos == old(pos) && prev == old(prev)
      ensures old(hold).None? && old(pos) < |obj| ==>
        r == Some(obj[old(pos)]) && pos == old(pos) + 1 && prev == r
      ensures old(hold).None? && old(pos) == |obj| ==>
        r == None && pos == old(pos) && prev == old(prev)
      ensures old(Tracking()) ==> Tracking()
      ensures old(Tracking()) ==>
        r == (if old(Position()) < |obj| then Some(obj[old(Position())]) else None)
      ensures old(Tracking()) ==>
        Position() == if old(Position()) < |obj| then old(Position()) + 1 else old(Position())
    {
      if hold.Some? {
        r := hold;
        hold := None;
        return;
      }
      if pos < |obj| {
        prev := Some(obj[pos]);
        pos := pos + 1;
        r := prev;
      } else {
        r := None;
      }
    }

    /** `map`: one result per remaining element, in order. */
    method Map<R>(f: T -> R) returns (r: seq<R>)
      requires Valid()
      modifies this
      ensures Valid() && pos == |obj| && prev == old(prev) && hold == old(hold)
      ensures |r| == |obj| - old(pos)
      ensures forall i :: 0 <= i < |r| ==> r[i] == f(obj[old(pos) + i])
    {
      r := [];
      while pos < |obj|
        invariant old(pos) <= pos <= |obj| && prev == old(prev) && hold == old(hold)
        invariant |r| == pos - old(pos)
        invariant forall i :: 0 <= i < |r| ==> r[i] == f(obj[old(pos) + i])
      {
        r := r + [f(obj[pos])];
        pos := pos + 1;
      }
    }

    /** `filter`: the remaining elements that satisfy `f`, in order. */
    method Filter(f: T -> bool) returns (r: seq<T>)
      requires Valid()
      modifies this
      ensures Valid() && pos == |obj| && prev == old(prev) && hold == old(hold)
      ensures r == Filtered(f, old(obj[pos..]))
    {
      r := [];
      ghost var start := pos;
      while pos < |obj|
        invariant start <= pos <= |obj| && prev == old(prev) && hold == old(hold)
        invariant r == Filtered(f, obj[start..pos])
      {
        FilteredAppend(f, obj[start..pos], [obj[pos]]);
        assert obj[start..pos + 1] == obj[start..pos] + [obj[pos]];
        r := r + (if f(obj[pos]) then [obj[pos]] else []);
        pos := pos + 1;
      }
      assert obj[start..pos] == obj[start..];
    }

    /** `all`: stops at the first element that fails `f`. */
    method All(f: T -> bool) returns (b: bool)
      requires Valid()
      modifies this
      ensures Valid() && prev == old(prev) && hold == old(hold)
      ensures b <==> forall i :: old(pos) <= i < |obj| ==> f(obj[i])
      ensures b ==> pos == |obj|
      ensures !b ==> old(pos) < pos && !f(obj[pos - 1])
      ensures !b ==> forall i :: old(pos) <= i < pos - 1 ==> f(obj[i])
    {
      while pos < |obj|
        invariant old(pos) <= pos <= |obj| && prev == old(prev) && hold == old(hold)
        invariant forall i :: old(pos) <= i < pos ==> f(obj[i])
      {
        var e := obj[pos];
        pos := pos + 1;
        if !f(e) {
          return false;
        }
      }
      return true;
    }

    /** `any`: stops at the first element that satisfies `f`. */
    method Any(f: T -> bool) returns (b: bool)
      requires Valid()
      modifies this
      ensures Valid() && prev == old(prev) && hold == old(hold)
      ensures b <==> exists i :: old(pos) <= i < |obj| && f(obj[i])
      ensures !b ==> pos == |obj|
      ensures b ==> old(pos) < pos && f(obj[pos - 1])
      ensures b ==> forall i :: old(pos) <= i < pos - 1 ==> !f(obj[i])
    {
      while pos < |obj|
        invariant old(pos) <= pos <= |obj| && prev == old(prev) && hold == old(hold)
        invariant forall i :: old(pos) <= i < pos ==> !f(obj[i])
      {
        var e := obj[pos];
        pos := pos + 1;
        if f(e) {
          return true;
        }
      }
      return false;
    }
  }
}
