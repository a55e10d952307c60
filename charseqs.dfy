/** Facts about sequences of code points that the character classes rely on:
    the sorting that `add_char` performs with `list.sort`, the removal that
    `list.remove` performs, and filtering by a set of characters. */
module CharSeqs {
  import opened Core

  ghost predicate Sorted(s: seq<Char>)
  {
    forall i, j :: 0 <= i < j < |s| ==> s[i] <= s[j]
  }

  ghost predicate NoDup(s: seq<Char>)
  {
    forall i, j :: 0 <= i < j < |s| ==> s[i] != s[j]
  }

  /** The set of characters in `s`. */
  function Elems(s: seq<Char>): set<Char>
  {
    set c | c in s
  }

  /** The characters of a prefix grow by one element at a time. */
  lemma ElemsSnoc(s: seq<Char>, k: nat)
    requires k < |s|
    ensures Elems(s[..k + 1]) == Elems(s[..k]) + {s[k]}
  {
    assert s[..k + 1] == s[..k] + [s[k]];
  }

  /** The characters of a list are its head and those of its tail. */
  lemma ElemsCons(s: seq<Char>)
    requires s != []
    ensures Elems(s) == {s[0]} + Elems(s[1..])
  {
    assert s == [s[0]] + s[1..];
  }

  /** The code points `lo` to `hi` inclusive (`range(lo, hi + 1)`). */
  function Range(lo: int, hi: int): (r: seq<Char>)
    requires 0 <= lo && hi < 0x11_0000
    ensures |r| == if lo <= hi then hi - lo + 1 else 0
    ensures forall i :: 0 <= i < |r| ==> r[i] == lo + i
  {
    if lo > hi then [] else seq(hi - lo + 1, i requires 0 <= i < hi - lo + 1 => (lo + i) as Char)
  }

  lemma RangeSorted(lo: int, hi: int)
    requires 0 <= lo && hi < 0x11_0000
    ensures Sorted(Range(lo, hi)) && NoDup(Range(lo, hi))
  {
  }

  /** Sorted insertion of one character, after any equal ones. */
  function Insert(s: seq<Char>, c: Char): seq<Char>
  {
    if s == [] then [c] else if c < s[0] then [c] + s else [s[0]] + Insert(s[1..], c)
  }

  /** Insertion sort: the order `list.sort` gives a list of code points. */
  function Sort(s: seq<Char>): seq<Char>
  {
    if s == [] then [] else Insert(Sort(s[..|s| - 1]), s[|s| - 1])
  }

  lemma {:induction false} InsertMultiset(s: seq<Char>, c: Char)
    ensures multiset(Insert(s, c)) == multiset(s) + multiset{c}
  {
    if s != [] && c >= s[0] {
      InsertMultiset(s[1..], c);
      assert s == [s[0]] + s[1..];
    }
  }

  /** Sortedness of a sequence split into its head and its tail. */
  lemma ConsSorted(c: Char, r: seq<Char>)
    ensures Sorted([c] + r) <==> (forall x :: x in r ==> c <= x) && Sorted(r)
  {
    var s := [c] + r;
    if Sorted(s) {
      forall x | x in r ensures c <= x {
        var k :| 0 <= k < |r| && r[k] == x;
        assert s[0] == c && s[k + 1] == x;
      }
      forall i, j | 0 <= i < j < |r| ensures r[i] <= r[j] {
        assert s[i + 1] == r[i] && s[j + 1] == r[j];
      }
    }
    if (forall x :: x in r ==> c <= x) && Sorted(r) {
      forall i, j | 0 <= i < j < |s| ensures s[i] <= s[j] {
        assert s[j] == r[j - 1] && r[j - 1] in r;
        if i > 0 { assert s[i] == r[i - 1]; }
      }
    }
  }

  /** Distinctness of a sequence split into its head and its tail. */
  lemma ConsNoDup(c: Char, r: seq<Char>)
    ensures NoDup([c] + r) <==> c !in r && NoDup(r)
  {
    var s := [c] + r;
    if NoDup(s) {
      assert c !in r by {
        forall k | 0 <= k < |r| ensures r[k] != c { assert s[0] == c && s[k + 1] == r[k]; }
      }
      forall i, j | 0 <= i < j < |r| ensures r[i] != r[j] {
        assert s[i + 1] == r[i] && s[j + 1] == r[j];
      }
    }
    if c !in r && NoDup(r) {
      forall i, j | 0 <= i < j < |s| ensures s[i] != s[j] {
        assert s[j] == r[j - 1] && r[j - 1] in r;
        if i > 0 { assert s[i] == r[i - 1]; }
      }
    }
  }

  lemma {:induction false} InsertSorted(s: seq<Char>, c: Char)
    requires Sorted(s)
    ensures Sorted(Insert(s, c))
  {
    if s == [] {
    } else if c < s[0] {
      assert s == [s[0]] + s[1..];
      ConsSorted(s[0], s[1..]);
      forall x | x in s ensures c <= x {
        if x != s[0] { assert x in s[1..]; }
      }
      ConsSorted(c, s);
    } else {
      assert s == [s[0]] + s[1..];
      ConsSorted(s[0], s[1..]);
      InsertSorted(s[1..], c);
      InsertMultiset(s[1..], c);
      var r := Insert(s[1..], c);
      forall x | x in r ensures s[0] <= x {
        assert x in multiset(r);
        if x != c { assert x in multiset(s[1..]); }
      }
      ConsSorted(s[0], r);
    }
  }

  /** Sorting yields a sorted permutation. */
  lemma {:induction false} SortProps(s: seq<Char>)
    ensures Sorted(Sort(s)) && multiset(Sort(s)) == multiset(s)
  {
    if s != [] {
      var init := s[..|s| - 1];
      SortProps(init);
      InsertSorted(Sort(init), s[|s| - 1]);
      InsertMultiset(Sort(init), s[|s| - 1]);
      assert s == init + [s[|s| - 1]];
    }
  }

  /** The head of a sorted sequence is its least element, and its tail is sorted. */
  lemma SortedHead(a: seq<Char>)
    requires Sorted(a) && a != []
    ensures forall x :: x in a ==> a[0] <= x
    ensures Sorted(a[1..])
  {
    assert a == [a[0]] + a[1..];
    ConsSorted(a[0], a[1..]);
  }

  /** A sorted sequence is fixed by its multiset of elements. */
  lemma {:induction false} SortedUnique(a: seq<Char>, b: seq<Char>)
    requires Sorted(a) && Sorted(b) && multiset(a) == multiset(b)
    ensures a == b
  {
    if a == [] {
      assert |multiset(b)| == 0;
    } else {
      assert |b| == |multiset(b)| == |multiset(a)| == |a|;
      SortedHead(a);
      SortedHead(b);
      assert a[0] in multiset(b) && b[0] in multiset(a);
      assert a[0] == b[0];
      assert a == [a[0]] + a[1..];
      assert b == [b[0]] + b[1..];
      assert multiset(a) == multiset{a[0]} + multiset(a[1..]);
      assert multiset(b) == multiset{b[0]} + multiset(b[1..]);
      assert multiset(a[1..]) == multiset(a) - multiset{a[0]};
      assert multiset(b[1..]) == multiset(b) - multiset{b[0]};
      SortedUnique(a[1..], b[1..]);
    }
  }

  /** Sorting an already sorted sequence changes nothing. */
  lemma SortOfSorted(s: seq<Char>)
    requires Sorted(s)
    ensures Sort(s) == s
  {
    SortProps(s);
    SortedUnique(Sort(s), s);
  }

  /** The elements of `s` that are not in `xs`, in their original order. */
  function Without(s: seq<Char>, xs: set<Char>): seq<Char>
  {
    if s == [] then [] else (if s[0] in xs then [] else [s[0]]) + Without(s[1..], xs)
  }

  /** The elements of `s` that are in `xs`, in their original order. */
  function Keep(s: seq<Char>, xs: set<Char>): seq<Char>
  {
    if s == [] then [] else (if s[0] in xs then [s[0]] else []) + Keep(s[1..], xs)
  }

  lemma {:induction false} WithoutMembers(s: seq<Char>, xs: set<Char>, x: Char)
    ensures x in Without(s, xs) <==> x in s && x !in xs
  {
    if s != [] {
      WithoutMembers(s[1..], xs, x);
      assert s == [s[0]] + s[1..];
    }
  }

  lemma {:induction false} KeepMembers(s: seq<Char>, xs: set<Char>, x: Char)
    ensures x in Keep(s, xs) <==> x in s && x in xs
  {
    if s != [] {
      KeepMembers(s[1..], xs, x);
      assert s == [s[0]] + s[1..];
    }
  }

  lemma {:induction false} WithoutShape(s: seq<Char>, xs: set<Char>)
    ensures multiset(Without(s, xs)) <= multiset(s)
    ensures Sorted(s) ==> Sorted(Without(s, xs))
    ensures NoDup(s) ==> NoDup(Without(s, xs))
  {
    if s != [] {
      WithoutShape(s[1..], xs);
      assert s == [s[0]] + s[1..];
      var w := Without(s[1..], xs);
      ConsSorted(s[0], s[1..]);
      ConsNoDup(s[0], s[1..]);
      if s[0] !in xs {
        assert Without(s, xs) == [s[0]] + w;
        forall x | x in w ensures x in s[1..] { WithoutMembers(s[1..], xs, x); }
        ConsSorted(s[0], w);
        ConsNoDup(s[0], w);
      } else {
        assert Without(s, xs) == w;
      }
    }
  }

  lemma {:induction false} KeepNoDup(s: seq<Char>, xs: set<Char>)
    requires NoDup(s)
    ensures NoDup(Keep(s, xs))
  {
    if s != [] {
      assert s == [s[0]] + s[1..];
      ConsNoDup(s[0], s[1..]);
      KeepNoDup(s[1..], xs);
      var w := Keep(s[1..], xs);
      if s[0] in xs {
        assert Keep(s, xs) == [s[0]] + w;
        KeepMembers(s[1..], xs, s[0]);
        ConsNoDup(s[0], w);
      } else {
        assert Keep(s, xs) == w;
      }
    }
  }

  /** Removing by one set and then by another is removing by their union. */
  lemma {:induction false} WithoutTwice(s: seq<Char>, xs: set<Char>, ys: set<Char>)
    ensures Without(Without(s, xs), ys) == Without(s, xs + ys)
  {
    if s != [] {
      WithoutTwice(s[1..], xs, ys);
      var w := Without(s[1..], xs);
      if s[0] !in xs {
        assert Without(s, xs) == [s[0]] + w;
        assert ([s[0]] + w)[1..] == w;
      } else {
        assert Without(s, xs) == w;
      }
    }
  }

  /** Only the removed characters that occur in `s` matter. */
  lemma {:induction false} WithoutAgree(s: seq<Char>, xs: set<Char>, ys: set<Char>)
    requires forall c :: c in s ==> (c in xs <==> c in ys)
    ensures Without(s, xs) == Without(s, ys)
  {
    if s != [] {
      assert s[0] in s;
      assert forall c :: c in s[1..] ==> c in s;
      WithoutAgree(s[1..], xs, ys);
    }
  }

  /** Removing characters that do not occur changes nothing. */
  lemma {:induction false} WithoutNone(s: seq<Char>, xs: set<Char>)
    requires forall c :: c in s ==> c !in xs
    ensures Without(s, xs) == s
  {
    if s != [] {
      assert s[0] in s;
      assert forall c :: c in s[1..] ==> c in s;
      WithoutNone(s[1..], xs);
      assert s == [s[0]] + s[1..];
    }
  }

  /** `list.remove`: drop the first occurrence of `c`. */
  function RemoveFirst(s: seq<Char>, c: Char): seq<Char>
    requires c in s
  {
    if s[0] == c then s[1..] else [s[0]] + RemoveFirst(s[1..], c)
  }

  lemma {:induction false} RemoveFirstCount(s: seq<Char>, c: Char)
    requires c in s
    ensures multiset(RemoveFirst(s, c)) == multiset(s) - multiset{c}
  {
    assert s == [s[0]] + s[1..];
    if s[0] != c {
      assert c in s[1..];
      RemoveFirstCount(s[1..], c);
    }
  }

  lemma {:induction false} RemoveFirstSorted(s: seq<Char>, c: Char)
    requires c in s && Sorted(s)
    ensures Sorted(RemoveFirst(s, c))
  {
    if s[0] != c {
      assert c in s[1..];
      RemoveFirstSorted(s[1..], c);
      var r := RemoveFirst(s[1..], c);
      RemoveFirstCount(s[1..], c);
      forall x | x in r ensures s[0] <= x {
        assert x in multiset(r);
        var k :| 0 <= k < |s[1..]| && s[1..][k] == x;
        assert s[k + 1] == x;
      }
      ConsSorted(s[0], r);
    }
  }

  lemma RemoveFirstShape(s: seq<Char>, c: Char)
    requires c in s
    ensures multiset(RemoveFirst(s, c)) == multiset(s) - multiset{c}
    ensures Sorted(s) ==> Sorted(RemoveFirst(s, c))
  {
    RemoveFirstCount(s, c);
    if Sorted(s) {
      RemoveFirstSorted(s, c);
    }
  }

  /** Without duplicates, removing the first occurrence removes them all. */
  lemma {:induction false} RemoveFirstNoDup(s: seq<Char>, c: Char)
    requires c in s && NoDup(s)
    ensures RemoveFirst(s, c) == Without(s, {c})
  {
    assert s == [s[0]] + s[1..];
    ConsNoDup(s[0], s[1..]);
    if s[0] == c {
      WithoutNone(s[1..], {c});
    } else {
      assert c in s[1..];
      RemoveFirstNoDup(s[1..], c);
    }
  }
}
