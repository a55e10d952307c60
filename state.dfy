/** lib/state.py: states with labelled transitions, and a machine holding an
    id-indexed list of states and a cursor. The two kinds of state (NFA and
    DFA) differ only in their extra data, the type parameter `X`. */
module States {
  import opened Errors
  import opened Core
  import opened Quantifiers
  import opened CharSeqs
  import opened Chars

  /** One entry of the `transitions` dict: a key class and the id of the
      target state. */
  datatype Transition = Transition(key: CharClass, target: nat)

  /** A state: its id, its transitions in insertion order, the `final` flag
      and the kind-specific data. */
  datatype State<X> = State(id: nat, transitions: seq<Transition>, final: bool, data: X)

  function Keys(ts: seq<Transition>): (r: seq<CharClass>)
    ensures |r| == |ts|
    ensures forall i :: 0 <= i < |ts| ==> r[i] == ts[i].key
  {
    if ts == [] then [] else Keys(ts[..|ts| - 1]) + [ts[|ts| - 1].key]
  }

  function IndexOf(ts: seq<Transition>, k: CharClass): (r: Option<nat>)
    ensures r.Some? ==> r.value < |ts| && ts[r.value].key == k
    ensures r.None? <==> k !in Keys(ts)
  {
    if ts == [] then None
    else if ts[|ts| - 1].key == k then Some(|ts| - 1)
    else
      var r := IndexOf(ts[..|ts| - 1], k);
      assert Keys(ts) == Keys(ts[..|ts| - 1]) + [ts[|ts| - 1].key];
      r
  }

  /** `transitions[k]`, when `k` is a key. */
  function Lookup(ts: seq<Transition>, k: CharClass): Option<nat>
  {
    match IndexOf(ts, k)
    case None => None
    case Some(i) => Some(ts[i].target)
  }

  /** No key occurs twice, as in a dict. */
  ghost predicate DistinctKeys(ts: seq<Transition>)
  {
    forall i, j :: 0 <= i < j < |ts| ==> ts[i].key != ts[j].key
  }

  /** `transitions[k] = t`: an equal key keeps its place and gets the new
      target; otherwise the entry goes at the end. */
  function Put(ts: seq<Transition>, k: CharClass, t: nat): (r: seq<Transition>)
    ensures k in Keys(ts) ==> |r| == |ts|
    ensures k !in Keys(ts) ==> r == ts + [Transition(k, t)]
  {
    match IndexOf(ts, k)
    case None => ts + [Transition(k, t)]
    case Some(i) => ts[i := Transition(k, t)]
  }

  /** After `Put`, the key maps to the new target and every other key to what
      it mapped to before; a dict stays a dict. */
  lemma PutLookup(ts: seq<Transition>, k: CharClass, t: nat)
    ensures Lookup(Put(ts, k, t), k) == Some(t)
    ensures forall x :: x != k ==> Lookup(Put(ts, k, t), x) == Lookup(ts, x)
    ensures DistinctKeys(ts) ==> DistinctKeys(Put(ts, k, t))
  {
    match IndexOf(ts, k)
    case None => LookupAppend(ts, k, t);
    case Some(i) => LookupUpdate(ts, i, k, t);
  }

  /** `Put` leaves every entry with another key where it was, and the new
      key is a key afterwards. */
  lemma PutKeys(ts: seq<Transition>, k: CharClass, t: nat)
    ensures forall i :: 0 <= i < |ts| && ts[i].key != k ==> Put(ts, k, t)[i] == ts[i]
    ensures k in Keys(Put(ts, k, t))
  {
    var r := Put(ts, k, t);
    match IndexOf(ts, k)
    case None =>
      assert r[|ts|].key == k;
    case Some(i) =>
      assert r[i].key == k;
  }

  lemma {:induction false} LookupAppend(ts: seq<Transition>, k: CharClass, t: nat)
    requires k !in Keys(ts)
    ensures Lookup(ts + [Transition(k, t)], k) == Some(t)
    ensures forall x :: x != k ==> Lookup(ts + [Transition(k, t)], x) == Lookup(ts, x)
    ensures DistinctKeys(ts) ==> DistinctKeys(ts + [Transition(k, t)])
  {
    var r := ts + [Transition(k, t)];
    assert r[..|r| - 1] == ts;
    forall i | 0 <= i < |ts| ensures ts[i].key != k {
      assert Keys(ts)[i] == ts[i].key;
    }
  }

  lemma LookupUpdate(ts: seq<Transition>, i: nat, k: CharClass, t: nat)
    requires IndexOf(ts, k) == Some(i)
    ensures Lookup(ts[i := Transition(k, t)], k) == Some(t)
    ensures forall x :: x != k ==> Lookup(ts[i := Transition(k, t)], x) == Lookup(ts, x)
    ensures DistinctKeys(ts) ==> DistinctKeys(ts[i := Transition(k, t)])
  {
    var r := ts[i := Transition(k, t)];
    forall x ensures IndexOf(r, x) == IndexOf(ts, x) {
      SameKeysIndex(ts, r, x);
    }
    forall x | x != k ensures Lookup(r, x) == Lookup(ts, x) {
      match IndexOf(ts, x)
      case None =>
      case Some(j) => assert j != i;
    }
  }

  /** Two transition lists with the same keys find a key at the same place. */
  lemma {:induction false} SameKeysIndex(a: seq<Transition>, b: seq<Transition>, x: CharClass)
    requires |a| == |b| && forall i :: 0 <= i < |a| ==> a[i].key == b[i].key
    ensures IndexOf(a, x) == IndexOf(b, x)
  {
    if a != [] {
      SameKeysIndex(a[..|a| - 1], b[..|b| - 1], x);
    }
  }

  /** All characters of the keys. */
  function KeyChars(ts: seq<Transition>): set<Char>
  {
    CharsOf(Keys(ts))
  }

  /** `add_transition` as a function of the state: the new state and the
      stripped key, or the error that stops it. */
  function AddTransitionSpec<X>(s: State<X>, k: CharClass, target: nat): Result<(State<X>, CharClass)>
  {
    if k in Keys(s.transitions) then Err(DuplicateTransition)
    else
      var stripped :- StripSpec(k, Keys(s.transitions));
      Ok((s.(transitions := Put(s.transitions, stripped, target)), stripped))
  }

  /** `State.add_transition`: the key must be new; it is stripped of the
      characters of the existing keys (in place, so the stripped key is
      returned too) and then stored with the target. */
  method AddTransition<X>(s: State<X>, k: CharClass, target: nat) returns (r: Result<State<X>>, stripped: CharClass)
    ensures k in Keys(s.transitions) ==> r == Err(DuplicateTransition)
    ensures r.Err? ==> r.error == DuplicateTransition || r.error == CharNotInClass
    ensures r.Err? && r.error == DuplicateTransition ==> k in Keys(s.transitions)
    ensures r.Ok? ==> r.value == s.(transitions := Put(s.transitions, stripped, target))
    ensures r.Ok? ==> stripped.quantifier == k.quantifier && stripped.wildcard == k.wildcard
    ensures r.Ok? ==> multiset(stripped.chars) <= multiset(k.chars)
    ensures r.Ok? && Sorted(k.chars) ==> Sorted(stripped.chars)
    ensures r.Ok? && NoDup(k.chars) ==> stripped.chars == Without(k.chars, KeyChars(s.transitions))
    ensures (&& k !in Keys(s.transitions) && NoDup(k.chars)
             && (forall i :: 0 <= i < |s.transitions| ==> NoDup(s.transitions[i].key.chars))) ==> r.Ok?
    ensures AddTransitionSpec(s, k, target) == if r.Ok? then Ok((r.value, stripped)) else Err(r.error)
  {
    stripped := k;
    if k in Keys(s.transitions) {
      return Err(DuplicateTransition), stripped;
    }
    var cut := Strip(k, Keys(s.transitions));
    if cut.Err? {
      return Err(cut.error), stripped;
    }
    stripped := cut.value;
    r := Ok(s.(transitions := Put(s.transitions, stripped, target)));
  }

  /** After a successful `add_transition` of a key without repeated
      characters, the stored key shares no character with any earlier key. */
  lemma StrippedDisjoint(ts: seq<Transition>, k: CharClass, stripped: CharClass)
    requires NoDup(k.chars) && stripped.chars == Without(k.chars, KeyChars(ts))
    ensures forall i, c :: 0 <= i < |ts| && c in ts[i].key.chars ==> c !in stripped.chars
  {
    forall i, c | 0 <= i < |ts| && c in ts[i].key.chars ensures c !in stripped.chars {
      CharsOfMember(Keys(ts), i, c);
      WithoutMembers(k.chars, KeyChars(ts), c);
    }
  }

  /** A stripped key that keeps a character is not equal to an earlier key
      (which holds none of its characters), so every earlier entry keeps its
      key and target and the new entry goes at the end. */
  lemma StrippedAppends(ts: seq<Transition>, k: CharClass, stripped: CharClass, target: nat)
    requires NoDup(k.chars) && stripped.chars == Without(k.chars, KeyChars(ts))
    requires |stripped.chars| > 0
    ensures Put(ts, stripped, target) == ts + [Transition(stripped, target)]
  {
    StrippedDisjoint(ts, k, stripped);
    var c := stripped.chars[0];
    assert c in stripped.chars;
    forall i | 0 <= i < |ts| ensures ts[i].key != stripped {
      assert c !in ts[i].key.chars;
    }
    assert stripped !in Keys(ts);
  }

  lemma {:induction false} CharsOfMember(cs: seq<CharClass>, i: nat, c: Char)
    requires i < |cs| && c in cs[i].chars
    ensures c in CharsOf(cs)
  {
    if i < |cs| - 1 {
      CharsOfMember(cs[..|cs| - 1], i, c);
    }
  }

  /** No two keys of one state share a character, so at most one
      transition of a state can match a given character. */
  ghost predicate KeysDisjoint(ts: seq<Transition>)
  {
    forall i, j, c :: 0 <= i < |ts| && 0 <= j < |ts| && i != j && c in ts[i].key.chars ==> c !in ts[j].key.chars
  }

  /** `add_transition` of a key without repeated characters keeps the keys
      of a state disjoint. When the stripped key equals an existing key it
      has no character left, and only a target changes. */
  lemma AddTransitionDisjoint<X>(s: State<X>, k: CharClass, target: nat)
    requires KeysDisjoint(s.transitions) && NoDup(k.chars)
    ensures AddTransitionSpec(s, k, target).Ok? ==> KeysDisjoint(AddTransitionSpec(s, k, target).value.0.transitions)
  {
    var ts := s.transitions;
    var r := AddTransitionSpec(s, k, target);
    if r.Ok? {
      var stripped := r.value.1;
      WithoutNone(k.chars, CharsOf(Keys(ts)[..0]));
      StripWithout(k, k, Keys(ts), 0);
      assert Keys(ts)[0..] == Keys(ts);
      StrippedDisjoint(ts, k, stripped);
      var u := Put(ts, stripped, target);
      match IndexOf(ts, stripped)
      case None =>
        assert u == ts + [Transition(stripped, target)];
      case Some(i) =>
        assert u == ts[i := Transition(stripped, target)];
        assert forall m :: 0 <= m < |ts| ==> u[m].key == ts[m].key;
    }
  }

  /** `add_transition` of a new key whose stripped form is no key yet
      appends the stripped key with its target. */
  lemma AddTransitionAppends<X>(s: State<X>, k: CharClass, target: nat, stripped: CharClass)
    requires k !in Keys(s.transitions) && stripped !in Keys(s.transitions)
    requires StripSpec(k, Keys(s.transitions)) == Ok(stripped)
    ensures AddTransitionSpec(s, k, target) ==
      Ok((s.(transitions := s.transitions + [Transition(stripped, target)]), stripped))
  {
  }

  /** The key `[a]`. */
  function KeyA(): CharClass { CharClass(['a' as int], One, false) }

  /** The key `[aab]`, as `add_char` leaves it: `a` twice. */
  function KeyAAB(): CharClass { CharClass(['a' as int, 'a' as int, 'b' as int], One, false) }

  /** The key `[ab]`. */
  function KeyAB(): CharClass { CharClass(['a' as int, 'b' as int], One, false) }

  /** After `[a]`, `strip` takes one `a` from `[aab]` and leaves `[ab]`. */
  lemma StripOverlap()
    ensures StripSpec(KeyAAB(), [KeyA()]) == Ok(KeyAB())
  {
    assert Keep(KeyA().chars, Elems(KeyAAB().chars)) == ['a' as int];
    assert RemoveChar(KeyAAB(), 'a' as int) == Ok(KeyAB());
    assert RemoveAll(KeyAB(), ['a' as int][1..]) == Ok(KeyAB());
    assert RemoveAll(KeyAAB(), ['a' as int]) == Ok(KeyAB());
    assert [KeyA()][1..] == [];
  }

  /** The only key of that state is `[a]`, which is neither `[aab]` nor
      `[ab]`. */
  lemma OverlapFresh()
    ensures Keys([Transition(KeyA(), 1)]) == [KeyA()]
    ensures KeyAAB() !in Keys([Transition(KeyA(), 1)])
    ensures KeyAB() !in Keys([Transition(KeyA(), 1)])
  {
    assert Keys([Transition(KeyA(), 1)]) == [KeyA()];
  }

  /** The keys of one state need not stay disjoint: after `[a]`, the key
      `[aab]` loses one `a` and keeps the other, so `[ab]` is stored beside
      `[a]`. This is DFA state 0 of `a|[aab]`. */
  lemma OverlappingKeys()
    ensures AddTransitionSpec(State(0, [Transition(KeyA(), 1)], false, 0), KeyAAB(), 2) ==
      Ok((State(0, [Transition(KeyA(), 1)] + [Transition(KeyAB(), 2)], false, 0), KeyAB()))
    ensures !KeysDisjoint([Transition(KeyA(), 1)] + [Transition(KeyAB(), 2)])
  {
    StripOverlap();
    OverlapFresh();
    AddTransitionAppends(State(0, [Transition(KeyA(), 1)], false, 0), KeyAAB(), 2, KeyAB());
    OverlapShared();
  }

  /** Those two keys share `a`. */
  lemma OverlapShared()
    ensures !KeysDisjoint([Transition(KeyA(), 1)] + [Transition(KeyAB(), 2)])
  {
    var ts := [Transition(KeyA(), 1)] + [Transition(KeyAB(), 2)];
    assert 'a' as int in ts[0].key.chars && 'a' as int in ts[1].key.chars;
  }

  /** `[a]` filtered against `[aab]` lists `a` twice, and the second
      `list.remove` raises. */
  lemma StripReversed()
    ensures StripSpec(KeyA(), [KeyAAB()]) == Err(CharNotInClass)
  {
    var empty := CharClass([], One, false);
    assert Keep(KeyAAB().chars, Elems(KeyA().chars)) == ['a' as int, 'a' as int];
    assert RemoveChar(KeyA(), 'a' as int) == Ok(empty);
    assert RemoveChar(empty, 'a' as int) == Err(CharNotInClass);
    assert ['a' as int, 'a' as int][1..] == ['a' as int];
    assert RemoveAll(empty, ['a' as int]) == Err(CharNotInClass);
    assert RemoveAll(KeyA(), ['a' as int, 'a' as int]) == Err(CharNotInClass);
  }

  /** In the other order the same two keys fail, with the ValueError of
      `list.remove`. */
  lemma OverlapReversed()
    ensures AddTransitionSpec(State(0, [Transition(KeyAAB(), 1)], false, 0), KeyA(), 2) == Err(CharNotInClass)
  {
    StripReversed();
    assert Keys([Transition(KeyAAB(), 1)]) == [KeyAAB()];
  }

  /** `State.add_self_transition`: a transition back to the state itself. */
  method AddSelfTransition<X>(s: State<X>, k: CharClass) returns (r: Result<State<X>>, stripped: CharClass)
    ensures k in Keys(s.transitions) ==> r == Err(DuplicateTransition)
    ensures r.Ok? ==> r.value == s.(transitions := Put(s.transitions, stripped, s.id))
    ensures r.Ok? ==> Lookup(r.value.transitions, stripped) == Some(s.id)
    ensures r.Ok? && NoDup(k.chars) ==> stripped.chars == Without(k.chars, KeyChars(s.transitions))
  {
    r, stripped := AddTransition(s, k, s.id);
    PutLookup(s.transitions, stripped, s.id);
  }

  /** `StateMachine`: the states, whose ids are their positions, and the
      cursor. `blank` is the data a new state starts with. */
  class StateMachine<X> {
    var states: seq<State<X>>
    var cursor: nat
    const blank: X

    /** Ids are positions, every target names a state, and no state is final
        (nothing sets `final`). */
    ghost predicate Valid()
      reads this
    {
      && |states| >= 1
      && cursor < |states|
      && (forall i :: 0 <= i < |states| ==> states[i].id == i && !states[i].final)
      && (forall i, j :: 0 <= i < |states| && 0 <= j < |states[i].transitions| ==>
            states[i].transitions[j].target < |states|)
    }

    /** `StateMachine.__init__`: state 0 alone, with the cursor on it. */
    constructor (blank: X)
      ensures Valid()
      ensures this.blank == blank
      ensures states == [State(0, [], false, blank)] && cursor == 0
    {
      this.blank := blank;
      states := [State(0, [], false, blank)];
      cursor := 0;
    }

    /** `new_state`: append a state whose id is the old length. */
    method NewState() returns (id: nat)
      requires Valid()
      modifies this
      ensures Valid()
      ensures id == |old(states)|
      ensures states == old(states) + [State(id, [], false, blank)]
      ensures cursor == old(cursor)
    {
      id := |states|;
      states := states + [State(id, [], false, blank)];
    }

    /** `current_state`: the state under the cursor, whose id is the cursor. */
    function CurrentState(): (s: State<X>)
      reads this
      requires Valid()
      ensures s.id == cursor && s in states
    {
      states[cursor]
    }

    /** `set_cursor`: the id must name a state. */
    method SetCursor(id: nat)
      requires Valid() && id < |states|
      modifies this
      ensures Valid() && cursor == id && states == old(states)
    {
      cursor := id;
    }

    /** `reset_cursor`. */
    method ResetCursor()
      requires Valid()
      modifies this
      ensures Valid() && cursor == 0 && states == old(states)
    {
      SetCursor(0);
    }

    /** Replace the kind-specific data of one state. */
    method SetData(i: nat, d: X)
      requires Valid() && i < |states|
      modifies this
      ensures Valid() && cursor == old(cursor)
      ensures states == old(states)[i := old(states)[i].(data := d)]
    {
      states := states[i := states[i].(data := d)];
    }

    /** `add_transition` on state `from` with target `to`. */
    method AddTransitionAt(from: nat, k: CharClass, to: nat) returns (o: Outcome, stripped: CharClass)
      requires Valid() && from < |states| && to < |states|
      modifies this
      ensures Valid() && cursor == old(cursor) && |states| == |old(states)|
      ensures k in Keys(old(states)[from].transitions) ==> o == Fail(DuplicateTransition)
      ensures o.Fail? ==> o.error == DuplicateTransition || o.error == CharNotInClass
      ensures o.Fail? ==> states == old(states)
      ensures o.Pass? ==> states == old(states)[from := old(states)[from].(transitions :=
                            Put(old(states)[from].transitions, stripped, to))]
      ensures o.Pass? && NoDup(k.chars) ==>
        stripped.chars == Without(k.chars, KeyChars(old(states)[from].transitions))
      ensures o.Fail? ==> AddTransitionSpec(old(states)[from], k, to) == Err(o.error)
      ensures o.Pass? ==> AddTransitionSpec(old(states)[from], k, to) == Ok((states[from], stripped))
    {
      var r;
      r, stripped := AddTransition(states[from], k, to);
      if r.Err? {
        return Fail(r.error), stripped;
      }
      PutTargets(states[from].transitions, stripped, to, |states|);
      states := states[from := r.value];
      o := Pass;
    }

    /** `add_self_transition` on state `from`. */
    method AddSelfTransitionAt(from: nat, k: CharClass) returns (o: Outcome, stripped: CharClass)
      requires Valid() && from < |states|
      modifies this
      ensures Valid() && cursor == old(cursor) && |states| == |old(states)|
      ensures o.Fail? ==> states == old(states)
      ensures o.Pass? ==> states == old(states)[from := old(states)[from].(transitions :=
                            Put(old(states)[from].transitions, stripped, from))]
      ensures o.Pass? ==> Lookup(states[from].transitions, stripped) == Some(from)
      ensures o.Pass? && NoDup(k.chars) ==>
        stripped.chars == Without(k.chars, KeyChars(old(states)[from].transitions))
      ensures o.Fail? ==> AddTransitionSpec(old(states)[from], k, from) == Err(o.error)
      ensures o.Pass? ==> AddTransitionSpec(old(states)[from], k, from) == Ok((states[from], stripped))
    {
      o, stripped := AddTransitionAt(from, k, from);
      PutLookup(old(states)[from].transitions, stripped, from);
    }
  }

  /** Storing a target that names a state keeps every target naming one. */
  lemma PutTargets(ts: seq<Transition>, k: CharClass, t: nat, n: nat)
    requires t < n && forall j :: 0 <= j < |ts| ==> ts[j].target < n
    ensures forall j :: 0 <= j < |Put(ts, k, t)| ==> Put(ts, k, t)[j].target < n
  {
    match IndexOf(ts, k)
    case None =>
    case Some(i) =>
  }
}
