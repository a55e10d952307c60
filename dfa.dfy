/** lib/dfa.py: subset construction without memoisation. Each DFA state
    records the NFA states it stands for; expansion recurses into a fresh DFA
    state for every merged closure transition, except one that leads back to
    the NFA state being expanded, which becomes a self-transition. */
module Dfa {
  import opened Errors
  import opened Core
  import opened CharSeqs
  import opened Chars
  import opened States
  import opened Nfa

  /** The extra data of a DFA state: the ids of its NFA origins. */
  datatype DfaData = DfaData(origins: set<nat>)

  type DfaState = State<DfaData>

  /** `DfaState.add_nfa_origins`: the origin set only grows, by exactly the
      given states. */
  function AddNfaOrigins(st: DfaState, vs: set<nat>): (r: DfaState)
    ensures r.id == st.id && r.transitions == st.transitions && r.final == st.final
    ensures st.data.origins <= r.data.origins
    ensures forall v :: v in r.data.origins <==> v in st.data.origins || v in vs
  {
    st.(data := DfaData(st.data.origins + vs))
  }

  /** A DFA under construction: a valid machine whose new states start with
      no origin. */
  ghost predicate DfaValid(d: StateMachine<DfaData>)
    reads d
  {
    d.Valid() && d.blank == DfaData({})
  }

  /** A merged closure transition leads to an NFA state. */
  lemma EntryTarget(nfa: seq<NfaState>, vs: set<nat>, tr: Transition)
    requires NfaStatesOk(nfa) && EntryOfSome(nfa, vs, tr)
    ensures tr.target < |nfa|
  {
    var v :| v in vs && v < |nfa| && tr in nfa[v].transitions;
    var j :| 0 <= j < |nfa[v].transitions| && nfa[v].transitions[j] == tr;
  }

  // ---------------------------------------------------------------------
  // The subset construction on values

  /** The DFA under construction as a value: its states and its cursor. */
  datatype DfaBuild = DfaBuild(states: seq<DfaState>, cursor: nat)

  /** A state as `new_state` makes it: no transition, no origin. */
  function DfaFresh(id: nat): DfaState
  {
    State(id, [], false, DfaData({}))
  }

  /** `collect_nfa_states` on NFA state `q`: the current state's origins
      gain the ε-closure of `q`, then each merged closure transition is
      expanded in turn. The cursor ends where it started. */
  ghost function CollectSpec(b: DfaBuild, nfa: seq<NfaState>, q: nat, fuel: nat): (r: Result<DfaBuild>)
    requires b.cursor < |b.states|
    decreases fuel, 3
    ensures r.Ok? ==> r.value.cursor == b.cursor && |b.states| <= |r.value.states|
  {
    if fuel == 0 then Err(RecursionLimit)
    else
      var cur := b.cursor;
      var s := b.states[cur := AddNfaOrigins(b.states[cur], EpsClosure(nfa, q))];
      ExpandFrom(DfaBuild(s, cur), nfa, q, Transitionable(nfa, q), 0, fuel)
  }

  /** The loop of `collect_nfa_states` from entry `i` on. */
  ghost function ExpandFrom(b: DfaBuild, nfa: seq<NfaState>, q: nat, trans: seq<Transition>, i: nat, fuel: nat)
    : (r: Result<DfaBuild>)
    requires b.cursor < |b.states| && i <= |trans| && fuel > 0
    decreases fuel, 2, |trans| - i
    ensures r.Ok? ==> r.value.cursor == b.cursor && |b.states| <= |r.value.states|
  {
    if i == |trans| then Ok(b)
    else
      var next :- ExpandOne(b, nfa, q, trans[i], fuel);
      ExpandFrom(next, nfa, q, trans, i + 1, fuel)
  }

  /** One round of that loop: an entry back to `q` is a self-transition of
      the current state; any other leads to a fresh state. */
  ghost function ExpandOne(b: DfaBuild, nfa: seq<NfaState>, q: nat, tr: Transition, fuel: nat): (r: Result<DfaBuild>)
    requires b.cursor < |b.states| && fuel > 0
    decreases fuel, 1
    ensures r.Ok? ==> r.value.cursor == b.cursor && |b.states| <= |r.value.states|
  {
    if tr.target == q then SelfSpec(b, tr) else FreshSpec(b, nfa, tr, fuel)
  }

  /** `add_self_transition` on the current state. */
  function SelfSpec(b: DfaBuild, tr: Transition): (r: Result<DfaBuild>)
    requires b.cursor < |b.states|
    ensures r.Ok? ==> r.value.cursor == b.cursor && |b.states| == |r.value.states|
  {
    var added :- AddTransitionSpec(b.states[b.cursor], tr.key, b.cursor);
    Ok(DfaBuild(b.states[b.cursor := added.0], b.cursor))
  }

  /** A fresh state `next`, the stripped edge from the current state to it,
      the expansion of `next` for the target, and the cursor put back. */
  ghost function FreshSpec(b: DfaBuild, nfa: seq<NfaState>, tr: Transition, fuel: nat): (r: Result<DfaBuild>)
    requires b.cursor < |b.states| && fuel > 0
    decreases fuel, 0
    ensures r.Ok? ==> r.value.cursor == b.cursor && |b.states| < |r.value.states|
  {
    var next := |b.states|;
    var added :- AddTransitionSpec(b.states[b.cursor], tr.key, next);
    var linked := (b.states + [DfaFresh(next)])[b.cursor := added.0];
    var sub :- CollectSpec(DfaBuild(linked, next), nfa, tr.target, fuel - 1);
    Ok(DfaBuild(sub.states, b.cursor))
  }

  /** `Dfa.collect_nfa_states` on NFA state `q`, with the current DFA state
      standing for it: its origins gain the ε-closure of `q`, and every merged
      closure transition is expanded in turn. The cursor is back where it
      was, and no older state but the current one changes. Running out of
      fuel stands for Python's recursion limit. */
  method CollectNfaStates(d: StateMachine<DfaData>, nfa: seq<NfaState>, q: nat, fuel: nat) returns (o: Outcome)
    requires DfaValid(d) && NfaStatesOk(nfa) && q < |nfa|
    modifies d
    decreases fuel, 3
    ensures DfaValid(d) && |d.states| >= old(|d.states|)
    ensures fuel == 0 ==> o == Fail(RecursionLimit)
    ensures o.Pass? ==> d.cursor == old(d.cursor)
    ensures o.Pass? ==> d.states[old(d.cursor)].data.origins == old(d.states[d.cursor]).data.origins + EpsClosure(nfa, q)
    ensures o.Pass? ==> forall i :: 0 <= i < old(|d.states|) && i != old(d.cursor) ==> d.states[i] == old(d.states[i])
    ensures CollectSpec(old(DfaBuild(d.states, d.cursor)), nfa, q, fuel) == AsResult(o, DfaBuild(d.states, d.cursor))
  {
    if fuel == 0 {
      return Fail(RecursionLimit);
    }
    var reach := GetEpsilonReachable(nfa, q);
    var trans := GetEpsilonTransitionable(nfa, q);
    var cur := d.cursor;
    d.SetData(cur, AddNfaOrigins(d.states[cur], reach).data);
    assert d.states == old(d.states)[cur := AddNfaOrigins(old(d.states)[cur], reach)];
    forall i | 0 <= i < |trans| ensures trans[i].target < |nfa| {
      EntryTarget(nfa, reach, trans[i]);
    }
    o := ExpandAll(d, nfa, q, trans, fuel);
  }

  /** The loop of `collect_nfa_states`: each entry of `trans` expanded in
      turn, stopping at the first failure. */
  method ExpandAll(d: StateMachine<DfaData>, nfa: seq<NfaState>, q: nat, trans: seq<Transition>, fuel: nat)
    returns (o: Outcome)
    requires DfaValid(d) && NfaStatesOk(nfa) && q < |nfa| && fuel > 0
    requires forall i :: 0 <= i < |trans| ==> trans[i].target < |nfa|
    modifies d
    decreases fuel, 2
    ensures DfaValid(d) && |d.states| >= old(|d.states|)
    ensures o.Pass? ==> d.cursor == old(d.cursor)
    ensures o.Pass? ==> d.states[old(d.cursor)].data == old(d.states[d.cursor]).data
    ensures o.Pass? ==> forall i :: 0 <= i < old(|d.states|) && i != old(d.cursor) ==> d.states[i] == old(d.states[i])
    ensures ExpandFrom(old(DfaBuild(d.states, d.cursor)), nfa, q, trans, 0, fuel) == AsResult(o, DfaBuild(d.states, d.cursor))
  {
    var cur := d.cursor;
    o := Pass;
    for i := 0 to |trans|
      invariant DfaValid(d) && d.cursor == cur && |d.states| >= old(|d.states|) && o == Pass
      invariant d.states[cur].data == old(d.states[d.cursor]).data
      invariant forall j :: 0 <= j < old(|d.states|) && j != cur ==> d.states[j] == old(d.states[j])
      invariant ExpandFrom(DfaBuild(d.states, cur), nfa, q, trans, i, fuel) ==
        ExpandFrom(old(DfaBuild(d.states, d.cursor)), nfa, q, trans, 0, fuel)
    {
      ghost var before := DfaBuild(d.states, cur);
      var stripped;
      o, stripped := ExpandEntry(d, nfa, q, trans[i], fuel);
      if o.Fail? {
        assert ExpandFrom(before, nfa, q, trans, i, fuel) == Err(o.error);
        return;
      }
      assert ExpandFrom(before, nfa, q, trans, i, fuel) == ExpandFrom(DfaBuild(d.states, cur), nfa, q, trans, i + 1, fuel);
    }
  }

  /** One round of the loop of `collect_nfa_states`, for the transition `tr`
      of the closure of `q`. A transition back to `q` becomes a
      self-transition of the current state and creates no state; any other
      creates one fresh state, linked from the current one by the stripped
      key, expands it for the target, and puts the cursor back. */
  method ExpandEntry(d: StateMachine<DfaData>, nfa: seq<NfaState>, q: nat, tr: Transition, fuel: nat)
    returns (o: Outcome, stripped: CharClass)
    requires DfaValid(d) && NfaStatesOk(nfa) && q < |nfa| && tr.target < |nfa| && fuel > 0
    modifies d
    decreases fuel, 1
    ensures DfaValid(d) && |d.states| >= old(|d.states|)
    ensures tr.target == q ==> |d.states| == old(|d.states|)
    ensures tr.target != q ==> |d.states| > old(|d.states|)
    ensures o.Pass? ==> d.cursor == old(d.cursor)
    ensures o.Pass? ==> d.states[old(d.cursor)].data == old(d.states[d.cursor]).data
    ensures o.Pass? && tr.target == q ==>
      d.states[old(d.cursor)].transitions == Put(old(d.states[d.cursor]).transitions, stripped, old(d.cursor))
    ensures o.Pass? && tr.target != q ==>
      d.states[old(d.cursor)].transitions == Put(old(d.states[d.cursor]).transitions, stripped, old(|d.states|))
    ensures o.Pass? && tr.target != q ==> d.states[old(|d.states|)].data.origins == EpsClosure(nfa, tr.target)
    ensures o.Pass? && NoDup(tr.key.chars) ==>
      stripped.chars == Without(tr.key.chars, KeyChars(old(d.states[d.cursor]).transitions))
    ensures o.Pass? ==> forall i :: 0 <= i < old(|d.states|) && i != old(d.cursor) ==> d.states[i] == old(d.states[i])
    ensures ExpandOne(old(DfaBuild(d.states, d.cursor)), nfa, q, tr, fuel) == AsResult(o, DfaBuild(d.states, d.cursor))
  {
    if tr.target == q {
      o, stripped := d.AddSelfTransitionAt(d.cursor, tr.key);
    } else {
      o, stripped := ExpandFresh(d, nfa, tr, fuel);
    }
  }

  /** The `else` branch of that loop: a fresh state, the edge to it, its
      expansion for the target, and the cursor put back. */
  method ExpandFresh(d: StateMachine<DfaData>, nfa: seq<NfaState>, tr: Transition, fuel: nat)
    returns (o: Outcome, stripped: CharClass)
    requires DfaValid(d) && NfaStatesOk(nfa) && tr.target < |nfa| && fuel > 0
    modifies d
    decreases fuel, 0
    ensures DfaValid(d) && |d.states| > old(|d.states|)
    ensures o.Pass? ==> d.cursor == old(d.cursor)
    ensures o.Pass? ==> d.states[old(d.cursor)].data == old(d.states[d.cursor]).data
    ensures o.Pass? ==>
      d.states[old(d.cursor)].transitions == Put(old(d.states[d.cursor]).transitions, stripped, old(|d.states|))
    ensures o.Pass? ==> d.states[old(|d.states|)].data.origins == EpsClosure(nfa, tr.target)
    ensures o.Pass? && NoDup(tr.key.chars) ==>
      stripped.chars == Without(tr.key.chars, KeyChars(old(d.states[d.cursor]).transitions))
    ensures o.Pass? ==> forall i :: 0 <= i < old(|d.states|) && i != old(d.cursor) ==> d.states[i] == old(d.states[i])
    ensures FreshSpec(old(DfaBuild(d.states, d.cursor)), nfa, tr, fuel) == AsResult(o, DfaBuild(d.states, d.cursor))
  {
    ghost var b := DfaBuild(d.states, d.cursor);
    var next;
    o, stripped, next := OpenFresh(d, tr.key);
    if o.Fail? {
      return;
    }
    ghost var linked := d.states;
    assert AddTransitionSpec(b.states[b.cursor], tr.key, next) == Ok((linked[b.cursor], stripped));
    o := Descend(d, nfa, tr.target, fuel - 1, next);
    assert CollectSpec(DfaBuild(linked, next), nfa, tr.target, fuel - 1) == AsResult(o, DfaBuild(d.states, next));
  }

  /** The recursion of that branch: expand the fresh state `next` for NFA
      state `target`, then put the cursor back. */
  method Descend(d: StateMachine<DfaData>, nfa: seq<NfaState>, target: nat, fuel: nat, next: nat) returns (o: Outcome)
    requires DfaValid(d) && NfaStatesOk(nfa) && target < |nfa| && next < |d.states|
    requires d.states[next] == DfaFresh(next)
    modifies d
    decreases fuel, 4
    ensures DfaValid(d) && |d.states| >= old(|d.states|)
    ensures o.Pass? ==> d.cursor == old(d.cursor)
    ensures o.Pass? ==> d.states[next].data.origins == EpsClosure(nfa, target)
    ensures o.Pass? ==> forall i :: 0 <= i < old(|d.states|) && i != next ==> d.states[i] == old(d.states[i])
    ensures CollectSpec(DfaBuild(old(d.states), next), nfa, target, fuel) == AsResult(o, DfaBuild(d.states, next))
  {
    var cur := d.cursor;
    d.SetCursor(next);
    o := CollectNfaStates(d, nfa, target, fuel);
    if o.Fail? {
      return;
    }
    assert {} + EpsClosure(nfa, target) == EpsClosure(nfa, target);
    d.SetCursor(cur);
  }

  /** `Dfa.from_nfa`: put the NFA cursor back on state 0, and expand NFA
      state 0 into DFA state 0 of a fresh machine. */
  method FromNfa(nfa: StateMachine<NfaData>, fuel: nat) returns (d: StateMachine<DfaData>, o: Outcome)
    requires NfaValid(nfa)
    modifies nfa
    ensures fresh(d) && DfaValid(d)
    ensures nfa.cursor == 0 && nfa.states == old(nfa.states)
    ensures fuel == 0 ==> o == Fail(RecursionLimit)
    ensures o.Pass? ==> d.cursor == 0 && d.states[0].data.origins == EpsClosure(nfa.states, 0)
    ensures CollectSpec(DfaBuild([DfaFresh(0)], 0), nfa.states, 0, fuel) == AsResult(o, DfaBuild(d.states, d.cursor))
  {
    nfa.ResetCursor();
    d := new StateMachine(DfaData({}));
    o := CollectNfaStates(d, nfa.states, nfa.CurrentState().id, fuel);
    assert {} + EpsClosure(nfa.states, 0) == EpsClosure(nfa.states, 0);
  }

  /** The first half of that branch: a fresh state and the stripped edge
      from the current state to it. */
  method OpenFresh(d: StateMachine<DfaData>, k: CharClass) returns (o: Outcome, stripped: CharClass, next: nat)
    requires DfaValid(d)
    modifies d
    ensures DfaValid(d) && d.cursor == old(d.cursor)
    ensures next == old(|d.states|) && |d.states| == next + 1
    ensures AddTransitionSpec(old(d.states[d.cursor]), k, next) == AsResult(o, (d.states[old(d.cursor)], stripped))
    ensures o.Pass? ==> d.states == (old(d.states) + [DfaFresh(next)])[old(d.cursor) := d.states[old(d.cursor)]]
    ensures o.Pass? ==> (d.states[old(d.cursor)] ==
      old(d.states[d.cursor]).(transitions := Put(old(d.states[d.cursor]).transitions, stripped, next)))
    ensures o.Pass? && NoDup(k.chars) ==>
      stripped.chars == Without(k.chars, KeyChars(old(d.states[d.cursor]).transitions))
  {
    next := d.NewState();
    ghost var grown := d.states;
    assert grown == old(d.states) + [DfaFresh(next)];
    o, stripped := d.AddTransitionAt(d.cursor, k, next);
    if o.Pass? {
      assert d.states == grown[old(d.cursor) := d.states[old(d.cursor)]];
    }
  }
}
