/** lib/nfa.py: NFA states with ε-successors, the ε-closure and the merged
    transitions of a closure, and Thompson's construction of an NFA from a
    pattern tree, element by element, on a `StateMachine`. */
module Nfa {
  import opened Errors
  import opened Core
  import opened Quantifiers
  import opened CharSeqs
  import opened Chars
  import opened Regexes
  import opened States

  /** The extra data of an NFA state: the ids of its ε-successors. */
  datatype NfaData = NfaData(epsilons: set<nat>)

  type NfaState = State<NfaData>

  /** Every ε-successor names a state. */
  ghost predicate EpsWellFormed(states: seq<NfaState>)
  {
    forall i, e :: 0 <= i < |states| && e in states[i].data.epsilons ==> e < |states|
  }

  /** What a compiled NFA satisfies: ids are positions, labelled and ε
      targets name states. */
  ghost predicate NfaStatesOk(states: seq<NfaState>)
  {
    && EpsWellFormed(states)
    && (forall i, j :: 0 <= i < |states| && 0 <= j < |states[i].transitions| ==>
          states[i].transitions[j].target < |states|)
  }

  /** `NfaState.add_epsilon_transition`: the successor must be new. */
  function AddEpsilon(st: NfaState, next: nat): (r: Result<NfaState>)
    ensures r.Err? <==> next in st.data.epsilons
    ensures r.Err? ==> r.error == DuplicateEpsilon
    ensures r.Ok? ==> r.value.id == st.id && r.value.transitions == st.transitions
    ensures r.Ok? ==> r.value.data.epsilons == st.data.epsilons + {next}
  {
    if next in st.data.epsilons then Err(DuplicateEpsilon)
    else Ok(st.(data := NfaData(st.data.epsilons + {next})))
  }

  // ---------------------------------------------------------------------
  // ε-closure

  /** `p` walks along ε edges. */
  ghost predicate EpsPath(states: seq<NfaState>, p: seq<nat>)
  {
    && |p| >= 1
    && (forall i :: 0 <= i < |p| ==> p[i] < |states|)
    && (forall i :: 0 <= i < |p| - 1 ==> p[i + 1] in states[p[i]].data.epsilons)
  }

  /** `v` is reached from `s` by a chain of ε edges (possibly empty). */
  ghost predicate Reaches(states: seq<NfaState>, s: nat, v: nat)
  {
    exists p :: EpsPath(states, p) && p[0] == s && p[|p| - 1] == v
  }

  /** The ε-closure of `s`: every state an ε chain from `s` reaches. */
  ghost function EpsClosure(states: seq<NfaState>, s: nat): set<nat>
  {
    set v | 0 <= v < |states| && Reaches(states, s, v)
  }

  /** No ε edge leaves the set. */
  ghost predicate Closed(states: seq<NfaState>, vs: set<nat>)
  {
    forall v, e :: v in vs && v < |states| && e in states[v].data.epsilons ==> e in vs
  }

  lemma ReachesSelf(states: seq<NfaState>, s: nat)
    requires s < |states|
    ensures Reaches(states, s, s)
  {
    assert EpsPath(states, [s]);
  }

  lemma ReachesStep(states: seq<NfaState>, s: nat, v: nat, e: nat)
    requires EpsWellFormed(states)
    requires Reaches(states, s, v) && v < |states| && e in states[v].data.epsilons
    ensures Reaches(states, s, e)
  {
    var p :| EpsPath(states, p) && p[0] == s && p[|p| - 1] == v;
    var q := p + [e];
    assert EpsPath(states, q);
    assert q[0] == s && q[|q| - 1] == e;
  }

  /** A closed set holding `s` holds every state an ε chain from `s` reaches. */
  lemma {:induction false} ClosedContains(states: seq<NfaState>, vs: set<nat>, p: seq<nat>)
    requires EpsPath(states, p) && p[0] in vs && Closed(states, vs)
    ensures p[|p| - 1] in vs
    decreases |p|
  {
    if |p| > 1 {
      var q := p[..|p| - 1];
      assert EpsPath(states, q);
      ClosedContains(states, vs, q);
    }
  }

  /** The closure holds its root, has no ε edge leaving it, and lies inside
      every closed set that holds the root. */
  lemma ClosureProps(states: seq<NfaState>, s: nat, vs: set<nat>)
    requires EpsWellFormed(states) && s < |states|
    ensures s in EpsClosure(states, s)
    ensures Closed(states, EpsClosure(states, s))
    ensures s in vs && Closed(states, vs) ==> EpsClosure(states, s) <= vs
  {
    ReachesSelf(states, s);
    forall v, e | v in EpsClosure(states, s) && v < |states| && e in states[v].data.epsilons
      ensures e in EpsClosure(states, s)
    {
      ReachesStep(states, s, v, e);
    }
    if s in vs && Closed(states, vs) {
      forall v | v in EpsClosure(states, s) ensures v in vs {
        var p :| EpsPath(states, p) && p[0] == s && p[|p| - 1] == v;
        ClosedContains(states, vs, p);
      }
    }
  }

  /** How many entries of the worklist are already visited. */
  function StaleCount(todo: seq<nat>, visited: set<nat>): nat
  {
    if todo == [] then 0
    else StaleCount(todo[..|todo| - 1], visited) + (if todo[|todo| - 1] in visited then 1 else 0)
  }

  lemma {:induction false} StaleAppend(a: seq<nat>, b: seq<nat>, visited: set<nat>)
    requires forall j :: 0 <= j < |b| ==> b[j] !in visited
    ensures StaleCount(a + b, visited) == StaleCount(a, visited)
    decreases |b|
  {
    if b != [] {
      var b' := b[..|b| - 1];
      assert (a + b)[..|a + b| - 1] == a + b';
      assert (a + b)[|a + b| - 1] == b[|b| - 1];
      assert StaleCount(a + b, visited) == StaleCount(a + b', visited);
      StaleAppend(a, b', visited);
    } else {
      assert a + b == a;
    }
  }

  /** The inner `foreach` of `get_epsilon_reachable`: push every ε-successor
      not yet visited, in some order of the set. */
  method PushSuccessors(eps: set<nat>, visited: set<nat>, todo: seq<nat>) returns (r: seq<nat>)
    ensures |r| >= |todo| && r[..|todo|] == todo
    ensures forall j :: |todo| <= j < |r| ==> r[j] in eps && r[j] !in visited
    ensures forall e :: e in eps && e !in visited ==> e in r
  {
    r := todo;
    var rest := eps;
    while rest != {}
      invariant rest <= eps
      invariant |r| >= |todo| && r[..|todo|] == todo
      invariant forall j :: |todo| <= j < |r| ==> r[j] in eps && r[j] !in visited
      invariant forall e :: e in eps - rest && e !in visited ==> e in r
      decreases |rest|
    {
      var e :| e in rest;
      if e !in visited {
        r := r + [e];
      }
      rest := rest - {e};
    }
  }

  /** The ids below `n`. */
  function Ids(n: nat): (r: set<nat>)
    ensures forall i: int :: i in r <==> 0 <= i < n
  {
    if n == 0 then {} else Ids(n - 1) + {n - 1}
  }

  /** One round of the worklist shrinks the unvisited states, or else
      drops one stale entry: what is pushed is unvisited. */
  lemma WorklistDecreases(n: nat, visited: set<nat>, rest: seq<nat>, st: nat, next: seq<nat>)
    requires st < n
    requires |next| >= |rest| && next[..|rest|] == rest
    requires forall j :: |rest| <= j < |next| ==> next[j] !in visited
    ensures st !in visited ==> Ids(n) - (visited + {st}) < Ids(n) - visited
    ensures st in visited ==>
      visited + {st} == visited && StaleCount(next, visited) < StaleCount(rest + [st], visited)
  {
    if st !in visited {
      assert st in Ids(n) - visited;
    } else {
      assert next == rest + next[|rest|..];
      StaleAppend(rest, next[|rest|..], visited);
      assert (rest + [st])[..|rest|] == rest;
    }
  }

  /** `get_epsilon_reachable`: the worklist loop returns the ε-closure. A
      state is pushed whenever it is not yet visited, so it may be popped
      more than once; the measure counts the states still unvisited and the
      stale entries of the worklist. */
  method GetEpsilonReachable(states: seq<NfaState>, s: nat) returns (visited: set<nat>)
    requires EpsWellFormed(states) && s < |states|
    ensures visited == EpsClosure(states, s)
  {
    visited := {};
    var todo: seq<nat> := [s];
    ReachesSelf(states, s);
    while |todo| > 0
      invariant forall v :: v in visited ==> v < |states| && Reaches(states, s, v)
      invariant forall j :: 0 <= j < |todo| ==> todo[j] < |states| && Reaches(states, s, todo[j])
      invariant s in visited || s in todo
      invariant forall v, e :: v in visited && e in states[v].data.epsilons ==> e in visited || e in todo
      decreases Ids(|states|) - visited, StaleCount(todo, visited)
    {
      var st := todo[|todo| - 1];
      var rest := todo[..|todo| - 1];
      assert todo == rest + [st];
      var next := PushSuccessors(states[st].data.epsilons, visited, rest);
      forall j | |rest| <= j < |next| ensures next[j] < |states| && Reaches(states, s, next[j]) {
        ReachesStep(states, s, st, next[j]);
      }
      WorklistDecreases(|states|, visited, rest, st, next);
      visited := visited + {st};
      todo := next;
    }
    ClosureProps(states, s, visited);
  }

  // ---------------------------------------------------------------------
  // Merged transitions of a closure

  /** `Put` keeps every entry or replaces it by the new one, and its keys are
      the old keys and the new key. */
  lemma PutEntries(ts: seq<Transition>, k: CharClass, t: nat)
    ensures forall j :: 0 <= j < |Put(ts, k, t)| ==>
      Put(ts, k, t)[j] == Transition(k, t) || (j < |ts| && Put(ts, k, t)[j] == ts[j])
    ensures forall x :: x in Keys(Put(ts, k, t)) <==> x == k || x in Keys(ts)
  {
    var r := Put(ts, k, t);
    match IndexOf(ts, k) {
      case None =>
        assert Keys(r) == Keys(ts) + [k];
      case Some(i) =>
        assert r == ts[i := Transition(k, t)];
        assert Keys(r) == Keys(ts)[i := k];
        assert Keys(ts)[i] == k;
        forall x | x in Keys(ts) ensures x in Keys(r) {
          var m :| 0 <= m < |ts| && Keys(ts)[m] == x;
          assert Keys(r)[m] == x;
        }
    }
  }

  /** `update` with each entry of `more` in turn. */
  function PutAll(ts: seq<Transition>, more: seq<Transition>): seq<Transition>
    decreases |more|
  {
    if more == [] then ts else PutAll(Put(ts, more[0].key, more[0].target), more[1..])
  }

  /** The inner `foreach` of `get_epsilon_transitionable`: `update` with
      every transition of one state, in order. */
  method Merge(ts: seq<Transition>, more: seq<Transition>) returns (r: seq<Transition>)
    ensures forall x :: x in Keys(r) <==> x in Keys(ts) || x in Keys(more)
    ensures forall tr :: tr in r ==> tr in ts || tr in more
    ensures DistinctKeys(ts) ==> DistinctKeys(r)
    ensures r == PutAll(ts, more)
  {
    r := ts;
    for i := 0 to |more|
      invariant forall x :: x in Keys(r) <==> x in Keys(ts) || x in Keys(more[..i])
      invariant forall tr :: tr in r ==> tr in ts || tr in more
      invariant DistinctKeys(ts) ==> DistinctKeys(r)
      invariant PutAll(r, more[i..]) == PutAll(ts, more)
    {
      MergeOne(ts, more, i, r);
      assert more[i..][1..] == more[i + 1..];
      r := Put(r, more[i].key, more[i].target);
    }
    assert more[..|more|] == more && more[|more|..] == [];
  }

  lemma MergeOne(ts: seq<Transition>, more: seq<Transition>, i: nat, r: seq<Transition>)
    requires i < |more|
    requires forall x :: x in Keys(r) <==> x in Keys(ts) || x in Keys(more[..i])
    requires forall tr :: tr in r ==> tr in ts || tr in more
    requires DistinctKeys(ts) ==> DistinctKeys(r)
    ensures forall x :: x in Keys(Put(r, more[i].key, more[i].target)) <==>
      x in Keys(ts) || x in Keys(more[..i + 1])
    ensures forall tr :: tr in Put(r, more[i].key, more[i].target) ==> tr in ts || tr in more
    ensures DistinctKeys(ts) ==> DistinctKeys(Put(r, more[i].key, more[i].target))
  {
    var k, t := more[i].key, more[i].target;
    PutEntries(r, k, t);
    PutLookup(r, k, t);
    assert Keys(more[..i + 1]) == Keys(more[..i]) + [k];
    assert Transition(k, t) == more[i];
    var n := Put(r, k, t);
    forall tr | tr in n ensures tr in ts || tr in more {
      var j :| 0 <= j < |n| && n[j] == tr;
      if n[j] != Transition(k, t) {
        assert n[j] == r[j];
      }
    }
  }

  /** `k` is a key of some state of `vs`. */
  ghost predicate KeyOfSome(states: seq<NfaState>, vs: set<nat>, k: CharClass)
  {
    exists v :: v in vs && v < |states| && k in Keys(states[v].transitions)
  }

  /** `tr` is a transition of some state of `vs`. */
  ghost predicate EntryOfSome(states: seq<NfaState>, vs: set<nat>, tr: Transition)
  {
    exists v :: v in vs && v < |states| && tr in states[v].transitions
  }

  /** The transitions of the states of `vs` below `n` merged into one dict,
      state by state in ascending id order. */
  function MergeStates(states: seq<NfaState>, vs: set<nat>, n: nat): seq<Transition>
    requires n <= |states|
  {
    if n == 0 then []
    else if n - 1 in vs then PutAll(MergeStates(states, vs, n - 1), states[n - 1].transitions)
    else MergeStates(states, vs, n - 1)
  }

  /** The merged transitions of the ε-closure of `s`. */
  ghost function Transitionable(states: seq<NfaState>, s: nat): seq<Transition>
  {
    MergeStates(states, EpsClosure(states, s), |states|)
  }

  /** The states of `vs` below `n`. */
  ghost function Below(vs: set<nat>, n: nat): set<nat>
  {
    set v | v in vs && v < n
  }

  /** `get_epsilon_transitionable`: one dict over the transitions of every
      closure state, taken in ascending id order. Its keys are exactly the
      keys of the closure states, and each entry is a transition of some
      closure state. */
  method GetEpsilonTransitionable(states: seq<NfaState>, s: nat) returns (r: seq<Transition>)
    requires EpsWellFormed(states) && s < |states|
    ensures forall k :: k in Keys(r) <==> KeyOfSome(states, EpsClosure(states, s), k)
    ensures forall tr :: tr in r ==> EntryOfSome(states, EpsClosure(states, s), tr)
    ensures DistinctKeys(r)
    ensures r == Transitionable(states, s)
  {
    var reach := GetEpsilonReachable(states, s);
    r := [];
    for v := 0 to |states|
      invariant forall k :: k in Keys(r) <==> KeyOfSome(states, Below(reach, v), k)
      invariant forall tr :: tr in r ==> EntryOfSome(states, Below(reach, v), tr)
      invariant DistinctKeys(r)
      invariant r == MergeStates(states, reach, v)
    {
      if v in reach {
        var next := Merge(r, states[v].transitions);
        MergeStep(states, Below(reach, v), v, r, next);
        assert Below(reach, v) + {v} == Below(reach, v + 1);
        r := next;
      } else {
        assert Below(reach, v) == Below(reach, v + 1);
      }
    }
    assert Below(reach, |states|) == reach;
  }

  lemma MergeStep(states: seq<NfaState>, done: set<nat>, st: nat, r: seq<Transition>, next: seq<Transition>)
    requires st < |states|
    requires forall k :: k in Keys(r) <==> KeyOfSome(states, done, k)
    requires forall tr :: tr in r ==> EntryOfSome(states, done, tr)
    requires forall x :: x in Keys(next) <==> x in Keys(r) || x in Keys(states[st].transitions)
    requires forall tr :: tr in next ==> tr in r || tr in states[st].transitions
    ensures forall k :: k in Keys(next) <==> KeyOfSome(states, done + {st}, k)
    ensures forall tr :: tr in next ==> EntryOfSome(states, done + {st}, tr)
  {
    forall k ensures k in Keys(next) <==> KeyOfSome(states, done + {st}, k) {
      KeyStep(states, done, st, k);
    }
    forall tr | tr in next ensures EntryOfSome(states, done + {st}, tr) {
      EntryStep(states, done, st, tr);
    }
  }

  lemma KeyStep(states: seq<NfaState>, done: set<nat>, st: nat, k: CharClass)
    requires st < |states|
    ensures KeyOfSome(states, done + {st}, k) <==>
      KeyOfSome(states, done, k) || k in Keys(states[st].transitions)
  {
    if KeyOfSome(states, done + {st}, k) {
      var v :| v in done + {st} && v < |states| && k in Keys(states[v].transitions);
      if v != st {
        assert KeyOfSome(states, done, k);
      }
    }
    if KeyOfSome(states, done, k) {
      var v :| v in done && v < |states| && k in Keys(states[v].transitions);
      assert v in done + {st};
    }
  }

  lemma EntryStep(states: seq<NfaState>, done: set<nat>, st: nat, tr: Transition)
    requires st < |states|
    requires EntryOfSome(states, done, tr) || tr in states[st].transitions
    ensures EntryOfSome(states, done + {st}, tr)
  {
    if tr in states[st].transitions {
      assert st in done + {st};
    } else {
      var v :| v in done && v < |states| && tr in states[v].transitions;
      assert v in done + {st};
    }
  }

  // ---------------------------------------------------------------------
  // Construction

  /** The number of states building the elements adds. */
  function PatternsSize(ps: seq<Element>): nat
    decreases ps
  {
    if ps == [] then 0 else PatternsSize(ps[..|ps| - 1]) + ElementSize(ps[|ps| - 1])
  }

  /** A class adds two states, a union three plus those of its branches, and
      a group those of its elements. */
  function ElementSize(e: Element): nat
    decreases e
  {
    match e
    case Group(g) => PatternsSize(g.patterns)
    case Class(_) => 2
    case Union(u) => 3 + PatternsSize(u.first.patterns) + PatternsSize(u.second.patterns)
  }

  /** An NFA under construction: a valid machine whose ε targets name states
      and whose new states start with no ε-successor. */
  ghost predicate NfaValid(m: StateMachine<NfaData>)
    reads m
  {
    m.Valid() && EpsWellFormed(m.states) && m.blank == NfaData({})
  }

  /** `Nfa.__init__`: one state, id 0, under the cursor. */
  method NewNfa() returns (m: StateMachine<NfaData>)
    ensures fresh(m) && NfaValid(m)
    ensures m.states == [State(0, [], false, NfaData({}))] && m.cursor == 0
  {
    m := new StateMachine(NfaData({}));
  }

  /** `add_epsilon_transition` on state `from` of the machine. */
  method AddEpsilonAt(m: StateMachine<NfaData>, from: nat, to: nat) returns (o: Outcome)
    requires NfaValid(m) && from < |m.states| && to < |m.states|
    modifies m
    ensures NfaValid(m) && m.cursor == old(m.cursor)
    ensures o.Fail? <==> to in old(m.states[from].data.epsilons)
    ensures o.Fail? ==> o.error == DuplicateEpsilon && m.states == old(m.states)
    ensures o.Pass? ==> m.states == AddEdge(old(m.states), from, to).value
    ensures o.Fail? ==> AddEdge(old(m.states), from, to) == Err(o.error)
  {
    var r := AddEpsilon(m.states[from], to);
    if r.Err? {
      return Fail(r.error);
    }
    m.SetData(from, r.value.data);
    o := Pass;
  }

  /** An ε edge on a list of states. */
  function AddEdge(states: seq<NfaState>, from: nat, to: nat): (r: Result<seq<NfaState>>)
    requires from < |states|
    ensures r.Err? <==> to in states[from].data.epsilons
    ensures r.Ok? ==> |r.value| == |states|
    ensures r.Ok? ==> r.value[from] == states[from].(data := NfaData(states[from].data.epsilons + {to}))
    ensures r.Ok? ==> forall i :: 0 <= i < |states| && i != from ==> r.value[i] == states[i]
  {
    match AddEpsilon(states[from], to)
    case Err(e) => Err(e)
    case Ok(st) => Ok(states[from := st])
  }

  /** The ε edges a quantifier adds on state `i`, for an element built from
      `start` to `end`. */
  function EdgesAdded(q: Quantifier, start: nat, end: nat, i: nat): set<nat>
  {
    if i == start && (q == ZeroOrOne || q == ZeroOrMore) then {end}
    else if i == end && i != start && (q == ZeroOrMore || q == OneOrMore) then {start}
    else {}
  }

  /** The quantifier wiring of `add_regex`, on a list of states. */
  function Wire(states: seq<NfaState>, start: nat, end: nat, q: Quantifier): (r: Result<seq<NfaState>>)
    requires start < |states| && end < |states|
    ensures r.Ok? ==> |r.value| == |states|
  {
    match q
    case One => Ok(states)
    case ZeroOrOne => AddEdge(states, start, end)
    case ZeroOrMore =>
      var r :- AddEdge(states, start, end);
      AddEdge(r, end, start)
    case OneOrMore => AddEdge(states, end, start)
  }

  /** ONE adds no edge, ZERO_OR_ONE start to end, ZERO_OR_MORE both ways and
      ONE_OR_MORE end to start; nothing else changes, and the wiring fails
      exactly when one of its edges is already there. */
  lemma WireEdges(states: seq<NfaState>, start: nat, end: nat, q: Quantifier)
    requires start < |states| && end < |states| && start != end
    ensures Wire(states, start, end, q).Ok? ==>
      forall i :: 0 <= i < |states| ==>
        Wire(states, start, end, q).value[i] ==
        states[i].(data := NfaData(states[i].data.epsilons + EdgesAdded(q, start, end, i)))
    ensures Wire(states, start, end, q).Err? <==>
      || ((q == ZeroOrOne || q == ZeroOrMore) && end in states[start].data.epsilons)
      || ((q == ZeroOrMore || q == OneOrMore) && start in states[end].data.epsilons)
  {
    var w := Wire(states, start, end, q);
    if w.Ok? {
      forall i | 0 <= i < |states|
        ensures w.value[i] == states[i].(data := NfaData(states[i].data.epsilons + EdgesAdded(q, start, end, i)))
      {
        var st := states[i];
        assert st.data.epsilons + {} == st.data.epsilons;
        assert st.(data := NfaData(st.data.epsilons + {})) == st;
        match q
        case One =>
        case ZeroOrOne =>
          assert w == AddEdge(states, start, end);
        case OneOrMore =>
          assert w == AddEdge(states, end, start);
        case ZeroOrMore =>
          var r := AddEdge(states, start, end).value;
          assert w == AddEdge(r, end, start);
          assert r[end] == states[end];
      }
    }
  }

  // ---------------------------------------------------------------------
  // Thompson's construction on values: what each builder leaves behind

  /** The machine under construction as a value: its states and its cursor. */
  datatype Build = Build(states: seq<NfaState>, cursor: nat)

  /** A state as `new_state` makes it: no transition, no ε-successor. */
  function Fresh(id: nat): NfaState
  {
    State(id, [], false, NfaData({}))
  }

  /** `add_char_class`: two fresh states `n` and `n + 1`, the labelled edge
      from the cursor to `n`, the ε edge from `n` to `n + 1`, and the cursor
      on `n + 1`. */
  function CharClassSpec(b: Build, c: CharClass): (r: Result<Build>)
    requires b.cursor < |b.states|
    ensures r.Ok? ==> |r.value.states| == |b.states| + 2 && r.value.cursor == |b.states| + 1
  {
    var n := |b.states|;
    var s := b.states + [Fresh(n)] + [Fresh(n + 1)];
    var added :- AddTransitionSpec(s[b.cursor], c, n);
    var s' :- AddEdge(s[b.cursor := added.0], n, n + 1);
    Ok(Build(s', n + 1))
  }

  /** The loop of `add_regex` from pattern `i` on: each element in turn,
      stopping at the first error. */
  function RegexFrom(b: Build, r: Regex, i: nat): (o: Result<Build>)
    requires b.cursor < |b.states| && i <= |r.patterns|
    decreases r, |r.patterns| - i
    ensures o.Ok? ==> |b.states| <= |o.value.states| && o.value.cursor < |o.value.states|
  {
    if i == |r.patterns| then Ok(b)
    else
      var next :- ElementSpec(b, r.patterns[i]);
      RegexFrom(next, r, i + 1)
  }

  /** One round of that loop: the element's own construction, the check that
      the cursor moved, and the quantifier's ε edges between the start state
      and the new cursor. */
  function ElementSpec(b: Build, e: Element): (o: Result<Build>)
    requires b.cursor < |b.states|
    decreases e, 1
    ensures o.Ok? ==> |b.states| <= |o.value.states| && o.value.cursor < |o.value.states|
  {
    var body :- BodySpec(b, e);
    if body.cursor == b.cursor then Err(NoProgress)
    else
      var s :- Wire(body.states, b.cursor, body.cursor, QuantifierOf(e));
      Ok(Build(s, body.cursor))
  }

  /** The `match` of `add_regex`: a nested regex, a union or a class. */
  function BodySpec(b: Build, e: Element): (o: Result<Build>)
    requires b.cursor < |b.states|
    decreases e, 0
    ensures o.Ok? ==> |b.states| <= |o.value.states| && o.value.cursor < |o.value.states|
  {
    match e
    case Group(g) => RegexFrom(b, g, 0)
    case Union(u) => UnionSpec(b, u)
    case Class(c) => CharClassSpec(b, c)
  }

  /** The opening of `add_regex_union`: fresh states `n` and `n + 1`, both
      ε-successors of state `c`. */
  function OpenSpec(states: seq<NfaState>, c: nat): (r: Result<seq<NfaState>>)
    requires c < |states|
    ensures r.Ok? ==> |r.value| == |states| + 2
  {
    var n := |states|;
    var s := states + [Fresh(n)] + [Fresh(n + 1)];
    var s' :- AddEdge(s, c, n);
    AddEdge(s', c, n + 1)
  }

  /** The closing of `add_regex_union`: a fresh state, an ε-successor of
      both branch ends. */
  function JoinSpec(states: seq<NfaState>, end1: nat, end2: nat): (r: Result<seq<NfaState>>)
    requires end1 < |states| && end2 < |states|
    ensures r.Ok? ==> |r.value| == |states| + 1
  {
    var j := |states|;
    var s := states + [Fresh(j)];
    var s' :- AddEdge(s, end1, j);
    AddEdge(s', end2, j)
  }

  /** The branches of `add_regex_union`: the first built from split `n`,
      the second from split `n + 1` on the states the first left. */
  function BranchesSpec(s: seq<NfaState>, n: nat, u: RegexUnion): (o: Result<(Build, Build)>)
    requires n + 1 < |s|
    decreases u, 0
    ensures o.Ok? ==> |s| <= |o.value.0.states| <= |o.value.1.states|
    ensures o.Ok? ==> o.value.0.cursor < |o.value.1.states| && o.value.1.cursor < |o.value.1.states|
  {
    var first :- RegexFrom(Build(s, n), u.first, 0);
    var second :- RegexFrom(Build(first.states, n + 1), u.second, 0);
    Ok((first, second))
  }

  /** `add_regex_union`: ε edges to two fresh splits, a branch from each,
      both ends joined to a fresh state, and the cursor on the join. */
  function UnionSpec(b: Build, u: RegexUnion): (o: Result<Build>)
    requires b.cursor < |b.states|
    decreases u, 1
    ensures o.Ok? ==> |b.states| <= |o.value.states| && o.value.cursor < |o.value.states|
  {
    var s :- OpenSpec(b.states, b.cursor);
    var branches :- BranchesSpec(s, |b.states|, u);
    var (first, second) := branches;
    var s' :- JoinSpec(second.states, first.cursor, second.cursor);
    Ok(Build(s', |second.states|))
  }

  /** `Nfa.add_char_class`: two fresh states, the labelled edge from the
      cursor to the first, an ε edge from the first to the second, and the
      cursor on the second. */
  method AddCharClass(m: StateMachine<NfaData>, c: CharClass) returns (o: Outcome, stripped: CharClass)
    requires NfaValid(m)
    modifies m
    ensures NfaValid(m) && |m.states| == old(|m.states|) + 2
    ensures o.Fail? ==> o.error == DuplicateTransition || o.error == CharNotInClass
    ensures c in Keys(old(m.states[m.cursor]).transitions) ==> o == Fail(DuplicateTransition)
    ensures o.Pass? ==> m.cursor == old(|m.states|) + 1
    ensures o.Pass? ==> (m.states[old(m.cursor)] ==
      old(m.states[m.cursor]).(transitions := Put(old(m.states[m.cursor]).transitions, stripped, old(|m.states|))))
    ensures o.Pass? ==> m.states[old(|m.states|)] == State(old(|m.states|), [], false, NfaData({old(|m.states|) + 1}))
    ensures o.Pass? ==> m.states[m.cursor] == State(m.cursor, [], false, NfaData({}))
    ensures o.Pass? ==> forall i :: 0 <= i < old(|m.states|) && i != old(m.cursor) ==> m.states[i] == old(m.states[i])
    ensures o.Pass? && NoDup(c.chars) ==>
      stripped.chars == Without(c.chars, KeyChars(old(m.states[m.cursor]).transitions))
    ensures o.Fail? ==> CharClassSpec(old(Build(m.states, m.cursor)), c) == Err(o.error)
    ensures o.Pass? ==> CharClassSpec(old(Build(m.states, m.cursor)), c) == Ok(Build(m.states, m.cursor))
  {
    var next1, next2;
    o, stripped, next1, next2 := OpenClass(m, c);
    if o.Fail? {
      return;
    }
    assert m.states[next1] == State(next1, [], false, NfaData({}));
    o := AddEpsilonAt(m, next1, next2);
    assert o.Pass?;
    assert {} + {next2} == {next2};
    assert m.states[next1] == State(next1, [], false, NfaData({next2}));
    m.SetCursor(next2);
  }

  /** The first half of `add_char_class`: two fresh states and the labelled
      edge from the cursor to the first. */
  method OpenClass(m: StateMachine<NfaData>, c: CharClass) returns (o: Outcome, stripped: CharClass, next1: nat, next2: nat)
    requires NfaValid(m)
    modifies m
    ensures NfaValid(m) && m.cursor == old(m.cursor)
    ensures next1 == old(|m.states|) && next2 == next1 + 1 && |m.states| == next2 + 1
    ensures o.Fail? ==> AddTransitionSpec(old(m.states[m.cursor]), c, next1) == Err(o.error)
    ensures o.Fail? ==> o.error == DuplicateTransition || o.error == CharNotInClass
    ensures c in Keys(old(m.states[m.cursor]).transitions) ==> o == Fail(DuplicateTransition)
    ensures o.Pass? ==> AddTransitionSpec(old(m.states[m.cursor]), c, next1) == Ok((m.states[old(m.cursor)], stripped))
    ensures o.Pass? ==> m.states == (old(m.states) + [Fresh(next1)] + [Fresh(next2)])[old(m.cursor) := m.states[old(m.cursor)]]
    ensures o.Pass? ==> (m.states[old(m.cursor)] ==
      old(m.states[m.cursor]).(transitions := Put(old(m.states[m.cursor]).transitions, stripped, next1)))
    ensures o.Pass? && NoDup(c.chars) ==>
      stripped.chars == Without(c.chars, KeyChars(old(m.states[m.cursor]).transitions))
  {
    next1 := m.NewState();
    next2 := m.NewState();
    ghost var grown := m.states;
    assert grown == old(m.states) + [Fresh(next1)] + [Fresh(next2)];
    o, stripped := m.AddTransitionAt(m.cursor, c, next1);
    if o.Pass? {
      assert m.states == grown[old(m.cursor) := m.states[old(m.cursor)]];
    }
  }

  /** `Nfa.add_regex`: build the elements one after another from the cursor.
      The cursor moves exactly when there is an element, always onto a fresh
      state, and no old state but the starting one changes. */
  method AddRegex(m: StateMachine<NfaData>, r: Regex) returns (o: Outcome)
    requires NfaValid(m)
    modifies m
    decreases r
    ensures NfaValid(m) && |m.states| >= old(|m.states|)
    ensures |r.patterns| == 0 ==> o == Pass && m.cursor == old(m.cursor)
    ensures o.Pass? ==> |m.states| == old(|m.states|) + PatternsSize(r.patterns)
    ensures o.Pass? ==> (m.cursor == old(m.cursor) <==> |r.patterns| == 0)
    ensures o.Pass? ==> m.cursor == old(m.cursor) || old(|m.states|) <= m.cursor
    ensures o.Pass? ==> forall i :: 0 <= i < old(|m.states|) && i != old(m.cursor) ==> m.states[i] == old(m.states[i])
    ensures o.Fail? ==> RegexFrom(old(Build(m.states, m.cursor)), r, 0) == Err(o.error)
    ensures o.Pass? ==> RegexFrom(old(Build(m.states, m.cursor)), r, 0) == Ok(Build(m.states, m.cursor))
  {
    o := Pass;
    ghost var n0, c0 := |m.states|, m.cursor;
    for i := 0 to |r.patterns|
      invariant NfaValid(m) && |m.states| == n0 + PatternsSize(r.patterns[..i])
      invariant o == Pass
      invariant i == 0 ==> m.cursor == c0
      invariant i > 0 ==> n0 <= m.cursor
      invariant forall j :: 0 <= j < n0 && j != c0 ==> m.states[j] == old(m.states[j])
      invariant RegexFrom(Build(m.states, m.cursor), r, i) == RegexFrom(old(Build(m.states, m.cursor)), r, 0)
    {
      ghost var before, built := Build(m.states, m.cursor), [];
      o, built := AddElement(m, r.patterns[i]);
      if o.Fail? {
        assert RegexFrom(before, r, i) == Err(o.error);
        return;
      }
      assert RegexFrom(before, r, i) == RegexFrom(Build(m.states, m.cursor), r, i + 1);
      assert r.patterns[..i + 1][..i] == r.patterns[..i];
    }
    assert r.patterns[..|r.patterns|] == r.patterns;
  }

  /** One round of the loop of `add_regex`: build the element, insist that
      the cursor moved, and wire the quantifier between the start state and
      the new cursor. `built` is the machine before the wiring. */
  method AddElement(m: StateMachine<NfaData>, e: Element) returns (o: Outcome, ghost built: seq<NfaState>)
    requires NfaValid(m)
    modifies m
    decreases e
    ensures NfaValid(m) && |m.states| >= old(|m.states|)
    ensures e.Group? && |e.group.patterns| == 0 ==> o == Fail(NoProgress)
    ensures o.Pass? ==> |m.states| == old(|m.states|) + ElementSize(e)
    ensures o.Pass? ==> m.cursor != old(m.cursor) && old(|m.states|) <= m.cursor
    ensures o.Pass? ==> |built| == |m.states| && Wire(built, old(m.cursor), m.cursor, QuantifierOf(e)) == Ok(m.states)
    ensures o.Pass? ==> forall i :: 0 <= i < old(|m.states|) && i != old(m.cursor) ==> m.states[i] == old(m.states[i])
    ensures o.Fail? ==> ElementSpec(old(Build(m.states, m.cursor)), e) == Err(o.error)
    ensures o.Pass? ==> ElementSpec(old(Build(m.states, m.cursor)), e) == Ok(Build(m.states, m.cursor))
    ensures o.Pass? ==> BodySpec(old(Build(m.states, m.cursor)), e) == Ok(Build(built, m.cursor))
  {
    var start := m.cursor;
    built := m.states;
    match e {
      case Group(g) =>
        o := AddRegex(m, g);
      case Union(u) =>
        var end1, end2;
        o, end1, end2 := AddRegexUnion(m, u);
      case Class(c) =>
        var stripped;
        o, stripped := AddCharClass(m, c);
    }
    if o.Fail? {
      return;
    }
    if m.cursor == start {
      return Fail(NoProgress), built;
    }
    built := m.states;
    o := WireAt(m, start, m.cursor, QuantifierOf(e));
  }

  /** The quantifier branch of `add_regex`: the ε edges of `q` between the
      start state and the end state, added in order. */
  method WireAt(m: StateMachine<NfaData>, start: nat, end: nat, q: Quantifier) returns (o: Outcome)
    requires NfaValid(m) && start < |m.states| && end < |m.states|
    modifies m
    ensures NfaValid(m) && m.cursor == old(m.cursor) && |m.states| == old(|m.states|)
    ensures o.Pass? ==> Wire(old(m.states), start, end, q) == Ok(m.states)
    ensures o.Fail? ==> Wire(old(m.states), start, end, q) == Err(o.error)
    ensures o.Pass? ==> forall i :: 0 <= i < |m.states| && i != start && i != end ==> m.states[i] == old(m.states[i])
  {
    ghost var built := m.states;
    o := Pass;
    match q {
      case One =>
      case ZeroOrOne =>
        o := AddEpsilonAt(m, start, end);
      case ZeroOrMore =>
        o := AddEpsilonAt(m, start, end);
        if o.Pass? {
          ghost var mid := m.states;
          assert Wire(built, start, end, ZeroOrMore) == AddEdge(mid, end, start);
          o := AddEpsilonAt(m, end, start);
        }
      case OneOrMore =>
        o := AddEpsilonAt(m, end, start);
    }
  }

  /** `Nfa.add_regex_union`: ε edges from the cursor to two fresh split
      states, each branch built from its split, ε edges from both branch
      ends to one fresh join state, and the cursor on the join. The branch
      ends differ and the split and join states are fresh, so none of the
      ε edges added here can already exist. */
  method AddRegexUnion(m: StateMachine<NfaData>, u: RegexUnion) returns (o: Outcome, end1: nat, end2: nat)
    requires NfaValid(m)
    modifies m
    decreases u
    ensures NfaValid(m) && |m.states| >= old(|m.states|)
    ensures o.Pass? ==> |m.states| == old(|m.states|) + 3 + PatternsSize(u.first.patterns) + PatternsSize(u.second.patterns)
    ensures o.Pass? ==> (m.states[old(m.cursor)] ==
      old(m.states[m.cursor]).(data := NfaData(old(m.states[m.cursor]).data.epsilons + {old(|m.states|), old(|m.states|) + 1})))
    ensures o.Pass? ==> end1 != end2 && end1 < |m.states| && end2 < |m.states|
    ensures o.Pass? ==> (end1 == old(|m.states|) || old(|m.states|) + 2 <= end1)
    ensures o.Pass? ==> (end2 == old(|m.states|) + 1 || old(|m.states|) + 2 <= end2)
    ensures o.Pass? ==> m.cursor == |m.states| - 1
    ensures o.Pass? ==> m.cursor in m.states[end1].data.epsilons && m.cursor in m.states[end2].data.epsilons
    ensures o.Pass? ==> m.states[m.cursor] == State(m.cursor, [], false, NfaData({}))
    ensures o.Pass? ==> forall i :: 0 <= i < old(|m.states|) && i != old(m.cursor) ==> m.states[i] == old(m.states[i])
    ensures o.Fail? ==> UnionSpec(old(Build(m.states, m.cursor)), u) == Err(o.error)
    ensures o.Pass? ==> UnionSpec(old(Build(m.states, m.cursor)), u) == Ok(Build(m.states, m.cursor))
  {
    var split1, split2 := OpenSplits(m);
    o, end1, end2 := AddBranches(m, u, split1);
    if o.Fail? {
      return o, 0, 0;
    }
    var join := JoinBranches(m, end1, end2);
  }

  /** The middle of `add_regex_union`: the first branch built from split
      `split1`, the second from split `split1 + 1`, each end read off the
      cursor. */
  method AddBranches(m: StateMachine<NfaData>, u: RegexUnion, split1: nat) returns (o: Outcome, end1: nat, end2: nat)
    requires NfaValid(m) && split1 + 2 == |m.states|
    modifies m
    decreases u, 0
    ensures NfaValid(m) && |m.states| >= old(|m.states|)
    ensures o.Pass? ==> |m.states| == old(|m.states|) + PatternsSize(u.first.patterns) + PatternsSize(u.second.patterns)
    ensures o.Pass? ==> end1 != end2 && end1 < |m.states| && end2 < |m.states| && m.cursor == end2
    ensures o.Pass? ==> (end1 == split1 || old(|m.states|) <= end1)
    ensures o.Pass? ==> (end2 == split1 + 1 || old(|m.states|) <= end2)
    ensures o.Pass? ==> forall i :: 0 <= i < split1 ==> m.states[i] == old(m.states[i])
    ensures o.Fail? ==> BranchesSpec(old(m.states), split1, u) == Err(o.error)
    ensures o.Pass? ==> BranchesSpec(old(m.states), split1, u).Ok?
    ensures o.Pass? ==> BranchesSpec(old(m.states), split1, u).value.0.cursor == end1
    ensures o.Pass? ==> BranchesSpec(old(m.states), split1, u).value.1 == Build(m.states, m.cursor)
  {
    m.SetCursor(split1);
    o := AddRegex(m, u.first);
    if o.Fail? {
      return o, 0, 0;
    }
    end1 := m.cursor;

    m.SetCursor(split1 + 1);
    o := AddRegex(m, u.second);
    if o.Fail? {
      return o, 0, 0;
    }
    end2 := m.cursor;
  }

  /** The opening of `add_regex_union`: two fresh split states, each an
      ε-successor of the cursor state. */
  method OpenSplits(m: StateMachine<NfaData>) returns (split1: nat, split2: nat)
    requires NfaValid(m)
    modifies m
    ensures NfaValid(m) && m.cursor == old(m.cursor)
    ensures split1 == old(|m.states|) && split2 == split1 + 1 && |m.states| == split2 + 1
    ensures m.states[old(m.cursor)] ==
      old(m.states[m.cursor]).(data := NfaData(old(m.states[m.cursor]).data.epsilons + {split1, split2}))
    ensures m.states[split1] == State(split1, [], false, NfaData({}))
    ensures m.states[split2] == State(split2, [], false, NfaData({}))
    ensures forall i :: 0 <= i < old(|m.states|) && i != old(m.cursor) ==> m.states[i] == old(m.states[i])
    ensures OpenSpec(old(m.states), old(m.cursor)) == Ok(m.states)
  {
    var c := m.cursor;
    split1 := m.NewState();
    split2 := m.NewState();
    assert m.states == old(m.states) + [Fresh(split1)] + [Fresh(split2)];
    var o := AddEpsilonAt(m, c, split1);
    assert o.Pass?;
    o := AddEpsilonAt(m, c, split2);
    assert o.Pass?;
    assert old(m.states[m.cursor]).data.epsilons + {split1} + {split2} ==
      old(m.states[m.cursor]).data.epsilons + {split1, split2};
  }

  /** The closing of `add_regex_union`: a fresh join state, an ε-successor of
      both branch ends, under the cursor. */
  method JoinBranches(m: StateMachine<NfaData>, end1: nat, end2: nat) returns (join: nat)
    requires NfaValid(m) && end1 < |m.states| && end2 < |m.states| && end1 != end2
    modifies m
    ensures NfaValid(m) && join == old(|m.states|) && |m.states| == join + 1 && m.cursor == join
    ensures m.states[end1] == old(m.states[end1]).(data := NfaData(old(m.states[end1]).data.epsilons + {join}))
    ensures m.states[end2] == old(m.states[end2]).(data := NfaData(old(m.states[end2]).data.epsilons + {join}))
    ensures m.states[join] == State(join, [], false, NfaData({}))
    ensures forall i :: 0 <= i < old(|m.states|) && i != end1 && i != end2 ==> m.states[i] == old(m.states[i])
    ensures JoinSpec(old(m.states), end1, end2) == Ok(m.states)
  {
    join := m.NewState();
    assert m.states == old(m.states) + [Fresh(join)];
    var o := AddEpsilonAt(m, end1, join);
    assert o.Pass?;
    o := AddEpsilonAt(m, end2, join);
    assert o.Pass?;
    m.SetCursor(join);
  }
}
