# rexer compile pipeline, modelled in Dafny

rexer compiles a regular expression in three stages:

- The pattern string is parsed into a pattern tree by a recursive-descent loop over a one-slot pushback cursor.
- The tree becomes an ε-NFA by Thompson's construction, element by element, on a state machine with a cursor.
- The NFA becomes a DFA by subset expansion without memoisation.

This project models each stage of `lib/` and proves what each operation promises.

| file | module | models |
|---|---|---|
| `errors.dfy` | `Errors` | the exceptions and failing asserts of the pipeline, as `Result`/`Outcome` errors |
| `core.dfy` | `Core` | `CoreIter` (`next`/`putback`, `map`, `filter`, `all`, `any`) as a class; the punctuation constants |
| `quantifier.dfy` | `Quantifiers` | the four-valued `Quantifier` and its suffix characters |
| `charseqs.dfy` | `CharSeqs` | sorted character lists: `list.sort` as insertion sort, ranges, removal |
| `chars.dfy` | `Chars` | `CharClass` and its operations; the loops of `add_char_range`, `group_chars` and `strip` are methods |
| `regex.dfy` | `Regexes` | the pattern tree, the parser as a function on positions, and the parser methods over `CoreIter` proved equal to it |
| `regex_examples.dfy` | `RegexExamples` | parses of small patterns, one per parser rule |
| `state.dfy` | `States` | `State` (transitions as an insertion-ordered dict) and `StateMachine` as a class |
| `nfa.dfy` | `Nfa` | ε-successors, the ε-closure worklist, merged closure transitions, and the fragment builders |
| `dfa.dfy` | `Dfa` | NFA origins, `collect_nfa_states` with fuel, and `from_nfa` |

## Modelling choices

Characters are Unicode code points (`Char`, an `int` below `0x110000`). Strings are sequences of them.

`CharClass`, `Regex`, `RegexUnion` and `State` are values:

- An operation that mutates one of them in Python returns the new value.
- An exception or a failing `assert` becomes an `Err`/`Fail` with its own error constructor.

`CoreIter`, `StateMachine`, the NFA and the DFA are objects (`class`) whose methods modify them.

`StateMachine<X>` is generic in the data of its states, which stands for the `statetype` argument in the source:

- NFA states carry their ε-successor ids.
- DFA states carry their NFA origin ids.

States are referred to by id, and ids equal positions in the list. Every builder keeps that invariant (`StateMachine.Valid`).

A dict of transitions is a sequence of `(key, target)` entries in insertion order. `Put`, the model of `d[k] = v`, overwrites an equal key where it stands and appends a new key at the end.

Points where the source behaves unexpectedly, and what the model does there:

- `add_char` keeps duplicate characters (lib/char.py:80-81), so `"[aa]"` stores `a` twice. Contracts about `strip` that need distinct characters say so.
- Because of those duplicates, the keys of one DFA state can overlap, and then two transitions match the same character. In `a|[aab]`, DFA state 0 is the closure {0, 1, 2}. The model merges its keys in ascending id order: first `[a]`, then `[aab]`. `strip` takes one `a` from `[aab]` and stores `[ab]` beside `[a]` (`States.OverlappingKeys`). In the other order the second `list.remove` raises a ValueError (`States.OverlapReversed`). With repeat-free keys the keys stay disjoint (`States.AddTransitionDisjoint`).
- `.` has no special meaning in the parser (lib/regex.py:57-76). It is a literal, and `SetWildcard` is never called by it.
- `Regex` defines no `patterns`/`quantifier` accessors, so lib/nfa.py:86 and lib/nfa.py:101 would raise an AttributeError. The model reads the two fields directly.
- `final` is always false (lib/state.py:32); `StateMachine.Valid` records that.

Python's element list of a `Regex` is rebuilt while parsing (append, clear, overwrite the last element). The parser is modelled by two things:

- The spec functions `Parsed`/`Step` on a position.
- The methods `ParseRegex`, `ParseElement`, `ParseCharClass` and `ParseEscapeChar`, which read from a `CoreIter` and are proved to return exactly what the spec functions compute.

Each builder method of the NFA and the DFA is proved equal to a function on values that performs the same construction: `CharClassSpec`, `RegexFrom`, `ElementSpec` and `UnionSpec` on a `Build` (the states and the cursor), and `CollectSpec` on a `DfaBuild`. Each of these returns the finished states and cursor or the first error, with the same checks in the same order as the source. `AddTransitionSpec`, `StripSpec` and `RemoveAll` do the same for `add_transition`, `strip` and its inner `foreach`.

One round of each loop that recurses is a method of its own:

- `ParseElement` for the parser.
- `AddElement` for `add_regex`.
- `ExpandEntry` for `collect_nfa_states`.

An edge case the model exposes: a new key may be stripped to nothing when an earlier key of the same state was too. If the two also agree in quantifier and wildcard flag, they are equal under `Equal`. The model's `Put` then replaces the target of the earlier empty key instead of appending (`StrippedAppends` needs a non-empty stripped key; `PutLookup` gives the overwrite). In Python the two keys share a hash, so the dict compares them with `__eq__`, which raises the TypeError described under "## Left out" (lib/char.py:45). So the overwrite happens only under the intended comparison. An empty key matches no character, so no DFA behaviour would depend on it.

## Model

| member | source | states |
|---|---|---|
| Core.FilteredMembers | lib/core.py:85-88 | an element is kept by `filter` exactly when it occurs in the input and satisfies the predicate |
| Core.FilteredAppend | lib/core.py:85-88 | filtering a concatenation filters each part, so the original order is kept |
| Core.FilteredLength | lib/core.py:85-88 | `filter` never yields more elements than it reads, and yields all of them exactly when every one satisfies the predicate |
| Core.CoreIter.constructor | lib/core.py:30-34 | a new cursor is at the start of its sequence with nothing read and nothing held back |
| Core.CoreIter.Putback | lib/core.py:42-43 | the held value becomes the last element read, so the logical position steps back by one; before any read, and with something already held, the position does not move |
| Core.CoreIter.Next | lib/core.py:45-55 | a held value is returned and cleared without advancing; otherwise the next element is returned and remembered; at the end nothing is returned and the last element read is kept; the logical position advances by one exactly when an element remains |
| Core.CoreIter.Map | lib/core.py:65-68 | one result per remaining element, in order, and the cursor is exhausted |
| Core.CoreIter.Filter | lib/core.py:85-88 | exactly the remaining elements that satisfy the predicate, in order |
| Core.CoreIter.All | lib/core.py:73-77 | true iff every remaining element satisfies the predicate; on false it stops just after the first element that fails |
| Core.CoreIter.Any | lib/core.py:79-83 | true iff some remaining element satisfies the predicate; on true it stops just after the first one that does |
| Quantifiers.Suffix | lib/quantifier.py:6-10 | every suffix has at most one character, and only ONE has the empty suffix |
| Quantifiers.FromValue | lib/quantifier.py:6-10 | a value maps to the quantifier whose suffix it is |
| Quantifiers.ValueRoundTrip | lib/quantifier.py:6-10 | mapping a quantifier to its suffix and back gives the same quantifier |
| Quantifiers.QuantifierCharRoundTrip | lib/regex.py:71-72 | a character is `?`, `*` or `+` exactly when it names a quantifier other than ONE, and that quantifier's suffix is the character |
| Quantifiers.SuffixInjective | lib/quantifier.py:7-10 | distinct quantifiers have distinct suffixes |
| CharSeqs.RangeSorted | lib/char.py:87-89 | the code points from start to end are increasing and have no repeats |
| CharSeqs.InsertMultiset | lib/char.py:80-81 | appending and sorting adds exactly one copy of the character |
| CharSeqs.InsertSorted | lib/char.py:80-81 | inserting into a sorted list keeps it sorted |
| CharSeqs.SortProps | lib/char.py:81 | sorting returns a sorted permutation of its input |
| CharSeqs.SortedUnique | lib/char.py:81 | two sorted lists with the same multiset are equal, so the result of sorting is determined by its contents |
| CharSeqs.SortOfSorted | lib/char.py:81 | sorting a sorted list changes nothing |
| CharSeqs.WithoutMembers | lib/char.py:154-161 | a character survives removal of a set exactly when it was present and is not in the set |
| CharSeqs.KeepMembers | lib/char.py:157-158 | the characters kept by the `ch in self` filter are exactly those present in both |
| CharSeqs.WithoutShape | lib/char.py:154-161 | removal only drops characters and keeps a sorted list sorted and a repeat-free list repeat-free |
| CharSeqs.KeepNoDup | lib/char.py:157-158 | filtering a list without repeats gives a list without repeats |
| CharSeqs.WithoutTwice | lib/char.py:154-161 | removing one set and then another is removing their union, as `strip` does across the other classes |
| CharSeqs.WithoutAgree | lib/char.py:154-161 | removal depends only on which of the list's own characters are in the set |
| CharSeqs.WithoutNone | lib/char.py:154-161 | removing characters that are not present changes nothing |
| CharSeqs.RemoveFirstCount | lib/char.py:163-164 | `list.remove` takes away exactly one copy of the character |
| CharSeqs.RemoveFirstSorted | lib/char.py:163-164 | `list.remove` keeps a sorted list sorted |
| CharSeqs.RemoveFirstShape | lib/char.py:163-164 | `list.remove` drops exactly one copy and keeps a sorted list sorted |
| CharSeqs.RemoveFirstNoDup | lib/char.py:163-164 | on a list without repeats, `list.remove` removes the character entirely |
| Chars.Equal | lib/char.py:44-48 | two classes are equal exactly when characters, quantifier and wildcard flag all agree |
| Chars.Added | lib/char.py:80-81 | appending and sorting gives a sorted list one longer, containing the character, with the old multiset plus that character; duplicates are kept |
| Chars.AddChar | lib/char.py:74-81 | the empty string raises, a longer string fails the length assertion, and a single character is added as above |
| Chars.AddedCommutes | lib/char.py:80-81 | adding two characters in either order gives the same class |
| Chars.AddCharCommutes | lib/char.py:80-81 | because the list is re-sorted, the order of two additions does not matter |
| Chars.AddCharRangeSpec | lib/char.py:83-89 | a range is rejected unless start is below end; otherwise the result is sorted and holds the old characters plus every code point from start to end inclusive |
| Chars.AddEach | lib/char.py:87-89 | the loop of `add_char` calls leaves a sorted list holding the old characters plus every code point of the range |
| Chars.AddCharRange | lib/char.py:83-89 | the insertion loop computes exactly the range result above, error case included |
| Chars.AddAlpha | lib/char.py:91-94 | adds `A`-`Z`, `_` and `a`-`z`, keeping the list sorted |
| Chars.AddNumeric | lib/char.py:96-97 | adds `0`-`9`, keeping the list sorted |
| Chars.AddWhitespace | lib/char.py:99-100 | adds one space, keeping the list sorted |
| Chars.FreshClasses | lib/char.py:66-69 | a new class is empty with quantifier ONE, so the digit class is exactly `0`-`9` and the space class exactly one space |
| Chars.SetQuantifier | lib/char.py:102-103 | only the quantifier changes |
| Chars.SetWildcard | lib/char.py:105-107 | allowed exactly when the class has no characters, and then only the flag changes |
| Chars.RemoveChar | lib/char.py:163-164 | fails exactly when the character is absent; otherwise one copy is removed and sortedness is kept |
| Chars.RunFrom | lib/char.py:143-145 | the run from `i` is the longest stretch of consecutive code points: each point up to the run's end is one past the one before, and the point after the end, if any, is not |
| Chars.RemoveNext | lib/char.py:159-164 | one call of `remove_char` inside `strip`'s inner loop: it is exactly `RemoveChar` of the next filtered character, fails only when that character is missing, and keeps the loop's invariant: the class so far is the original minus the characters removed |
| Chars.GroupChars | lib/char.py:137-152 | expanding the groups in order gives back the characters exactly; pairs are real runs; no group starts right after the previous group's end |
| Chars.RemoveAllWithout | lib/char.py:157-159 | on a class without repeats, a successful run of `remove_char` over a list removes exactly the listed characters and leaves no repeats |
| Chars.StripWithout | lib/char.py:154-161 | on a class without repeats, a successful `strip` keeps exactly the characters that occur in no other class |
| Chars.RemoveEach | lib/char.py:157-159 | the loop equals `RemoveAll`, removing each filtered character in turn and stopping at the first missing one; it succeeds when the characters are present and distinct, and then removes exactly that set |
| Chars.StripOne | lib/char.py:156-159 | removes the characters of one other class that the class holds, as `RemoveAll` of the filtered characters; succeeds when both are repeat-free, and then removes them exactly |
| Chars.Strip | lib/char.py:154-161 | the loop over the other classes equals `StripSpec`; it fails only when a character to remove is missing; it succeeds when the class and the others are repeat-free, and the result then keeps exactly the characters, in order, that occur in no other class |
| Regexes.WithQuantifier | lib/regex.py:71-72 | sets the quantifier of a group, class or union and keeps its kind and contents |
| Regexes.Literal | lib/regex.py:73-74 | a plain character becomes a one-character class with quantifier ONE |
| Regexes.EscapeClass | lib/regex.py:84-93 | `\w` gives letters, `_` and digits, `\d` the digits, `\s` a space, and any other character itself |
| Regexes.ParsedEscape | lib/regex.py:84-97 | an escape fails exactly at end of input, otherwise consumes one character |
| Regexes.BracketItems | lib/regex.py:105-115 | the item loop ends just after a `]`, or fails with an unterminated bracket or an invalid range |
| Regexes.BracketErrors | lib/regex.py:105-115 | for every input: with no `]` left the bracket fails; with neither `]` nor `-` left it is unterminated; a `-` reached right after a range, or as the last character, is an invalid range; with no `-` left the loop succeeds exactly when a `]` is left, and stops at the first one |
| Regexes.BuildClassContents | lib/regex.py:117-127 | the bracket class is built exactly when every range runs upwards, and then holds every listed character and every listed range, sorted |
| Regexes.ParsedBracket | lib/regex.py:99-127 | `[` at end of input, or followed by NUL, is an empty bracket; a success ends just after the closing `]` |
| Regexes.Parsed | lib/regex.py:57-79 | a nested parse succeeds only just after a `)`; running out of input is an error only inside a group |
| Regexes.Step | lib/regex.py:58-76 | every successful element step consumes input |
| Regexes.PlainRule | lib/regex.py:73-74 | a plain character appends one single-character class and the loop goes on |
| Regexes.QuantifierRule | lib/regex.py:71-72 | a quantifier with nothing before it is an error; otherwise it re-quantifies only the last element |
| Regexes.NestedUnionRule | lib/regex.py:65-70 | inside a group, `\|` replaces the elements by one union of the elements so far and the parse of the rest; the `)` it consumed is put back and ends the group |
| Regexes.UnterminatedRule | lib/regex.py:78-79 | a group with no `)` left in the input fails |
| Regexes.BracketOk | lib/regex.py:117-127 | a parsed bracket class is sorted, non-empty and not a wildcard |
| Regexes.EscapeOk | lib/regex.py:84-93 | every escape class is sorted, non-empty and not a wildcard |
| Regexes.ParsedOk | lib/regex.py:57-79 | every class in a parse result is sorted and non-empty, at every depth |
| Regexes.StepOk | lib/regex.py:58-76 | each element step keeps every class sorted and non-empty |
| Regexes.ParseEscapeChar | lib/regex.py:84-97 | reading an escape from the cursor gives exactly the escape spec and leaves the cursor where it says |
| Regexes.ParseCharClass | lib/regex.py:99-127 | reading a bracket from the cursor gives exactly the bracket spec and leaves the cursor where it says |
| Regexes.BuildCharClass | lib/regex.py:117-127 | the class-building loop computes exactly the bracket class above |
| Regexes.ParseRegex | lib/regex.py:45-79 | the parse loop over the cursor returns exactly the position-based parse, error included |
| Regexes.ParseElement | lib/regex.py:58-76 | one round of the loop returns exactly the element step, with the cursor at its resume position |
| Regexes.Parse | lib/regex.py:45-79 | a parsed pattern has quantifier ONE, and every class in it, at every depth, is sorted, non-empty and not a wildcard |
| Regexes.ParseString | lib/regex.py:45-79 | parsing a string is the position-based parse from 0 at top level |
| RegexExamples.PlainPattern | lib/regex.py:73-74 | `ab` is two one-character classes |
| RegexExamples.StarPattern | lib/regex.py:71-72 | `a*` is the class of `a` with quantifier `*` |
| RegexExamples.BareQuantifier | lib/regex.py:71-72 | `*` alone has nothing to repeat |
| RegexExamples.GroupPattern | lib/regex.py:59-60 | `(ab)?` is one group of two classes, quantified as a whole |
| RegexExamples.OpenGroup | lib/regex.py:78-79 | `(a` is an unterminated group |
| RegexExamples.StrayParen | lib/regex.py:57 | at top level `)` ends the pattern |
| RegexExamples.UnionPattern | lib/regex.py:65-68 | `a\|b` is one union of `a` and `b` |
| RegexExamples.NestedUnionGroup | lib/regex.py:65-70 | inside `(a\|b)c` the group ends at its own `)` |
| RegexExamples.NestedUnionPattern | lib/regex.py:69-70 | `(a\|b)c` is the group followed by `c` |
| RegexExamples.RangePattern | lib/regex.py:106-108 | `[a-c]` is one class of `a`, `b`, `c` |
| RegexExamples.BackwardRange | lib/char.py:84-85 | `[c-a]` is an invalid range |
| RegexExamples.RangeAfterRange | lib/regex.py:107-110 | `[a-b-c]` is an invalid bracket range |
| RegexExamples.BracketAtEnd | lib/regex.py:100-103 | `[` is an empty bracket |
| RegexExamples.EmptyBrackets | lib/regex.py:114-115 | `[]` takes `]` as a member and never closes |
| RegexExamples.DigitEscape | lib/regex.py:88-89 | `\d` is the class `0`-`9` |
| RegexExamples.EscapeAtEndPattern | lib/regex.py:94-95 | `\` alone is an escape at the end |
| States.Put | lib/state.py:39 | storing a present key keeps the number of entries; a new key is appended |
| States.PutLookup | lib/state.py:39 | after storing, the key maps to the new target, every other key to its old target, and keys stay distinct |
| States.PutKeys | lib/state.py:39 | storing leaves every entry with another key in place |
| States.AddTransition | lib/state.py:35-39 | equals `AddTransitionSpec`: a present key fails the assertion; otherwise the key is stripped against the existing keys (`StripSpec`) and stored with the target; stripping succeeds when all keys are repeat-free |
| States.StrippedDisjoint | lib/state.py:38-39 | the stored key shares no character with any earlier key |
| States.StrippedAppends | lib/state.py:38-39 | a non-empty stripped key is new, so earlier keys and their targets are unchanged and it goes at the end |
| States.AddTransitionDisjoint | lib/state.py:35-39 | storing a key without repeated characters keeps the keys of a state pairwise disjoint; a stripped key equal to an old key is empty and only changes a target |
| States.StripOverlap | lib/char.py:154-161 | stripping `[aab]` against `[a]` removes one `a` and leaves `[ab]` |
| States.OverlappingKeys | lib/state.py:35-39 | after `[a]`, adding `[aab]` succeeds and stores `[ab]` beside `[a]`, and the two keys overlap |
| States.OverlapShared | lib/state.py:38-39 | the keys `[a]` and `[ab]` of one state share `a`, so they are not disjoint |
| States.OverlapReversed | lib/char.py:163-164 | after `[aab]`, adding `[a]` fails: the filtered list holds `a` twice, and the second `list.remove` raises |
| States.AddSelfTransition | lib/state.py:41-42 | the stored key leads back to the state itself |
| States.StateMachine.constructor | lib/state.py:72-75 | a new machine has one state, id 0, not final, with the cursor on it |
| States.StateMachine.NewState | lib/state.py:77-80 | appends a state whose id is the old length; old states and the cursor are unchanged |
| States.StateMachine.CurrentState | lib/state.py:82-83 | the current state is the state under the cursor |
| States.StateMachine.SetCursor | lib/state.py:85-87 | the id must name a state; the cursor moves there and nothing else changes |
| States.StateMachine.ResetCursor | lib/state.py:89-90 | the cursor moves to 0 |
| States.StateMachine.AddTransitionAt | lib/state.py:35-39 | `add_transition` on one state of the machine: the new state and the error are those of `AddTransitionSpec`; nothing else changes, and ids and targets stay valid |
| States.StateMachine.AddSelfTransitionAt | lib/state.py:41-42 | `add_self_transition` on one state of the machine |
| Nfa.AddEpsilon | lib/nfa.py:41-43 | adding an ε-successor fails exactly when it is already there, and otherwise adds exactly it |
| Nfa.ClosureProps | lib/nfa.py:49-59 | the closure holds its root, has no ε edge leaving it, and lies inside every closed set holding the root |
| Nfa.ClosedContains | lib/nfa.py:49-59 | a closed set holding the start of an ε chain holds its end |
| Nfa.PushSuccessors | lib/nfa.py:55-56 | pushes every unvisited ε-successor and nothing else |
| Nfa.GetEpsilonReachable | lib/nfa.py:49-59 | the worklist loop terminates and returns exactly the states reachable by ε chains |
| Nfa.PutEntries | lib/nfa.py:68 | an update keeps each entry or replaces it by the new one, and adds the new key |
| Nfa.Merge | lib/nfa.py:67-68 | `dict.update` equals `PutAll`, storing the entries one after another; it gives the union of the keys, entries from one of the two, and distinct keys |
| Nfa.GetEpsilonTransitionable | lib/nfa.py:61-72 | equals `Transitionable`, the closure states' transitions merged in ascending id order; the merged dict has exactly the keys of the closure states, each entry is a transition of some closure state, and keys are distinct |
| Nfa.NewNfa | lib/nfa.py:82-83 | a new NFA is one state without ε-successors, under the cursor |
| Nfa.AddEpsilonAt | lib/nfa.py:41-43 | `add_epsilon_transition` on one state of the machine |
| Nfa.AddEdge | lib/nfa.py:41-43 | an ε edge on a list of states changes exactly the source state |
| Nfa.WireEdges | lib/nfa.py:101-112 | ONE adds nothing, ZERO_OR_ONE start to end, ZERO_OR_MORE both ways, ONE_OR_MORE end to start; the wiring fails exactly when one of its edges exists |
| Nfa.AddCharClass | lib/nfa.py:133-138 | equals `CharClassSpec`: two fresh states, the labelled edge from the cursor state to the first, an ε edge from the first to the second, the cursor on the second |
| Nfa.OpenClass | lib/nfa.py:134-135 | two fresh states appended, and the cursor state changed exactly as `AddTransitionSpec` says for the edge to the first |
| Nfa.AddRegex | lib/nfa.py:85-112 | the loop equals `RegexFrom`, the elements built in order up to the first error; the elements add exactly their sizes in states; the cursor moves exactly when there is an element, onto a fresh state; no other old state changes |
| Nfa.AddElement | lib/nfa.py:87-112 | equals `ElementSpec`, with the build before the wiring equal to `BodySpec`; an element moves the cursor off its start onto a fresh state, or fails with no progress (an empty group always does); then the quantifier wiring is applied between start and cursor |
| Nfa.WireAt | lib/nfa.py:101-112 | the ε edges of the quantifier between start and end, added in order, equal `Wire`, error included; only those two states change |
| Nfa.AddRegexUnion | lib/nfa.py:114-131 | equals `UnionSpec`: ε edges from the cursor state to two fresh splits, both branch ends joined by ε edges to one fresh join state holding the cursor; 3 states plus the branches' |
| Nfa.AddBranches | lib/nfa.py:119-125 | the two branches built one after the other equal `BranchesSpec`; the ends differ, and each is its split or a state created after it |
| Nfa.OpenSplits | lib/nfa.py:115-117 | equals `OpenSpec`: two fresh split states become ε-successors of the cursor state; the ε assertions cannot fail |
| Nfa.JoinBranches | lib/nfa.py:127-131 | equals `JoinSpec`: one fresh join state becomes an ε-successor of both branch ends and takes the cursor; the ε assertions cannot fail |
| Dfa.AddNfaOrigins | lib/dfa.py:28-29 | the origin set only grows, by exactly the given states |
| Dfa.CollectNfaStates | lib/dfa.py:48-63 | equals `CollectSpec`, the whole recursive expansion on values, error included; the current state's origins gain the ε-closure; the cursor ends where it started; no other old state changes; ids stay positions |
| Dfa.ExpandAll | lib/dfa.py:54-63 | the loop over the merged transitions equals `ExpandFrom`, each entry expanded in order up to the first error; the origins of the current state are untouched |
| Dfa.ExpandEntry | lib/dfa.py:54-63 | equals `ExpandOne`; a transition back to the expanded NFA state becomes a self-transition and creates no state; any other creates one fresh state linked by the stripped key, whose origins are the target's closure, and restores the cursor |
| Dfa.ExpandFresh | lib/dfa.py:57-63 | equals `FreshSpec`: one fresh state linked by the stripped key, then expanded for the target; the old states other than the current one are unchanged |
| Dfa.OpenFresh | lib/dfa.py:58-59 | a fresh state appended, and the current state changed exactly as `AddTransitionSpec` says for the edge to it |
| Dfa.Descend | lib/dfa.py:60-63 | the recursive call on the fresh state equals `CollectSpec` there; the cursor is put back, and the fresh state's origins are the target's closure |
| Dfa.FromNfa | lib/dfa.py:34-39 | the NFA cursor is reset to 0, and the DFA equals `CollectSpec` from one fresh state for NFA state 0, whose origins are the closure of NFA state 0 |

## Left out

- Display: `__str__`/`__repr__` in char.py, regex.py, state.py, nfa.py and dfa.py produce diagnostic text only. `group_chars` is modelled instead.
- main.py is command-line handling and printing.
- The fluent `with_*` wrappers only call the operation and return `self`.
- `foreach_enum`, `collect`, `filtermap`, `__iter__`/`__next__` and the module-level `foreach`/`allfn`/`anyfn` are generic plumbing and are left out.
- `all` and `any` default `fn` to `bool` (lib/core.py:73, lib/core.py:79). Every caller passes a predicate, so the model always takes one.
- `CoreIter.next`'s default argument is only used by `parse_char_class`, with NUL. Its effect is part of `ParsedBracket`.
- Core.CoreIter.Map: returns a sequence, not a new `CoreIter` over it.
- Core.CoreIter.Filter: returns a sequence, not a new `CoreIter` over it.
- `__hash__` (lib/char.py:38-41) is not modelled. Keys are values, so equal classes are the same key.
- `isinstance(value, "CharClass")` (lib/char.py:45) raises a TypeError in Python. `Equal` models the intended structural comparison on lines 46-48.
- Aliasing is not captured: in the source one `CharClass` object serves as tree element, NFA key and DFA key, and `strip` mutates it in place. Here classes are values, so stripping a DFA key leaves the NFA and the tree unchanged.
- Set iteration order is a choice of the model. ε-successors are pushed in an order picked with `:|`. The closure states are merged in ascending id order, which fixes which state's entry wins a shared key; Python's order for a set of `State` objects hashed by identity is not specified.
- Dfa.CollectNfaStates: recursion is bounded by a fuel parameter. Running out gives `RecursionLimit`, standing for Python's RecursionError on cyclic NFAs. Only partial-correctness facts are proved.
- Dfa.ExpandEntry: same fuel bound.
- Dfa.FromNfa: same fuel bound.
- No member defines the language a pattern denotes. Nothing claims that the NFA or the DFA accepts the pattern's language; the contracts are about structure.
- The text of exception messages is not modelled. Each error is a constructor of `Errors.Error`.
- Python's IndexError from `self.__patterns[-1]` on an empty element list (a leading quantifier) is modelled as `NothingToRepeat`.
