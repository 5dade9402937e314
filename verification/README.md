# Automata simulators, modelled in Dafny

This project models the simulators of the Python repository *Automata*:
deterministic finite automata (`DFA.run`), nondeterministic finite automata
with silent ε-arrows (`NFA.epsilon_flow`, `NFA.epsilon_closure`, `NFA.run`),
deterministic pushdown automata (`DPDA.run`, which pops and pushes its own
stack in place) and nondeterministic pushdown automata (`PDA.run` and its
ε-closure over (state, stack) configurations). It also models the example
machines of `dfa_examples.py`. For even_zeros, M1, ends_with_01,
first_eq_last, contains_001 and `DFA_modulo(n)` it proves, over all words,
the language the file's comments claim. The elevator is proved to accept no
word, as its comment says. For ends_with_001 the comment's language is
refuted for the table as written (see "## Findings"). It is proved only for
a table with one entry corrected.

Layout:

- `wrappers.dfy`: `Option`, which stands for Python's `None`.
- `eps_closure.dfy`: one-step ε-flow and the closure loop. The theory is
  generic in the node type, because NFA states and PDA configurations use
  the same two functions.
- `dfa.dfy`, `nfa.dfy`, `dpda.dfy`, `pda.dfy`: one module per simulator.
  Each `run` loop is a method proved against a specification function:
  `Final`, `Reach` or `Exec`.
- `dfa_examples.dfy`: the example tables and their languages. The tables
  that `DFA_modulo(n)` and the elevator example build with nested loops are
  built by methods with the same loops.

`NFA.run` starts from `{initial_state}` without closing it under silent
arrows (nfa.py:58). So an accepting state that the initial state reaches only
through ε-arrows does not make the empty input accepted. `Nfa.RunEmpty` and
`Nfa.StartNotClosed` state this.

A Python `KeyError` on a missing table key becomes a precondition
(`Dfa.Defined`, `Dpda.Defined`). The ε-closure loop does not stop when a
silent cycle is reachable, so it carries the precondition
`EpsClosure.Terminates`.

## Model

| member | source | states |
|---|---|---|
| Dfa.Run | dfa.py:27-32 | The loop's verdict is true exactly when the state reached by folding the table over the input is accepting. |
| Dfa.RunEmpty | dfa.py:29-32 | On the empty input the verdict is whether the initial state is accepting. |
| Dfa.FinalAppend | dfa.py:30-31 | Reading `u + v` succeeds iff reading `u` succeeds and reading `v` succeeds from where `u` ended. The resulting state is the same either way. |
| Dfa.FinalSnoc | dfa.py:30-31 | The run is a left fold: reading one more character `c` looks up (state after `w`, `c`), and fails exactly when that key is missing. |
| Dfa.StaysInStates | dfa.py:21-23 | If the table maps every state × symbol pair into `states`, a run from a state over the alphabet never misses a key and stays in `states`. |
| EpsClosure.EpsilonClosure | nfa.py:42-50 | The loop returns the closure of its argument. The result contains the argument and is closed under one more silent step. |
| EpsClosure.ClosureContains | nfa.py:46-50 | The closure is a superset of the starting set. |
| EpsClosure.ClosureClosed | nfa.py:47-49 | The closure is closed under `epsilon_flow`. |
| EpsClosure.ClosureIsReachable | nfa.py:42-45 | A node is in the closure iff a finite chain of silent arrows leads to it from the starting set. |
| EpsClosure.FlowNPath | nfa.py:47-49 | After `n` iterations, the nodes the loop holds are exactly the ends of silent chains of `n` arrows. |
| EpsClosure.ClosureOfClosed | nfa.py:46-50 | Closing a set that is already closed under the flow returns it unchanged. |
| EpsClosure.ClosureIdempotent | nfa.py:47-49 | Closing a closure terminates and changes nothing. |
| EpsClosure.CycleDiverges | nfa.py:47-49 | If a silent cycle is reachable from the starting set, the loop never stops, because no later flow is empty. |
| EpsClosure.ClosureIsUpto | nfa.py:47-49 | The closure does not depend on which empty iterate of the flow stops the loop. |
| EpsClosure.ClosureWithoutEps | pda.py:30-34 | With no silent entries, the loop stops at once and returns its argument. |
| Nfa.EpsilonFlow | nfa.py:36-40 | `q` is in the flow iff some state of the set has an ε-entry containing `q`. The flow of the empty set is empty. |
| Nfa.Run | nfa.py:52-65 | The result is the set of accepting states among the states reached from `{initial}`: a step on each character, then ε-closure. It is a subset of `final_states`. |
| Nfa.MoveAdd | nfa.py:61-63 | Adding one current state adds exactly its successors. A missing (state, symbol) key adds nothing. |
| Nfa.MoveUnion | nfa.py:59-63 | One move holds every successor of every current state and nothing else. A missing (state, symbol) key contributes nothing, and an empty current set moves to the empty set. |
| Nfa.RunEmpty | nfa.py:58-65 | On the empty input the result is `{initial} ∩ final_states`. |
| Nfa.StartNotClosed | nfa.py:58 | An NFA whose only arrow is `s -ε-> f` with `f` accepting rejects the empty input, although the closure of `{s}` meets the accepting states. |
| Nfa.EmptyStaysEmpty | nfa.py:59-64 | An empty set of current states stays empty whatever is read. |
| Nfa.ReachClosed | nfa.py:64 | After at least one character, the current set is closed under silent arrows. |
| Nfa.AgreesWithDfa | nfa.py:52-64 | On a DFA table lifted to singletons, with no ε-keys, the NFA's current set is exactly `{DFA state}` at every step. |
| Nfa.AcceptsLikeDfa | nfa.py:65 | The lifted NFA's result is non-empty iff the DFA accepts. |
| Dpda.Exec | dpda.py:47-57 | A finished run's stack is no longer than at the start and at most the length of `w` shorter. The run stops for lack of stack only when the input is longer than the stack. |
| Dpda.Truthy | dpda.py:54 | The symbol to push is falsy exactly when it is `None` or the empty string. |
| Dpda.Replace | dpda.py:49-55 | Popping and then pushing a truthy symbol keeps the stack below the top and puts that symbol on top. A falsy symbol leaves the stack one shorter. |
| Dpda.DPDA.constructor | dpda.py:27-41 | Stores the seven components as given, including the initial stack. |
| Dpda.DPDA.Run | dpda.py:43-61 | The verdict is whether the run finished in an accepting state. The stack field is left as the run leaves it: empty if the run ran out. |
| Dpda.ExecEmpty | dpda.py:46-61 | On the empty input the run ends in the initial state with the stack untouched. |
| Dpda.ExhaustedAtOnce | dpda.py:48-57 | An empty stack with input left rejects without any lookup. |
| Dpda.StepStack | dpda.py:49-55 | One symbol pops the top and pushes the returned symbol exactly when it is truthy: `None` and `''` push nothing. |
| Dpda.NoPushShrinks | dpda.py:48-57 | When the table never pushes, each symbol removes one element. The run rejects for lack of stack iff the input is longer than the stack, and otherwise ends with the stack length minus the input length. |
| Dpda.ExecAppend | dpda.py:47-57 | Reading `u + v` is reading `u`, then reading `v` from the state and stack `u` left. A stack that ran out during `u` stays out. |
| Dpda.EmptiedOnLastSymbol | dpda.py:47-61 | For every table, stack and input: when the last symbol pops the only element left and pushes nothing, the run finishes with an empty stack and accepts exactly when its last state is accepting. |
| Dpda.LeftoverStackMatters | dpda.py:41-55 | The stack is not restored. The same machine and input, run again on the leftover stack, can be rejected after being accepted. |
| Pda.Run | pda.py:36-50 | The result is the states of the configurations reached from (initial, stack), intersected with `final_states`. It is a subset of `final_states`. |
| Pda.EffectiveTop | pda.py:42 | A non-empty stack shows its last element. The top is "ε" exactly when the stack is empty or its last element is literally "ε". |
| Pda.OutcomesByTop | pda.py:42-44 | The lookup depends on the stack only through its effective top. It gives the entry when the key is present and no outcome when it is missing. |
| Pda.StepUnion | pda.py:40-47 | One input symbol yields the successors of every current configuration and nothing else. No configurations give none. |
| Pda.SuccessorShape | pda.py:42-47 | A successor keeps its predecessor's whole stack and has exactly one more element, which the table returned; a `None` push counts. A missing key gives no successors. |
| Pda.StepAdd | pda.py:41-47 | Stepping one more configuration adds exactly its successors. |
| Pda.RunEmpty | pda.py:38-50 | On the empty input the result is `{initial} ∩ final_states`. |
| Pda.EmptyStaysEmpty | pda.py:39-48 | An empty configuration set stays empty whatever is read. |
| Pda.TripleKeysOnly | pda.py:23-34 | With no `(configuration, "eps")` entries, every closure returns its argument and the run is plain stepping. |
| Pda.StacksOnlyGrow | pda.py:38-48 | With triple keys only, after reading `w` every configuration's stack is the initial stack followed by exactly one pushed symbol per symbol of `w`. |
| Pda.EmptyTopOnlyWhenEmpty | pda.py:42 | The top "ε" is used only for an empty stack (or one whose top is literally "ε"). On any other stack an entry keyed by top "ε" is never consulted. |
| Pda.BranchesAreCopies | pda.py:46 | Two successors of one configuration share the predecessor's stack unchanged as a prefix, and differ at most in the pushed symbol. |
| DfaExamples.Str | dfa_examples.py:146-154 | The numeral `f'{i}'` is a non-empty string of decimal digits. |
| DfaExamples.StrInjective | dfa_examples.py:146-154 | Distinct numbers have distinct numerals, so the loops never overwrite one key with another's value. |
| DfaExamples.EvenZerosStep | dfa_examples.py:27-28 | even_zeros's table is total on its two states and swaps them on '0'. |
| DfaExamples.EvenZerosState | dfa_examples.py:20-29 | On a word of zeros, even_zeros is in "even" iff it has read an even number of them. |
| DfaExamples.EvenZerosLanguage | dfa_examples.py:20-29 | even_zeros accepts a word of zeros iff the number of zeros is even. |
| DfaExamples.EvenZerosVerdicts | dfa_examples.py:30-32 | Accepts "00" and "", rejects "000". |
| DfaExamples.M1Step | dfa_examples.py:46-51 | M1's table is total on {1, 2, 3} × {0, 1}. A '1' leads to "2". A '0' keeps "1" and swaps "2" and "3". |
| DfaExamples.M1State | dfa_examples.py:41-52 | M1 is in "1" before any '1', then in "2" or "3" as the number of zeros after the last '1' is even or odd. |
| DfaExamples.M1Language | dfa_examples.py:36-52 | M1 accepts a binary word iff it contains a '1' and has an even number of '0's after its last '1'. |
| DfaExamples.M1Verdicts | dfa_examples.py:53-56 | Accepts "01010001", "1" and "101000100"; rejects "1010001000". |
| DfaExamples.EndsWith01Step | dfa_examples.py:67-72 | ends_with_01's table is total. A '0' leads to "0". A '1' leads to "01" from "0" and to "ε" otherwise. |
| DfaExamples.EndsWith01State | dfa_examples.py:62-74 | ends_with_01's state is the longest suffix of the word that is a prefix of "01". |
| DfaExamples.EndsWith01Language | dfa_examples.py:60-74 | ends_with_01 accepts a binary word iff it ends in "01". |
| DfaExamples.EndsWith01Verdicts | dfa_examples.py:75-77 | Accepts "01" and "10100101", rejects "1000011". |
| DfaExamples.EndsWith001Step | dfa_examples.py:100-107 | The table as written is total. A '1' leads to "001" from "00" and to "ε" otherwise. A '0' leads to "0" from "ε", to "00" from "0" and "00", and back to "ε" from "001". |
| DfaExamples.EndsWith001Correction | dfa_examples.py:106 | The corrected table differs from the one as written only in the entry for ("001", '0'), which goes to "0" instead of "ε". States, initial and accepting states are the same. |
| DfaExamples.EndsWith001FixedStep | dfa_examples.py:100-107 | In the corrected table a '0' leads to "0" from "ε" and "001", and to "00" from "0" and "00". A '1' is as in the table as written. |
| DfaExamples.EndsWith001Verdicts | dfa_examples.py:95-112 | The table as written accepts "1001" and rejects "0011", "" and "01". |
| DfaExamples.EndsWith001Counterexample | dfa_examples.py:93-107 | "001001" ends in "001", yet the table as written rejects it. |
| DfaExamples.EndsWith001FixedState | dfa_examples.py:95-107 | With ("001", '0') sent to "0", the state is the longest suffix of the word that is a prefix of "001". |
| DfaExamples.EndsWith001FixedLanguage | dfa_examples.py:93-94 | With that correction the machine accepts a binary word iff it ends in "001". |
| DfaExamples.FirstEqLastStep | dfa_examples.py:123-132 | first_eq_last's table is total. From "s" it goes to the first letter. After that it goes to "a" or "not a" (or "b" or "not b") as the new letter does or does not equal the first. |
| DfaExamples.FirstEqLastState | dfa_examples.py:118-134 | first_eq_last stays in "s" on the empty word. Otherwise it remembers the first letter, and whether the last letter equals it. |
| DfaExamples.FirstEqLastLanguage | dfa_examples.py:116-134 | first_eq_last accepts a word over {a, b} iff it is non-empty and its first and last letters agree. |
| DfaExamples.FirstEqLastVerdicts | dfa_examples.py:135-139 | Rejects "bbaa", "baba" and ""; accepts "abababa" and "a". |
| DfaExamples.Contains001Step | dfa_examples.py:172-179 | contains_001's table is total. "001" absorbs every letter. Below it the table follows the longest suffix that is a prefix of "001". |
| DfaExamples.Contains001State | dfa_examples.py:167-180 | contains_001 is in "001" iff "001" occurs. Otherwise it is in the longest suffix of the word that is a prefix of "001". |
| DfaExamples.Contains001Language | dfa_examples.py:165-180 | contains_001 accepts a binary word iff "001" occurs in it. |
| DfaExamples.Contains001Absorbing | dfa_examples.py:178-179 | From state "001", every binary word leads back to "001". |
| DfaExamples.Contains001Verdicts | dfa_examples.py:181-184 | Accepts "001" and "10011", rejects "01" and "1010100". |
| DfaExamples.AddModIsMod | dfa_examples.py:154 | For `i, j < n` the entry `(i + j) % n` equals the division-free `AddMod` the table predicate uses. |
| DfaExamples.BuildModulo | dfa_examples.py:144-155 | The nested loops produce the numerals below `n` as states, "0" as initial and only accepting state, an empty alphabet, and a table with exactly the 'r' → "0" and `j` → `(i + j) % n` entries. |
| DfaExamples.ResidueState | dfa_examples.py:150-154 | On 'r' and digits below `n`, the state is the numeral of the residue, reduced after every digit as the table does. |
| DfaExamples.ResidueIsSum | dfa_examples.py:143-154 | That residue is the digit sum since the last 'r', modulo `n`. |
| DfaExamples.ModuloState | dfa_examples.py:143-155 | The state of `DFA_modulo(n)` is the numeral of (digit sum since the last 'r') mod `n`. |
| DfaExamples.ModuloReset | dfa_examples.py:152 | Reading 'r' returns to "0" from wherever the run is. |
| DfaExamples.ModuloLanguage | dfa_examples.py:143-155 | `DFA_modulo(n)` accepts iff the digit sum since the last 'r' is divisible by `n`. |
| DfaExamples.ModuloVerdicts | dfa_examples.py:158-161 | `DFA_modulo(3)` accepts "0111" and "012" and rejects "01r2". |
| DfaExamples.BuildElevator | dfa_examples.py:87-90 | The nested loops give a table total over 6 × 6 that sends every (floor `i`, button `j`) to floor `j`, with no other key. |
| DfaExamples.ElevatorLast | dfa_examples.py:82-90 | From any floor, a non-empty sequence of buttons '0' to '5' ends on the floor of the last button. |
| DfaExamples.ElevatorAcceptsNothing | dfa_examples.py:80-90 | With the empty dictionary of accepting states, every sequence of buttons is read to the end and rejected: the elevator recognizes no word. |

## Left out

- The `decide` methods (dfa.py:34-50, nfa.py:67-83, dpda.py:63-70, pda.py:52-61), the `name` fields and the `print()` calls only format and print verdicts, so they are not modelled.
- Alphabets are stored as fields and never consulted by any `run`. The addition of 'ε' to them (nfa.py:31, pda.py:13, 15) is not modelled. The code validates nothing, so there is no error taxonomy.
- Python's `KeyError` on a missing DFA or DPDA key is not modelled as an outcome. It is excluded by the preconditions `Dfa.Defined` and `Dpda.Defined`.
- States, symbols and stack symbols are strings. Python accepts any hashable value here (dpda.py:22-23); integer states such as those of nfa_examples.py are not covered.
- `DFA.run` and `NFA.run` take a string and look up each character as a one-letter symbol. Iteration over other Python iterables is not modelled.
- The set of sets built in nfa.py:39 and pda.py:23 would raise in Python. Per the docstring at nfa.py:13-17, it is modelled as the union of the ε-entries.
- EpsClosure.EpsilonClosure: returns the closure as a new value instead of updating the argument set in place. Every caller in the core passes a freshly built set and uses only the returned object, so nothing observable is lost.
- EpsClosure.EpsilonClosure: a run of the loop that never stops (a reachable silent cycle) is excluded by the precondition `Terminates`. `CycleDiverges` shows when that happens.
- Dpda.DPDA.constructor: the caller's stack list is stored by reference in Python, so `run` also changes the caller's list. The model holds the stack as a sequence field, so that aliasing is not captured.
- Dpda.Truthy: stack symbols are strings, so the falsy values 0, `False` and empty containers cannot occur. Only `None` and `''` are falsy here.
- Dpda.DPDA.Run: the crash path where the pop has happened but the lookup then fails is excluded by the precondition.
- `PDA.run` reads `self.stack`, which is never assigned (pda.py:38). `Pda.Run` takes the initial stack as an argument instead.
- Lists inside sets (pda.py:38, 47) would raise in Python. Stacks are value sequences, so a configuration is a hashable value.
- The PDA's single table dictionary is split in two. Entries keyed (state, symbol, top) form `delta`. Entries keyed (configuration, "eps") form `epsDelta`, read as the set of configurations one silent step reaches.
- Stack elements of the PDA are `Option<string>`, because `None` can be pushed.
- nfa_examples.py is not modelled. It calls the NFA constructor with five arguments where six are required (nfa_examples.py:14), and its states are integers.
- The automatic door machine (dfa_examples.py:4-17) is never instantiated and is not modelled. The elevator machine is never instantiated either. Its empty dict of final states (dfa_examples.py:86) is modelled as the empty set in `ElevatorAcceptsNothing`.
- DfaExamples.BuildModulo: the alphabet, which evaluates to `None` (dfa_examples.py:147), is modelled as the empty set. `n` is a natural number. For negative `n`, Python's ranges are empty, so the result equals the one for `n = 0`.
- DfaExamples.ModuloState: stated for inputs of 'r' and single digits below `n`. For `n > 10` the table also holds keys with two-digit numerals, which no one-character input can reach.

## Findings

| source | as written | input that shows it | evidently intended | confidence | as-written member | corrected member |
|---|---|---|---|---|---|---|
| dfa_examples.py:106 | ("001", '0') goes to 'ε', while the comment at dfa_examples.py:93-94 claims the words ending in "001" | "001001": the run goes 'ε' → "0" → "00" → "001" → 'ε' → "0" → 'ε' and is rejected, although the word ends in "001" | ("001", '0') goes to "0", so that exactly the words ending in "001" are accepted | not executed | DfaExamples.EndsWith001Counterexample | DfaExamples.EndsWith001FixedLanguage |
