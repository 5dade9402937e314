/**
 * Deterministic finite automata (`DFA` in dfa.py).
 *
 * A DFA is a record of its states, alphabet, transition table, initial
 * state and accepting states; `Run` never writes any of them.  The input is
 * a string read one character at a time, and each character `c` is looked
 * up as the one-letter symbol `[c]`.
 */
module Dfa {

  type State = string
  type Symbol = string

  datatype DFA = DFA(
    states: set<State>,
    alphabet: set<Symbol>,
    delta: map<(State, Symbol), State>,
    initial: State,
    final: set<State>)

  /** Every lookup that reading `w` from `q` performs finds a key. */
  predicate Defined(delta: map<(State, Symbol), State>, q: State, w: string)
    decreases |w|
  {
    w == [] || ((q, [w[0]]) in delta && Defined(delta, delta[(q, [w[0]])], w[1..]))
  }

  /** The state reached from `q` after reading `w`. */
  function Final(delta: map<(State, Symbol), State>, q: State, w: string): State
    requires Defined(delta, q, w)
    decreases |w|
  {
    if w == [] then q else Final(delta, delta[(q, [w[0]])], w[1..])
  }

  predicate Accepts(m: DFA, w: string)
    requires Defined(m.delta, m.initial, w)
  {
    Final(m.delta, m.initial, w) in m.final
  }

  /** The table sends every (state, symbol) pair of the machine to a state. */
  ghost predicate Total(m: DFA)
  {
    forall q, a :: q in m.states && a in m.alphabet ==> (q, a) in m.delta && m.delta[(q, a)] in m.states
  }

  /** Every character of `w` is a symbol of the alphabet. */
  ghost predicate OverAlphabet(alphabet: set<Symbol>, w: string)
  {
    forall i :: 0 <= i < |w| ==> [w[i]] in alphabet
  }

  /**
   * The loop of `DFA.run`: one lookup per character, then a membership test
   * of the last state.
   */
  method Run(m: DFA, input: string) returns (accepted: bool)
    requires Defined(m.delta, m.initial, input)
    ensures accepted <==> Final(m.delta, m.initial, input) in m.final
  {
    var current := m.initial;
    for i := 0 to |input|
      invariant Defined(m.delta, current, input[i..])
      invariant Final(m.delta, current, input[i..]) == Final(m.delta, m.initial, input)
    {
      assert input[i..][1..] == input[i + 1..];
      current := m.delta[(current, [input[i]])];
    }
    accepted := current in m.final;
  }

  // ---------------------------------------------------------------------
  // Lemmas

  /** With nothing to read, the verdict is whether the initial state accepts. */
  lemma RunEmpty(m: DFA)
    ensures Defined(m.delta, m.initial, [])
    ensures Accepts(m, []) <==> m.initial in m.final
  {
  }

  /** Reading `u + v` is reading `u`, then reading `v` from where `u` ended. */
  lemma {:induction false} FinalAppend(delta: map<(State, Symbol), State>, q: State, u: string, v: string)
    ensures Defined(delta, q, u + v) <==> Defined(delta, q, u) && Defined(delta, Final(delta, q, u), v)
    ensures Defined(delta, q, u + v) ==> Final(delta, q, u + v) == Final(delta, Final(delta, q, u), v)
    decreases |u|
  {
    if u != [] {
      assert (u + v)[0] == u[0];
      assert (u + v)[1..] == u[1..] + v;
      if (q, [u[0]]) in delta {
        FinalAppend(delta, delta[(q, [u[0]])], u[1..], v);
      }
    } else {
      assert u + v == v;
    }
  }

  /**
   * The run is a left fold of the table: reading one more character `c`
   * looks up `(state after w, [c])`.
   */
  lemma FinalSnoc(delta: map<(State, Symbol), State>, q: State, w: string, c: char)
    ensures Defined(delta, q, w + [c]) <==> Defined(delta, q, w) && (Final(delta, q, w), [c]) in delta
    ensures Defined(delta, q, w + [c]) ==> Final(delta, q, w + [c]) == delta[(Final(delta, q, w), [c])]
  {
    FinalAppend(delta, q, w, [c]);
    if Defined(delta, q, w) {
      var p := Final(delta, q, w);
      assert Defined(delta, p, [c]) <==> (p, [c]) in delta by {
        assert [c][1..] == [];
      }
    }
  }

  /**
   * When the table maps states and symbols to states, every lookup of a run
   * from a state over the alphabet succeeds and the state stays a state of
   * the machine.
   */
  lemma {:induction false} StaysInStates(m: DFA, q: State, w: string)
    requires Total(m)
    requires q in m.states
    requires OverAlphabet(m.alphabet, w)
    ensures Defined(m.delta, q, w)
    ensures Final(m.delta, q, w) in m.states
    decreases |w|
  {
    if w != [] {
      assert [w[0]] in m.alphabet;
      assert OverAlphabet(m.alphabet, w[1..]) by {
        forall i | 0 <= i < |w[1..]| ensures [w[1..][i]] in m.alphabet {
          assert w[1..][i] == w[i + 1];
        }
      }
      StaysInStates(m, m.delta[(q, [w[0]])], w[1..]);
    }
  }
}
