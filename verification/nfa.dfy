/**
 * Nondeterministic finite automata with silent arrows (`NFA` in nfa.py),
 * simulated on sets of states.
 *
 * The table maps (state, symbol) pairs to sets of states; a missing pair
 * means "no arrow".  Silent arrows are the entries whose symbol is the
 * one-letter string "ε".  The input is a string read one character at a
 * time, each character `c` looked up as the symbol `[c]`.
 */
module Nfa {
  import opened EpsClosure
  import Dfa

  type State = string
  type Symbol = string

  const Epsilon: Symbol := "ε"

  datatype NFA = NFA(
    states: set<State>,
    alphabet: set<Symbol>,
    delta: map<(State, Symbol), set<State>>,
    initial: State,
    final: set<State>)

  /** The states that have an entry for the silent symbol. */
  function EpsSources(delta: map<(State, Symbol), set<State>>): set<State>
  {
    set k | k in delta && k.1 == Epsilon :: k.0
  }

  /** The silent entries of the table, keyed by their source state. */
  function EpsTable(delta: map<(State, Symbol), set<State>>): map<State, set<State>>
  {
    map p | p in EpsSources(delta) :: delta[(p, Epsilon)]
  }

  /**
   * `epsilon_flow`: the union of the silent-arrow targets of the states of
   * `s` that have a silent entry.
   */
  function EpsilonFlow(delta: map<(State, Symbol), set<State>>, s: set<State>): (r: set<State>)
    ensures forall q :: q in r <==> exists p :: p in s && (p, Epsilon) in delta && q in delta[(p, Epsilon)]
    ensures s == {} ==> r == {}
  {
    var eps := EpsTable(delta);
    assert forall p :: p in eps <==> (p, Epsilon) in delta by {
      forall p | (p, Epsilon) in delta ensures p in EpsSources(delta) {
        var k := (p, Epsilon);
        assert k in delta && k.1 == Epsilon;
      }
    }
    Flow(eps, s)
  }

  /** The states reached from `s` by one arrow labelled `a`. */
  function Move(delta: map<(State, Symbol), set<State>>, s: set<State>, a: Symbol): set<State>
  {
    set p, q | p in s && (p, a) in delta && q in delta[(p, a)] :: q
  }

  /** Every closure the run computes while reading `w` from `s` stops. */
  ghost predicate Defined(m: NFA, s: set<State>, w: string)
    decreases |w|
  {
    w == [] ||
    (var next := Move(m.delta, s, [w[0]]);
     Terminates(EpsTable(m.delta), next) &&
     Defined(m, Closure(EpsTable(m.delta), next), w[1..]))
  }

  /** The set of current states after reading `w` from `s`. */
  ghost function Reach(m: NFA, s: set<State>, w: string): set<State>
    requires Defined(m, s, w)
    decreases |w|
  {
    if w == [] then s
    else Reach(m, Closure(EpsTable(m.delta), Move(m.delta, s, [w[0]])), w[1..])
  }

  /**
   * `NFA.run`: start from the initial state alone (no closure), and for each
   * character take the union of the successor sets of the current states,
   * then close it under silent arrows.  The result is the set of accepting
   * states among the last current states.
   */
  method Run(m: NFA, input: string) returns (r: set<State>)
    requires Defined(m, {m.initial}, input)
    ensures r == Reach(m, {m.initial}, input) * m.final
    ensures r <= m.final
  {
    var current := {m.initial};
    for i := 0 to |input|
      invariant Defined(m, current, input[i..])
      invariant Reach(m, current, input[i..]) == Reach(m, {m.initial}, input)
    {
      assert input[i..][0] == input[i] && input[i..][1..] == input[i + 1..];
      var symbol := [input[i]];
      var newStates: set<State> := {};
      var pending := current;
      while pending != {}
        invariant pending <= current
        invariant newStates == Move(m.delta, current - pending, symbol)
        decreases pending
      {
        var q :| q in pending;
        MoveAdd(m.delta, current - pending, q, symbol);
        assert current - (pending - {q}) == (current - pending) + {q};
        newStates := newStates + (if (q, symbol) in m.delta then m.delta[(q, symbol)] else {});
        pending := pending - {q};
      }
      assert current - pending == current;
      current := EpsilonClosure(EpsTable(m.delta), newStates);
    }
    r := current * m.final;
  }

  // ---------------------------------------------------------------------
  // Lemmas

  /**
   * Adding one state to the current set adds its successors; a missing
   * (state, symbol) key contributes nothing.
   */
  lemma MoveAdd(delta: map<(State, Symbol), set<State>>, s: set<State>, q: State, a: Symbol)
    ensures Move(delta, s + {q}, a) ==
            Move(delta, s, a) + (if (q, a) in delta then delta[(q, a)] else {})
  {
    var lhs := Move(delta, s + {q}, a);
    var rhs := Move(delta, s, a) + (if (q, a) in delta then delta[(q, a)] else {});
    forall x | x in rhs ensures x in lhs {
      if x !in Move(delta, s, a) {
        assert q in s + {q} && (q, a) in delta && x in delta[(q, a)];
      }
    }
  }

  /**
   * One move is the union of the successor sets of the current states: it
   * holds every successor of every current state and nothing else, and a
   * missing (state, symbol) key contributes nothing.
   */
  lemma MoveUnion(delta: map<(State, Symbol), set<State>>, s: set<State>, a: Symbol)
    ensures forall p :: p in s && (p, a) in delta ==> delta[(p, a)] <= Move(delta, s, a)
    ensures forall q :: q in Move(delta, s, a) ==> exists p :: p in s && (p, a) in delta && q in delta[(p, a)]
    ensures s == {} ==> Move(delta, s, a) == {}
  {
  }

  /** On empty input the start set is not closed: the result is `{initial} ∩ final`. */
  lemma RunEmpty(m: NFA)
    ensures Defined(m, {m.initial}, [])
    ensures Reach(m, {m.initial}, []) * m.final == {m.initial} * m.final
  {
  }

  /** An empty set of current states stays empty whatever is read. */
  lemma {:induction false} EmptyStaysEmpty(m: NFA, w: string)
    ensures Defined(m, {}, w)
    ensures Reach(m, {}, w) == {}
    decreases |w|
  {
    if w != [] {
      var eps := EpsTable(m.delta);
      assert Move(m.delta, {}, [w[0]]) == {};
      assert FlowN(eps, {}, 0) == {};
      ClosureIsUpto(eps, {}, 0);
      EmptyStaysEmpty(m, w[1..]);
    }
  }

  /**
   * After at least one character has been read, the current set is closed
   * under silent arrows.
   */
  lemma {:induction false} ReachClosed(m: NFA, s: set<State>, w: string)
    requires w != []
    requires Defined(m, s, w)
    ensures Flow(EpsTable(m.delta), Reach(m, s, w)) <= Reach(m, s, w)
    decreases |w|
  {
    var next := Closure(EpsTable(m.delta), Move(m.delta, s, [w[0]]));
    if w[1..] == [] {
      ClosureClosed(EpsTable(m.delta), Move(m.delta, s, [w[0]]));
    } else {
      ReachClosed(m, next, w[1..]);
    }
  }

  /**
   * Because the start set is not closed, an NFA whose initial state reaches
   * an accepting state only by a silent arrow rejects the empty input,
   * although the closure of its start set meets the accepting states.
   */
  lemma StartNotClosed()
    ensures var m := NFA({"s", "f"}, {"a", Epsilon}, map[("s", Epsilon) := {"f"}], "s", {"f"});
            var eps := EpsTable(m.delta);
            Defined(m, {"s"}, []) && Reach(m, {"s"}, []) * m.final == {} &&
            Terminates(eps, {"s"}) && Closure(eps, {"s"}) * m.final == {"f"}
  {
    var m := NFA({"s", "f"}, {"a", Epsilon}, map[("s", Epsilon) := {"f"}], "s", {"f"});
    var eps := EpsTable(m.delta);
    assert "s" in EpsSources(m.delta) by {
      var k := ("s", Epsilon);
      assert k in m.delta && k.1 == Epsilon;
    }
    assert EpsSources(m.delta) == {"s"};
    assert eps == map["s" := {"f"}];
    assert "s" in {"s"} && "s" in eps && "f" in eps["s"];
    assert Flow(eps, {"s"}) == {"f"};
    assert FlowN(eps, {"s"}, 1) == {"f"};
    assert FlowN(eps, {"s"}, 2) == {};
    ClosureIsUpto(eps, {"s"}, 2);
    assert Upto(eps, {"s"}, 1) == {"s"};
    assert Upto(eps, {"s"}, 2) == {"s", "f"};
  }

  /** The NFA whose table lifts each entry of a DFA table to a singleton. */
  function FromDfa(d: Dfa.DFA): NFA
  {
    NFA(d.states, d.alphabet, map k | k in d.delta :: {d.delta[k]}, d.initial, d.final)
  }

  /**
   * Without silent symbols in its table, a DFA and its singleton-lifted NFA
   * agree on every input: the NFA's current set is exactly the DFA's state.
   */
  lemma {:induction false} AgreesWithDfa(d: Dfa.DFA, q: State, w: string)
    requires forall k :: k in d.delta ==> k.1 != Epsilon
    requires Dfa.Defined(d.delta, q, w)
    ensures Defined(FromDfa(d), {q}, w)
    ensures Reach(FromDfa(d), {q}, w) == {Dfa.Final(d.delta, q, w)}
    decreases |w|
  {
    var m := FromDfa(d);
    assert EpsSources(m.delta) == {};
    assert EpsTable(m.delta) == map[];
    if w != [] {
      var a := [w[0]];
      var p := d.delta[(q, a)];
      assert Move(m.delta, {q}, a) == {p} by {
        assert (q, a) in m.delta && m.delta[(q, a)] == {p};
      }
      ClosureWithoutEps(EpsTable(m.delta), {p});
      AgreesWithDfa(d, p, w[1..]);
    }
  }

  /** The verdicts of the two machines agree. */
  lemma AcceptsLikeDfa(d: Dfa.DFA, w: string)
    requires forall k :: k in d.delta ==> k.1 != Epsilon
    requires Dfa.Defined(d.delta, d.initial, w)
    ensures Defined(FromDfa(d), {d.initial}, w)
    ensures (Reach(FromDfa(d), {d.initial}, w) * d.final != {}) <==> Dfa.Accepts(d, w)
  {
    AgreesWithDfa(d, d.initial, w);
    var f := Dfa.Final(d.delta, d.initial, w);
    assert f in d.final ==> f in {f} * d.final;
  }
}
