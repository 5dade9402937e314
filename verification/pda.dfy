/**
 * Nondeterministic pushdown automata (`PDA` in pda.py, marked incomplete by
 * its authors), simulated on sets of (state, stack) configurations.
 *
 * A stack is a value: a list whose top is its last element.  Its elements
 * are whatever was pushed, `None` included.  The effective top of an empty
 * stack is the string "ε".  A step never pops: each outcome
 * (next state, push symbol) yields a copy of the stack with the push symbol
 * appended.
 *
 * The table of the source is one dictionary.  Its entries keyed
 * (state, input symbol, top) form `delta`; its entries keyed
 * (configuration, "eps"), which `epsilon_flow` looks up, form `epsDelta`,
 * read as the set of configurations one silent step reaches.  A table
 * written with triple keys only has `epsDelta == map[]`.
 * The initial stack is an explicit argument of `Run`.
 */
module Pda {
  import opened Wrappers
  import opened EpsClosure

  type State = string
  type Symbol = string
  type StackSym = Option<string>

  /** The top the run uses when the stack is empty. */
  const EmptyTop: StackSym := Some("ε")

  datatype Config = Config(state: State, stack: seq<StackSym>)

  type Table = map<(State, Symbol, StackSym), set<(State, StackSym)>>

  datatype PDA = PDA(
    states: set<State>,
    inputAlphabet: set<Symbol>,
    stackAlphabet: set<StackSym>,
    delta: Table,
    epsDelta: map<Config, set<Config>>,
    initial: State,
    final: set<State>)

  /**
   * The last element of the stack, or "ε" when the stack is empty.  An empty
   * stack and a stack whose top is literally "ε" are the only two that look
   * alike.
   */
  function EffectiveTop(stack: seq<StackSym>): (r: StackSym)
    ensures stack != [] ==> r == stack[|stack| - 1]
    ensures r == EmptyTop <==> stack == [] || stack[|stack| - 1] == EmptyTop
  {
    if stack != [] then stack[|stack| - 1] else EmptyTop
  }

  /** The (next state, push symbol) outcomes for `c` on `a`; none when the key is missing. */
  function Outcomes(delta: Table, c: Config, a: Symbol): set<(State, StackSym)>
  {
    var key := (c.state, a, EffectiveTop(c.stack));
    if key in delta then delta[key] else {}
  }

  /** The configurations that the outcomes `os` produce from `c`. */
  function Branch(c: Config, os: set<(State, StackSym)>): set<Config>
  {
    set o | o in os :: Config(o.0, c.stack + [o.1])
  }

  /** The successors of one configuration on `a` (see `SuccessorShape`). */
  function Successors(delta: Table, c: Config, a: Symbol): set<Config>
  {
    Branch(c, Outcomes(delta, c, a))
  }

  /**
   * One input symbol applied to every configuration of `cs`: the union of
   * their successors.
   */
  function Step(delta: Table, cs: set<Config>, a: Symbol): set<Config>
  {
    set c, d | c in cs && d in Successors(delta, c, a) :: d
  }

  /** The states of a set of configurations. */
  function States(cs: set<Config>): set<State>
  {
    set c | c in cs :: c.state
  }

  /** Every closure the run computes while reading `w` from `cs` stops. */
  ghost predicate Defined(m: PDA, cs: set<Config>, w: seq<Symbol>)
    decreases |w|
  {
    w == [] ||
    (var next := Step(m.delta, cs, w[0]);
     Terminates(m.epsDelta, next) && Defined(m, Closure(m.epsDelta, next), w[1..]))
  }

  /** The configurations after reading `w` from `cs`. */
  ghost function Reach(m: PDA, cs: set<Config>, w: seq<Symbol>): set<Config>
    requires Defined(m, cs, w)
    decreases |w|
  {
    if w == [] then cs
    else Reach(m, Closure(m.epsDelta, Step(m.delta, cs, w[0])), w[1..])
  }

  /**
   * `PDA.run`: start from the initial state with the given stack; for each
   * symbol, branch every configuration on every outcome of
   * (state, symbol, effective top), each branch with its own copy of the
   * stack plus the push symbol, then close the union under silent steps.
   * The result is the set of accepting states among the last states.
   */
  method Run(m: PDA, stack: seq<StackSym>, input: seq<Symbol>) returns (r: set<State>)
    requires Defined(m, {Config(m.initial, stack)}, input)
    ensures r == States(Reach(m, {Config(m.initial, stack)}, input)) * m.final
    ensures r <= m.final
  {
    var current := {Config(m.initial, stack)};
    for i := 0 to |input|
      invariant Defined(m, current, input[i..])
      invariant Reach(m, current, input[i..]) == Reach(m, {Config(m.initial, stack)}, input)
    {
      assert input[i..][0] == input[i] && input[i..][1..] == input[i + 1..];
      var a := input[i];
      var newConfigs: set<Config> := {};
      var pending := current;
      while pending != {}
        invariant pending <= current
        invariant newConfigs == Step(m.delta, current - pending, a)
        decreases pending
      {
        var c :| c in pending;
        var top := EffectiveTop(c.stack);
        var pairs := if (c.state, a, top) in m.delta then m.delta[(c.state, a, top)] else {};
        var todo := pairs;
        while todo != {}
          invariant todo <= pairs
          invariant newConfigs == Step(m.delta, current - pending, a) + Branch(c, pairs - todo)
          decreases todo
        {
          var o :| o in todo;
          var newStack := c.stack + [o.1];
          BranchAdd(c, pairs - todo, o);
          assert pairs - (todo - {o}) == (pairs - todo) + {o};
          newConfigs := newConfigs + {Config(o.0, newStack)};
          todo := todo - {o};
        }
        StepAdd(m.delta, current - pending, c, a);
        assert current - (pending - {c}) == (current - pending) + {c};
        pending := pending - {c};
      }
      assert current - pending == current;
      current := EpsilonClosure(m.epsDelta, newConfigs);
    }
    r := States(current) * m.final;
  }

  // ---------------------------------------------------------------------
  // Lemmas

  /**
   * The successors of one configuration: every one keeps the whole stack of
   * its predecessor (nothing is popped), has exactly one more element, and
   * comes from an outcome of the table; each outcome gives one successor,
   * and a missing key gives none.
   */
  lemma SuccessorShape(delta: Table, c: Config, a: Symbol, d: Config)
    ensures d in Successors(delta, c, a) <==>
            |d.stack| == |c.stack| + 1 && d.stack[..|c.stack|] == c.stack &&
            (d.state, d.stack[|c.stack|]) in Outcomes(delta, c, a)
    ensures (c.state, a, EffectiveTop(c.stack)) !in delta ==> Successors(delta, c, a) == {}
  {
    if |d.stack| == |c.stack| + 1 && d.stack[..|c.stack|] == c.stack {
      assert d.stack == c.stack + [d.stack[|c.stack|]];
    }
  }

  /**
   * The outcomes depend on the stack only through its effective top; the
   * lookup defaults to no outcome when the key is missing.
   */
  lemma OutcomesByTop(delta: Table, c: Config, d: Config, a: Symbol)
    requires c.state == d.state && EffectiveTop(c.stack) == EffectiveTop(d.stack)
    ensures Outcomes(delta, c, a) == Outcomes(delta, d, a)
    ensures (c.state, a, EffectiveTop(c.stack)) !in delta ==> Outcomes(delta, c, a) == {}
    ensures (c.state, a, EffectiveTop(c.stack)) in delta ==>
              Outcomes(delta, c, a) == delta[(c.state, a, EffectiveTop(c.stack))]
  {
  }

  lemma BranchAdd(c: Config, os: set<(State, StackSym)>, o: (State, StackSym))
    ensures Branch(c, os + {o}) == Branch(c, os) + {Config(o.0, c.stack + [o.1])}
  {
  }

  /** One step holds the successors of every configuration and nothing else. */
  lemma StepUnion(delta: Table, cs: set<Config>, a: Symbol)
    ensures forall c :: c in cs ==> Successors(delta, c, a) <= Step(delta, cs, a)
    ensures forall d :: d in Step(delta, cs, a) ==> exists c :: c in cs && d in Successors(delta, c, a)
    ensures cs == {} ==> Step(delta, cs, a) == {}
  {
  }

  /** Adding one configuration adds its successors. */
  lemma StepAdd(delta: Table, cs: set<Config>, c: Config, a: Symbol)
    ensures Step(delta, cs + {c}, a) == Step(delta, cs, a) + Successors(delta, c, a)
  {
    var lhs := Step(delta, cs + {c}, a);
    forall d | d in Successors(delta, c, a) ensures d in lhs {
      assert c in cs + {c};
    }
  }

  /** With no input the result is `{initial} ∩ final`: the start set is not closed. */
  lemma RunEmpty(m: PDA, stack: seq<StackSym>)
    ensures Defined(m, {Config(m.initial, stack)}, [])
    ensures States(Reach(m, {Config(m.initial, stack)}, [])) * m.final == {m.initial} * m.final
  {
    assert States({Config(m.initial, stack)}) == {m.initial} by {
      assert Config(m.initial, stack).state == m.initial;
    }
  }

  /** An empty configuration set stays empty whatever is read. */
  lemma {:induction false} EmptyStaysEmpty(m: PDA, w: seq<Symbol>)
    ensures Defined(m, {}, w)
    ensures Reach(m, {}, w) == {}
    decreases |w|
  {
    if w != [] {
      assert Step(m.delta, {}, w[0]) == {};
      assert FlowN(m.epsDelta, {}, 0) == {};
      ClosureIsUpto(m.epsDelta, {}, 0);
      EmptyStaysEmpty(m, w[1..]);
    }
  }

  /**
   * With a table keyed by triples only, `epsilon_flow` finds nothing, so
   * every closure returns its argument and the run is plain stepping.
   */
  lemma {:induction false} TripleKeysOnly(m: PDA, cs: set<Config>, w: seq<Symbol>)
    requires m.epsDelta == map[]
    ensures Defined(m, cs, w)
    ensures w != [] ==> Defined(m, Step(m.delta, cs, w[0]), w[1..])
    ensures w != [] ==> Reach(m, cs, w) == Reach(m, Step(m.delta, cs, w[0]), w[1..])
    decreases |w|
  {
    if w != [] {
      ClosureWithoutEps(m.epsDelta, Step(m.delta, cs, w[0]));
      TripleKeysOnly(m, Step(m.delta, cs, w[0]), w[1..]);
    }
  }

  /**
   * With a table keyed by triples only, after reading `w` every
   * configuration's stack is the initial stack followed by exactly `|w|`
   * pushed symbols: nothing is ever popped.
   */
  lemma {:induction false} StacksOnlyGrow(m: PDA, cs: set<Config>, s: seq<StackSym>, w: seq<Symbol>)
    requires m.epsDelta == map[]
    requires forall c :: c in cs ==> c.stack == s
    ensures Defined(m, cs, w)
    ensures forall d :: d in Reach(m, cs, w) ==> |d.stack| == |s| + |w| && d.stack[..|s|] == s
    decreases |w|
  {
    TripleKeysOnly(m, cs, w);
    if w != [] {
      GrowFrom(m, Step(m.delta, cs, w[0]), s, w[1..], 1);
    }
  }

  lemma {:induction false} GrowFrom(m: PDA, cs: set<Config>, s: seq<StackSym>, w: seq<Symbol>, n: nat)
    requires m.epsDelta == map[]
    requires forall c :: c in cs ==> |c.stack| == |s| + n && c.stack[..|s|] == s
    ensures Defined(m, cs, w)
    ensures forall d :: d in Reach(m, cs, w) ==> |d.stack| == |s| + n + |w| && d.stack[..|s|] == s
    decreases |w|
  {
    TripleKeysOnly(m, cs, w);
    if w != [] {
      var next := Step(m.delta, cs, w[0]);
      forall d | d in next ensures |d.stack| == |s| + n + 1 && d.stack[..|s|] == s {
        var c :| c in cs && d in Successors(m.delta, c, w[0]);
        assert d.stack[..|c.stack|] == c.stack;
        assert d.stack[..|s|] == c.stack[..|s|];
      }
      GrowFrom(m, next, s, w[1..], n + 1);
    }
  }

  /**
   * The "ε" top is matched only by the empty stack and by a stack whose top
   * is literally "ε": on any other stack an entry keyed with top "ε" is
   * never consulted.
   */
  lemma EmptyTopOnlyWhenEmpty(delta: Table, c: Config, a: Symbol)
    requires c.stack != [] && c.stack[|c.stack| - 1] != EmptyTop
    ensures Outcomes(delta, c, a) == Outcomes(delta - {(c.state, a, EmptyTop)}, c, a)
  {
  }

  /**
   * Two branches of one configuration share their predecessor's stack and
   * differ at most in the pushed symbol; the predecessor itself is not
   * changed by producing them.
   */
  lemma BranchesAreCopies(delta: Table, c: Config, a: Symbol, d1: Config, d2: Config)
    requires d1 in Successors(delta, c, a) && d2 in Successors(delta, c, a)
    ensures d1.stack[..|c.stack|] == d2.stack[..|c.stack|] == c.stack
    ensures d1.stack == d2.stack <==> d1.stack[|c.stack|] == d2.stack[|c.stack|]
  {
    assert d1.stack == d1.stack[..|c.stack|] + [d1.stack[|c.stack|]];
    assert d2.stack == d2.stack[..|c.stack|] + [d2.stack[|c.stack|]];
  }
}
