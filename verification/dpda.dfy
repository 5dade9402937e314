/**
 * Deterministic pushdown automata (`DPDA` in dpda.py).
 *
 * The machine owns a stack (a list whose top is its last element) that
 * `Run` pops and pushes in place and never restores.  The table maps
 * (state, input symbol, popped top) to (next state, symbol to push), where
 * the symbol to push may be `None`; only a truthy symbol is pushed.
 */
module Dpda {
  import opened Wrappers

  type State = string
  type Symbol = string
  type StackSym = string

  type Table = map<(State, Symbol, StackSym), (State, Option<StackSym>)>

  /** How a run ends: it ran out of stack with input left, or read everything. */
  datatype Outcome = StackExhausted | Finished(state: State, stack: seq<StackSym>)

  /** Python truthiness of the symbol to push: `None` and `''` are falsy. */
  predicate Truthy(p: Option<StackSym>): (b: bool)
    ensures !b <==> p == None || p == Some("")
  {
    p.Some? && p.value != ""
  }

  /** The stack after popping its top and pushing `p` if it is truthy. */
  function Replace(stack: seq<StackSym>, p: Option<StackSym>): (r: seq<StackSym>)
    requires stack != []
    ensures |r| == if Truthy(p) then |stack| else |stack| - 1
    ensures r[..|stack| - 1] == stack[..|stack| - 1]
    ensures Truthy(p) ==> r[|r| - 1] == p.value
  {
    stack[..|stack| - 1] + (if Truthy(p) then [p.value] else [])
  }

  /** Every table lookup made while reading `w` finds a key. */
  predicate Defined(delta: Table, q: State, stack: seq<StackSym>, w: seq<Symbol>)
    decreases |w|
  {
    w == [] || stack == [] ||
    (var key := (q, w[0], stack[|stack| - 1]);
     key in delta && Defined(delta, delta[key].0, Replace(stack, delta[key].1), w[1..]))
  }

  /**
   * The run from state `q` with stack `stack` on input `w`.  Each symbol
   * pops one element and pushes at most one, so a finished run's stack is
   * no longer than the initial one and at most `|w|` shorter; the stack can
   * only run out while input remains if the input is longer than the stack.
   */
  function Exec(delta: Table, q: State, stack: seq<StackSym>, w: seq<Symbol>): (r: Outcome)
    requires Defined(delta, q, stack, w)
    ensures r.Finished? ==> |stack| - |w| <= |r.stack| <= |stack|
    ensures r.StackExhausted? ==> w != [] && |stack| < |w|
    decreases |w|
  {
    if w == [] then Finished(q, stack)
    else if stack == [] then StackExhausted
    else
      var (next, push) := delta[(q, w[0], stack[|stack| - 1])];
      Exec(delta, next, Replace(stack, push), w[1..])
  }

  /** The verdict: the run finished in an accepting state. */
  predicate Accepted(r: Outcome, final: set<State>)
  {
    r.Finished? && r.state in final
  }

  /** What is left on the stack: nothing once it ran out. */
  function Leftover(r: Outcome): seq<StackSym>
  {
    if r.Finished? then r.stack else []
  }

  class DPDA {
    const states: set<State>
    const inputAlphabet: set<Symbol>
    const stackAlphabet: set<StackSym>
    const delta: Table
    const initial: State
    const final: set<State>
    var stack: seq<StackSym>

    constructor (states: set<State>, inputAlphabet: set<Symbol>, stackAlphabet: set<StackSym>,
                 delta: Table, initial: State, final: set<State>, stack: seq<StackSym>)
      ensures this.states == states && this.inputAlphabet == inputAlphabet
      ensures this.stackAlphabet == stackAlphabet && this.delta == delta
      ensures this.initial == initial && this.final == final && this.stack == stack
    {
      this.states := states;
      this.inputAlphabet := inputAlphabet;
      this.stackAlphabet := stackAlphabet;
      this.delta := delta;
      this.initial := initial;
      this.final := final;
      this.stack := stack;
    }

    /**
     * `DPDA.run`: for each symbol, reject if the stack is empty, otherwise
     * pop the top, look up (state, symbol, top), move, and push the returned
     * symbol if truthy.  Accept iff the last state is accepting.  The stack
     * is left as the run leaves it, so the next run starts from there.
     */
    method Run(input: seq<Symbol>) returns (accepted: bool)
      requires Defined(delta, initial, stack, input)
      modifies this
      ensures accepted <==> Accepted(Exec(delta, initial, old(stack), input), final)
      ensures stack == Leftover(Exec(delta, initial, old(stack), input))
    {
      var current := initial;
      for i := 0 to |input|
        invariant Defined(delta, current, stack, input[i..])
        invariant Exec(delta, current, stack, input[i..]) == Exec(delta, initial, old(stack), input)
      {
        assert input[i..][0] == input[i] && input[i..][1..] == input[i + 1..];
        if stack != [] {
          ghost var before := stack;
          var top := stack[|stack| - 1];
          stack := stack[..|stack| - 1];
          var (newState, newTop) := delta[(current, input[i], top)];
          current := newState;
          if Truthy(newTop) {
            stack := stack + [newTop.value];
          }
          assert stack == Replace(before, newTop);
        } else {
          return false;
        }
      }
      accepted := current in final;
    }
  }

  // ---------------------------------------------------------------------
  // Lemmas

  /** With no input the run accepts iff the initial state does, and the stack is untouched. */
  lemma ExecEmpty(delta: Table, q: State, stack: seq<StackSym>)
    ensures Defined(delta, q, stack, [])
    ensures Exec(delta, q, stack, []) == Finished(q, stack)
  {
  }

  /** An empty stack with input left rejects at once, without any lookup. */
  lemma ExhaustedAtOnce(delta: Table, q: State, w: seq<Symbol>, final: set<State>)
    requires w != []
    ensures Defined(delta, q, [], w)
    ensures !Accepted(Exec(delta, q, [], w), final)
  {
  }

  /**
   * One symbol pops exactly one element and pushes one exactly when the
   * returned symbol is truthy (`None` and `''` push nothing).
   */
  lemma StepStack(delta: Table, q: State, stack: seq<StackSym>, a: Symbol)
    requires stack != []
    requires (q, a, stack[|stack| - 1]) in delta
    ensures Defined(delta, q, stack, [a])
    ensures var (next, push) := delta[(q, a, stack[|stack| - 1])];
            Exec(delta, q, stack, [a]) ==
            Finished(next, if Truthy(push) then stack[..|stack| - 1] + [push.value] else stack[..|stack| - 1])
  {
    assert [a][1..] == [];
  }

  /** The table never returns a truthy symbol to push. */
  ghost predicate NeverPushes(delta: Table)
  {
    forall k :: k in delta ==> !Truthy(delta[k].1)
  }

  /**
   * When nothing is ever pushed, each symbol shrinks the stack by one: the
   * run runs out of stack exactly when the input is longer than the stack,
   * and otherwise ends with `|stack| - |w|` elements.
   */
  lemma {:induction false} NoPushShrinks(delta: Table, q: State, stack: seq<StackSym>, w: seq<Symbol>)
    requires NeverPushes(delta)
    requires Defined(delta, q, stack, w)
    ensures Exec(delta, q, stack, w).StackExhausted? <==> |stack| < |w|
    ensures Exec(delta, q, stack, w).Finished? ==> |Exec(delta, q, stack, w).stack| == |stack| - |w|
    decreases |w|
  {
    if w != [] && stack != [] {
      var (next, push) := delta[(q, w[0], stack[|stack| - 1])];
      NoPushShrinks(delta, next, Replace(stack, push), w[1..]);
    }
  }

  /**
   * Reading `u + v` is reading `u` and then, if the stack lasted, reading
   * `v` from the state and stack `u` left behind.
   */
  lemma {:induction false} ExecAppend(delta: Table, q: State, stack: seq<StackSym>, u: seq<Symbol>, v: seq<Symbol>)
    requires Defined(delta, q, stack, u + v)
    ensures Defined(delta, q, stack, u)
    ensures Exec(delta, q, stack, u).StackExhausted? ==> Exec(delta, q, stack, u + v).StackExhausted?
    ensures Exec(delta, q, stack, u).Finished? ==>
              var mid := Exec(delta, q, stack, u);
              Defined(delta, mid.state, mid.stack, v) &&
              Exec(delta, q, stack, u + v) == Exec(delta, mid.state, mid.stack, v)
    decreases |u|
  {
    if u == [] {
      assert u + v == v;
    } else {
      assert (u + v)[0] == u[0] && (u + v)[1..] == u[1..] + v;
      if stack != [] {
        var (next, push) := delta[(q, u[0], stack[|stack| - 1])];
        ExecAppend(delta, next, Replace(stack, push), u[1..], v);
      }
    }
  }

  /**
   * Acceptance looks only at the last state: when the last symbol pops the
   * only element left and pushes nothing, the run still finishes (with an
   * empty stack) and accepts exactly when its last state is accepting.
   */
  lemma EmptiedOnLastSymbol(delta: Table, q: State, stack: seq<StackSym>, u: seq<Symbol>, a: Symbol,
                            p: State, x: StackSym, final: set<State>)
    requires Defined(delta, q, stack, u + [a]) && Defined(delta, q, stack, u)
    requires Exec(delta, q, stack, u) == Finished(p, [x])
    requires (p, a, x) in delta && !Truthy(delta[(p, a, x)].1)
    ensures Exec(delta, q, stack, u + [a]) == Finished(delta[(p, a, x)].0, [])
    ensures Accepted(Exec(delta, q, stack, u + [a]), final) <==> delta[(p, a, x)].0 in final
  {
    ExecAppend(delta, q, stack, u, [a]);
    StepStack(delta, p, [x], a);
  }

  /**
   * The stack is not restored between runs: the same machine and input,
   * rerun on what the first run left, can be rejected.
   */
  lemma LeftoverStackMatters()
    ensures var delta: Table := map[("q", "a", "Z") := ("q", None)];
            var first := Exec(delta, "q", ["Z"], ["a"]);
            Accepted(first, {"q"}) && Leftover(first) == [] &&
            !Accepted(Exec(delta, "q", Leftover(first), ["a"]), {"q"})
  {
    var delta: Table := map[("q", "a", "Z") := ("q", None)];
    StepStack(delta, "q", ["Z"], "a");
  }
}
