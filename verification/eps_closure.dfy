/**
 * Epsilon flow and epsilon closure, as written in `NFA.epsilon_flow` /
 * `NFA.epsilon_closure` and repeated in `PDA.epsilon_flow` /
 * `PDA.epsilon_closure`.  The nodes are states for an NFA and
 * (state, stack) configurations for a PDA, so the theory is generic.
 *
 * The epsilon entries of a transition table are given as a map from a node
 * to the set of nodes one silent arrow reaches; a node without an entry has
 * no silent arrow.
 */
module EpsClosure {

  /** Nodes reached from `s` by following exactly one silent arrow. */
  function Flow<T(==)>(eps: map<T, set<T>>, s: set<T>): set<T>
  {
    set p, q | p in s && p in eps && q in eps[p] :: q
  }

  /** Nodes reached from `s` by following exactly `n` silent arrows. */
  function FlowN<T(==)>(eps: map<T, set<T>>, s: set<T>, n: nat): set<T>
  {
    if n == 0 then s else Flow(eps, FlowN(eps, s, n - 1))
  }

  /** Union of `FlowN(eps, s, i)` for `i < n`. */
  function Upto<T(==)>(eps: map<T, set<T>>, s: set<T>, n: nat): set<T>
  {
    if n == 0 then {} else Upto(eps, s, n - 1) + FlowN(eps, s, n - 1)
  }

  /**
   * The closure loop stops exactly when some iterate of the flow is empty:
   * it keeps no record of the nodes already seen, so it runs forever as
   * soon as a silent cycle is reachable (see `CycleDiverges`).
   */
  ghost predicate Terminates<T>(eps: map<T, set<T>>, s: set<T>)
  {
    exists k: nat :: FlowN(eps, s, k) == {}
  }

  /** The set the closure loop returns when it stops. */
  ghost function Closure<T>(eps: map<T, set<T>>, s: set<T>): set<T>
    requires Terminates(eps, s)
  {
    var k: nat :| FlowN(eps, s, k) == {};
    Upto(eps, s, k)
  }

  /** A chain of silent arrows through the listed nodes. */
  ghost predicate IsEpsPath<T>(eps: map<T, set<T>>, path: seq<T>)
  {
    |path| >= 1 &&
    forall i :: 0 <= i < |path| - 1 ==> path[i] in eps && path[i + 1] in eps[path[i]]
  }

  // ---------------------------------------------------------------------
  // The loop, as a method

  /**
   * The closure loop: start from `states`, add the one-step flow of the
   * newest nodes until that flow is empty.  The result contains `states`
   * and is closed under one more silent step.
   */
  method EpsilonClosure<T(==)>(eps: map<T, set<T>>, states: set<T>) returns (r: set<T>)
    requires Terminates(eps, states)
    ensures r == Closure(eps, states)
    ensures states <= r
    ensures Flow(eps, r) <= r
  {
    ghost var k: nat :| FlowN(eps, states, k) == {};
    r := states;
    var newStates := Flow(eps, states);
    ghost var i: nat := 1;
    while newStates != {}
      invariant r == Upto(eps, states, i)
      invariant newStates == FlowN(eps, states, i)
      invariant newStates != {} ==> i < k
      decreases k - i
    {
      r := r + newStates;
      newStates := Flow(eps, newStates);
      i := i + 1;
      if newStates != {} && k <= i {
        FlowNStaysEmpty(eps, states, k, i);
        assert false;
      }
    }
    ClosureIsUpto(eps, states, i);
    ClosureContains(eps, states);
    ClosureClosed(eps, states);
  }

  // ---------------------------------------------------------------------
  // Basic facts about the flow

  lemma FlowEmpty<T>(eps: map<T, set<T>>)
    ensures Flow(eps, {}) == {}
  {
  }

  lemma FlowMono<T>(eps: map<T, set<T>>, a: set<T>, b: set<T>)
    requires a <= b
    ensures Flow(eps, a) <= Flow(eps, b)
  {
  }

  /** One silent step distributes over union. */
  lemma FlowUnion<T>(eps: map<T, set<T>>, a: set<T>, b: set<T>)
    ensures Flow(eps, a + b) == Flow(eps, a) + Flow(eps, b)
  {
  }

  lemma {:induction false} FlowNMono<T>(eps: map<T, set<T>>, a: set<T>, b: set<T>, n: nat)
    requires a <= b
    ensures FlowN(eps, a, n) <= FlowN(eps, b, n)
  {
    if n > 0 {
      FlowNMono(eps, a, b, n - 1);
      FlowMono(eps, FlowN(eps, a, n - 1), FlowN(eps, b, n - 1));
    }
  }

  lemma {:induction false} FlowNUnion<T>(eps: map<T, set<T>>, a: set<T>, b: set<T>, n: nat)
    ensures FlowN(eps, a + b, n) == FlowN(eps, a, n) + FlowN(eps, b, n)
  {
    if n > 0 {
      FlowNUnion(eps, a, b, n - 1);
      FlowUnion(eps, FlowN(eps, a, n - 1), FlowN(eps, b, n - 1));
    }
  }

  /** Following `m` then `n` silent arrows is following `m + n`. */
  lemma {:induction false} FlowNAdd<T>(eps: map<T, set<T>>, s: set<T>, m: nat, n: nat)
    ensures FlowN(eps, FlowN(eps, s, m), n) == FlowN(eps, s, m + n)
  {
    if n > 0 {
      FlowNAdd(eps, s, m, n - 1);
    }
  }

  /** Once an iterate of the flow is empty, every later one is. */
  lemma {:induction false} FlowNStaysEmpty<T>(eps: map<T, set<T>>, s: set<T>, k: nat, j: nat)
    requires FlowN(eps, s, k) == {}
    requires k <= j
    ensures FlowN(eps, s, j) == {}
  {
    if j > k {
      FlowNStaysEmpty(eps, s, k, j - 1);
      FlowEmpty(eps);
    }
  }

  lemma {:induction false} UptoMember<T>(eps: map<T, set<T>>, s: set<T>, n: nat, q: T)
    ensures q in Upto(eps, s, n) <==> exists i: nat :: i < n && q in FlowN(eps, s, i)
  {
    if n > 0 {
      var m: nat := n - 1;
      UptoMember(eps, s, m, q);
      assert Upto(eps, s, n) == Upto(eps, s, m) + FlowN(eps, s, m);
      if q in FlowN(eps, s, m) {
        assert m < n && q in FlowN(eps, s, m);
      }
      if exists i: nat :: i < n && q in FlowN(eps, s, i) {
        var i: nat :| i < n && q in FlowN(eps, s, i);
        if i < m {
          assert i < m && q in FlowN(eps, s, i);
          assert exists j: nat :: j < m && q in FlowN(eps, s, j);
          assert q in Upto(eps, s, m);
        }
      }
    }
  }

  lemma {:induction false} UptoStable<T>(eps: map<T, set<T>>, s: set<T>, k: nat, j: nat)
    requires FlowN(eps, s, k) == {}
    requires k <= j
    ensures Upto(eps, s, j) == Upto(eps, s, k)
  {
    if j > k {
      UptoStable(eps, s, k, j - 1);
      FlowNStaysEmpty(eps, s, k, j - 1);
    }
  }

  /** The closure does not depend on which empty iterate the loop stops at. */
  lemma ClosureIsUpto<T>(eps: map<T, set<T>>, s: set<T>, j: nat)
    requires FlowN(eps, s, j) == {}
    ensures Terminates(eps, s)
    ensures Closure(eps, s) == Upto(eps, s, j)
  {
    var k: nat :| FlowN(eps, s, k) == {} && Closure(eps, s) == Upto(eps, s, k);
    if k <= j {
      UptoStable(eps, s, k, j);
    } else {
      UptoStable(eps, s, j, k);
    }
  }

  // ---------------------------------------------------------------------
  // What the closure is

  /** The closure contains the set it started from. */
  lemma ClosureContains<T>(eps: map<T, set<T>>, s: set<T>)
    requires Terminates(eps, s)
    ensures s <= Closure(eps, s)
  {
    var k: nat :| FlowN(eps, s, k) == {} && Closure(eps, s) == Upto(eps, s, k);
    forall q | q in s
      ensures q in Closure(eps, s)
    {
      assert q in FlowN(eps, s, 0);
      assert 0 < k;
      assert exists i: nat :: i < k && q in FlowN(eps, s, i);
      UptoMember(eps, s, k, q);
    }
  }

  /** One more silent step from the closure leads nowhere new. */
  lemma ClosureClosed<T>(eps: map<T, set<T>>, s: set<T>)
    requires Terminates(eps, s)
    ensures Flow(eps, Closure(eps, s)) <= Closure(eps, s)
  {
    var k: nat :| FlowN(eps, s, k) == {} && Closure(eps, s) == Upto(eps, s, k);
    FlowUpto(eps, s, k);
    assert Upto(eps, s, k + 1) == Upto(eps, s, k);
  }

  lemma {:induction false} FlowUpto<T>(eps: map<T, set<T>>, s: set<T>, n: nat)
    ensures Flow(eps, Upto(eps, s, n)) <= Upto(eps, s, n + 1)
  {
    if n > 0 {
      FlowUpto(eps, s, n - 1);
      FlowUnion(eps, Upto(eps, s, n - 1), FlowN(eps, s, n - 1));
    } else {
      FlowEmpty(eps);
    }
  }

  /**
   * `q` is `n` silent steps away from `s` exactly when a chain of silent
   * arrows of `n` steps leads from a member of `s` to `q`.
   */
  lemma {:induction false} FlowNPath<T>(eps: map<T, set<T>>, s: set<T>, n: nat, q: T)
    ensures q in FlowN(eps, s, n) <==>
            exists path :: IsEpsPath(eps, path) && |path| == n + 1 && path[0] in s && path[n] == q
  {
    if n == 0 {
      if q in s {
        assert IsEpsPath(eps, [q]);
      }
    } else {
      if q in FlowN(eps, s, n) {
        var p :| p in FlowN(eps, s, n - 1) && p in eps && q in eps[p];
        FlowNPath(eps, s, n - 1, p);
        var path :| IsEpsPath(eps, path) && |path| == n && path[0] in s && path[n - 1] == p;
        var longer := path + [q];
        assert IsEpsPath(eps, longer);
      }
      if exists path :: IsEpsPath(eps, path) && |path| == n + 1 && path[0] in s && path[n] == q {
        var path :| IsEpsPath(eps, path) && |path| == n + 1 && path[0] in s && path[n] == q;
        var shorter := path[..n];
        assert IsEpsPath(eps, shorter);
        FlowNPath(eps, s, n - 1, path[n - 1]);
      }
    }
  }

  /**
   * Every node of the closure is reached from `s` by a finite chain of
   * silent arrows, and every node so reached is in the closure.
   */
  lemma ClosureIsReachable<T>(eps: map<T, set<T>>, s: set<T>, q: T)
    requires Terminates(eps, s)
    ensures q in Closure(eps, s) <==>
            exists path :: IsEpsPath(eps, path) && path[0] in s && path[|path| - 1] == q
  {
    var k: nat :| FlowN(eps, s, k) == {} && Closure(eps, s) == Upto(eps, s, k);
    UptoMember(eps, s, k, q);
    if q in Closure(eps, s) {
      var i: nat :| i < k && q in FlowN(eps, s, i);
      FlowNPath(eps, s, i, q);
    }
    if exists path :: IsEpsPath(eps, path) && path[0] in s && path[|path| - 1] == q {
      var path :| IsEpsPath(eps, path) && path[0] in s && path[|path| - 1] == q;
      var n := |path| - 1;
      FlowNPath(eps, s, n, q);
      if k <= n {
        FlowNStaysEmpty(eps, s, k, n);
      }
    }
  }

  /** Closing a set that is already closed under the flow returns it unchanged. */
  lemma ClosureOfClosed<T>(eps: map<T, set<T>>, t: set<T>)
    requires Terminates(eps, t)
    requires Flow(eps, t) <= t
    ensures Closure(eps, t) == t
  {
    var k: nat :| FlowN(eps, t, k) == {} && Closure(eps, t) == Upto(eps, t, k);
    ClosedIterates(eps, t, k);
    ClosureContains(eps, t);
  }

  lemma {:induction false} ClosedIterates<T>(eps: map<T, set<T>>, t: set<T>, n: nat)
    requires Flow(eps, t) <= t
    ensures Upto(eps, t, n) <= t
    ensures FlowN(eps, t, n) <= t
  {
    if n > 0 {
      ClosedIterates(eps, t, n - 1);
      FlowMono(eps, FlowN(eps, t, n - 1), t);
    }
  }

  /** Closing twice is closing once; the second loop stops too. */
  lemma ClosureIdempotent<T>(eps: map<T, set<T>>, s: set<T>)
    requires Terminates(eps, s)
    ensures Terminates(eps, Closure(eps, s))
    ensures Closure(eps, Closure(eps, s)) == Closure(eps, s)
  {
    var k: nat :| FlowN(eps, s, k) == {} && Closure(eps, s) == Upto(eps, s, k);
    UptoFlowsOut(eps, s, k, k);
    ClosureClosed(eps, s);
    ClosureOfClosed(eps, Closure(eps, s));
  }

  /** `k` steps after the first `n` levels lie `k` levels further down. */
  lemma {:induction false} UptoFlowsOut<T>(eps: map<T, set<T>>, s: set<T>, n: nat, k: nat)
    requires FlowN(eps, s, k) == {}
    requires n <= k
    ensures FlowN(eps, Upto(eps, s, n), k) == {}
  {
    if n == 0 {
      FlowNStaysEmpty(eps, {}, 0, k);
    } else {
      UptoFlowsOut(eps, s, n - 1, k);
      FlowNUnion(eps, Upto(eps, s, n - 1), FlowN(eps, s, n - 1), k);
      FlowNAdd(eps, s, n - 1, k);
      FlowNStaysEmpty(eps, s, k, n - 1 + k);
    }
  }

  /**
   * A silent cycle reachable from `s` makes the closure loop run forever:
   * if every node of the non-empty set `x` has a silent arrow back into `x`,
   * and some node of `x` lies `j` silent steps from `s`, no iterate of the
   * flow of `s` is ever empty.
   */
  lemma CycleDiverges<T>(eps: map<T, set<T>>, s: set<T>, x: set<T>, j: nat)
    requires forall p :: p in x ==> p in eps && eps[p] * x != {}
    requires FlowN(eps, s, j) * x != {}
    ensures !Terminates(eps, s)
  {
    if Terminates(eps, s) {
      var k: nat :| FlowN(eps, s, k) == {};
      CycleStaysReachable(eps, s, x, j, if k <= j then 0 else k - j);
      FlowNStaysEmpty(eps, s, k, if k <= j then j else k);
      assert false;
    }
  }

  lemma {:induction false} CycleStaysReachable<T>(eps: map<T, set<T>>, s: set<T>, x: set<T>, j: nat, n: nat)
    requires forall p :: p in x ==> p in eps && eps[p] * x != {}
    requires FlowN(eps, s, j) * x != {}
    ensures FlowN(eps, s, j + n) * x != {}
  {
    if n > 0 {
      CycleStaysReachable(eps, s, x, j, n - 1);
      var p :| p in FlowN(eps, s, j + n - 1) * x;
      var q :| q in eps[p] * x;
      assert q in FlowN(eps, s, j + n);
    }
  }

  /** With no silent arrows at all, the loop stops at once and adds nothing. */
  lemma ClosureWithoutEps<T>(eps: map<T, set<T>>, s: set<T>)
    requires eps == map[]
    ensures Terminates(eps, s)
    ensures Closure(eps, s) == s
  {
    assert FlowN(eps, s, 1) == {};
    ClosureIsUpto(eps, s, 1);
  }
}
