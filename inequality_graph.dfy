/** Model of the nonlinear inequality factor graph
    (NonlinearInequalityFactorGraph): a sequence of inequality constraints,
    each with a dual key. A constraint's unwhitened error at the current
    values and its linearization are computations outside this model, so they
    are passed in as functions. Errors are only compared, so they are reals. */
module InequalityGraph {
  import opened DecisionTree

  /** A linear inequality: a Jacobian factor tagged with its dual key. */
  datatype LinearInequality<J> = LinearInequality(jacobian: J, dualKey: Key)

  /** The dual values: a vector per key; only which keys exist is consulted. */
  type VectorValues = map<Key, seq<real>>

  function Abs(x: real): real {
    if x < 0.0 then -x else x
  }

  /** A constraint with first error component `e` is satisfied when it is
      primal feasible (`e <= tol`) and, if its dual is present (active), also
      complementary (`|e| <= tol`). */
  predicate Satisfied(e: real, active: bool, tol: real) {
    e <= tol && (active ==> Abs(e) <= tol)
  }

  /** The condition CheckFeasibilityAndComplimentary decides: every constraint satisfied. */
  ghost predicate FeasibleAndComplementary<F, V>(graph: seq<F>, values: V, duals: VectorValues, tol: real,
                                                 unwhitenedError: (F, V) -> seq<real>, dualKey: F -> Key)
    requires forall i :: 0 <= i < |graph| ==> |unwhitenedError(graph[i], values)| > 0
  {
    forall i :: 0 <= i < |graph| ==>
      Satisfied(unwhitenedError(graph[i], values)[0], dualKey(graph[i]) in duals, tol)
  }

  /** The feasibility and complementarity check: fails on the first
      constraint whose error exceeds `tol`, skips the complementarity test of
      constraints whose dual key is absent, and fails on an active constraint
      whose error is not within `tol` of zero. */
  method CheckFeasibilityAndComplimentary<F, V>(graph: seq<F>, values: V, duals: VectorValues, tol: real,
                                                unwhitenedError: (F, V) -> seq<real>, dualKey: F -> Key)
    returns (ok: bool)
    requires forall i :: 0 <= i < |graph| ==> |unwhitenedError(graph[i], values)| > 0
    ensures ok <==> FeasibleAndComplementary(graph, values, duals, tol, unwhitenedError, dualKey)
  {
    for i := 0 to |graph|
      invariant forall j :: 0 <= j < i ==>
        Satisfied(unwhitenedError(graph[j], values)[0], dualKey(graph[j]) in duals, tol)
    {
      var error := unwhitenedError(graph[i], values);
      // primal feasibility: every constraint must be at most tol
      if error[0] > tol {
        return false;
      }
      // complementarity: an active constraint must be within tol of zero
      var key := dualKey(graph[i]);
      if key !in duals {
        continue;
      }
      if Abs(error[0]) > tol {
        return false;
      }
    }
    return true;
  }

  /** A single constraint above `tol` makes the check fail. */
  lemma PrimalViolationFails<F, V>(graph: seq<F>, values: V, duals: VectorValues, tol: real,
                                   unwhitenedError: (F, V) -> seq<real>, dualKey: F -> Key, i: nat)
    requires forall i :: 0 <= i < |graph| ==> |unwhitenedError(graph[i], values)| > 0
    requires i < |graph| && unwhitenedError(graph[i], values)[0] > tol
    ensures !FeasibleAndComplementary(graph, values, duals, tol, unwhitenedError, dualKey)
  {
  }

  /** An inactive constraint (dual key absent) needs only primal feasibility,
      so any error at most `tol`, however negative, is accepted; an active one
      needs its error within `tol` of zero. */
  lemma InactiveNeedsOnlyPrimal(e: real, tol: real)
    ensures Satisfied(e, false, tol) <==> e <= tol
    ensures Satisfied(e, true, tol) <==> -tol <= e <= tol
  {
  }

  /** The empty graph passes the check. */
  lemma EmptyGraphFeasible<F, V>(values: V, duals: VectorValues, tol: real,
                                 unwhitenedError: (F, V) -> seq<real>, dualKey: F -> Key)
    ensures FeasibleAndComplementary([], values, duals, tol, unwhitenedError, dualKey)
  {
  }

  /** Only the first component of each error vector matters. */
  lemma FirstComponentOnly<F, V>(graph: seq<F>, values: V, duals: VectorValues, tol: real,
                                 err1: (F, V) -> seq<real>, err2: (F, V) -> seq<real>, dualKey: F -> Key)
    requires forall i :: 0 <= i < |graph| ==> |err1(graph[i], values)| > 0 && |err2(graph[i], values)| > 0
    requires forall i :: 0 <= i < |graph| ==> err1(graph[i], values)[0] == err2(graph[i], values)[0]
    ensures FeasibleAndComplementary(graph, values, duals, tol, err1, dualKey)
        <==> FeasibleAndComplementary(graph, values, duals, tol, err2, dualKey)
  {
  }

  /** The check over a concatenation is the conjunction of the checks. */
  lemma FeasibleAppend<F, V>(g: seq<F>, h: seq<F>, values: V, duals: VectorValues, tol: real,
                             unwhitenedError: (F, V) -> seq<real>, dualKey: F -> Key)
    requires forall i :: 0 <= i < |g| ==> |unwhitenedError(g[i], values)| > 0
    requires forall i :: 0 <= i < |h| ==> |unwhitenedError(h[i], values)| > 0
    ensures forall i :: 0 <= i < |g + h| ==> |unwhitenedError((g + h)[i], values)| > 0
    ensures FeasibleAndComplementary(g + h, values, duals, tol, unwhitenedError, dualKey)
        <==> FeasibleAndComplementary(g, values, duals, tol, unwhitenedError, dualKey)
             && FeasibleAndComplementary(h, values, duals, tol, unwhitenedError, dualKey)
  {
    var gh := g + h;
    if FeasibleAndComplementary(gh, values, duals, tol, unwhitenedError, dualKey) {
      forall i | 0 <= i < |h|
        ensures Satisfied(unwhitenedError(h[i], values)[0], dualKey(h[i]) in duals, tol)
      {
        assert gh[|g| + i] == h[i];
      }
      forall i | 0 <= i < |g|
        ensures Satisfied(unwhitenedError(g[i], values)[0], dualKey(g[i]) in duals, tol)
      {
        assert gh[i] == g[i];
      }
    }
  }

  /** The verdict does not depend on the order of the constraints. */
  lemma FeasibleUnderPermutation<F, V>(g: seq<F>, h: seq<F>, values: V, duals: VectorValues, tol: real,
                                       unwhitenedError: (F, V) -> seq<real>, dualKey: F -> Key)
    requires multiset(g) == multiset(h)
    requires forall i :: 0 <= i < |g| ==> |unwhitenedError(g[i], values)| > 0
    ensures forall i :: 0 <= i < |h| ==> |unwhitenedError(h[i], values)| > 0
    ensures FeasibleAndComplementary(g, values, duals, tol, unwhitenedError, dualKey)
        <==> FeasibleAndComplementary(h, values, duals, tol, unwhitenedError, dualKey)
  {
    forall j | 0 <= j < |h| ensures exists i :: 0 <= i < |g| && g[i] == h[j] {
      assert h[j] in multiset(h);
      assert h[j] in g;
    }
    if FeasibleAndComplementary(g, values, duals, tol, unwhitenedError, dualKey) {
      forall j | 0 <= j < |h|
        ensures Satisfied(unwhitenedError(h[j], values)[0], dualKey(h[j]) in duals, tol)
      {
        var i :| 0 <= i < |g| && g[i] == h[j];
      }
    }
    if FeasibleAndComplementary(h, values, duals, tol, unwhitenedError, dualKey) {
      forall i | 0 <= i < |g|
        ensures Satisfied(unwhitenedError(g[i], values)[0], dualKey(g[i]) in duals, tol)
      {
        assert g[i] in multiset(g);
        assert g[i] in h;
        var j :| 0 <= j < |h| && h[j] == g[i];
      }
    }
  }

  /** The linearized graph: one linear inequality per factor, in order, each
      tagged with the factor's dual key. */
  function LinearizedGraph<F, V, J>(graph: seq<F>, point: V, linearize: (F, V) -> J, dualKey: F -> Key)
    : (r: seq<LinearInequality<J>>)
    ensures |r| == |graph|
  {
    if graph == [] then []
    else [LinearInequality(linearize(graph[0], point), dualKey(graph[0]))]
         + LinearizedGraph(graph[1..], point, linearize, dualKey)
  }

  /** Linearization as the source does it: a loop appending one linear
      inequality per factor. */
  method Linearize<F, V, J>(graph: seq<F>, point: V, linearize: (F, V) -> J, dualKey: F -> Key)
    returns (linearGraph: seq<LinearInequality<J>>)
    ensures linearGraph == LinearizedGraph(graph, point, linearize, dualKey)
  {
    linearGraph := [];
    for i := 0 to |graph|
      invariant linearGraph + LinearizedGraph(graph[i..], point, linearize, dualKey)
             == LinearizedGraph(graph, point, linearize, dualKey)
    {
      assert graph[i..][1..] == graph[i + 1..];
      var jacobian := linearize(graph[i], point);
      linearGraph := linearGraph + [LinearInequality(jacobian, dualKey(graph[i]))];
    }
    assert graph[|graph|..] == [];
  }

  /** Entry i of the linearized graph is the linearization of factor i with
      its dual key. */
  lemma {:induction false} LinearizedGraphAt<F, V, J>(graph: seq<F>, point: V, linearize: (F, V) -> J,
                                                      dualKey: F -> Key, i: nat)
    requires i < |graph|
    ensures LinearizedGraph(graph, point, linearize, dualKey)[i]
         == LinearInequality(linearize(graph[i], point), dualKey(graph[i]))
  {
    if i > 0 {
      LinearizedGraphAt(graph[1..], point, linearize, dualKey, i - 1);
    }
  }

  /** Linearizing a concatenation concatenates the linearizations. */
  lemma {:induction false} LinearizedGraphAppend<F, V, J>(g: seq<F>, h: seq<F>, point: V,
                                                          linearize: (F, V) -> J, dualKey: F -> Key)
    ensures LinearizedGraph(g + h, point, linearize, dualKey)
         == LinearizedGraph(g, point, linearize, dualKey) + LinearizedGraph(h, point, linearize, dualKey)
  {
    if g != [] {
      assert (g + h)[1..] == g[1..] + h;
      LinearizedGraphAppend(g[1..], h, point, linearize, dualKey);
    } else {
      assert g + h == h;
    }
  }
}
