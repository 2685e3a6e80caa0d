/** Model of the parameters of successive-linearization optimizers
    (SuccessiveLinearizationParams): which linear solver to use and an
    optional elimination ordering. */
module LinearizationParams {
  import opened Errors
  import opened DecisionTree

  datatype LinearSolverType =
    | MultifrontalCholesky
    | MultifrontalQR
    | SequentialCholesky
    | SequentialQR
    | CG       // experimental
    | Cholmod  // experimental

  /** A variable elimination ordering. */
  type Ordering = seq<Key>

  datatype Option<T> = None | Some(value: T)

  /** The Gaussian elimination routines the parameters can choose. */
  datatype Eliminator = EliminatePreferCholesky | EliminateQR

  const InvalidFactorization := "Nonlinear optimization parameter \"factorization\" is invalid"

  class Params {
    var linearSolverType: LinearSolverType
    /** The elimination ordering, or None to let the optimizer compute one. */
    var ordering: Option<Ordering>

    /** Defaults: multifrontal Cholesky and no ordering. */
    constructor ()
      ensures linearSolverType == MultifrontalCholesky && ordering == None
      ensures IsMultifrontal()
    {
      linearSolverType := MultifrontalCholesky;
      ordering := None;
    }

    predicate IsMultifrontal()
      reads this
      ensures IsMultifrontal() <==> linearSolverType in {MultifrontalCholesky, MultifrontalQR}
    {
      linearSolverType == MultifrontalCholesky || linearSolverType == MultifrontalQR
    }

    predicate IsSequential()
      reads this
      ensures IsSequential() <==> linearSolverType in {SequentialCholesky, SequentialQR}
    {
      linearSolverType == SequentialCholesky || linearSolverType == SequentialQR
    }

    predicate IsCholmod()
      reads this
      ensures IsCholmod() <==> linearSolverType in {Cholmod}
    {
      linearSolverType == Cholmod
    }

    predicate IsCG()
      reads this
      ensures IsCG() <==> linearSolverType in {CG}
    {
      linearSolverType == CG
    }

    method SetOrdering(o: Ordering)
      modifies this`ordering
      ensures ordering == Some(o)
      ensures linearSolverType == old(linearSolverType)
    {
      ordering := Some(o);
    }

    /** Cholesky-preferring elimination for both Cholesky solvers, QR
        elimination for both QR solvers; CG and CHOLMOD have none. */
    function EliminationFunction(): (r: Result<Eliminator>)
      reads this
      ensures r.Ok? <==> IsMultifrontal() || IsSequential()
      ensures r.Err? ==> r.error == RuntimeError(InvalidFactorization)
      ensures r == Ok(EliminatePreferCholesky)
              <==> linearSolverType in {MultifrontalCholesky, SequentialCholesky}
      ensures r == Ok(EliminateQR) <==> linearSolverType in {MultifrontalQR, SequentialQR}
    {
      match linearSolverType
      case MultifrontalCholesky | SequentialCholesky => Ok(EliminatePreferCholesky)
      case MultifrontalQR | SequentialQR => Ok(EliminateQR)
      case _ => Err(RuntimeError(InvalidFactorization))
    }
  }

  /** The four classifications partition the solver types: exactly one holds. */
  lemma ClassificationPartitions(p: Params)
    ensures p.IsMultifrontal() ==> !p.IsSequential() && !p.IsCholmod() && !p.IsCG()
    ensures p.IsSequential() ==> !p.IsCholmod() && !p.IsCG()
    ensures p.IsCholmod() ==> !p.IsCG()
    ensures p.IsMultifrontal() || p.IsSequential() || p.IsCholmod() || p.IsCG()
  {
  }
}
