# Hybrid factor pieces of GTSAM, modelled in Dafny

This project models four small pieces of GTSAM's factor-graph library and
proves properties about them:

- **Mixture factor** (`DCMixtureFactor`). A decision tree of nonlinear
  component factors, indexed by an assignment of discrete keys, plus a
  `normalized_` flag. The model covers both constructors, `error`, `dim`,
  `equals` and both `linearize` overloads. The decision tree is a table of
  leaves, one per joint assignment of its labels. The leaves are stored in
  row-major order with the first label most significant, which is the order
  in which a tree built from a leaf vector consumes that vector
  (`decision_tree.dfy`). For distinct labels, `Index` and `Decode` are
  proved to be inverse bijections between leaf positions and covering
  assignments, up to the values of keys outside the labels. So every
  covering assignment selects exactly one leaf, and every leaf is selected.
- **Discrete prior** (`DiscretePrior`). Evaluates a single-variable prior at
  a value, and builds its probability mass function by a loop over the
  variable's domain.
- **Nonlinear inequality factor graph** (`NonlinearInequalityFactorGraph`).
  The feasibility and complementarity check over the constraints, and the
  linearization loop that emits one linear inequality per factor.
- **Successive-linearization parameters** (`SuccessiveLinearizationParams`).
  The linear-solver enum, the classification predicates, `setOrdering`, and
  the choice of a QR or Cholesky eliminator. This is a class, because the
  constructor and `setOrdering` write its fields.

Some computations are outside this model: a component factor's error, its
linearization and log-normalizing constant, a discrete table's evaluation,
and a constraint's unwhitened error. Each one is a function-typed parameter or field,
so every property holds for any such function. Continuous values, Gaussian
factors and Jacobians are type parameters. Errors from the source's
exceptions are `Result` values whose `Failure` constructor names the C++
exception class.

## Model

| member | source | states |
|---|---|---|
| `DecisionTree.Select` | gtsam/hybrid/DCMixtureFactor.h:95 | Selecting a leaf succeeds exactly when the assignment gives every label of the tree a value inside its domain. The selected value is one of the tree's leaves. |
| `DecisionTree.IndexOfDecode` | gtsam/hybrid/DCMixtureFactor.h:80-81 | For distinct labels, the assignment decoded from leaf position i covers the labels and indexes back to position i. |
| `DecisionTree.DecodeOfIndex` | gtsam/hybrid/DCMixtureFactor.h:80-81 | For distinct labels, decoding the position that an assignment selects recovers that assignment's value for every label. |
| `DecisionTree.IndexIsPosition` | gtsam/hybrid/DCMixtureFactor.h:80-81 | An assignment selects leaf position i if and only if it agrees with Decode(i) on every label. So each leaf belongs to exactly one joint assignment. |
| `DecisionTree.SelectDecoded` | gtsam/hybrid/DCMixtureFactor.h:95 | Every leaf of a valid tree is the one selected by the assignment decoded from its position. |
| `DecisionTree.SelectAgreeing` | gtsam/hybrid/DCMixtureFactor.h:95 | For distinct labels, an assignment that may hold extra keys selects leaf i whenever it agrees with Decode(i) on every label. |
| `DecisionTree.Apply` | gtsam/hybrid/DCMixtureFactor.h:173-174 | The leaf-wise image keeps the labels and the number of leaves. Leaf i of the image is the function applied to leaf i. |
| `DecisionTree.ApplySelect` | gtsam/hybrid/DCMixtureFactor.h:173-174 | The image of a valid tree is valid. Selecting from it gives the function applied to the leaf the original tree selects, and it fails exactly where the original fails. |
| `MixtureFactor.FromTree` | gtsam/hybrid/DCMixtureFactor.h:51-53 | The tree constructor stores the keys, discrete keys, tree and flag unchanged. The flag defaults to false. |
| `MixtureFactor.FromFactors` | gtsam/hybrid/DCMixtureFactor.h:70-82 | The vector constructor copies the factors into the leaves one for one, in order. The tree is built over the given discrete keys, and keys and flag are stored as given (flag default false). It succeeds exactly when there is one factor per joint assignment. |
| `MixtureFactor.Error` | gtsam/hybrid/DCMixtureFactor.h:91-102 | The error fails exactly when the assignment does not cover the tree's labels. If normalized, it is the selected component's error. Otherwise it is that error plus the selected component's log-normalizing constant. |
| `MixtureFactor.ErrorOfSuppliedFactor` | gtsam/hybrid/DCMixtureFactor.h:70-101 | Take a mixture built from a factor vector over distinct discrete keys. At the assignment decoded from position i, its error is the error of the i-th supplied factor, plus that factor's normalizer when the mixture is not normalized. |
| `MixtureFactor.Dim` | gtsam/hybrid/DCMixtureFactor.h:104-110 | Every mixture factor reports dimension 0. |
| `MixtureFactor.Linearize` | gtsam/hybrid/DCMixtureFactor.h:156-161 | Linearizing at an assignment fails exactly when the assignment does not cover the tree's labels. Otherwise it is the linearization of exactly the selected component. |
| `MixtureFactor.LinearizeAll` | gtsam/hybrid/DCMixtureFactor.h:164-178 | The linearized mixture keeps the continuous keys, the discrete keys, the tree's labels and its number of leaves. |
| `MixtureFactor.LinearizeAllIsLeafwise` | gtsam/hybrid/DCMixtureFactor.h:164-178 | The linearized mixture is a valid tree. At every assignment its selected leaf equals the single-assignment linearization, including failing at the same assignments. |
| `MixtureFactor.KeysPrefixMatch` | gtsam/hybrid/DCMixtureFactor.h:147 | The std::equal comparison holds when this factor's keys are a prefix of the other's keys. |
| `MixtureFactor.EqualsAsWritten` | gtsam/hybrid/DCMixtureFactor.h:133-150 | The comparison as written is false for a factor that is not a mixture. Otherwise it holds exactly when the factor trees are equal, the discrete keys are identical, the flags match, and this factor's keys are a prefix of the other's keys. |
| `MixtureFactor.Equals` | gtsam/hybrid/DCMixtureFactor.h:133-150 | The intended comparison holds exactly when the other factor is a mixture identical to this one: the same tree, keys, discrete keys and flag. |
| `MixtureFactor.EqualsIsEquivalence` | gtsam/hybrid/DCMixtureFactor.h:145-149 | The intended comparison is reflexive, symmetric and transitive on mixtures. |
| `MixtureFactor.EqualsAsWrittenAcceptsExtraKeys` | gtsam/hybrid/DCMixtureFactor.h:147 | Add any nonempty list of extra keys to a mixture's keys. The comparison as written accepts the longer copy and rejects the reverse comparison. The intended comparison rejects it. |
| `MixtureFactor.EqualsRefinesAsWritten` | gtsam/hybrid/DCMixtureFactor.h:147 | Whatever the intended comparison accepts, the comparison as written also accepts. |
| `DiscretePrior.FrontalAssignment` | gtsam/discrete/DiscretePrior.cpp:32-33 | The assignment built for a query has the first key and no other key, and it maps that key to the queried value. |
| `DiscretePrior.Evaluate` | gtsam/discrete/DiscretePrior.cpp:27-35 | Evaluation fails with invalid_argument, carrying the source's message, unless the prior has exactly one frontal key. Otherwise it is the table's value at the assignment mapping the first key to the value, and nothing else. |
| `DiscretePrior.Pmf` | gtsam/discrete/DiscretePrior.cpp:37-48 | The PMF fails with invalid_argument, carrying the source's message, unless there is exactly one frontal key. It fails with out_of_range if that key has no cardinality. Otherwise it has one entry per value of the key's domain, and entry v is the prior evaluated at v. |
| `InequalityGraph.CheckFeasibilityAndComplimentary` | gtsam_unstable/nonlinear/NonlinearInequalityFactorGraph.h:50-73 | The check returns true if and only if every constraint's first error component is at most tol, and every constraint whose dual key is present also has that component within tol of zero. |
| `InequalityGraph.PrimalViolationFails` | gtsam_unstable/nonlinear/NonlinearInequalityFactorGraph.h:58-60 | Any single constraint whose error exceeds tol makes the check fail. |
| `InequalityGraph.InactiveNeedsOnlyPrimal` | gtsam_unstable/nonlinear/NonlinearInequalityFactorGraph.h:62-69 | A constraint without a dual needs only error at most tol, so a strongly negative error is accepted. A constraint with a dual needs an error in [-tol, tol]. |
| `InequalityGraph.EmptyGraphFeasible` | gtsam_unstable/nonlinear/NonlinearInequalityFactorGraph.h:52-72 | The empty graph passes the check. |
| `InequalityGraph.FirstComponentOnly` | gtsam_unstable/nonlinear/NonlinearInequalityFactorGraph.h:55-68 | Two error functions that agree on the first component of every constraint give the same verdict. |
| `InequalityGraph.FeasibleAppend` | gtsam_unstable/nonlinear/NonlinearInequalityFactorGraph.h:52-72 | The verdict on a concatenation of graphs is the conjunction of the verdicts on the parts. |
| `InequalityGraph.FeasibleUnderPermutation` | gtsam_unstable/nonlinear/NonlinearInequalityFactorGraph.h:52-72 | Two graphs holding the same constraints in any order get the same verdict. |
| `InequalityGraph.LinearizedGraph` | gtsam_unstable/nonlinear/NonlinearInequalityFactorGraph.h:34-45 | The linearized graph has exactly one linear inequality per nonlinear factor. |
| `InequalityGraph.Linearize` | gtsam_unstable/nonlinear/NonlinearInequalityFactorGraph.h:34-45 | The loop that appends one inequality per factor builds exactly the linearized graph. |
| `InequalityGraph.LinearizedGraphAt` | gtsam_unstable/nonlinear/NonlinearInequalityFactorGraph.h:37-43 | Entry i of the linearized graph is factor i's Jacobian, tagged with factor i's dual key. |
| `InequalityGraph.LinearizedGraphAppend` | gtsam_unstable/nonlinear/NonlinearInequalityFactorGraph.h:37-43 | Linearizing a concatenation of graphs gives the concatenation of their linearizations, so the output keeps the input's order. |
| `LinearizationParams.Params.constructor` | gtsam/nonlinear/SuccessiveLinearizationOptimizer.h:42 | A fresh parameter object uses multifrontal Cholesky, has no ordering, and is multifrontal. |
| `LinearizationParams.Params.SetOrdering` | gtsam/nonlinear/SuccessiveLinearizationOptimizer.h:90 | After setting an ordering, the ordering is present and equal to the argument. The solver type is unchanged, and nothing but the ordering field is written. |
| `LinearizationParams.Params.EliminationFunction` | gtsam/nonlinear/SuccessiveLinearizationOptimizer.h:92-107 | Elimination succeeds exactly for the multifrontal and sequential types. Both Cholesky types get the Cholesky-preferring eliminator, and both QR types get the QR eliminator. CG and CHOLMOD fail with runtime_error and the source's message. |
| `LinearizationParams.Params.IsMultifrontal` | gtsam/nonlinear/SuccessiveLinearizationOptimizer.h:80-81 | Holds exactly for MULTIFRONTAL_CHOLESKY and MULTIFRONTAL_QR. |
| `LinearizationParams.Params.IsSequential` | gtsam/nonlinear/SuccessiveLinearizationOptimizer.h:83-84 | Holds exactly for SEQUENTIAL_CHOLESKY and SEQUENTIAL_QR. |
| `LinearizationParams.Params.IsCholmod` | gtsam/nonlinear/SuccessiveLinearizationOptimizer.h:86 | Holds exactly for CHOLMOD. |
| `LinearizationParams.Params.IsCG` | gtsam/nonlinear/SuccessiveLinearizationOptimizer.h:88 | Holds exactly for CG. |
| `LinearizationParams.ClassificationPartitions` | gtsam/nonlinear/SuccessiveLinearizationOptimizer.h:80-88 | isMultifrontal, isSequential, isCholmod and isCG are mutually exclusive, and exactly one of them holds for every solver type. |

## Findings

| source | as written | input that shows it | evidently intended | confidence | as-written member | corrected member |
|---|---|---|---|---|---|---|
| gtsam/hybrid/DCMixtureFactor.h:147 | `std::equal(keys_.begin(), keys_.end(), f.keys().begin())` compares only as many of the other factor's keys as this factor has | two mixtures sharing one factor tree (for example both built with the tree constructor from one `FactorDecisionTree`), with the same discrete keys and flag, with keys `[x0]` and `[x0, x1]`: `equals` returns true when called on the `[x0]` factor; called the other way, `std::equal` reads past the end of the shorter key vector (undefined behaviour, which the model takes as false) | the keys are identical, as the comment at lines 145-146 says | not executed; high | `MixtureFactor.EqualsAsWritten` (shown by `MixtureFactor.EqualsAsWrittenAcceptsExtraKeys`) | `MixtureFactor.Equals` (shown to be equality by its contract and `MixtureFactor.EqualsIsEquivalence`) |

## Left out

- The hybrid elimination engine, the Bayes tree and incremental update are not part of this model. Their implementations are not among the modelled files, and their steps are floating-point linear algebra.
- `DCMixtureFactor::operator=` is not modelled. It has no return statement, and it does not copy `normalized_`.
- `nonlinearFactorLogNormalizingConstant` is a function parameter (`logNormalizer`). Its determinant and logarithm computation and its noise-model casts are floating point and calls into other classes.
- The internals of `DecisionTree` are not part of this model, nor are factor `error`/`linearize`, discrete-table evaluation, or `unwhitenedError`. The tree is a table of leaves. The other four are function-typed parameters or fields.
- MixtureFactor.FromFactors: fails on every vector whose length is not the number of joint assignments. A real decision tree, when given a wrong count, can throw, or can silently ignore trailing leaves, depending on the count. The failure message is this model's own.
- DecisionTree.Select: reports a missing label and a value outside a label's domain the same way, as out_of_range. The message is this model's own. In C++ the first is a `map::at` failure and the second is unchecked indexing. A real tree that has merged identical branches may not consult a label at all.
- MixtureFactor.Equals: compares trees by exact leaf equality and ignores the tolerance argument. It also depends on the order in which the tree lists its labels. So two trees holding the same leaf at every assignment, but built over the labels in a different order, compare unequal. A decision tree with canonical label order compares them equal. In C++, leaf comparison belongs to `DecisionTree::equals` and to the leaf type. The C++ leaves are shared pointers, so the tree comparison compares leaf pointers. The model compares component values, so mixtures built separately from one factor vector compare equal here and unequal in C++.
- MixtureFactor.EqualsAsWritten: the same tree comparison as MixtureFactor.Equals, with the same exact leaf equality, ignored tolerance and dependence on label order. The C++ leaves are shared pointers, so the tree comparison compares leaf pointers. The model compares component values, so mixtures built separately from one factor vector compare equal here and unequal in C++.
- MixtureFactor.KeysPrefixMatch: when the other factor has fewer keys, the C++ comparison reads past their end (undefined behaviour). The model returns false in that case.
- InequalityGraph.CheckFeasibilityAndComplimentary: errors and tolerance are exact reals, so NaN and rounding are not modelled. Every factor is assumed to be a noise-model factor and an equality constraint, and its error vector must be nonempty. In C++ a failed cast or an empty vector is undefined behaviour.
- InequalityGraph.Linearize: each factor's linearization is assumed to be a Jacobian factor. In C++ a failed cast is dereferenced.
- DiscretePrior.Pmf: the out_of_range path for a key with no recorded cardinality cannot occur in a well-formed conditional. The model keeps it and uses the standard library's `map::at` text. The vector's `reserve` is not modelled.
- DiscretePrior.Evaluate: the table is a total function, so the table's own failures for values outside the domain are not modelled.
- `pmf()` and `operator()` are const. Here that holds by construction, because priors are immutable values.
- `print` functions (standard output) and the `iterativeParams` field are not modelled.
