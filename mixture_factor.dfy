/** Model of the discrete-continuous mixture factor (DCMixtureFactor): a
    decision tree of nonlinear component factors indexed by the assignment of
    its discrete keys, together with a flag telling whether the component
    errors are already normalized.

    The component factor type is the type parameter F; its error, its
    linearization and its log-normalizing constant are computations this
    model does not contain, so they are passed in as functions. */
module MixtureFactor {
  import opened Errors
  import opened DecisionTree

  /** A mixture factor: continuous keys, discrete keys, the tree of component
      factors and the `normalized_` flag. */
  datatype Mixture<F> = Mixture(
    keys: seq<Key>,
    discreteKeys: seq<DiscreteKey>,
    factors: Tree<F>,
    normalized: bool)

  /** The linearized mixture (DCGaussianMixtureFactor): the same keys and a
      tree of Gaussian factors of type G. */
  datatype GaussianMixture<G> = GaussianMixture(
    keys: seq<Key>,
    discreteKeys: seq<DiscreteKey>,
    factors: Tree<G>)

  /** A hybrid factor as `equals` sees it: either a mixture of the same
      component type, or some other kind of DCFactor. */
  datatype HybridFactor<F> =
    | MixtureOf(mixture: Mixture<F>)
    | OtherFactor(keys: seq<Key>, discreteKeys: seq<DiscreteKey>)

  /** The constructor taking a ready-made factor tree. */
  function FromTree<F>(keys: seq<Key>, discreteKeys: seq<DiscreteKey>, factors: Tree<F>,
                       normalized: bool := false): (m: Mixture<F>)
    ensures m.keys == keys && m.discreteKeys == discreteKeys
    ensures m.factors == factors && m.normalized == normalized
  {
    Mixture(keys, discreteKeys, factors, normalized)
  }

  /** The constructor taking one component factor per joint assignment of the
      discrete keys: it copies the factors one by one into a vector and builds
      the tree over the discrete keys from that vector. A vector whose length
      is not the number of joint assignments builds no tree. */
  method FromFactors<F>(keys: seq<Key>, discreteKeys: seq<DiscreteKey>, factors: seq<F>,
                        normalized: bool := false) returns (r: Result<Mixture<F>>)
    ensures r.Ok? <==> |factors| == Product(discreteKeys)
    ensures r.Ok? ==> r.value.keys == keys && r.value.discreteKeys == discreteKeys
    ensures r.Ok? ==> r.value.normalized == normalized
    ensures r.Ok? ==> r.value.factors.Valid() && r.value.factors.labels == discreteKeys
    ensures r.Ok? ==> r.value.factors.leaves == factors
  {
    var pointers: seq<F> := [];
    for i := 0 to |factors|
      invariant pointers == factors[..i]
    {
      pointers := pointers + [factors[i]];
    }
    if |pointers| != Product(discreteKeys) {
      return Err(InvalidArgument("DecisionTree: number of leaves does not match the discrete keys"));
    }
    r := Ok(Mixture(keys, discreteKeys, Tree(discreteKeys, pointers), normalized));
  }

  /** The error of the component selected by `discreteVals`, plus that
      component's log-normalizing constant unless the mixture is normalized. */
  function Error<F, V>(m: Mixture<F>, continuousVals: V, discreteVals: DiscreteValues,
                       factorError: (F, V) -> real, logNormalizer: (F, V) -> real): (r: Result<real>)
    requires m.factors.Valid()
    ensures r.Ok? <==> Covers(discreteVals, m.factors.labels)
    ensures r.Ok? && m.normalized ==>
      r.value == factorError(Select(m.factors, discreteVals).value, continuousVals)
    ensures r.Ok? && !m.normalized ==>
      var f := Select(m.factors, discreteVals).value;
      r.value == factorError(f, continuousVals) + logNormalizer(f, continuousVals)
  {
    match Select(m.factors, discreteVals)
    case Err(e) => Err(e)
    case Ok(factor) =>
      var factorErr := factorError(factor, continuousVals);
      if m.normalized then Ok(factorErr)
      else Ok(factorErr + logNormalizer(factor, continuousVals))
  }

  /** The dimension reported for every mixture factor. */
  function Dim<F>(m: Mixture<F>): (r: nat)
    ensures r == 0
  {
    0
  }

  /** The linearization of the component selected by `discreteVals`. */
  function Linearize<F, V, G>(m: Mixture<F>, continuousVals: V, discreteVals: DiscreteValues,
                              linearize: (F, V) -> G): (r: Result<G>)
    requires m.factors.Valid()
    ensures r.Ok? <==> Covers(discreteVals, m.factors.labels)
    ensures r.Ok? ==> r.value == linearize(Select(m.factors, discreteVals).value, continuousVals)
  {
    match Select(m.factors, discreteVals)
    case Err(e) => Err(e)
    case Ok(factor) => Ok(linearize(factor, continuousVals))
  }

  /** The Gaussian mixture obtained by linearizing every component. */
  function LinearizeAll<F, V, G>(m: Mixture<F>, continuousVals: V, linearize: (F, V) -> G): (g: GaussianMixture<G>)
    ensures g.keys == m.keys && g.discreteKeys == m.discreteKeys
    ensures g.factors.labels == m.factors.labels
    ensures |g.factors.leaves| == |m.factors.leaves|
  {
    GaussianMixture(m.keys, m.discreteKeys, Apply(m.factors, f => linearize(f, continuousVals)))
  }

  /** Linearizing the whole mixture and then selecting a component is the
      same as linearizing the selected component, for every assignment. */
  lemma LinearizeAllIsLeafwise<F, V, G>(m: Mixture<F>, continuousVals: V, linearize: (F, V) -> G,
                                        discreteVals: DiscreteValues)
    requires m.factors.Valid()
    ensures LinearizeAll(m, continuousVals, linearize).factors.Valid()
    ensures Select(LinearizeAll(m, continuousVals, linearize).factors, discreteVals)
         == Linearize(m, continuousVals, discreteVals, linearize)
  {
    ApplySelect(m.factors, f => linearize(f, continuousVals), discreteVals);
  }

  /** For a mixture built from a vector of factors over distinct discrete keys,
      the assignment decoded from position i selects exactly the i-th factor,
      so the error there is that factor's error (plus its normalizer). */
  lemma ErrorOfSuppliedFactor<F, V>(m: Mixture<F>, factors: seq<F>, i: nat, continuousVals: V,
                                    factorError: (F, V) -> real, logNormalizer: (F, V) -> real)
    requires m.factors == Tree(m.discreteKeys, factors) && m.factors.Valid()
    requires Distinct(m.discreteKeys) && i < |factors|
    ensures Error(m, continuousVals, Decode(m.discreteKeys, i), factorError, logNormalizer)
         == Ok(factorError(factors[i], continuousVals)
               + (if m.normalized then 0.0 else logNormalizer(factors[i], continuousVals)))
  {
    SelectDecoded(m.factors, i);
  }

  /** The key comparison `std::equal(keys_.begin(), keys_.end(), f.keys().begin())`:
      this factor's keys against as many leading keys of the other. When the
      other has fewer keys the C++ call reads past their end; the model takes
      that as a mismatch. */
  function KeysPrefixMatch(mine: seq<Key>, theirs: seq<Key>): (r: bool)
    ensures r <==> |mine| <= |theirs| && theirs[..|mine|] == mine
  {
    |mine| <= |theirs| && forall i :: 0 <= i < |mine| ==> mine[i] == theirs[i]
  }

  /** `equals` as written: the key check is only a prefix check. */
  function EqualsAsWritten<F(==)>(m: Mixture<F>, other: HybridFactor<F>): (r: bool)
    ensures r <==> other.MixtureOf? && other.mixture.factors == m.factors
                   && KeysPrefixMatch(m.keys, other.mixture.keys)
                   && other.mixture.discreteKeys == m.discreteKeys
                   && other.mixture.normalized == m.normalized
  {
    match other
    case OtherFactor(_, _) => false
    case MixtureOf(f) =>
      if f.factors != m.factors then false
      else KeysPrefixMatch(m.keys, f.keys) && m.discreteKeys == f.discreteKeys
           && m.normalized == f.normalized
  }

  /** `equals` as intended: factor trees, keys, discrete keys and flag all
      identical. */
  function Equals<F(==)>(m: Mixture<F>, other: HybridFactor<F>): (r: bool)
    ensures r <==> other == MixtureOf(m)
  {
    match other
    case OtherFactor(_, _) => false
    case MixtureOf(f) =>
      if f.factors != m.factors then false
      else m.keys == f.keys && m.discreteKeys == f.discreteKeys && m.normalized == f.normalized
  }

  /** The intended comparison is an equivalence on mixtures. */
  lemma EqualsIsEquivalence<F>(a: Mixture<F>, b: Mixture<F>, c: Mixture<F>)
    ensures Equals(a, MixtureOf(a))
    ensures Equals(a, MixtureOf(b)) ==> Equals(b, MixtureOf(a))
    ensures Equals(a, MixtureOf(b)) && Equals(b, MixtureOf(c)) ==> Equals(a, MixtureOf(c))
  {
  }

  /** The comparison as written accepts a factor with extra trailing keys,
      which the intended one rejects; the two then disagree with their own
      mirror image, so the as-written comparison is not symmetric. */
  lemma EqualsAsWrittenAcceptsExtraKeys<F>(m: Mixture<F>, extra: seq<Key>)
    requires extra != []
    ensures var longer := m.(keys := m.keys + extra);
            EqualsAsWritten(m, MixtureOf(longer))
            && !EqualsAsWritten(longer, MixtureOf(m))
            && !Equals(m, MixtureOf(longer))
  {
    var longer := m.(keys := m.keys + extra);
    assert longer.keys[..|m.keys|] == m.keys;
  }

  /** Whatever the intended comparison accepts, the as-written one accepts. */
  lemma EqualsRefinesAsWritten<F>(m: Mixture<F>, other: HybridFactor<F>)
    ensures Equals(m, other) ==> EqualsAsWritten(m, other)
  {
  }
}
