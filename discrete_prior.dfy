/** Model of the single-variable discrete prior (DiscretePrior): a discrete
    conditional with keys, a count of frontal keys, the cardinality of each
    key and its table of potentials. Evaluating the table at an assignment is
    a computation outside this model, so the table is a total function. */
module DiscretePrior {
  import opened Errors
  import opened DecisionTree

  datatype Prior = Prior(
    keys: seq<Key>,
    nrFrontals: nat,
    cardinalities: map<Key, nat>,
    table: DiscreteValues -> real)
  {
    /** The frontal keys are a prefix of the keys. */
    predicate Valid() {
      nrFrontals <= |keys|
    }
  }

  const SingleValueMessage := "Single value operator can only be invoked on single-variable priors"
  const PmfMessage := "DiscretePrior::pmf only defined for single-variable priors"

  /** The assignment giving the first key `value` and nothing else. */
  function FrontalAssignment(p: Prior, value: nat): (a: DiscreteValues)
    requires p.Valid() && p.nrFrontals == 1
    ensures a.Keys == {p.keys[0]} && a[p.keys[0]] == value
  {
    map[p.keys[0] := value]
  }

  /** The prior's value at `value` of its single variable. Not defined for a
      prior on more or fewer than one variable. */
  function Evaluate(p: Prior, value: nat): (r: Result<real>)
    requires p.Valid()
    ensures r.Ok? <==> p.nrFrontals == 1
    ensures r.Err? ==> r.error == InvalidArgument(SingleValueMessage)
    ensures r.Ok? ==> r.value == p.table(FrontalAssignment(p, value))
  {
    if p.nrFrontals != 1 then
      Err(InvalidArgument(SingleValueMessage))
    else
      Ok(p.table(map[p.keys[0] := value]))
  }

  /** The probability mass function of the single variable: one entry per
      value of its domain, in ascending order of value. */
  method Pmf(p: Prior) returns (r: Result<seq<real>>)
    requires p.Valid()
    ensures r.Ok? <==> p.nrFrontals == 1 && p.keys[0] in p.cardinalities
    ensures r.Err? && p.nrFrontals != 1 ==> r.error == InvalidArgument(PmfMessage)
    ensures r.Err? && p.nrFrontals == 1 ==> r.error.OutOfRange?
    ensures r.Ok? ==> |r.value| == p.cardinalities[p.keys[0]]
    ensures r.Ok? ==> forall v :: 0 <= v < |r.value| ==> Evaluate(p, v) == Ok(r.value[v])
  {
    if p.nrFrontals != 1 {
      return Err(InvalidArgument(PmfMessage));
    }
    if p.keys[0] !in p.cardinalities {
      return Err(OutOfRange("map::at"));
    }
    var nrValues := p.cardinalities[p.keys[0]];
    var masses: seq<real> := [];
    for v := 0 to nrValues
      invariant |masses| == v
      invariant forall u :: 0 <= u < v ==> Evaluate(p, u) == Ok(masses[u])
    {
      var x := Evaluate(p, v);
      masses := masses + [x.value];
    }
    r := Ok(masses);
  }
}
