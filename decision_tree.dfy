/** Discrete keys, assignments, and a decision tree seen as a total table of
    leaves indexed by the joint assignment of its labels.

    The leaves of a tree over labels [k0, k1, ..., kn] are stored in row-major
    order with the first label most significant, which is the order in which a
    decision tree built from a label vector and a leaf vector consumes the
    leaves (one consecutive block per value of the first label). */
module DecisionTree {
  import opened Errors

  /** An opaque variable identifier. */
  type Key = nat

  /** A discrete variable together with the size of its domain. */
  datatype DiscreteKey = DiscreteKey(key: Key, cardinality: nat)

  /** An assignment of values to discrete variables. */
  type DiscreteValues = map<Key, nat>

  /** Number of joint assignments of the labels. */
  function Product(labels: seq<DiscreteKey>): nat {
    if labels == [] then 1 else labels[0].cardinality * Product(labels[1..])
  }

  /** `d` gives every label a value inside its domain. */
  predicate Covers(d: DiscreteValues, labels: seq<DiscreteKey>) {
    forall i :: 0 <= i < |labels| ==> labels[i].key in d && d[labels[i].key] < labels[i].cardinality
  }

  /** No variable appears twice among the labels. */
  predicate Distinct(labels: seq<DiscreteKey>) {
    forall i, j :: 0 <= i < j < |labels| ==> labels[i].key != labels[j].key
  }

  /** `d1` and `d2` give every label the same value. */
  ghost predicate AgreeOn(d1: DiscreteValues, d2: DiscreteValues, labels: seq<DiscreteKey>) {
    forall i :: 0 <= i < |labels| ==>
      labels[i].key in d1 && labels[i].key in d2 && d1[labels[i].key] == d2[labels[i].key]
  }

  lemma MulAddBound(q: nat, r: nat, c: nat, p: nat)
    requires q < c && r < p
    ensures q * p + r < c * p
  {
    assert (q + 1) * p <= c * p;
  }

  lemma DivModOf(q: nat, r: nat, p: nat)
    requires r < p
    ensures (q * p + r) / p == q && (q * p + r) % p == r
  {
    var n := q * p + r;
    var q', r' := n / p, n % p;
    assert n == q' * p + r';
    assert (q - q') * p == r' - r;
    MulAwayFromZero(q - q', p);
  }

  lemma MulAwayFromZero(k: int, p: int)
    requires p >= 0
    ensures k >= 1 ==> k * p >= p
    ensures k <= -1 ==> k * p <= -p
  {
    if k >= 1 {
      assert k * p == (k - 1) * p + p;
    } else if k <= -1 {
      assert k * p == (k + 1) * p - p;
    }
  }

  lemma DivBound(i: nat, c: nat, p: nat)
    requires i < c * p
    ensures p > 0 && i / p < c
  {
  }

  /** Position of the leaf that `d` selects: the mixed-radix number whose digits
      are the labels' values, first label most significant. */
  function Index(labels: seq<DiscreteKey>, d: DiscreteValues): (r: nat)
    requires Covers(d, labels)
    ensures r < Product(labels)
  {
    if labels == [] then 0
    else
      assert Covers(d, labels[1..]) by {
        forall i | 0 <= i < |labels[1..]| ensures labels[1..][i] == labels[i + 1] { }
      }
      var rest := Index(labels[1..], d);
      MulAddBound(d[labels[0].key], rest, labels[0].cardinality, Product(labels[1..]));
      d[labels[0].key] * Product(labels[1..]) + rest
  }

  /** The assignment whose leaf sits at position `i` (the inverse of Index). */
  function Decode(labels: seq<DiscreteKey>, i: nat): DiscreteValues
    requires i < Product(labels)
  {
    if labels == [] then map[]
    else
      DivBound(i, labels[0].cardinality, Product(labels[1..]));
      Decode(labels[1..], i % Product(labels[1..]))[labels[0].key := i / Product(labels[1..])]
  }

  lemma {:induction false} DecodeCovers(labels: seq<DiscreteKey>, i: nat)
    requires Distinct(labels) && i < Product(labels)
    ensures Covers(Decode(labels, i), labels)
  {
    if labels != [] {
      var p := Product(labels[1..]);
      DivBound(i, labels[0].cardinality, p);
      DecodeCovers(labels[1..], i % p);
      var inner := Decode(labels[1..], i % p);
      forall j | 0 <= j < |labels|
        ensures labels[j].key in Decode(labels, i)
        ensures Decode(labels, i)[labels[j].key] < labels[j].cardinality
      {
        if j > 0 {
          assert labels[1..][j - 1] == labels[j];
        }
      }
    }
  }

  /** Index looks only at the values of the labels. */
  lemma {:induction false} IndexOnlyReadsLabels(labels: seq<DiscreteKey>, d1: DiscreteValues, d2: DiscreteValues)
    requires Covers(d1, labels) && Covers(d2, labels) && AgreeOn(d1, d2, labels)
    ensures Index(labels, d1) == Index(labels, d2)
  {
    if labels != [] {
      assert AgreeOn(d1, d2, labels[1..]) by {
        forall j | 0 <= j < |labels[1..]| ensures labels[1..][j] == labels[j + 1] { }
      }
      assert Covers(d1, labels[1..]) && Covers(d2, labels[1..]) by {
        forall j | 0 <= j < |labels[1..]| ensures labels[1..][j] == labels[j + 1] { }
      }
      IndexOnlyReadsLabels(labels[1..], d1, d2);
    }
  }

  /** Decoding a position and indexing the result gives the position back. */
  lemma {:induction false} IndexOfDecode(labels: seq<DiscreteKey>, i: nat)
    requires Distinct(labels) && i < Product(labels)
    ensures Covers(Decode(labels, i), labels)
    ensures Index(labels, Decode(labels, i)) == i
  {
    DecodeCovers(labels, i);
    if labels != [] {
      var rest := labels[1..];
      var p := Product(rest);
      DivBound(i, labels[0].cardinality, p);
      var q, r := i / p, i % p;
      assert i == q * p + r;
      assert Distinct(rest);
      IndexOfDecode(rest, r);
      var inner := Decode(rest, r);
      var d := Decode(labels, i);
      assert d == inner[labels[0].key := q];
      assert Covers(d, rest) && AgreeOn(d, inner, rest) by {
        forall j | 0 <= j < |rest|
          ensures rest[j] == labels[j + 1] && rest[j].key != labels[0].key
        { }
      }
      IndexOnlyReadsLabels(rest, d, inner);
      assert Index(rest, d) == r;
      assert Index(labels, d) == d[labels[0].key] * p + Index(rest, d);
    }
  }

  /** Indexing an assignment and decoding the position recovers the values
      the assignment gives the labels. */
  lemma {:induction false} DecodeOfIndex(labels: seq<DiscreteKey>, d: DiscreteValues)
    requires Distinct(labels) && Covers(d, labels)
    ensures AgreeOn(Decode(labels, Index(labels, d)), d, labels)
  {
    if labels != [] {
      var rest := labels[1..];
      var p := Product(rest);
      assert Distinct(rest);
      assert Covers(d, rest) by {
        forall j | 0 <= j < |rest| ensures rest[j] == labels[j + 1] { }
      }
      var q, r := d[labels[0].key], Index(rest, d);
      DivModOf(q, r, p);
      assert Index(labels, d) == q * p + r;
      DecodeOfIndex(rest, d);
      var e := Decode(labels, Index(labels, d));
      assert e == Decode(rest, r)[labels[0].key := q];
      forall j | 0 <= j < |labels|
        ensures labels[j].key in e && labels[j].key in d && e[labels[j].key] == d[labels[j].key]
      {
        if j > 0 {
          assert rest[j - 1] == labels[j];
        }
      }
    }
  }

  /** Position `i` is the one an assignment selects exactly when the assignment
      agrees with Decode(labels, i) on every label. */
  lemma IndexIsPosition(labels: seq<DiscreteKey>, d: DiscreteValues, i: nat)
    requires Distinct(labels) && Covers(d, labels) && i < Product(labels)
    ensures Index(labels, d) == i <==> AgreeOn(d, Decode(labels, i), labels)
  {
    IndexOfDecode(labels, i);
    if Index(labels, d) == i {
      DecodeOfIndex(labels, d);
    } else if AgreeOn(d, Decode(labels, i), labels) {
      IndexOnlyReadsLabels(labels, d, Decode(labels, i));
    }
  }

  /** A decision tree as the table of its leaves, one per joint assignment of
      its labels, in the order of Index. */
  datatype Tree<T> = Tree(labels: seq<DiscreteKey>, leaves: seq<T>) {
    /** A decision tree is total: it holds a leaf for every assignment. */
    predicate Valid() {
      |leaves| == Product(labels)
    }
  }

  /** The leaf of `t` for assignment `d`; fails when `d` leaves a label
      unassigned or outside its domain. */
  function Select<T>(t: Tree<T>, d: DiscreteValues): (r: Result<T>)
    requires t.Valid()
    ensures r.Ok? <==> Covers(d, t.labels)
    ensures r.Ok? ==> r.value in t.leaves
  {
    if Covers(d, t.labels) then Ok(t.leaves[Index(t.labels, d)])
    else Err(OutOfRange("assignment does not cover the labels of the tree"))
  }

  /** Every leaf is the one selected by the assignment decoded from its position. */
  lemma SelectDecoded<T>(t: Tree<T>, i: nat)
    requires t.Valid() && Distinct(t.labels) && i < |t.leaves|
    ensures Select(t, Decode(t.labels, i)) == Ok(t.leaves[i])
  {
    IndexOfDecode(t.labels, i);
  }

  /** An assignment, possibly holding extra keys, selects leaf i whenever it
      agrees with Decode(i) on the labels. */
  lemma SelectAgreeing<T>(t: Tree<T>, d: DiscreteValues, i: nat)
    requires t.Valid() && Distinct(t.labels) && i < |t.leaves|
    requires Covers(d, t.labels) && AgreeOn(d, Decode(t.labels, i), t.labels)
    ensures Select(t, d) == Ok(t.leaves[i])
  {
    IndexIsPosition(t.labels, d, i);
  }

  /** The leaf-wise image of `t` under `f`, over the same labels. */
  function Apply<T, U>(t: Tree<T>, f: T -> U): (r: Tree<U>)
    ensures r.labels == t.labels && |r.leaves| == |t.leaves|
    ensures forall i :: 0 <= i < |t.leaves| ==> r.leaves[i] == f(t.leaves[i])
  {
    Tree(t.labels, seq(|t.leaves|, i requires 0 <= i < |t.leaves| => f(t.leaves[i])))
  }

  /** Selecting from the image is applying `f` to the selected leaf. */
  lemma ApplySelect<T, U>(t: Tree<T>, f: T -> U, d: DiscreteValues)
    requires t.Valid()
    ensures Apply(t, f).Valid()
    ensures Select(Apply(t, f), d) == match Select(t, d) case Ok(x) => Ok(f(x)) case Err(e) => Err(e)
  {
  }
}
