/**
 The quantity surface of quantity.h: a `Quantity` is the list of dimension
 terms it was written with; its `Simplified` form is that list reduced; two
 quantities are the same (`b_is_same`) when their reduced forms hold the
 same (tag, exponent) pairs; and `+ - * /` give the quantity of a result.
 */
module QuantityAlgebra {

  import opened Tags
  import opened Dimensions
  import opened Optional
  import opened TermLists
  import opened Reduction
  import opened Comparison

  /** `Quantity<Dimensions...>`, with its terms as written (not necessarily reduced). */
  datatype Quantity = Quantity(dimensions: seq<Dimension>)

  // ---------------------------------------------------------------------------
  // Negation
  // ---------------------------------------------------------------------------

  /**
   `Negate::negate(TypeList<Dimension<T, e>, Ds...>, o...)`: moves the first
   term, with its exponent negated, to the end of the accumulated `o...`, until
   the list is empty and the accumulated terms are the answer.
   */
  function NegateInto(l: seq<Dimension>, acc: seq<Dimension>): (r: seq<Dimension>)
    ensures |r| == |acc| + |l|
    ensures r[..|acc|] == acc
    ensures forall i | 0 <= i < |l| :: r[|acc| + i] == Dimension(l[i].dimension, -l[i].exponent)
    decreases |l|
  {
    if l == [] then acc
    else NegateInto(l[1..], acc + [Dimension(l[0].dimension, -l[0].exponent)])
  }

  /**
   `NegatedDimensionsList<Ds...>`: the same tags in the same order, every
   exponent with its sign flipped.
   */
  function Negate(l: seq<Dimension>): (r: seq<Dimension>)
    ensures |r| == |l|
    ensures forall i | 0 <= i < |l| :: r[i] == Dimension(l[i].dimension, -l[i].exponent)
  {
    NegateInto(l, [])
  }

  lemma NegateIsInvolution(l: seq<Dimension>)
    ensures Negate([]) == []
    ensures Negate(Negate(l)) == l
  {
  }

  lemma {:induction false} NetOfNegate(l: seq<Dimension>, t: Tag)
    ensures Net(Negate(l), t) == -Net(l, t)
  {
    if l != [] {
      var n := Negate(l);
      assert n[1..] == Negate(l[1..]);
      NetOfNegate(l[1..], t);
    }
  }

  // ---------------------------------------------------------------------------
  // Queries
  // ---------------------------------------------------------------------------

  /** `Quantity<Ds...>::Simplified`, i.e. `QuantityType<Ds...>`: the quantity of the reduced terms. */
  function Simplified(q: Quantity): Quantity
  {
    Quantity(ReduceDimensions(q.dimensions))
  }

  /** `b_contains_dimension<D, Quantity<Ds...>>`: `Contains` on the terms as written, not reduced. */
  function ContainsDimension(d: Dimension, q: Quantity): (r: bool)
    ensures r <==> IndexOfTag(q.dimensions, d.dimension) < |q.dimensions|
  {
    Contains(d, q.dimensions)
  }

  /**
   `b_is_same<Quantity<Ds1...>, Quantity<Ds2...>>`: `HasDimensions` in both
   directions on the two reduced forms.
   */
  predicate IsSame(q1: Quantity, q2: Quantity)
  {
    var r1 := ReduceDimensions(q1.dimensions);
    var r2 := ReduceDimensions(q2.dimensions);
    HasDimensions(r1, r2, r2) && HasDimensions(r2, r1, r1)
  }

  /** `b_is_quantity<T>`: true of every `Quantity`. */
  predicate IsQuantity(q: Quantity)
  {
    true
  }

  // ---------------------------------------------------------------------------
  // Operators
  // ---------------------------------------------------------------------------

  /**
   `operator+`. Two overloads exist: one for two operands of the same type,
   which returns that type unchanged, and one for different operand types,
   enabled only when `b_is_same` holds, which returns `QuantityType<Ds1...>`.
   When the operands are of the same type the first, more specialised
   overload is chosen. `None` stands for "no operator: does not compile".
   */
  function Add(q1: Quantity, q2: Quantity): Option<Quantity>
  {
    if q1 == q2 then Some(q1)
    else if IsSame(q1, q2) then Some(Simplified(q1))
    else None
  }

  /** `operator-`: the same two overloads, with the same result types, as `operator+`. */
  function Sub(q1: Quantity, q2: Quantity): Option<Quantity>
  {
    if q1 == q2 then Some(q1)
    else if IsSame(q1, q2) then Some(Simplified(q1))
    else None
  }

  /** `operator*`: `QuantityType<Ds1..., Ds2...>`, the reduced concatenation of both operands' terms. */
  function Mul(q1: Quantity, q2: Quantity): Quantity
  {
    Quantity(ReduceDimensions(q1.dimensions + q2.dimensions))
  }

  /**
   `operator/`: `MultiplyType<Quantity<Ds1...>, QuantitiesFromTypeList<N>>`
   with N the negated terms of the divisor.
   */
  function Div(q1: Quantity, q2: Quantity): Quantity
  {
    Mul(q1, Quantity(Negate(q2.dimensions)))
  }

  // ---------------------------------------------------------------------------
  // What `b_is_same` decides
  // ---------------------------------------------------------------------------

  /** Two quantities are the same exactly when every tag has the same net exponent in both. */
  lemma IsSameMeansEqualNets(q1: Quantity, q2: Quantity)
    ensures IsSame(q1, q2) ==> forall t :: Net(q1.dimensions, t) == Net(q2.dimensions, t)
    ensures (forall t :: Net(q1.dimensions, t) == Net(q2.dimensions, t)) ==> IsSame(q1, q2)
  {
    if IsSame(q1, q2) {
      SameGivesEqualNets(q1, q2);
    }
    EqualNetsGiveSame(q1, q2);
  }

  lemma SameGivesEqualNets(q1: Quantity, q2: Quantity)
    requires IsSame(q1, q2)
    ensures forall t :: Net(q1.dimensions, t) == Net(q2.dimensions, t)
  {
    var d1, d2 := q1.dimensions, q2.dimensions;
    var r1, r2 := ReduceDimensions(d1), ReduceDimensions(d2);
    assert HasDimensions(r1, r2, r2) && HasDimensions(r2, r1, r1);
    HasDimensionsMeaning(r1, r2);
    HasDimensionsMeaning(r2, r1);
    forall t ensures Net(d1, t) == Net(d2, t) {
      ReduceKeepsNetExponents(d1, t);
      ReduceKeepsNetExponents(d2, t);
      SameLookupSameNet(r1, r2, t);
    }
  }

  lemma EqualNetsGiveSame(q1: Quantity, q2: Quantity)
    ensures (forall t :: Net(q1.dimensions, t) == Net(q2.dimensions, t)) ==> IsSame(q1, q2)
  {
    if forall t :: Net(q1.dimensions, t) == Net(q2.dimensions, t) {
      EqualNetsGiveSameCase(q1, q2);
    }
  }

  lemma EqualNetsGiveSameCase(q1: Quantity, q2: Quantity)
    requires forall t :: Net(q1.dimensions, t) == Net(q2.dimensions, t)
    ensures IsSame(q1, q2)
  {
    var d1, d2 := q1.dimensions, q2.dimensions;
    var r1, r2 := ReduceDimensions(d1), ReduceDimensions(d2);
    HasDimensionsMeaning(r1, r2);
    HasDimensionsMeaning(r2, r1);
    forall i | 0 <= i < |r1| ensures Lookup(r2, r1[i].dimension) == Some(r1[i].exponent) {
      ReduceKeepsNetExponents(d1, r1[i].dimension);
      ReduceKeepsNetExponents(d2, r1[i].dimension);
      ReducedIndex(r1, i);
    }
    forall i | 0 <= i < |r2| ensures Lookup(r1, r2[i].dimension) == Some(r2[i].exponent) {
      ReduceKeepsNetExponents(d1, r2[i].dimension);
      ReduceKeepsNetExponents(d2, r2[i].dimension);
      ReducedIndex(r2, i);
    }
  }

  /** Mutual containment of two reduced lists gives them the same entry for every tag. */
  lemma SameLookupSameNet(r1: seq<Dimension>, r2: seq<Dimension>, t: Tag)
    requires IsReduced(r1) && IsReduced(r2)
    requires forall i | 0 <= i < |r1| :: Lookup(r2, r1[i].dimension) == Some(r1[i].exponent)
    requires forall i | 0 <= i < |r2| :: Lookup(r1, r2[i].dimension) == Some(r2[i].exponent)
    ensures Lookup(r1, t) == Lookup(r2, t)
  {
    var k1, k2 := IndexOfTag(r1, t), IndexOfTag(r2, t);
    if k1 < |r1| {
      assert Lookup(r2, r1[k1].dimension) == Some(r1[k1].exponent);
    } else if k2 < |r2| {
      assert Lookup(r1, r2[k2].dimension) == Some(r2[k2].exponent);
    }
  }

  /** `b_is_same` is an equivalence: reflexive, symmetric and transitive. */
  lemma IsSameIsEquivalence(a: Quantity, b: Quantity, c: Quantity)
    ensures IsSame(a, a)
    ensures IsSame(a, b) <==> IsSame(b, a)
    ensures IsSame(a, b) && IsSame(b, c) ==> IsSame(a, c)
  {
    IsSameMeansEqualNets(a, a);
    IsSameMeansEqualNets(a, b);
    IsSameMeansEqualNets(b, c);
    IsSameMeansEqualNets(a, c);
  }

  /** Quantities written with the same terms in any order are the same. */
  lemma IsSameIgnoresOrder(q1: Quantity, q2: Quantity)
    requires multiset(q1.dimensions) == multiset(q2.dimensions)
    ensures IsSame(q1, q2)
  {
    forall t ensures Net(q1.dimensions, t) == Net(q2.dimensions, t) {
      NetOfPermutation(q1.dimensions, q2.dimensions, t);
    }
    IsSameMeansEqualNets(q1, q2);
  }

  /** The simplified form is reduced, is the same quantity, and simplifying again changes nothing. */
  lemma SimplifiedIsReducedAndSame(q: Quantity)
    ensures IsReduced(Simplified(q).dimensions)
    ensures IsSame(Simplified(q), q)
    ensures Simplified(Simplified(q)) == Simplified(q)
  {
    var r := ReduceDimensions(q.dimensions);
    ReduceCharacterised(q.dimensions, r);
    forall t ensures Net(r, t) == Net(q.dimensions, t) {
      ReduceKeepsNetExponents(q.dimensions, t);
    }
    IsSameMeansEqualNets(Simplified(q), q);
    ReduceIsIdempotent(q.dimensions);
  }

  // ---------------------------------------------------------------------------
  // The operators
  // ---------------------------------------------------------------------------

  /**
   `+` and `-` exist exactly for operands that are the same quantity; on
   operands of one type they return that type, otherwise the first operand's
   reduced form; either way a quantity the same as both operands.
   */
  lemma AddAndSubExistExactlyForSameQuantities(q1: Quantity, q2: Quantity)
    ensures Add(q1, q2).Some? <==> IsSame(q1, q2)
    ensures Sub(q1, q2) == Add(q1, q2)
    ensures q1 == q2 ==> Add(q1, q2) == Some(q1)
    ensures q1 != q2 && IsSame(q1, q2) ==> Add(q1, q2) == Some(Simplified(q1))
    ensures Add(q1, q2).Some? ==> IsSame(Add(q1, q2).value, q1) && IsSame(Add(q1, q2).value, q2)
  {
    IsSameIsEquivalence(q1, q2, q1);
    SimplifiedIsReducedAndSame(q1);
    IsSameIsEquivalence(Simplified(q1), q1, q2);
  }

  /** `*` returns an already-reduced quantity whose net exponents are the sums of the operands'. */
  lemma MulAddsExponents(q1: Quantity, q2: Quantity, t: Tag)
    ensures IsReduced(Mul(q1, q2).dimensions)
    ensures Simplified(Mul(q1, q2)) == Mul(q1, q2)
    ensures Net(Mul(q1, q2).dimensions, t) == Net(q1.dimensions, t) + Net(q2.dimensions, t)
  {
    var d := q1.dimensions + q2.dimensions;
    ReduceKeepsNetExponents(d, t);
    NetAppend(q1.dimensions, q2.dimensions, t);
    ReduceIsIdempotent(d);
  }

  /** `/` returns an already-reduced quantity whose net exponents are the differences of the operands'. */
  lemma DivSubtractsExponents(q1: Quantity, q2: Quantity, t: Tag)
    ensures IsReduced(Div(q1, q2).dimensions)
    ensures Simplified(Div(q1, q2)) == Div(q1, q2)
    ensures Net(Div(q1, q2).dimensions, t) == Net(q1.dimensions, t) - Net(q2.dimensions, t)
  {
    MulAddsExponents(q1, Quantity(Negate(q2.dimensions)), t);
    NetOfNegate(q2.dimensions, t);
  }

  /** Multiplying by a quantity and dividing by it again gives back the same quantity. */
  lemma MulThenDivIsSame(a: Quantity, b: Quantity)
    ensures IsSame(Div(Mul(a, b), b), a)
  {
    forall t ensures Net(Div(Mul(a, b), b).dimensions, t) == Net(a.dimensions, t) {
      DivSubtractsExponents(Mul(a, b), b, t);
      MulAddsExponents(a, b, t);
    }
    IsSameMeansEqualNets(Div(Mul(a, b), b), a);
  }

  /** Multiplication is commutative and associative up to `b_is_same`. */
  lemma MulIsCommutativeAndAssociative(a: Quantity, b: Quantity, c: Quantity)
    ensures IsSame(Mul(a, b), Mul(b, a))
    ensures IsSame(Mul(Mul(a, b), c), Mul(a, Mul(b, c)))
  {
    forall t ensures Net(Mul(a, b).dimensions, t) == Net(Mul(b, a).dimensions, t)
      && Net(Mul(Mul(a, b), c).dimensions, t) == Net(Mul(a, Mul(b, c)).dimensions, t)
    {
      MulAddsExponents(a, b, t);
      MulAddsExponents(b, a, t);
      MulAddsExponents(Mul(a, b), c, t);
      MulAddsExponents(b, c, t);
      MulAddsExponents(a, Mul(b, c), t);
    }
    IsSameMeansEqualNets(Mul(a, b), Mul(b, a));
    IsSameMeansEqualNets(Mul(Mul(a, b), c), Mul(a, Mul(b, c)));
  }

  /** A quantity divided by itself is exactly the dimensionless quantity `Quantity<>`. */
  lemma DivBySelfIsDimensionless(q: Quantity)
    ensures Div(q, q) == Quantity([])
  {
    var r := Div(q, q).dimensions;
    forall t ensures Lookup(r, t) == Lookup([], t) {
      DivSubtractsExponents(q, q, t);
      NetOfReduced(r, t);
    }
    EmptyByLookup(r, []);
  }

  /** Results of `*` and `/` respect `b_is_same`: same operands give the same result. */
  lemma MulDivRespectIsSame(a: Quantity, a': Quantity, b: Quantity, b': Quantity)
    requires IsSame(a, a') && IsSame(b, b')
    ensures IsSame(Mul(a, b), Mul(a', b'))
    ensures IsSame(Div(a, b), Div(a', b'))
  {
    IsSameMeansEqualNets(a, a');
    IsSameMeansEqualNets(b, b');
    forall t ensures Net(Mul(a, b).dimensions, t) == Net(Mul(a', b').dimensions, t)
      && Net(Div(a, b).dimensions, t) == Net(Div(a', b').dimensions, t)
    {
      MulAddsExponents(a, b, t);
      MulAddsExponents(a', b', t);
      DivSubtractsExponents(a, b, t);
      DivSubtractsExponents(a', b', t);
    }
    IsSameMeansEqualNets(Mul(a, b), Mul(a', b'));
    IsSameMeansEqualNets(Div(a, b), Div(a', b'));
  }
}
