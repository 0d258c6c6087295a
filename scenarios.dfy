/**
 The type-level situations exercised by the repository's usage program,
 stated as lemmas about the model (what each compile-time query evaluates to
 and which type each operator produces), together with cancellation and
 merge cases of the reduction.
 */
module Scenarios {

  import Tags
  import opened Dimensions
  import opened Optional
  import opened TermLists
  import opened Reduction
  import opened QuantityAlgebra
  import opened NamedQuantities

  /** `Quantity<Length^2, Time^2>` */
  const QLLTT: Quantity := Quantity([L(2), T(2)])
  /** `Quantity<Time^2, Length^2>` */
  const QTTLL: Quantity := Quantity([T(2), L(2)])
  /** `Quantity<Length^1, Length^1>`, never reduced */
  const QLL: Quantity := Quantity([L(1), L(1)])
  /** `Quantity<Length^1>` */
  const QL: Quantity := Quantity([L(1)])

  /** `QuantityType<L, M, T, L, M, T>` merges the repeated terms, in first-occurrence order. */
  lemma QuantityTypeMergesRepeats()
    ensures Simplified(Quantity([L(1), M(1), T(1), L(1), M(1), T(1)]))
            == Quantity([L(2), M(2), T(2)])
  {
    ReducesTo([L(1), M(1), T(1), L(1), M(1), T(1)], [L(2), M(2), T(2)]);
  }

  /** Terms that cancel leave nothing; a partial cancellation leaves the difference. */
  lemma CancellingTerms()
    ensures ReduceDimensions([L(1), L(-1)]) == []
    ensures ReduceDimensions([L(2), L(-1)]) == [L(1)]
  {
    ReducesTo([L(1), L(-1)], []);
    ReducesTo([L(2), L(-1)], [L(1)]);
  }

  /** Same-tag terms merge wherever they stand; a tag that cancels out disappears. */
  lemma MergesAcrossTheList()
    ensures ReduceDimensions([M(1), L(2), M(1), T(-2), L(-2)]) == [M(2), T(-2)]
  {
    ReducesTo([M(1), L(2), M(1), T(-2), L(-2)], [M(2), T(-2)]);
  }

  /** `b_contains_dimension` finds a term by its tag alone. */
  lemma ContainsDimensionCases()
    ensures ContainsDimension(Dimensions.Of(Tags.Length), QL)
    ensures !ContainsDimension(Dimensions.Of(Tags.Time), QL)
    ensures !ContainsDimension(Dimensions.Of(Tags.Mass), QTTLL)
    ensures ContainsDimension(Dimensions.Of(Tags.Time), QTTLL)
  {
  }

  /** Term order does not matter to `b_is_same`; differing exponents do. */
  lemma IsSameCases()
    ensures IsSame(QTTLL, QLLTT)
    ensures !IsSame(QTTLL, QLL)
    ensures !IsSame(QLL, QTTLL)
  {
    assert multiset(QTTLL.dimensions) == multiset(QLLTT.dimensions);
    IsSameIgnoresOrder(QTTLL, QLLTT);
    IsSameMeansEqualNets(QTTLL, QLL);
    IsSameMeansEqualNets(QLL, QTTLL);
    assert Net(QTTLL.dimensions, Tags.Time) != Net(QLL.dimensions, Tags.Time);
  }

  /** `q1 + q2` on two `QTTLL` values has type `QTTLL`; `qll + q2` has no operator. */
  lemma AdditionCases()
    ensures Add(QTTLL, QTTLL) == Some(QTTLL)
    ensures Add(QLL, QTTLL) == None
  {
    AddAndSubExistExactlyForSameQuantities(QTTLL, QTTLL);
    AddAndSubExistExactlyForSameQuantities(QLL, QTTLL);
    IsSameCases();
  }

  /** `q1 * q2` doubles every exponent; `q1 / q2` cancels to the dimensionless quantity. */
  lemma ProductAndQuotientOfEqualQuantities()
    ensures Mul(QTTLL, QTTLL) == Quantity([T(4), L(4)])
    ensures Div(QTTLL, QTTLL) == Quantity([])
  {
    assert QTTLL.dimensions + QTTLL.dimensions == [T(2), L(2), T(2), L(2)];
    ReducesTo([T(2), L(2), T(2), L(2)], [T(4), L(4)]);
    DivBySelfIsDimensionless(QTTLL);
  }
}
