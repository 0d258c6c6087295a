# Units: the dimension algebra, in Dafny

Units is a C++ header library. Its physical quantities are types, and the
compiler checks dimensional analysis. A `Dimension<Tag, e>` is a base
dimension (time, length, mass, …) raised to an integer power. A
`Quantity<Ds...>` is a list of such terms. Template recursion computes, at
compile time, the following:

- the reduced form of a term list (`Reduce`, `QuantityType`): same-tag terms
  merged, zero exponents dropped, tags in first-occurrence order;
- tag search (`Contains`) and quantity equivalence (`HasDimensions`,
  `b_is_same`);
- the result types of `+ - * /` on quantities;
- a catalogue of derived quantities (velocity, force, energy, pressure, …).

This project models that engine as pure Dafny functions:

- A `Tag` is a datatype of field-less constructors.
- A `Dimension` is a datatype with fields `dimension` and `exponent`.
- A `Quantity` wraps a `seq<Dimension>`.
- A `TypeList` is a `seq`.

`b_is_quantity` (quantity.h:211-215) is false for every C++ type that is not
a `Quantity`. The model has only `Quantity` values, so its counterpart,
`QuantityAlgebra.IsQuantity`, is true of every value and has no row below.

`Reduce` keeps the comparator, result, stored and remaining accumulators of
the six C++ overloads. It is proved equal to an independent reference
definition, `Reduction.Canonical`. Its result is then characterised in both
directions. The properties of `b_is_same`, the operators and the catalogue
follow from that characterisation.

Files:

- `tags.dfy`, `optional.dfy`: the tag datatype and an `Option` type.
- `dimension.dfy`, `base_dimensions.dfy`: dimension.h and the base dimensions
  of dimensions.h.
- `typelist.dfy`: typelist.h.
- `term_lists.dfy`: specification vocabulary: net exponent, lookup, removal
  of a tag, reducedness, first-occurrence order.
- `reduce.dfy`: `Reduce`, `reduceDimensions`, the reference definition and
  the characterisation.
- `compare.dfy`: `Contains` and `HasDimensions`.
- `quantity.dfy`: `Negate`, `b_contains_dimension`, `b_is_same`,
  `Simplified`, the operators.
- `quantities.dfy`: the catalogue of quantities.h.
- `scenarios.dfy`: the type-level cases the repository's usage program
  exercises, plus cancellation and merge cases of the reduction.

## Model

| member | source | states |
|---|---|---|
| Dimensions.Of | dimension.h:13-19 | A dimension written without an exponent has exponent 1; the term exposes its tag as `dimension` and its power as `exponent` |
| Dimensions.IsSameDimensionIgnoresExponents | dimension.h:22-26 | `is_same_dimension` holds exactly when the two tags are equal, and changing either exponent never changes its answer |
| BaseDimensions.BaseDimensionsHaveDefaultExponent | dimensions.h:13-22 | Each of the nine base dimensions is its tag with the default exponent 1; this records the declarations and holds by definition |
| TypeLists.Size | typelist.h:11-44 | `size` is 0 for the empty list, 1 for a one-element list and 1 + `base::size` otherwise, which is the number of elements |
| TypeLists.TypeAndBaseRebuildTheList | typelist.h:36-44 | A list of two or more types is its `type` followed by its `base`, and its size is one more than its base's |
| TypeLists.HasType | typelist.h:29-50 | The intended `hasType<U>` recursion is true exactly when U is an element of the list |
| TypeLists.HasTypeAsWritten | typelist.h:46-50 | `hasType` as written has an answer only on one-element lists, and there it agrees with the intended one |
| TypeLists.HasTypeAsWrittenFailsOnTwoElements | typelist.h:49 | On the two-element list [1, 2] the as-written `hasType` does not exist, while the intended one finds 1 and rejects 3 |
| Reduction.ReduceIsCanonical | quantity.h:31-73 | The six-overload accumulator recursion computes the reference canonical form: each tag in first-occurrence order with its net exponent, zero nets dropped |
| Reduction.ReduceCharacterised | quantity.h:31-73 | For every input and candidate: the candidate is the reduced list exactly when it repeats no tag, holds no zero exponent, holds each tag's net input exponent (absent exactly when that net is 0) and lists tags in first-occurrence order |
| Reduction.ReduceKeepsNetExponents | quantity.h:39-73 | Reduction keeps every tag's net exponent; a tag is in the result exactly when its net is non-zero; the result is reduced |
| Reduction.ReduceIsIdempotent | quantity.h:142-151 | No terms reduce to no terms; an already-reduced list is returned unchanged; reducing twice equals reducing once |
| Reduction.ReducedIsFixedPoint | quantity.h:31-73 | A list with no repeated tag and no zero exponent reduces to itself |
| Reduction.ReduceIgnoresInputOrder | quantity.h:31-73 | Inputs that are permutations of each other reduce to results with the same (tag, exponent) pairs |
| Reduction.CanonicalLookup | quantity.h:31-73 | In the reference form, each tag's entry is its net exponent in the input, or nothing when that is 0 |
| Reduction.CanonicalIsReduced | quantity.h:31-73 | The reference form never repeats a tag and never holds a zero exponent |
| Reduction.CanonicalOrder | quantity.h:31-52 | The reference form lists its tags in the order they first occur in the input |
| Reduction.ReducedFormIsUnique | quantity.h:31-73 | Two reduced lists with the same (tag, exponent) pairs and the same first-occurrence order in one input are equal |
| Reduction.ReducesTo | quantity.h:142-151 | A candidate that passes a term-by-term check (net exponents, no repeats, order, every input tag covered) is the reduced form of the input |
| Comparison.Contains | quantity.h:77-96 | `Contains` is true exactly when some term of the list has the searched term's tag |
| Comparison.ContainsIgnoresExponent | quantity.h:84-96 | `Contains` gives the same answer whatever exponent is searched for, and finds a tag exactly when it occurs in the list |
| Comparison.HasDimensionsMeaning | quantity.h:98-140 | `HasDimensions<A, B, B>` holds exactly when each term of A has the same exponent as the first term of B with its tag |
| Comparison.HasDimensionsEdgeCases | quantity.h:128-140 | An empty A is always found; a non-empty A is never found in an empty B |
| QuantityAlgebra.Negate | quantity.h:156-172 | Negation keeps length, tags and their order, and flips the sign of every exponent |
| QuantityAlgebra.NegateIsInvolution | quantity.h:156-172 | The empty list negates to itself, and negating twice gives back the list |
| QuantityAlgebra.NetOfNegate | quantity.h:156-172 | Negation flips the sign of every tag's net exponent |
| QuantityAlgebra.ContainsDimension | quantity.h:175-180 | `b_contains_dimension` searches the quantity's raw, unreduced terms by tag |
| QuantityAlgebra.IsSameMeansEqualNets | quantity.h:182-185 | `b_is_same` on two quantities holds exactly when every tag has the same net exponent in both |
| QuantityAlgebra.IsSameIsEquivalence | quantity.h:182-185 | `b_is_same` on quantities is reflexive, symmetric and transitive |
| QuantityAlgebra.IsSameIgnoresOrder | quantity.h:182-185 | Quantities whose terms are permutations of each other are the same quantity |
| QuantityAlgebra.SimplifiedIsReducedAndSame | quantity.h:187-191 | `Simplified` is reduced, is the same quantity as the original, and simplifying again changes nothing |
| QuantityAlgebra.AddAndSubExistExactlyForSameQuantities | quantity.h:193-203 | `+` and `-` exist exactly for operands that are the same quantity; identical operand types give that type back; otherwise the result is `QuantityType` of the left operand; the result is the same quantity as both operands |
| QuantityAlgebra.MulAddsExponents | quantity.h:205-206 | The type of `a * b` is reduced and, for every tag, carries the sum of the operands' net exponents |
| QuantityAlgebra.DivSubtractsExponents | quantity.h:208-209 | The type of `a / b` is reduced and, for every tag, carries the left net exponent minus the right |
| QuantityAlgebra.MulThenDivIsSame | quantity.h:205-209 | `(a * b) / b` is the same quantity as `a` |
| QuantityAlgebra.MulIsCommutativeAndAssociative | quantity.h:205-206 | `a * b` is the same quantity as `b * a`, and `(a * b) * c` as `a * (b * c)` |
| QuantityAlgebra.DivBySelfIsDimensionless | quantity.h:205-209 | `q / q` is exactly the dimensionless `Quantity<>` |
| QuantityAlgebra.MulDivRespectIsSame | quantity.h:205-209 | Replacing operands of `*` or `/` by the same quantities gives the same quantity |
| NamedQuantities.BaseQuantitiesAreSingleTerms | quantities.h:15-26 | Each base quantity is a single term of its tag with exponent 1, and is already reduced |
| NamedQuantities.DimensionlessIsEmpty | quantities.h:65 | `Dimensionless` (declared at lines 13 and 24) is the empty quantity, `Strain` is that very type, and it is already reduced |
| NamedQuantities.AreaAndVolume | quantities.h:29-30 | `Area` reduces to Length^2 and `Volume` to Length^3 |
| NamedQuantities.FrequencyIsPerTime | quantities.h:28 | `Frequency` = Dimensionless / Time is Time^-1 |
| NamedQuantities.VelocityIsLengthPerTime | quantities.h:39 | `Velocity` is Length^1 Time^-1 |
| NamedQuantities.AccelerationIsVelocityPerTime | quantities.h:41 | `Acceleration` is Length^1 Time^-2 |
| NamedQuantities.JerkIsAccelerationPerTime | quantities.h:42 | `Jerk` is Length^1 Time^-3 |
| NamedQuantities.ForceIsMassTimesAcceleration | quantities.h:48 | `Force` = Mass × Acceleration is Mass^1 Length^1 Time^-2 |
| NamedQuantities.EnergyIsForceTimesLength | quantities.h:53 | `Energy` = Force × Length is Mass^1 Length^2 Time^-2 |
| NamedQuantities.PressureIsEnergyPerVolume | quantities.h:63 | `Pressure` = Energy / Volume is Mass^1 Length^-1 Time^-2 |
| NamedQuantities.AliasesAreIdentical | quantities.h:33-88 | Each alias is the very same type as its target; holds by the catalogue's definitions |
| NamedQuantities.ForceFromBaseQuantities | quantities.h:48 | Mass × (Length / (Time × Time)) is exactly the catalogue's `Force` |
| NamedQuantities.VelocityTimesTimeIsLength | quantities.h:39 | Velocity × Time is exactly `Length` |
| NamedQuantities.LengthPerTimePerTimeIsAcceleration | quantities.h:39-41 | (Length / Time) / Time is exactly `Acceleration`; holds by the catalogue's definition of `Acceleration` |
| Scenarios.QuantityTypeMergesRepeats | tests.cpp:40-46 | `QuantityType<L, M, T, L, M, T>` is `Quantity<L^2, M^2, T^2>` |
| Scenarios.CancellingTerms | quantity.h:54-73 | L^1 L^-1 reduces to nothing; L^2 L^-1 reduces to L^1 |
| Scenarios.MergesAcrossTheList | quantity.h:31-73 | M^1 L^2 M^1 T^-2 L^-2 reduces to M^2 T^-2: same-tag terms merge wherever they stand |
| Scenarios.ContainsDimensionCases | tests.cpp:55-58 | Length is in `Quantity<L>` and Time is not; Mass is not in `Quantity<T^2, L^2>` and Time is |
| Scenarios.IsSameCases | tests.cpp:49-61 | `Quantity<T^2, L^2>` is the same as `Quantity<L^2, T^2>` but not as the unreduced `Quantity<L, L>`, in either order |
| Scenarios.AdditionCases | tests.cpp:63-67 | Adding two `Quantity<T^2, L^2>` values gives that type; adding `Quantity<L, L>` to it has no operator |
| Scenarios.ProductAndQuotientOfEqualQuantities | tests.cpp:69-72 | `q1 * q2` on `Quantity<T^2, L^2>` is `Quantity<T^4, L^4>`; `q1 / q2` is `Quantity<>` |

## Left out

- Exponents are unbounded integers. The C++ `int` template argument could in principle overflow when exponents are summed; the model does not capture that.
- Compile-time rejection (a missing overload for `+`/`-`, the `static_assert` on data-carrying tags) is modelled as data: `Add`/`Sub` return `None`, and tags are field-less datatype constructors. The compiler's diagnostics are not modelled.
- `b_is_same<T, T>` (util.h) and the `Quantity` partial specialisation both match two identical quantity types; a C++ compiler may reject that as ambiguous. The model uses the quantity rule for every pair. On identical operands the two rules agree (both true, by `QuantityAlgebra.IsSameIsEquivalence`).
- `TypeList` construction, destruction and the `declval`-based conversions between `TypeList` and `Quantity` have no behaviour; lists are plain sequences.
- The catalogue constants are all defined. Reduced forms are proved for the principal ones listed in the table; the following are defined but their reduced forms are not evaluated: AngularVelocity, AngularAcceleration, Momentum (and its alias Impulse), MomentOfInertia, AngularMomentum, Moment (and its alias Torque), Power, Intensity, AreaDensity, Density, SpecificVolume, Stiffness, DynamicViscosity, KinematicViscosity, MassFlowRate, VolumetricFlowRate, Entropy, SpecificHeat, SpecificEnergy, HeatFluxDensity, Charge, ChargeDensity, ElectricPotential (and its alias Voltage), ElectricField, Resistance (and its alias Impedance), ElectricalResistivity, ElectricalConductance, MagneticFluxDensity, MagneticFlux, Capacitance, CurrentDensity, ChemicalPotential and Concentration.
- unit.h (runtime values and their float arithmetic), conversions.h (floating-point ratio, linear and logarithmic conversions), units.h (aliases) and util.h (SFINAE detection, `sizeof` tricks, enable-if plumbing) are not part of this model.
- TypeLists.HasType compares elements by identity (Dafny `==`). The source compares with `b_is_same<T, U>` (typelist.h:32 and 49), which is identity for every element type except a pair of `Quantity` types: for those the partial specialisation at quantity.h:182-185 applies, so `TypeList<QLLTT>().hasType<QTTLL>()` is true in C++ while the model answers false. Nothing in the modelled core calls `hasType` on quantities.
- Printing and `typeid` output in the usage program are not modelled; only its type-level expectations are stated as lemmas.

## Findings

| source | as written | input that shows it | evidently intended | confidence | as-written member | corrected member |
|---|---|---|---|---|---|---|
| typelist.h:49 | The recursive `hasType<U>()` of `TypeList<T, Ts...>` calls `base::template has_type<U>()`, a member that no `TypeList` declares | `TypeList<int, long>::hasType<int>()` | `b_is_same<T, U> \|\| base::template hasType<U>()`, with `static` also added to the one-element `hasType` at typelist.h:30 (the static `hasType` of longer lists could not otherwise call it without an object): true exactly when U is one of the list's types | not executed | TypeLists.HasTypeAsWritten | TypeLists.HasType |
