/**
 Dimension terms (dimension.h): a base-dimension tag raised to an integer
 exponent. The C++ template `Dimension<Tag, exponent>` exposes its tag as
 `dimension` and its exponent as `exponent`; the datatype uses the same names.
 */
module Dimensions {

  import opened Tags

  /**
   A tag raised to a power. The C++ template refuses (by a static assertion)
   a tag type that carries data; a `Tag` here is a nullary constructor and
   carries none, so every value of this datatype satisfies that assertion.
   */
  datatype Dimension = Dimension(dimension: Tag, exponent: int)

  /** `Dimension<Tag>` with the exponent left out: the exponent defaults to 1. */
  function Of(tag: Tag): (d: Dimension)
    ensures d.dimension == tag && d.exponent == 1
  {
    Dimension(tag, 1)
  }

  /**
   `is_same_dimension<A, B>`: the two terms are over the same tag; their
   exponents play no part.
   */
  predicate IsSameDimension(a: Dimension, b: Dimension)
  {
    a.dimension == b.dimension
  }

  /** Changing either exponent never changes whether two terms are the same dimension. */
  lemma IsSameDimensionIgnoresExponents(t: Tag, u: Tag, e1: int, e2: int, f1: int, f2: int)
    ensures IsSameDimension(Dimension(t, e1), Dimension(u, e2))
            == IsSameDimension(Dimension(t, f1), Dimension(u, f2))
    ensures IsSameDimension(Dimension(t, e1), Dimension(u, e2)) <==> t == u
  {
  }
}
