/**
 The comparison helpers of quantity.h: `Contains`, a search of a term list by
 tag, and `HasDimensions`, which checks that every term of one list appears,
 with the same exponent, in another.
 */
module Comparison {

  import opened Tags
  import opened Dimensions
  import opened Optional
  import opened TermLists

  /**
   `Contains<Dimension<T, e>, TypeList<...>>`: false on the empty list; true as
   soon as a term has tag T, whatever either exponent is; otherwise the search
   goes on in the rest of the list.
   */
  function Contains(d: Dimension, l: seq<Dimension>): (r: bool)
    ensures r <==> exists i | 0 <= i < |l| :: IsSameDimension(d, l[i])
  {
    if l == [] then false
    else if l[0].dimension == d.dimension then true
    else Contains(d, l[1..])
  }

  /** What `Contains` finds does not depend on the exponent it is asked about. */
  lemma ContainsIgnoresExponent(t: Tag, e1: int, e2: int, l: seq<Dimension>)
    ensures Contains(Dimension(t, e1), l) == Contains(Dimension(t, e2), l)
    ensures Contains(Dimension(t, e1), l) <==> IndexOfTag(l, t) < |l|
  {
  }

  /**
   `HasDimensions<A, B, BReducing>`, one branch per C++ specialisation:
   - A is empty: true;
   - the head of BReducing has another tag than A's head: B must contain A's
     head's tag, and the search goes on in the rest of BReducing;
   - the head of BReducing has A's head's tag: the exponents must be equal,
     and the rest of A is checked against the whole of B again;
   - BReducing is exhausted and A has more than one term: the rest of A is
     checked against the whole of B;
   - BReducing is exhausted and A has one term: B must contain its tag.
   */
  function HasDimensions(a: seq<Dimension>, b: seq<Dimension>, bReducing: seq<Dimension>): bool
    decreases |a|, |bReducing|
  {
    if a == [] then true
    else if bReducing != [] then
      if bReducing[0].dimension != a[0].dimension then
        Contains(a[0], b) && HasDimensions(a, b, bReducing[1..])
      else
        a[0].exponent == bReducing[0].exponent && HasDimensions(a[1..], b, b)
    else if |a| > 1 then
      HasDimensions(a[1..], b, b)
    else
      Contains(a[0], b)
  }

  /**
   The scan along B for A's head, started at position k before which B has
   no term with that tag: it answers whether B's first term with the tag has
   A's head's exponent, and then whether the rest of A is in B.
   */
  lemma {:induction false} HasDimensionsScan(a: seq<Dimension>, b: seq<Dimension>, k: nat)
    requires a != [] && k < |b|
    requires forall i | 0 <= i < k :: b[i].dimension != a[0].dimension
    ensures HasDimensions(a, b, b[k..])
            <==> Lookup(b, a[0].dimension) == Some(a[0].exponent) && HasDimensions(a[1..], b, b)
    decreases |b| - k
  {
    var t := a[0].dimension;
    assert b[k..][1..] == b[k + 1..];
    if b[k].dimension == t {
      assert IndexOfTag(b, t) == k;
    } else if k + 1 < |b| {
      HasDimensionsScan(a, b, k + 1);
      if Lookup(b, t) == Some(a[0].exponent) {
        assert Contains(a[0], b) by {
          assert IsSameDimension(a[0], b[IndexOfTag(b, t)]);
        }
      }
    } else {
      assert b[k + 1..] == [];
      assert forall i | 0 <= i < |b| :: b[i].dimension != t;
      assert IndexOfTag(b, t) == |b|;
      assert !Contains(a[0], b);
    }
  }

  /**
   `HasDimensions<A, B, B>` holds exactly when every term of A meets, as the
   first term of B with its tag, a term with the same exponent.
   */
  lemma {:induction false} HasDimensionsMeaning(a: seq<Dimension>, b: seq<Dimension>)
    ensures HasDimensions(a, b, b)
            <==> forall i | 0 <= i < |a| :: Lookup(b, a[i].dimension) == Some(a[i].exponent)
    decreases |a|
  {
    if a != [] {
      HasDimensionsMeaning(a[1..], b);
      assert forall i | 1 <= i < |a| :: a[i] == a[1..][i - 1];
      if b != [] {
        HasDimensionsScan(a, b, 0);
        assert b[0..] == b;
      } else if |a| > 1 {
        assert Lookup(b, a[1].dimension) == None;
        assert a[1] == a[1..][0];
      }
    }
  }

  /** The edge cases: an empty A is always found; a non-empty A is never found in an empty B. */
  lemma HasDimensionsEdgeCases(a: seq<Dimension>, b: seq<Dimension>)
    ensures HasDimensions([], b, b)
    ensures a != [] ==> !HasDimensions(a, [], [])
  {
    if a != [] {
      HasDimensionsMeaning(a, []);
      assert Lookup([], a[0].dimension) == None;
    }
  }
}
