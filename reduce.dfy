/**
 The reduction algorithm of quantity.h (`Reduce::reduce`, `reduceDimensions`,
 `ReducedDimensionsList`): it merges the terms of a quantity that share a tag
 by summing their exponents, drops tags whose exponents cancel to zero, and
 lists the survivors in the order their tags first occur.
 */
module Reduction {

  import opened Tags
  import opened Dimensions
  import opened Optional
  import opened TermLists

  /**
   `Reduce::reduce(comparator, result, stored, remaining...)`, one branch per
   C++ overload:
   - the next remaining term has another tag: it is appended to `stored`;
   - the next remaining term has the comparator's tag: its exponent is added
     to the comparator's and the term is consumed;
   - nothing remains and `stored` is not empty: the comparator is appended to
     `result` unless its exponent is zero, the head of `stored` becomes the new
     comparator and the rest of `stored` the new remaining terms;
   - nothing remains and nothing is stored: the comparator is appended to
     `result` unless its exponent is zero, and that is the answer.
   */
  function ReduceStep(comparator: Dimension, result: seq<Dimension>,
                      stored: seq<Dimension>, remaining: seq<Dimension>): seq<Dimension>
    decreases |remaining| + |stored|, |remaining|
  {
    if remaining != [] then
      var next := remaining[0];
      if next.dimension != comparator.dimension then
        ReduceStep(comparator, result, stored + [next], remaining[1..])
      else
        ReduceStep(Dimension(comparator.dimension, comparator.exponent + next.exponent),
                   result, stored, remaining[1..])
    else if stored != [] then
      if comparator.exponent != 0 then
        ReduceStep(stored[0], result + [comparator], [], stored[1..])
      else
        ReduceStep(stored[0], result, [], stored[1..])
    else if comparator.exponent != 0 then
      result + [comparator]
    else
      result
  }

  /**
   `reduceDimensions(ds...)` and `ReducedDimensionsList<ds...>`: no terms give
   the empty list; otherwise the first term is the first comparator and the
   rest are the remaining terms.
   */
  function ReduceDimensions(ds: seq<Dimension>): seq<Dimension>
  {
    if ds == [] then [] else ReduceStep(ds[0], [], [], ds[1..])
  }

  /**
   A reference definition of the canonical form, independent of the
   accumulators: the first tag with its net exponent (when that is not zero),
   followed by the canonical form of everything else with that tag removed.
   */
  function Canonical(ds: seq<Dimension>): seq<Dimension>
    decreases |ds|
  {
    if ds == [] then []
    else
      var t := ds[0].dimension;
      var n := Net(ds, t);
      (if n != 0 then [Dimension(t, n)] else []) + Canonical(RemoveTag(ds[1..], t))
  }

  // ---------------------------------------------------------------------------
  // The accumulator algorithm computes the reference definition
  // ---------------------------------------------------------------------------

  lemma CanonicalCons(c: Dimension, s: seq<Dimension>)
    ensures Canonical([c] + s)
            == (if Net([c] + s, c.dimension) != 0 then [Dimension(c.dimension, Net([c] + s, c.dimension))] else [])
               + Canonical(RemoveTag(s, c.dimension))
  {
    assert ([c] + s)[1..] == s;
  }

  /** Folding a same-tag term into the comparator does not change the canonical form of the whole. */
  lemma MergeIntoComparator(c: Dimension, stored: seq<Dimension>, remaining: seq<Dimension>)
    requires remaining != [] && remaining[0].dimension == c.dimension
    requires forall i | 0 <= i < |stored| :: stored[i].dimension != c.dimension
    ensures Canonical([Dimension(c.dimension, c.exponent + remaining[0].exponent)] + (stored + remaining[1..]))
            == Canonical([c] + (stored + remaining))
  {
    var t := c.dimension;
    var c' := Dimension(t, c.exponent + remaining[0].exponent);
    CanonicalCons(c', stored + remaining[1..]);
    CanonicalCons(c, stored + remaining);
    MergedNet(c, stored, remaining);
    MergedRemoveTag(stored, remaining, t);
  }

  lemma MergedNet(c: Dimension, stored: seq<Dimension>, remaining: seq<Dimension>)
    requires remaining != [] && remaining[0].dimension == c.dimension
    requires forall i | 0 <= i < |stored| :: stored[i].dimension != c.dimension
    ensures Net([Dimension(c.dimension, c.exponent + remaining[0].exponent)] + (stored + remaining[1..]), c.dimension)
            == Net([c] + (stored + remaining), c.dimension)
            == c.exponent + Net(remaining, c.dimension)
  {
    var t := c.dimension;
    var c' := Dimension(t, c.exponent + remaining[0].exponent);
    NetAbsent(stored, t);
    NetAppend([c], stored + remaining, t);
    NetAppend(stored, remaining, t);
    NetAppend([c'], stored + remaining[1..], t);
    NetAppend(stored, remaining[1..], t);
    assert Net(remaining, t) == remaining[0].exponent + Net(remaining[1..], t);
    assert Net([c], t) == c.exponent;
    assert Net([c'], t) == c'.exponent;
  }

  lemma MergedRemoveTag(stored: seq<Dimension>, remaining: seq<Dimension>, t: Tag)
    requires remaining != [] && remaining[0].dimension == t
    ensures RemoveTag(stored + remaining[1..], t) == RemoveTag(stored + remaining, t)
  {
    RemoveTagAppend(stored, remaining, t);
    RemoveTagAppend(stored, remaining[1..], t);
    assert RemoveTag(remaining, t) == RemoveTag(remaining[1..], t);
  }

  /** A comparator whose tag no stored term has is final: it is emitted (if not zero) ahead of the rest. */
  lemma ComparatorIsFinal(c: Dimension, stored: seq<Dimension>)
    requires forall i | 0 <= i < |stored| :: stored[i].dimension != c.dimension
    ensures Canonical([c] + stored) == (if c.exponent != 0 then [c] else []) + Canonical(stored)
  {
    var t := c.dimension;
    CanonicalCons(c, stored);
    NetAppend([c], stored, t);
    NetAbsent(stored, t);
    assert Net([c], t) == c.exponent;
    assert Net([c] + stored, t) == c.exponent;
    RemoveTagAbsent(stored, t);
    assert Canonical(RemoveTag(stored, t)) == Canonical(stored);
  }

  /**
   The invariant of the accumulators: whatever the state, `ReduceStep` returns
   `result` followed by the canonical form of the comparator, the stored terms
   and the remaining terms taken together, provided no stored term has the
   comparator's tag (which every call of the algorithm ensures).
   */
  lemma {:induction false} ReduceStepComputesCanonical(comparator: Dimension, result: seq<Dimension>,
                                                       stored: seq<Dimension>, remaining: seq<Dimension>)
    requires forall i | 0 <= i < |stored| :: stored[i].dimension != comparator.dimension
    ensures ReduceStep(comparator, result, stored, remaining)
            == result + Canonical([comparator] + (stored + remaining))
    decreases |remaining| + |stored|, |remaining|, 2
  {
    var c := comparator;
    if remaining != [] {
      var next := remaining[0];
      if next.dimension != c.dimension {
        assert ReduceStep(c, result, stored, remaining) == ReduceStep(c, result, stored + [next], remaining[1..]);
        ReduceStepComputesCanonical(c, result, stored + [next], remaining[1..]);
        assert (stored + [next]) + remaining[1..] == stored + remaining;
      } else {
        var c' := Dimension(c.dimension, c.exponent + next.exponent);
        assert ReduceStep(c, result, stored, remaining) == ReduceStep(c', result, stored, remaining[1..]);
        ReduceStepComputesCanonical(c', result, stored, remaining[1..]);
        MergeIntoComparator(c, stored, remaining);
      }
    } else if stored != [] {
      FlushComparator(c, result, stored);
    } else {
      assert stored + remaining == [];
      ComparatorIsFinal(c, []);
    }
  }

  /** With nothing left to scan, the comparator is emitted and the stored terms are scanned next. */
  lemma {:induction false} FlushComparator(c: Dimension, result: seq<Dimension>, stored: seq<Dimension>)
    requires stored != []
    requires forall i | 0 <= i < |stored| :: stored[i].dimension != c.dimension
    ensures ReduceStep(c, result, stored, []) == result + Canonical([c] + (stored + []))
    decreases |stored|, 0, 1
  {
    var emitted := if c.exponent != 0 then [c] else [];
    var result' := result + emitted;
    if c.exponent == 0 {
      assert result' == result;
    }
    assert ReduceStep(c, result, stored, []) == ReduceStep(stored[0], result', [], stored[1..]);
    ReduceStepComputesCanonical(stored[0], result', [], stored[1..]);
    assert [stored[0]] + ([] + stored[1..]) == stored;
    ComparatorIsFinal(c, stored);
    assert stored + [] == stored;
    assert result' + Canonical(stored) == result + (emitted + Canonical(stored));
  }

  /** `reduceDimensions` computes the reference canonical form. */
  lemma ReduceIsCanonical(ds: seq<Dimension>)
    ensures ReduceDimensions(ds) == Canonical(ds)
  {
    if ds != [] {
      ReduceStepComputesCanonical(ds[0], [], [], ds[1..]);
      assert [ds[0]] + ([] + ds[1..]) == ds;
    }
  }

  // ---------------------------------------------------------------------------
  // What reduction computes
  // ---------------------------------------------------------------------------

  /**
   The result of `reduceDimensions` is exactly the list that (1) never repeats
   a tag and never holds a zero exponent, (2) holds for every tag its net
   exponent in the input, absent when that is zero, and (3) lists its tags in
   the order they first occur in the input. Both directions hold: these three
   facts determine the result.
   */
  lemma ReduceCharacterised(ds: seq<Dimension>, r: seq<Dimension>)
    ensures r == ReduceDimensions(ds)
            <==> IsReduced(r) && (forall t :: Lookup(r, t) == NetExponent(ds, t)) && InFirstOccurrenceOrder(r, ds)
  {
    ReduceIsCanonical(ds);
    var c := Canonical(ds);
    CanonicalIsReduced(ds);
    CanonicalOrder(ds);
    forall t ensures Lookup(c, t) == NetExponent(ds, t) {
      CanonicalLookup(ds, t);
    }
    if IsReduced(r) && (forall t :: Lookup(r, t) == NetExponent(ds, t)) && InFirstOccurrenceOrder(r, ds) {
      ReducedFormIsUnique(r, c, ds);
    }
  }

  /** Reduction keeps every tag's net exponent; a tag is present in the result exactly when that net is not zero. */
  lemma ReduceKeepsNetExponents(ds: seq<Dimension>, t: Tag)
    ensures Net(ReduceDimensions(ds), t) == Net(ds, t)
    ensures Lookup(ReduceDimensions(ds), t) == NetExponent(ds, t)
    ensures IsReduced(ReduceDimensions(ds))
  {
    ReduceCharacterised(ds, ReduceDimensions(ds));
    NetOfReduced(ReduceDimensions(ds), t);
  }

  /** No terms reduce to no terms; a reduced list reduces to itself, so reducing twice is reducing once. */
  lemma ReduceIsIdempotent(ds: seq<Dimension>)
    ensures ReduceDimensions([]) == []
    ensures IsReduced(ds) ==> ReduceDimensions(ds) == ds
    ensures ReduceDimensions(ReduceDimensions(ds)) == ReduceDimensions(ds)
  {
    if IsReduced(ds) {
      ReducedIsFixedPoint(ds);
    }
    var r := ReduceDimensions(ds);
    ReduceCharacterised(ds, r);
    ReducedIsFixedPoint(r);
  }

  lemma ReducedIsFixedPoint(ds: seq<Dimension>)
    requires IsReduced(ds)
    ensures ReduceDimensions(ds) == ds
  {
    forall t ensures Lookup(ds, t) == NetExponent(ds, t) {
      NetOfReduced(ds, t);
    }
    forall i, j | 0 <= i < j < |ds|
      ensures IndexOfTag(ds, ds[i].dimension) < IndexOfTag(ds, ds[j].dimension)
    {
      ReducedIndex(ds, i);
      ReducedIndex(ds, j);
    }
    forall i | 0 <= i < |ds| ensures IndexOfTag(ds, ds[i].dimension) < |ds| {
      ReducedIndex(ds, i);
    }
    ReduceCharacterised(ds, ds);
  }

  lemma ReducedIndex(ds: seq<Dimension>, i: nat)
    requires IsReduced(ds) && i < |ds|
    ensures IndexOfTag(ds, ds[i].dimension) == i
  {
  }

  /**
   Reordering the input may reorder the result but never changes its
   (tag, exponent) pairs.
   */
  lemma ReduceIgnoresInputOrder(a: seq<Dimension>, b: seq<Dimension>, t: Tag)
    requires multiset(a) == multiset(b)
    ensures Lookup(ReduceDimensions(a), t) == Lookup(ReduceDimensions(b), t)
  {
    ReduceKeepsNetExponents(a, t);
    ReduceKeepsNetExponents(b, t);
    NetOfPermutation(a, b, t);
  }

  // ---------------------------------------------------------------------------
  // Checking a concrete reduction
  // ---------------------------------------------------------------------------

  /** Lookup written as a plain scan, which the verifier evaluates on literal lists. */
  function LookupByScan(r: seq<Dimension>, t: Tag): Option<int>
  {
    if r == [] then None
    else if r[0].dimension == t then Some(r[0].exponent)
    else LookupByScan(r[1..], t)
  }

  lemma {:induction false} LookupByScanIsLookup(r: seq<Dimension>, t: Tag)
    ensures LookupByScan(r, t) == Lookup(r, t)
  {
    if r != [] {
      LookupByScanIsLookup(r[1..], t);
      LookupCons(r[0], r[1..], t);
      assert r == [r[0]] + r[1..];
    }
  }

  /** IndexOfTag written as a plain scan, which the verifier evaluates on literal lists. */
  function IndexByScan(ds: seq<Dimension>, t: Tag): nat
  {
    if ds == [] || ds[0].dimension == t then 0 else 1 + IndexByScan(ds[1..], t)
  }

  lemma {:induction false} IndexByScanIsIndexOfTag(ds: seq<Dimension>, t: Tag)
    ensures IndexByScan(ds, t) == IndexOfTag(ds, t)
  {
    if ds != [] {
      IndexByScanIsIndexOfTag(ds[1..], t);
    }
  }

  /**
   What each term of a candidate `r` must satisfy, checked term by term: a
   non-zero exponent equal to its tag's net exponent in `ds`, a tag that no
   later term of `r` repeats, and a tag that occurs in `ds` before the next
   term's tag does.
   */
  predicate TermsHold(r: seq<Dimension>, ds: seq<Dimension>)
    decreases |r|
  {
    r == [] ||
    (&& r[0].exponent != 0
     && Net(ds, r[0].dimension) == r[0].exponent
     && LookupByScan(r[1..], r[0].dimension) == None
     && IndexByScan(ds, r[0].dimension) < |ds|
     && (|r| == 1 || IndexByScan(ds, r[0].dimension) < IndexByScan(ds, r[1].dimension))
     && TermsHold(r[1..], ds))
  }

  /** Every term of `part` has a tag that `r` holds or whose net exponent in `ds` is zero. */
  predicate Covered(part: seq<Dimension>, r: seq<Dimension>, ds: seq<Dimension>)
    decreases |part|
  {
    part == [] ||
    ((LookupByScan(r, part[0].dimension) != None || Net(ds, part[0].dimension) == 0)
     && Covered(part[1..], r, ds))
  }

  lemma {:induction false} TermsHoldGiveReduced(r: seq<Dimension>, ds: seq<Dimension>)
    requires TermsHold(r, ds)
    ensures IsReduced(r)
    ensures forall i | 0 <= i < |r| :: Net(ds, r[i].dimension) == r[i].exponent
    decreases |r|
  {
    if r != [] {
      TermsHoldGiveReduced(r[1..], ds);
      LookupByScanIsLookup(r[1..], r[0].dimension);
      assert IndexOfTag(r[1..], r[0].dimension) == |r[1..]|;
      forall i, j | 0 <= i < j < |r| ensures r[i].dimension != r[j].dimension {
        assert r[j] == r[1..][j - 1];
        if i > 0 {
          assert r[i] == r[1..][i - 1];
        }
      }
      forall i | 0 <= i < |r| ensures Net(ds, r[i].dimension) == r[i].exponent && r[i].exponent != 0 {
        if i > 0 {
          assert r[i] == r[1..][i - 1];
        }
      }
    }
  }

  lemma {:induction false} TermsHoldGiveOrder(r: seq<Dimension>, ds: seq<Dimension>)
    requires TermsHold(r, ds)
    ensures InFirstOccurrenceOrder(r, ds)
    decreases |r|
  {
    if r != [] {
      TermsHoldGiveOrder(r[1..], ds);
      IndexByScanIsIndexOfTag(ds, r[0].dimension);
      if |r| > 1 {
        IndexByScanIsIndexOfTag(ds, r[1].dimension);
      }
      forall i, j | 0 <= i < j < |r|
        ensures IndexOfTag(ds, r[i].dimension) < IndexOfTag(ds, r[j].dimension)
      {
        if i > 0 {
          assert r[i] == r[1..][i - 1] && r[j] == r[1..][j - 1];
        } else if j > 1 {
          assert r[1] == r[1..][0] && r[j] == r[1..][j - 1];
        }
      }
      forall i | 0 <= i < |r| ensures IndexOfTag(ds, r[i].dimension) < |ds| {
        if i > 0 {
          assert r[i] == r[1..][i - 1];
        }
      }
    }
  }

  lemma {:induction false} CoveredGivesNets(part: seq<Dimension>, r: seq<Dimension>, ds: seq<Dimension>)
    requires Covered(part, r, ds)
    ensures forall i | 0 <= i < |part| ::
              LookupByScan(r, part[i].dimension) != None || Net(ds, part[i].dimension) == 0
    decreases |part|
  {
    if part != [] {
      CoveredGivesNets(part[1..], r, ds);
      forall i | 0 <= i < |part|
        ensures LookupByScan(r, part[i].dimension) != None || Net(ds, part[i].dimension) == 0
      {
        if i > 0 {
          assert part[i] == part[1..][i - 1];
        }
      }
    }
  }

  /** For one tag: a candidate whose terms hold and which covers `ds` agrees with `ds`'s net exponent. */
  lemma AgreesOnTag(ds: seq<Dimension>, r: seq<Dimension>, t: Tag)
    requires IsReduced(r)
    requires forall i | 0 <= i < |r| :: Net(ds, r[i].dimension) == r[i].exponent
    requires forall i | 0 <= i < |ds| :: LookupByScan(r, ds[i].dimension) != None || Net(ds, ds[i].dimension) == 0
    ensures Lookup(r, t) == NetExponent(ds, t)
  {
    var k := IndexOfTag(r, t);
    if k == |r| {
      var j := IndexOfTag(ds, t);
      if j < |ds| {
        LookupByScanIsLookup(r, ds[j].dimension);
      } else {
        NetAbsent(ds, t);
      }
    }
  }

  /** A sufficient check, by evaluation, that `ds` reduces to the given list `r`. */
  lemma ReducesTo(ds: seq<Dimension>, r: seq<Dimension>)
    requires TermsHold(r, ds) && Covered(ds, r, ds)
    ensures ReduceDimensions(ds) == r
  {
    TermsHoldGiveReduced(r, ds);
    TermsHoldGiveOrder(r, ds);
    CoveredGivesNets(ds, r, ds);
    forall t ensures Lookup(r, t) == NetExponent(ds, t) {
      AgreesOnTag(ds, r, t);
    }
    ReduceCharacterised(ds, r);
  }

  // ---------------------------------------------------------------------------
  // Properties of the reference definition
  // ---------------------------------------------------------------------------

  /** The canonical form holds, for each tag, the net exponent of that tag, and nothing for a zero net. */
  lemma {:induction false} CanonicalLookup(ds: seq<Dimension>, u: Tag)
    ensures Lookup(Canonical(ds), u) == NetExponent(ds, u)
    decreases |ds|
  {
    if ds != [] {
      var t := ds[0].dimension;
      var n := Net(ds, t);
      var rest := RemoveTag(ds[1..], t);
      CanonicalLookup(rest, u);
      NetRemoveTag(ds[1..], t, u);
      assert ds == [ds[0]] + ds[1..];
      NetAppend([ds[0]], ds[1..], u);
      assert Canonical(ds) == (if n != 0 then [Dimension(t, n)] else []) + Canonical(rest);
      if n != 0 {
        LookupCons(Dimension(t, n), Canonical(rest), u);
        assert Canonical(ds) == [Dimension(t, n)] + Canonical(rest);
      } else {
        assert Canonical(ds) == Canonical(rest);
      }
    }
  }

  lemma {:induction false} CanonicalIsReduced(ds: seq<Dimension>)
    ensures IsReduced(Canonical(ds))
    decreases |ds|
  {
    if ds != [] {
      var t := ds[0].dimension;
      var n := Net(ds, t);
      var rest := RemoveTag(ds[1..], t);
      var cr := Canonical(rest);
      CanonicalIsReduced(rest);
      CanonicalLookup(rest, t);
      NetRemoveTag(ds[1..], t, t);
      assert IndexOfTag(cr, t) == |cr|;
      assert Canonical(ds) == (if n != 0 then [Dimension(t, n)] else []) + cr;
      if n != 0 {
        ConsReduced(Dimension(t, n), cr);
      } else {
        assert Canonical(ds) == cr;
      }
    }
  }

  lemma ConsReduced(d: Dimension, r: seq<Dimension>)
    requires IsReduced(r) && d.exponent != 0
    requires forall j | 0 <= j < |r| :: r[j].dimension != d.dimension
    ensures IsReduced([d] + r)
  {
    var c := [d] + r;
    forall i, j | 0 <= i < j < |c| ensures c[i].dimension != c[j].dimension {
      if i > 0 {
        assert c[i] == r[i - 1] && c[j] == r[j - 1];
      } else {
        assert c[j] == r[j - 1];
      }
    }
  }

  lemma {:induction false} CanonicalOrder(ds: seq<Dimension>)
    ensures InFirstOccurrenceOrder(Canonical(ds), ds)
    decreases |ds|
  {
    if ds != [] {
      var t := ds[0].dimension;
      var n := Net(ds, t);
      var rest := RemoveTag(ds[1..], t);
      var cr := Canonical(rest);
      CanonicalOrder(rest);
      OrderAfterRemoval(ds, cr);
      assert Canonical(ds) == (if n != 0 then [Dimension(t, n)] else []) + cr;
      if n != 0 {
        OrderCons(Dimension(t, n), cr, ds);
      } else {
        assert Canonical(ds) == cr;
      }
    }
  }

  /** Tags in first-occurrence order once the head's tag is removed from the tail are in that order in the whole list. */
  lemma OrderAfterRemoval(ds: seq<Dimension>, cr: seq<Dimension>)
    requires ds != []
    requires InFirstOccurrenceOrder(cr, RemoveTag(ds[1..], ds[0].dimension))
    ensures InFirstOccurrenceOrder(cr, ds)
    ensures forall i | 0 <= i < |cr| :: cr[i].dimension != ds[0].dimension
  {
    var t := ds[0].dimension;
    var tail := ds[1..];
    forall i | 0 <= i < |cr|
      ensures cr[i].dimension != t
      ensures IndexOfTag(ds, cr[i].dimension) == 1 + IndexOfTag(tail, cr[i].dimension) < |ds|
    {
      RemoveTagOccurrence(tail, t, cr[i].dimension);
    }
    forall i, j | 0 <= i < j < |cr|
      ensures IndexOfTag(ds, cr[i].dimension) < IndexOfTag(ds, cr[j].dimension)
    {
      RemoveTagKeepsOrder(tail, t, cr[i].dimension, cr[j].dimension);
    }
  }

  /** The head's tag, placed in front of tags that come later, keeps first-occurrence order. */
  lemma OrderCons(d: Dimension, cr: seq<Dimension>, ds: seq<Dimension>)
    requires ds != [] && ds[0].dimension == d.dimension
    requires InFirstOccurrenceOrder(cr, ds)
    requires forall i | 0 <= i < |cr| :: cr[i].dimension != d.dimension
    ensures InFirstOccurrenceOrder([d] + cr, ds)
  {
    var c := [d] + cr;
    assert IndexOfTag(ds, d.dimension) == 0;
    forall i | 0 <= i < |c| ensures IndexOfTag(ds, c[i].dimension) < |ds| {
      if i > 0 { assert c[i] == cr[i - 1]; }
    }
    forall i, j | 0 <= i < j < |c|
      ensures IndexOfTag(ds, c[i].dimension) < IndexOfTag(ds, c[j].dimension)
    {
      assert c[j] == cr[j - 1];
      if i > 0 { assert c[i] == cr[i - 1]; }
    }
  }

  /**
   A reduced list is determined by its (tag, exponent) pairs together with
   the order in which its tags first occur in some list `ds`.
   */
  lemma {:induction false} ReducedFormIsUnique(r1: seq<Dimension>, r2: seq<Dimension>, ds: seq<Dimension>)
    requires IsReduced(r1) && IsReduced(r2)
    requires forall t :: Lookup(r1, t) == Lookup(r2, t)
    requires InFirstOccurrenceOrder(r1, ds) && InFirstOccurrenceOrder(r2, ds)
    ensures r1 == r2
    decreases |r1|
  {
    if r1 == [] || r2 == [] {
      EmptyByLookup(r1, r2);
    } else {
      SameHead(r1, r2, ds);
      var t1, t2 := r1[1..], r2[1..];
      forall u ensures Lookup(t1, u) == Lookup(t2, u) {
        TailLookup(r1, u);
        TailLookup(r2, u);
      }
      ReducedFormIsUnique(t1, t2, ds);
      assert r1 == [r1[0]] + t1 && r2 == [r2[0]] + t2;
    }
  }

  lemma EmptyByLookup(r1: seq<Dimension>, r2: seq<Dimension>)
    requires forall t :: Lookup(r1, t) == Lookup(r2, t)
    requires r1 == [] || r2 == []
    ensures r1 == r2
  {
    if r1 != [] {
      HeadLookup(r1);
    }
    if r2 != [] {
      HeadLookup(r2);
    }
  }

  lemma HeadLookup(r: seq<Dimension>)
    requires r != []
    ensures Lookup(r, r[0].dimension) == Some(r[0].exponent)
  {
  }

  /** In first-occurrence order the head's tag occurs in `ds` no later than any other element's. */
  lemma HeadOccursFirst(r: seq<Dimension>, ds: seq<Dimension>, k: nat)
    requires InFirstOccurrenceOrder(r, ds) && k < |r|
    ensures IndexOfTag(ds, r[0].dimension) <= IndexOfTag(ds, r[k].dimension)
  {
  }

  /** Two reduced lists with the same pairs, both in first-occurrence order of `ds`, start alike. */
  lemma SameHead(r1: seq<Dimension>, r2: seq<Dimension>, ds: seq<Dimension>)
    requires r1 != [] && r2 != []
    requires forall t :: Lookup(r1, t) == Lookup(r2, t)
    requires InFirstOccurrenceOrder(r1, ds) && InFirstOccurrenceOrder(r2, ds)
    ensures r1[0] == r2[0]
  {
    var a, b := r1[0].dimension, r2[0].dimension;
    HeadLookup(r1);
    HeadLookup(r2);
    var j, i := IndexOfTag(r2, a), IndexOfTag(r1, b);
    HeadOccursFirst(r2, ds, j);
    HeadOccursFirst(r1, ds, i);
    assert IndexOfTag(ds, a) == IndexOfTag(ds, b) < |ds|;
    assert ds[IndexOfTag(ds, a)].dimension == a;
  }

  /** Dropping the head of a reduced list removes exactly the head's tag from its lookups. */
  lemma TailLookup(r: seq<Dimension>, u: Tag)
    requires r != [] && IsReduced(r)
    ensures IsReduced(r[1..])
    ensures Lookup(r[1..], u) == if u == r[0].dimension then None else Lookup(r, u)
  {
    assert r == [r[0]] + r[1..];
    LookupCons(r[0], r[1..], u);
    if u == r[0].dimension {
      assert forall i | 0 <= i < |r| - 1 :: r[1..][i] == r[i + 1];
      assert forall i | 0 <= i < |r| - 1 :: r[1..][i].dimension != u;
    }
  }
}
