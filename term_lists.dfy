/**
 Vocabulary for stating what the dimension-algebra engine computes over a
 list of dimension terms: the net exponent of a tag, the first term carrying
 a tag, the canonical (reduced) shape and first-occurrence order. These are
 specification functions; the engine itself is in Reduction, Comparison and
 QuantityAlgebra.
 */
module TermLists {

  import opened Tags
  import opened Dimensions
  import opened Optional

  /** The net exponent of `t` in `ds`: the sum of the exponents of every term tagged `t`. */
  function Net(ds: seq<Dimension>, t: Tag): int
  {
    if ds == [] then 0
    else (if ds[0].dimension == t then ds[0].exponent else 0) + Net(ds[1..], t)
  }

  /** `t`'s entry in a canonical form: its net exponent, or nothing when that is zero. */
  function NetExponent(ds: seq<Dimension>, t: Tag): Option<int>
  {
    if Net(ds, t) != 0 then Some(Net(ds, t)) else None
  }

  /** Position of the first term of `ds` tagged `t`, or |ds| when no term is. */
  function IndexOfTag(ds: seq<Dimension>, t: Tag): (k: nat)
    ensures k <= |ds|
    ensures k < |ds| ==> ds[k].dimension == t
    ensures forall i | 0 <= i < k :: ds[i].dimension != t
  {
    if ds == [] then 0
    else if ds[0].dimension == t then 0
    else 1 + IndexOfTag(ds[1..], t)
  }

  /** The exponent of the first term of `ds` tagged `t`, if any. */
  function Lookup(ds: seq<Dimension>, t: Tag): Option<int>
  {
    var k := IndexOfTag(ds, t);
    if k < |ds| then Some(ds[k].exponent) else None
  }

  /** No term has exponent zero and no two terms share a tag. */
  predicate IsReduced(ds: seq<Dimension>)
  {
    && (forall i | 0 <= i < |ds| :: ds[i].exponent != 0)
    && (forall i, j | 0 <= i < j < |ds| :: ds[i].dimension != ds[j].dimension)
  }

  /** Every tag of `r` occurs in `ds`, and `r` lists its tags in the order they first occur in `ds`. */
  predicate InFirstOccurrenceOrder(r: seq<Dimension>, ds: seq<Dimension>)
  {
    && (forall i | 0 <= i < |r| :: IndexOfTag(ds, r[i].dimension) < |ds|)
    && (forall i, j | 0 <= i < j < |r| :: IndexOfTag(ds, r[i].dimension) < IndexOfTag(ds, r[j].dimension))
  }

  /** `ds` without its terms tagged `t`, in the original order. */
  function RemoveTag(ds: seq<Dimension>, t: Tag): (r: seq<Dimension>)
    ensures |r| <= |ds|
    ensures forall i | 0 <= i < |r| :: r[i].dimension != t
  {
    if ds == [] then []
    else (if ds[0].dimension == t then [] else [ds[0]]) + RemoveTag(ds[1..], t)
  }

  // ---------------------------------------------------------------------------
  // Facts about the vocabulary
  // ---------------------------------------------------------------------------

  lemma {:induction false} NetAppend(a: seq<Dimension>, b: seq<Dimension>, t: Tag)
    ensures Net(a + b, t) == Net(a, t) + Net(b, t)
  {
    if a == [] {
      assert a + b == b;
    } else {
      assert (a + b)[1..] == a[1..] + b;
      NetAppend(a[1..], b, t);
    }
  }

  lemma {:induction false} NetAbsent(ds: seq<Dimension>, t: Tag)
    requires forall i | 0 <= i < |ds| :: ds[i].dimension != t
    ensures Net(ds, t) == 0
  {
    if ds != [] {
      NetAbsent(ds[1..], t);
    }
  }

  /** Net exponents depend only on the multiset of terms, not on their order. */
  lemma {:induction false} NetOfPermutation(a: seq<Dimension>, b: seq<Dimension>, t: Tag)
    requires multiset(a) == multiset(b)
    ensures Net(a, t) == Net(b, t)
    decreases |a|
  {
    if a == [] {
      assert |multiset(b)| == 0;
      assert b == [];
    } else {
      var x := a[0];
      assert x in multiset(b);
      assert x in b;
      var k :| 0 <= k < |b| && b[k] == x;
      var b' := b[..k] + b[k + 1..];
      MultisetTail(a, b, k);
      NetOfPermutation(a[1..], b', t);
      NetMoveOne(a, b, k, t);
    }
  }

  lemma MultisetTail(a: seq<Dimension>, b: seq<Dimension>, k: nat)
    requires multiset(a) == multiset(b) && a != [] && k < |b| && b[k] == a[0]
    ensures multiset(a[1..]) == multiset(b[..k] + b[k + 1..])
  {
    MultisetWithout(a, 0);
    MultisetWithout(b, k);
    assert a[..0] + a[1..] == a[1..];
  }

  lemma NetMoveOne(a: seq<Dimension>, b: seq<Dimension>, k: nat, t: Tag)
    requires a != [] && k < |b| && b[k] == a[0]
    requires Net(a[1..], t) == Net(b[..k] + b[k + 1..], t)
    ensures Net(a, t) == Net(b, t)
  {
    NetWithout(b, k, t);
    NetWithout(a, 0, t);
    assert a[..0] + a[1..] == a[1..];
  }

  lemma NetWithout(s: seq<Dimension>, k: nat, t: Tag)
    requires k < |s|
    ensures Net(s, t) == Net(s[..k] + s[k + 1..], t) + Net([s[k]], t)
  {
    assert s == s[..k] + ([s[k]] + s[k + 1..]);
    NetAppend(s[..k], [s[k]] + s[k + 1..], t);
    NetAppend([s[k]], s[k + 1..], t);
    NetAppend(s[..k], s[k + 1..], t);
  }

  lemma MultisetWithout(s: seq<Dimension>, k: nat)
    requires k < |s|
    ensures multiset(s[..k] + s[k + 1..]) == multiset(s) - multiset{s[k]}
  {
    assert s == s[..k] + [s[k]] + s[k + 1..];
    calc {
      multiset(s);
      multiset(s[..k] + [s[k]] + s[k + 1..]);
      multiset(s[..k]) + multiset([s[k]]) + multiset(s[k + 1..]);
      multiset(s[..k] + s[k + 1..]) + multiset{s[k]};
    }
  }

  lemma {:induction false} NetRemoveTag(ds: seq<Dimension>, t: Tag, u: Tag)
    ensures Net(RemoveTag(ds, t), u) == if u == t then 0 else Net(ds, u)
  {
    if u == t {
      NetAbsent(RemoveTag(ds, t), t);
    } else if ds != [] {
      NetRemoveTag(ds[1..], t, u);
      var h := if ds[0].dimension == t then [] else [ds[0]];
      NetAppend(h, RemoveTag(ds[1..], t), u);
      if h != [] {
        assert h[1..] == [];
      }
      assert Net(h, u) == (if ds[0].dimension == u then ds[0].exponent else 0);
    }
  }

  lemma {:induction false} RemoveTagAppend(a: seq<Dimension>, b: seq<Dimension>, t: Tag)
    ensures RemoveTag(a + b, t) == RemoveTag(a, t) + RemoveTag(b, t)
  {
    if a == [] {
      assert a + b == b;
    } else {
      assert (a + b)[1..] == a[1..] + b;
      RemoveTagAppend(a[1..], b, t);
    }
  }

  lemma {:induction false} RemoveTagAbsent(ds: seq<Dimension>, t: Tag)
    requires forall i | 0 <= i < |ds| :: ds[i].dimension != t
    ensures RemoveTag(ds, t) == ds
  {
    if ds != [] {
      RemoveTagAbsent(ds[1..], t);
      assert ds == [ds[0]] + ds[1..];
    }
  }

  /** A tag still present after removing `t` was present before, and is not `t`. */
  lemma {:induction false} RemoveTagOccurrence(ds: seq<Dimension>, t: Tag, u: Tag)
    requires IndexOfTag(RemoveTag(ds, t), u) < |RemoveTag(ds, t)|
    ensures u != t && IndexOfTag(ds, u) < |ds|
  {
    var r := RemoveTag(ds, t);
    var h := if ds[0].dimension == t then [] else [ds[0]];
    assert r == h + RemoveTag(ds[1..], t);
    if ds[0].dimension != u {
      if h == [] {
        RemoveTagOccurrence(ds[1..], t, u);
      } else {
        assert r[1..] == RemoveTag(ds[1..], t);
        RemoveTagOccurrence(ds[1..], t, u);
      }
    }
  }

  /** Removing a tag keeps the first-occurrence order of the tags that remain. */
  lemma {:induction false} RemoveTagKeepsOrder(ds: seq<Dimension>, t: Tag, u: Tag, v: Tag)
    requires IndexOfTag(RemoveTag(ds, t), u) < IndexOfTag(RemoveTag(ds, t), v) < |RemoveTag(ds, t)|
    ensures IndexOfTag(ds, u) < IndexOfTag(ds, v)
  {
    var r := RemoveTag(ds, t);
    var rest := RemoveTag(ds[1..], t);
    RemoveTagOccurrence(ds, t, u);
    RemoveTagOccurrence(ds, t, v);
    assert IndexOfTag(ds, u) < |ds| && IndexOfTag(ds, v) < |ds|;
    if ds[0].dimension == t {
      assert r == rest;
      RemoveTagKeepsOrder(ds[1..], t, u, v);
    } else {
      assert r == [ds[0]] + rest;
      assert r[1..] == rest;
      if ds[0].dimension != u {
        assert ds[0].dimension != v;
        RemoveTagKeepsOrder(ds[1..], t, u, v);
      }
    }
  }

  lemma LookupCons(y: Dimension, xs: seq<Dimension>, u: Tag)
    ensures Lookup([y] + xs, u) == if y.dimension == u then Some(y.exponent) else Lookup(xs, u)
  {
    assert ([y] + xs)[1..] == xs;
  }

  /** In a reduced list a tag's first term is its only term, so its net exponent is what Lookup finds. */
  lemma {:induction false} NetOfReduced(ds: seq<Dimension>, t: Tag)
    requires IsReduced(ds)
    ensures NetExponent(ds, t) == Lookup(ds, t)
  {
    if ds != [] {
      assert IsReduced(ds[1..]);
      NetOfReduced(ds[1..], t);
      LookupCons(ds[0], ds[1..], t);
      assert ds == [ds[0]] + ds[1..];
      if ds[0].dimension == t {
        NetAbsent(ds[1..], t);
      }
    }
  }
}
