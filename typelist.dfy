/**
 The type lists of typelist.h, modelled as sequences. `TypeList<T, Ts...>`
 inherits from `TypeList<Ts...>`; here `Base(l)` is that parent list, `Type(l)`
 is the first element, and `Size` and `HasType` recurse along the inheritance
 chain just as the C++ static members do.
 */
module TypeLists {

  import opened Optional

  /** `TypeList<T, Ts...>::type`: the first element (defined for non-empty lists only). */
  function Type<T>(l: seq<T>): T
    requires |l| >= 1
  {
    l[0]
  }

  /**
   `TypeList<T, Ts...>::base`: the list without its first element. The
   one-element specialisation `TypeList<T>` declares no `base`, so at least
   two elements are needed.
   */
  function Base<T>(l: seq<T>): seq<T>
    requires |l| >= 2
  {
    l[1..]
  }

  /** `size`: 0 for `TypeList<>`, 1 for `TypeList<T>`, else `1 + base::size`. */
  function Size<T>(l: seq<T>): (n: nat)
    ensures n == |l|
  {
    if |l| == 0 then 0
    else if |l| == 1 then 1
    else 1 + Size(Base(l))
  }

  /**
   `hasType<U>()` as its authors intended: `b_is_same<T, U>` on the one-element
   list, `b_is_same<T, U> || base::hasType<U>()` on longer ones. `TypeList<>`
   declares no `hasType`, hence the precondition.
   */
  function HasType<T(==)>(l: seq<T>, u: T): (r: bool)
    requires |l| >= 1
    ensures r <==> u in l
  {
    if |l| == 1 then l[0] == u
    else l[0] == u || HasType(Base(l), u)
  }

  /** A list of two or more elements is its `type` followed by its `base`. */
  lemma {:induction false} TypeAndBaseRebuildTheList<T>(l: seq<T>)
    requires |l| >= 2
    ensures l == [Type(l)] + Base(l)
    ensures Size(l) == 1 + Size(Base(l))
  {
  }

  /**
   `hasType<U>()` as written: the general specialisation calls
   `base::template has_type<U>()`, a member no `TypeList` declares, so the
   call compiles only on the one-element list. `None` stands for the
   compilation failure.
   */
  function HasTypeAsWritten<T(==)>(l: seq<T>, u: T): (r: Option<bool>)
    requires |l| >= 1
    ensures r.Some? <==> |l| == 1
    ensures r.Some? ==> r.value == HasType(l, u)
  {
    if |l| == 1 then Some(l[0] == u) else None
  }

  /** The discrepancy: on a two-element list the as-written member has no answer, the intended one does. */
  lemma HasTypeAsWrittenFailsOnTwoElements()
    ensures HasTypeAsWritten([1, 2], 1) == None
    ensures HasType([1, 2], 1) && !HasType([1, 2], 3)
  {
  }
}
