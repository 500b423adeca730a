/**
  Generic sequence operations that the street-name queries are built from:
  a stable filter, the positions it keeps, and a filter-map that keeps
  and transforms (with Keeps, the predicate it keeps on).
  Filter, Positions and FilterMap recurse on the last element, the way a loop that
  appends to a result builds them.
 */
module Selection {
  import opened Wrappers

  /** The elements of `s` that satisfy `p`, in their order in `s`. */
  function Filter<T>(p: T -> bool, s: seq<T>): (r: seq<T>)
    ensures |r| <= |s|
  {
    if s == [] then []
    else
      var init := Filter(p, s[..|s| - 1]);
      if p(s[|s| - 1]) then init + [s[|s| - 1]] else init
  }

  /** The indices of `s` whose elements satisfy `p`, in increasing order. */
  function Positions<T>(p: T -> bool, s: seq<T>): (ps: seq<nat>)
    ensures forall j :: 0 <= j < |ps| ==> ps[j] < |s|
  {
    if s == [] then []
    else
      var init := Positions(p, s[..|s| - 1]);
      if p(s[|s| - 1]) then init + [|s| - 1] else init
  }

  /**
    The images under `f` of the elements of `s` on which `f` is defined, in
    their order in `s`: a filter and a map in one pass.
   */
  function FilterMap<T, U>(f: T -> Option<U>, s: seq<T>): (r: seq<U>)
    ensures |r| <= |s|
  {
    if s == [] then []
    else
      var init := FilterMap(f, s[..|s| - 1]);
      match f(s[|s| - 1])
      case None => init
      case Some(y) => init + [y]
  }

  /** The elements on which `f` is defined. */
  function Keeps<T, U>(f: T -> Option<U>): T -> bool {
    x => f(x).Some?
  }

  /** The filter keeps exactly the elements that satisfy `p`. */
  lemma {:induction false} FilterMembers<T>(p: T -> bool, s: seq<T>)
    ensures forall j :: 0 <= j < |Filter(p, s)| ==> Filter(p, s)[j] in s && p(Filter(p, s)[j])
    ensures forall i :: 0 <= i < |s| && p(s[i]) ==> s[i] in Filter(p, s)
  {
    if s != [] {
      var init := s[..|s| - 1];
      FilterMembers(p, init);
      assert s == init + [s[|s| - 1]];
    }
  }

  /**
    Positions lists, in strictly increasing order, exactly the indices of `s`
    whose element satisfies `p`.
   */
  lemma {:induction false} PositionsExact<T>(p: T -> bool, s: seq<T>)
    ensures forall j :: 0 <= j < |Positions(p, s)| ==> Positions(p, s)[j] < |s| && p(s[Positions(p, s)[j]])
    ensures forall j, k :: 0 <= j < k < |Positions(p, s)| ==> Positions(p, s)[j] < Positions(p, s)[k]
    ensures forall i :: 0 <= i < |s| ==> (i in Positions(p, s) <==> p(s[i]))
  {
    if s != [] {
      PositionsExact(p, s[..|s| - 1]);
    }
  }

  /** Appending one element extends the filter by that element exactly when it qualifies. */
  lemma FilterSnoc<T>(p: T -> bool, s: seq<T>, x: T)
    ensures Filter(p, s + [x]) == if p(x) then Filter(p, s) + [x] else Filter(p, s)
  {
    assert (s + [x])[..|s|] == s;
  }

  /** Appending one element extends the filter-map by its image, when it has one. */
  lemma FilterMapSnoc<T, U>(f: T -> Option<U>, s: seq<T>, x: T)
    ensures FilterMap(f, s + [x]) == match f(x) case None => FilterMap(f, s) case Some(y) => FilterMap(f, s) + [y]
  {
    assert (s + [x])[..|s|] == s;
  }

  /** The filter-map is exactly the images of the elements at Positions, in that order. */
  lemma {:induction false} FilterMapAtPositions<T, U>(f: T -> Option<U>, s: seq<T>)
    ensures |FilterMap(f, s)| == |Positions(Keeps(f), s)|
    ensures forall j :: 0 <= j < |FilterMap(f, s)| ==> f(s[Positions(Keeps(f), s)[j]]) == Some(FilterMap(f, s)[j])
  {
    if s != [] {
      FilterMapAtPositions(f, s[..|s| - 1]);
    }
  }

  /** The filter is exactly the elements at Positions, in that order. */
  lemma {:induction false} FilterAtPositions<T>(p: T -> bool, s: seq<T>)
    ensures |Filter(p, s)| == |Positions(p, s)|
    ensures forall j :: 0 <= j < |Filter(p, s)| ==> Filter(p, s)[j] == s[Positions(p, s)[j]]
  {
    if s != [] {
      FilterAtPositions(p, s[..|s| - 1]);
    }
  }

  /** A filter keeps nothing when no element qualifies. */
  lemma {:induction false} FilterNone<T>(p: T -> bool, s: seq<T>)
    requires forall i :: 0 <= i < |s| ==> !p(s[i])
    ensures Filter(p, s) == []
  {
    if s != [] {
      FilterNone(p, s[..|s| - 1]);
    }
  }

  /**
    Filtering on a predicate and on its negation splits `s`: the two lengths
    add up to |s| and the two results together hold every element as often as `s` does.
   */
  lemma {:induction false} FilterPartition<T>(p: T -> bool, q: T -> bool, s: seq<T>)
    requires forall x :: q(x) == !p(x)
    ensures |Filter(p, s)| + |Filter(q, s)| == |s|
    ensures multiset(Filter(p, s)) + multiset(Filter(q, s)) == multiset(s)
  {
    if s != [] {
      var init, x := s[..|s| - 1], s[|s| - 1];
      FilterPartition(p, q, init);
      assert s == init + [x];
      FilterSnoc(p, init, x);
      FilterSnoc(q, init, x);
    }
  }
}
