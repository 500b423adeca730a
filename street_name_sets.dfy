/**
  The derived collections of the U.S. street-name list, as functions of the
  lists they are computed from: the exact-match intersection, the base-name
  intersection with its tie-break, and the split on the route flag.
 */
module StreetNameSets {
  import opened Wrappers
  import opened Selection
  import opened StreetName

  /** Some entry of `other` is equal (SameName) to `a`. */
  predicate HasEqual(other: seq<StreetName>, a: StreetName) {
    exists b :: b in other && SameName(a, b)
  }

  function MatchesIn(other: seq<StreetName>): StreetName -> bool {
    a => HasEqual(other, a)
  }

  /**
    The entries of `self`, in `self`'s order, that have an equal entry in
    `other`; each entry of `self` appears at most once however many entries
    of `other` it equals.
   */
  function CommonNames(self: seq<StreetName>, other: seq<StreetName>): (r: seq<StreetName>)
    ensures |r| <= |self|
    ensures forall j :: 0 <= j < |r| ==> r[j] in self && HasEqual(other, r[j])
    ensures forall i :: 0 <= i < |self| && HasEqual(other, self[i]) ==> self[i] in r
  {
    FilterMembers(MatchesIn(other), self);
    Filter(MatchesIn(other), self)
  }

  /** Some entry of `other` has the same base name as `a`. */
  predicate HasBaseMatch(rules: BaseNameRules, other: seq<StreetName>, a: StreetName) {
    exists b :: b in other && HasSameBaseName(rules, a, b)
  }

  /** The index in `other` of the first entry with the same base name as `a`. */
  function FirstBaseMatch(rules: BaseNameRules, a: StreetName, other: seq<StreetName>): (k: Option<nat>)
    ensures k.Some? ==> k.value < |other| && HasSameBaseName(rules, a, other[k.value])
    ensures k.Some? ==> forall j :: 0 <= j < k.value ==> !HasSameBaseName(rules, a, other[j])
    ensures k.None? ==> forall j :: 0 <= j < |other| ==> !HasSameBaseName(rules, a, other[j])
  {
    if other == [] then None
    else if HasSameBaseName(rules, a, other[0]) then Some(0)
    else
      match FirstBaseMatch(rules, a, other[1..])
      case None => None
      case Some(k) => Some(k + 1)
  }

  /** A first base-name match exists exactly when some entry of `other` has `a`'s base name. */
  lemma FirstBaseMatchExists(rules: BaseNameRules, a: StreetName, other: seq<StreetName>)
    ensures FirstBaseMatch(rules, a, other).Some? <==> HasBaseMatch(rules, other, a)
  {
    if HasBaseMatch(rules, other, a) {
      var b :| b in other && HasSameBaseName(rules, a, b);
      var i :| 0 <= i < |other| && other[i] == b;
    }
  }

  /**
    Which of two entries with the same base name is emitted: the one that
    carries a post-name cardinal direction, `a` when both or neither do.
   */
  function PreferredVariant(rules: BaseNameRules, a: StreetName, b: StreetName): (r: StreetName)
    ensures r == a || r == b
    ensures PostCardinalDir(rules, a) != "" || PostCardinalDir(rules, b) != "" ==> PostCardinalDir(rules, r) != ""
    ensures r != a ==> PostCardinalDir(rules, a) == "" && PostCardinalDir(rules, b) != ""
  {
    if PostCardinalDir(rules, a) != "" then a
    else if PostCardinalDir(rules, b) != "" then b
    else a
  }

  /**
    What the base-name intersection emits for `a`: nothing when no entry of
    `other` has its base name, and otherwise the preferred variant of `a`
    and the first such entry of `other`.
   */
  function EmitFor(rules: BaseNameRules, other: seq<StreetName>, a: StreetName): Option<StreetName> {
    match FirstBaseMatch(rules, a, other)
    case None => None
    case Some(k) => Some(PreferredVariant(rules, a, other[k]))
  }

  /** EmitFor as a function of the entry alone, for the generic FilterMap. */
  function BaseNameEmit(rules: BaseNameRules, other: seq<StreetName>): StreetName -> Option<StreetName> {
    a => EmitFor(rules, other, a)
  }

  /**
    For each entry `a` of `self` in order, nothing when no entry of `other`
    has its base name, and otherwise the preferred variant of `a` and the
    first such entry of `other`.
   */
  function CommonBaseNames(rules: BaseNameRules, self: seq<StreetName>, other: seq<StreetName>): (r: seq<StreetName>)
    ensures |r| <= |self|
  {
    if self == [] then []
    else
      var init := CommonBaseNames(rules, self[..|self| - 1], other);
      var a := self[|self| - 1];
      match EmitFor(rules, other, a)
      case None => init
      case Some(e) => init + [e]
  }

  /** The base-name intersection is the filter-map of BaseNameEmit over `self`. */
  lemma {:induction false} CommonBaseNamesIsFilterMap(rules: BaseNameRules, self: seq<StreetName>, other: seq<StreetName>)
    ensures CommonBaseNames(rules, self, other) == FilterMap(BaseNameEmit(rules, other), self)
  {
    if self != [] {
      CommonBaseNamesIsFilterMap(rules, self[..|self| - 1], other);
    }
  }

  /** The route-number entries of `self`, in order. */
  function RouteNumbers(self: seq<StreetName>): (r: seq<StreetName>)
    ensures |r| <= |self|
    ensures forall j :: 0 <= j < |r| ==> r[j] in self && r[j].isRouteNumber
    ensures forall i :: 0 <= i < |self| && self[i].isRouteNumber ==> self[i] in r
  {
    FilterMembers(IsRouteNumber, self);
    Filter(IsRouteNumber, self)
  }

  /** The entries of `self` that are not route numbers, in order. */
  function NonRouteNumbers(self: seq<StreetName>): (r: seq<StreetName>)
    ensures |r| <= |self|
    ensures forall j :: 0 <= j < |r| ==> r[j] in self && !r[j].isRouteNumber
    ensures forall i :: 0 <= i < |self| && !self[i].isRouteNumber ==> self[i] in r
  {
    FilterMembers(IsNotRouteNumber, self);
    Filter(IsNotRouteNumber, self)
  }

  // ---- Exact-match intersection ----

  /**
    CommonNames is the subsequence of `self` at exactly the positions whose
    entry has an equal in `other`, each position once, in increasing order.
   */
  lemma CommonNamesOrderedBySelf(self: seq<StreetName>, other: seq<StreetName>)
    ensures var r, ps := CommonNames(self, other), Positions(MatchesIn(other), self);
      && |r| == |ps|
      && (forall j :: 0 <= j < |r| ==> r[j] == self[ps[j]])
      && (forall j, k :: 0 <= j < k < |ps| ==> ps[j] < ps[k])
      && (forall i :: 0 <= i < |self| ==> (i in ps <==> HasEqual(other, self[i])))
  {
    FilterAtPositions(MatchesIn(other), self);
    PositionsExact(MatchesIn(other), self);
  }

  /** Either argument empty gives an empty intersection. */
  lemma CommonNamesEmpty(c: seq<StreetName>)
    ensures CommonNames(c, []) == []
    ensures CommonNames([], c) == []
  {
    FilterNone(MatchesIn([]), c);
  }

  /** Every entry of the intersection has an equal entry in each argument. */
  lemma CommonNamesContained(a: seq<StreetName>, b: seq<StreetName>, e: StreetName)
    requires e in CommonNames(a, b)
    ensures exists x :: x in a && SameName(x, e)
    ensures exists y :: y in b && SameName(y, e)
  {
    var j :| 0 <= j < |CommonNames(a, b)| && CommonNames(a, b)[j] == e;
    assert SameName(e, e);
    var y :| y in b && SameName(e, y);
    assert SameName(y, e);
  }

  // ---- Base-name intersection ----

  /**
    The base-name intersection emits one entry per position of `self` whose
    entry has a base-name match in `other`, in increasing position order, and
    the entry emitted for position i is the preferred variant of self[i] and
    the first match of self[i] in `other`.
   */
  lemma CommonBaseNamesAtPositions(rules: BaseNameRules, self: seq<StreetName>, other: seq<StreetName>)
    ensures |CommonBaseNames(rules, self, other)| == |Positions(Keeps(BaseNameEmit(rules, other)), self)|
    ensures var ps := Positions(Keeps(BaseNameEmit(rules, other)), self);
      && (forall j, k :: 0 <= j < k < |ps| ==> ps[j] < ps[k])
      && (forall i :: 0 <= i < |self| ==> (i in ps <==> HasBaseMatch(rules, other, self[i])))
    ensures var r, ps := CommonBaseNames(rules, self, other), Positions(Keeps(BaseNameEmit(rules, other)), self);
      forall j :: 0 <= j < |r| ==> BaseNameEmit(rules, other)(self[ps[j]]) == Some(r[j])
  {
    var f := BaseNameEmit(rules, other);
    CommonBaseNamesIsFilterMap(rules, self, other);
    FilterMapAtPositions(f, self);
    PositionsExact(Keeps(f), self);
    forall i | 0 <= i < |self|
      ensures Keeps(f)(self[i]) <==> HasBaseMatch(rules, other, self[i])
    {
      FirstBaseMatchExists(rules, self[i], other);
    }
  }

  /** Every emitted entry is a copy of an entry of `self` or of `other`. */
  lemma CommonBaseNamesCopies(rules: BaseNameRules, self: seq<StreetName>, other: seq<StreetName>)
    ensures forall e :: e in CommonBaseNames(rules, self, other) ==> e in self || e in other
  {
    CommonBaseNamesAtPositions(rules, self, other);
    var r, ps := CommonBaseNames(rules, self, other), Positions(Keeps(BaseNameEmit(rules, other)), self);
    forall j | 0 <= j < |r| ensures r[j] in self || r[j] in other {
      assert BaseNameEmit(rules, other)(self[ps[j]]) == Some(r[j]);
    }
  }

  /**
    The tie-break: for the j-th emitted entry, with `a` the entry of `self`
    it comes from and `b` the first entry of `other` with the same base name,
    the result is `a` if `a` has a post-name cardinal direction, else `b` if
    `b` has one, else `a`.
   */
  lemma CommonBaseNamesTieBreak(rules: BaseNameRules, self: seq<StreetName>, other: seq<StreetName>, j: nat)
    requires j < |CommonBaseNames(rules, self, other)|
    ensures var ps := Positions(Keeps(BaseNameEmit(rules, other)), self);
      j < |ps| &&
      var a := self[ps[j]];
      exists k :: 0 <= k < |other| &&
        HasSameBaseName(rules, a, other[k]) &&
        (forall m :: 0 <= m < k ==> !HasSameBaseName(rules, a, other[m])) &&
        var b, r := other[k], CommonBaseNames(rules, self, other)[j];
        (PostCardinalDir(rules, a) != "" ==> r == a) &&
        (PostCardinalDir(rules, a) == "" && PostCardinalDir(rules, b) != "" ==> r == b) &&
        (PostCardinalDir(rules, a) == "" && PostCardinalDir(rules, b) == "" ==> r == a)
  {
    CommonBaseNamesAtPositions(rules, self, other);
    var ps := Positions(Keeps(BaseNameEmit(rules, other)), self);
    var a := self[ps[j]];
    var k := FirstBaseMatch(rules, a, other).value;
    assert 0 <= k < |other|;
  }

  /** Either argument empty gives an empty base-name intersection. */
  lemma {:induction false} CommonBaseNamesEmpty(rules: BaseNameRules, c: seq<StreetName>)
    ensures CommonBaseNames(rules, c, []) == []
    ensures CommonBaseNames(rules, [], c) == []
  {
    if c != [] {
      CommonBaseNamesEmpty(rules, c[..|c| - 1]);
    }
  }

  /** The three precedence cases on one-entry lists. */
  lemma BaseNamePrecedence(rules: BaseNameRules, a: StreetName, b: StreetName)
    ensures !HasSameBaseName(rules, a, b) ==> CommonBaseNames(rules, [a], [b]) == []
    ensures HasSameBaseName(rules, a, b) && PostCardinalDir(rules, a) != "" ==>
      CommonBaseNames(rules, [a], [b]) == [a]
    ensures HasSameBaseName(rules, a, b) && PostCardinalDir(rules, a) == "" && PostCardinalDir(rules, b) != "" ==>
      CommonBaseNames(rules, [a], [b]) == [b]
    ensures HasSameBaseName(rules, a, b) && PostCardinalDir(rules, a) == "" && PostCardinalDir(rules, b) == "" ==>
      CommonBaseNames(rules, [a], [b]) == [a]
  {
    assert [a][..0] == [];
  }

  // ---- Route-number split ----

  /**
    RouteNumbers and NonRouteNumbers split `self`: between them they hold
    every entry exactly as often as `self` does, so their lengths add up to |self|.
   */
  lemma RouteSplit(self: seq<StreetName>)
    ensures |RouteNumbers(self)| + |NonRouteNumbers(self)| == |self|
    ensures multiset(RouteNumbers(self)) + multiset(NonRouteNumbers(self)) == multiset(self)
    ensures multiset(RouteNumbers(self)) * multiset(NonRouteNumbers(self)) == multiset{}
  {
    FilterPartition(IsRouteNumber, IsNotRouteNumber, self);
  }

  /** Both halves of the split keep the relative order of `self`. */
  lemma RouteSplitOrdered(self: seq<StreetName>)
    ensures var r, ps := RouteNumbers(self), Positions(IsRouteNumber, self);
      && |r| == |ps|
      && (forall j :: 0 <= j < |r| ==> r[j] == self[ps[j]])
      && (forall j, k :: 0 <= j < k < |ps| ==> ps[j] < ps[k])
      && (forall i :: 0 <= i < |self| ==> (i in ps <==> self[i].isRouteNumber))
    ensures var n, ps := NonRouteNumbers(self), Positions(IsNotRouteNumber, self);
      && |n| == |ps|
      && (forall j :: 0 <= j < |n| ==> n[j] == self[ps[j]])
      && (forall j, k :: 0 <= j < k < |ps| ==> ps[j] < ps[k])
      && (forall i :: 0 <= i < |self| ==> (i in ps <==> !self[i].isRouteNumber))
  {
    PositionsExact(IsRouteNumber, self);
    PositionsExact(IsNotRouteNumber, self);
    FilterAtPositions(IsRouteNumber, self);
    FilterAtPositions(IsNotRouteNumber, self);
  }
}
