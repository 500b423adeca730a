/**
  The U.S. street-name collection: the ordered list of names of one edge.
  The constructors fill it by appending, and every query builds a new
  collection by appending copies inside loops over `this`, never changing
  `this` or its argument (the queries have no modifies clause).
 */
module UsStreetNames {
  import opened Wrappers
  import opened Selection
  import opened StreetName
  import opened StreetNameSets

  class StreetNamesUs {
    var names: seq<StreetName>

    /** An empty collection. */
    constructor Empty()
      ensures names == []
    {
      names := [];
    }

    /** One entry per (text, is-route-number) pair, in input order, with no pronunciation. */
    constructor FromPairs(pairs: seq<(string, bool)>)
      ensures |names| == |pairs|
      ensures forall i :: 0 <= i < |pairs| ==>
        names[i].value == pairs[i].0 && names[i].isRouteNumber == pairs[i].1 && names[i].pronunciation == None
    {
      names := [];
      new;
      for i := 0 to |pairs|
        invariant |names| == i
        invariant forall k :: 0 <= k < i ==> names[k] == FromPair(pairs[k])
      {
        EmplaceBack(StreetName(pairs[i].0, pairs[i].1, None));
      }
    }

    /**
      One entry per wire record, in order; the entry's pronunciation is
      present exactly when the record has one, and then has its alphabet and text.
     */
    constructor FromWireNames(records: seq<WireName>)
      ensures |names| == |records|
      ensures forall i :: 0 <= i < |records| ==> names[i] == FromWire(records[i])
    {
      names := [];
      new;
      for i := 0 to |records|
        invariant |names| == i
        invariant forall k :: 0 <= k < i ==> names[k] == FromWire(records[k])
      {
        var record := records[i];
        var pronunciation :=
          if record.pronunciation.Some?
          then Some(Pronunciation(record.pronunciation.value.alphabet, record.pronunciation.value.value))
          else None;
        EmplaceBack(StreetName(record.value, record.isRouteNumber, pronunciation));
      }
    }

    /** Appends one entry at the end. */
    method EmplaceBack(name: StreetName)
      modifies this
      ensures names == old(names) + [name]
    {
      names := names + [name];
    }

    /** A new collection holding a copy of every entry, in order. */
    method Clone() returns (copy: StreetNamesUs)
      ensures fresh(copy)
      ensures copy.names == names
    {
      var self := names;
      copy := new StreetNamesUs.Empty();
      for i := 0 to |self|
        invariant fresh(copy)
        invariant copy.names == self[..i]
      {
        var name := self[i];
        copy.EmplaceBack(StreetName(name.value, name.isRouteNumber, name.pronunciation));
      }
    }

    /** A new collection of the entries of `this` that have an equal entry in `other`. */
    method FindCommonStreetNames(other: StreetNamesUs) returns (common: StreetNamesUs)
      ensures fresh(common)
      ensures common.names == CommonNames(names, other.names)
    {
      var self, others := names, other.names;
      common := new StreetNamesUs.Empty();
      for i := 0 to |self|
        invariant fresh(common)
        invariant common.names == CommonNames(self[..i], others)
      {
        var name := self[i];
        ghost var before := common.names;
        var j := 0;
        while j < |others|
          invariant 0 <= j <= |others|
          invariant common.names == before
          invariant forall m :: 0 <= m < j ==> !SameName(name, others[m])
        {
          if SameName(name, others[j]) {
            common.EmplaceBack(StreetName(name.value, name.isRouteNumber, name.pronunciation));
            break;
          }
          j := j + 1;
        }
        CommonNamesSnoc(self, i, others);
        if j == |others| {
          NoEqualFound(name, others);
        } else {
          assert others[j] in others;
        }
      }
      assert self[..|self|] == self;
    }

    /**
      A new collection with, for each entry `a` of `this` that has a
      base-name match in `other`, the preferred variant of `a` and the first
      such match.
     */
    method FindCommonBaseNames(other: StreetNamesUs, rules: BaseNameRules) returns (common: StreetNamesUs)
      ensures fresh(common)
      ensures common.names == CommonBaseNames(rules, names, other.names)
    {
      var self, others := names, other.names;
      common := new StreetNamesUs.Empty();
      for i := 0 to |self|
        invariant fresh(common)
        invariant common.names == CommonBaseNames(rules, self[..i], others)
      {
        var name := self[i];
        ghost var before := common.names;
        ghost var first := FirstBaseMatch(rules, name, others);
        var j := 0;
        while j < |others|
          invariant 0 <= j <= |others|
          invariant common.names == before
          invariant first.Some? ==> j <= first.value
        {
          var otherName := others[j];
          if HasSameBaseName(rules, name, otherName) {
            assert first == Some(j);
            if PostCardinalDir(rules, name) != "" {
              common.EmplaceBack(StreetName(name.value, name.isRouteNumber, name.pronunciation));
            } else if PostCardinalDir(rules, otherName) != "" {
              common.EmplaceBack(StreetName(otherName.value, otherName.isRouteNumber, otherName.pronunciation));
            } else {
              common.EmplaceBack(StreetName(name.value, name.isRouteNumber, name.pronunciation));
            }
            break;
          }
          j := j + 1;
        }
        CommonBaseNamesSnoc(rules, self, i, others);
      }
      assert self[..|self|] == self;
    }

    /** A new collection of the route-number entries, in order. */
    method GetRouteNumbers() returns (routes: StreetNamesUs)
      ensures fresh(routes)
      ensures routes.names == RouteNumbers(names)
    {
      var self := names;
      routes := new StreetNamesUs.Empty();
      for i := 0 to |self|
        invariant fresh(routes)
        invariant routes.names == RouteNumbers(self[..i])
      {
        var name := self[i];
        assert self[..i + 1] == self[..i] + [name];
        FilterSnoc(IsRouteNumber, self[..i], name);
        if name.isRouteNumber {
          routes.EmplaceBack(StreetName(name.value, name.isRouteNumber, name.pronunciation));
        }
      }
      assert self[..|self|] == self;
    }

    /** A new collection of the entries that are not route numbers, in order. */
    method GetNonRouteNumbers() returns (others: StreetNamesUs)
      ensures fresh(others)
      ensures others.names == NonRouteNumbers(names)
    {
      var self := names;
      others := new StreetNamesUs.Empty();
      for i := 0 to |self|
        invariant fresh(others)
        invariant others.names == NonRouteNumbers(self[..i])
      {
        var name := self[i];
        assert self[..i + 1] == self[..i] + [name];
        FilterSnoc(IsNotRouteNumber, self[..i], name);
        if !name.isRouteNumber {
          others.EmplaceBack(StreetName(name.value, name.isRouteNumber, name.pronunciation));
        }
      }
      assert self[..|self|] == self;
    }
  }

  /** Extending the scanned prefix of `self` by one entry extends CommonNames by that entry exactly when it has an equal. */
  lemma CommonNamesSnoc(self: seq<StreetName>, i: nat, other: seq<StreetName>)
    requires i < |self|
    ensures CommonNames(self[..i + 1], other) ==
      if HasEqual(other, self[i]) then CommonNames(self[..i], other) + [self[i]] else CommonNames(self[..i], other)
  {
    assert self[..i + 1] == self[..i] + [self[i]];
    FilterSnoc(MatchesIn(other), self[..i], self[i]);
  }

  /**
    Extending the scanned prefix of `self` by one entry extends
    CommonBaseNames by one entry exactly when that entry has a base-name match.
   */
  lemma CommonBaseNamesSnoc(rules: BaseNameRules, self: seq<StreetName>, i: nat, other: seq<StreetName>)
    requires i < |self|
    ensures CommonBaseNames(rules, self[..i + 1], other) ==
      match FirstBaseMatch(rules, self[i], other)
      case None => CommonBaseNames(rules, self[..i], other)
      case Some(k) => CommonBaseNames(rules, self[..i], other) + [PreferredVariant(rules, self[i], other[k])]
  {
    assert self[..i + 1][..i] == self[..i];
  }

  /** A scan of all of `other` without a hit means `a` has no equal there. */
  lemma NoEqualFound(a: StreetName, other: seq<StreetName>)
    requires forall m :: 0 <= m < |other| ==> !SameName(a, other[m])
    ensures !HasEqual(other, a)
  {
  }
}
