/** Callers of the collection, showing what its contracts let a caller conclude. */
module UsStreetNamesClient {
  import opened Wrappers
  import opened Selection
  import opened StreetName
  import opened StreetNameSets
  import opened UsStreetNames

  /** A wire list with one pronounced route number splits into that route number and the plain street. */
  method WireNamesSplit() {
    var broadway := WireName("Broadway", false, None);
    var us30 := WireName("US 30", true, Some(WirePronunciation(1, "ju es 0rti")));
    var edge := new StreetNamesUs.FromWireNames([broadway, us30]);
    assert edge.names == [StreetName("Broadway", false, None), StreetName("US 30", true, Some(Pronunciation(1, "ju es 0rti")))];
    var routes := edge.GetRouteNumbers();
    var others := edge.GetNonRouteNumbers();
    var x, y := edge.names[0], edge.names[1];
    assert edge.names == [x] + [y] && [x] == [] + [x];
    FilterSnoc(IsRouteNumber, [], x);
    FilterSnoc(IsRouteNumber, [x], y);
    FilterSnoc(IsNotRouteNumber, [], x);
    FilterSnoc(IsNotRouteNumber, [x], y);
    assert routes.names == [StreetName("US 30", true, Some(Pronunciation(1, "ju es 0rti")))];
    assert others.names == [StreetName("Broadway", false, None)];
  }

  /** The exact-match intersection follows the order of the receiver. */
  method MainStreetContinues() {
    var a := new StreetNamesUs.FromPairs([("Main St", false)]);
    var b := new StreetNamesUs.FromPairs([("Main St", false), ("US 30", true)]);
    var ab := a.FindCommonStreetNames(b);
    var ba := b.FindCommonStreetNames(a);
    var main := StreetName("Main St", false, None);
    assert a.names == [main];
    assert b.names == [main, StreetName("US 30", true, None)];
    assert main in b.names && SameName(main, main);
    assert b.names[..1] == [main];
    assert !HasEqual(a.names, b.names[1]);
    assert ab.names == [main];
    assert ba.names == [main];
  }

  /** A clone is equal to its source and is a different object. */
  method CloneIsIndependent(edge: StreetNamesUs) {
    var copy := edge.Clone();
    assert copy != edge && copy.names == edge.names;
    copy.EmplaceBack(StreetName("Broadway", false, None));
    assert |copy.names| == |edge.names| + 1;
  }
}
