/**
  One name of a road edge (the U.S. street-name entry), the wire-format name
  record it can be built from, and the per-entry queries the collection uses.
 */
module StreetName {
  import opened Wrappers

  /** A phonetic rendering: the alphabet's enumeration code and the phonetic text. */
  datatype Pronunciation = Pronunciation(alphabet: nat, value: string)

  /** One name of an edge: its text, whether it is a route number, and an optional pronunciation. */
  datatype StreetName = StreetName(value: string, isRouteNumber: bool, pronunciation: Option<Pronunciation>)

  /** The pronunciation part of a wire-format name record. */
  datatype WirePronunciation = WirePronunciation(alphabet: nat, value: string)

  /** A wire-format name record; `pronunciation` is None when the record has none. */
  datatype WireName = WireName(value: string, isRouteNumber: bool, pronunciation: Option<WirePronunciation>)

  /**
    Entry equality: the same text and the same route flag. The pronunciation
    plays no part, so two renderings of one road are the same name.
   */
  predicate SameName(a: StreetName, b: StreetName) {
    a.value == b.value && a.isRouteNumber == b.isRouteNumber
  }

  predicate IsRouteNumber(e: StreetName) {
    e.isRouteNumber
  }

  predicate IsNotRouteNumber(e: StreetName) {
    !e.isRouteNumber
  }

  /**
    The base-name capability of the U.S. entry, whose implementation is not
    part of this model: `sameBaseName(a, b)` is a.HasSameBaseName(b) and
    `postCardinalDir(e)` is e.GetPostCardinalDir().
   */
  datatype BaseNameRules = BaseNameRules(
    sameBaseName: (StreetName, StreetName) -> bool,
    postCardinalDir: StreetName -> string)

  /** a.HasSameBaseName(b) under `rules`. */
  predicate HasSameBaseName(rules: BaseNameRules, a: StreetName, b: StreetName) {
    rules.sameBaseName(a, b)
  }

  /** e.GetPostCardinalDir() under `rules`; empty when `e` has no post-name cardinal direction. */
  function PostCardinalDir(rules: BaseNameRules, e: StreetName): string {
    rules.postCardinalDir(e)
  }

  /** The entry made from one (text, is-route-number) pair: no pronunciation. */
  function FromPair(pair: (string, bool)): (e: StreetName)
    ensures e.pronunciation == None
    ensures (e.value, e.isRouteNumber) == pair
  {
    StreetName(pair.0, pair.1, None)
  }

  /** The entry made from one wire record: the pronunciation is carried over exactly when present. */
  function FromWire(w: WireName): (e: StreetName)
    ensures e.value == w.value && e.isRouteNumber == w.isRouteNumber
    ensures e.pronunciation.Some? <==> w.pronunciation.Some?
    ensures w.pronunciation.Some? ==>
      e.pronunciation.value == Pronunciation(w.pronunciation.value.alphabet, w.pronunciation.value.value)
  {
    var pronunciation :=
      if w.pronunciation.Some?
      then Some(Pronunciation(w.pronunciation.value.alphabet, w.pronunciation.value.value))
      else None;
    StreetName(w.value, w.isRouteNumber, pronunciation)
  }

  /** Writing an entry back as a wire record; used to show that FromWire loses nothing. */
  function ToWire(e: StreetName): WireName {
    var pronunciation :=
      if e.pronunciation.Some?
      then Some(WirePronunciation(e.pronunciation.value.alphabet, e.pronunciation.value.value))
      else None;
    WireName(e.value, e.isRouteNumber, pronunciation)
  }

  /** FromWire is a bijection between wire records and entries. */
  lemma FromWireRoundTrip(w: WireName, e: StreetName)
    ensures ToWire(FromWire(w)) == w
    ensures FromWire(ToWire(e)) == e
  {
  }
}
