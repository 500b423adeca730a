# U.S. street-name collection, modelled in Dafny

This project models the U.S. street-name collection of the Valhalla routing
engine (`StreetNamesUs` in `src/baldr/streetnames_us.cc`). The collection is
the ordered list of names on one road edge. Each entry has a text, a
route-number flag and an optional pronunciation. The maneuver builder uses
five derived collections:

- a copy (`clone`);
- the exact-match intersection with another edge's names (`FindCommonStreetNames`);
- the base-name intersection, which prefers the variant with a post-name
  cardinal direction (`FindCommonBaseNames`);
- the route-number entries (`GetRouteNumbers`);
- the other entries (`GetNonRouteNumbers`).

Layout:

- `wrappers.dfy`: `Option`.
- `selection.dfy`: module `Selection`. A generic stable `Filter`, the `Positions` it keeps,
  and a `FilterMap` that keeps and transforms, with their lemmas.
- `street_name.dfy`: module `StreetName`. The entry, the pronunciation, the wire record,
  entry equality (`SameName`), and the base-name capability `BaseNameRules`.
- `street_name_sets.dfy`: module `StreetNameSets`. The derived collections as functions of
  the input lists, and the properties proved about them.
- `streetnames_us.dfy`: module `UsStreetNames`. Class `StreetNamesUs`, with a `names: seq`
  field. Its constructors and queries are written as the source's loops: they append copies
  with `EmplaceBack`, and an inner loop stops at the first match. Each query's `ensures`
  ties the collection it builds to its function in `StreetNameSets`. `Clone` ties its result
  to `this.names`, the constructors tie entry i to `StreetName.FromPair` or
  `StreetName.FromWire` of input i, and `EmplaceBack` ties the new list to the old one.
- `scenarios.dfy`: callers that work through small examples (a wire list split
  on the route flag, "Main St" kept across an edge boundary, an independent clone).

The queries are `const` in the source. In the model they have no `modifies` clause, so
neither `this` nor the argument can change. Each query returns a `fresh` object.
The base-name matcher (`HasSameBaseName`, `GetPostCardinalDir`) is defined in a file that is
not part of this model. It is passed to `FindCommonBaseNames` as a `BaseNameRules` value,
which holds two total functions. Nothing is assumed about them.

Two choices follow from how `streetnames_us.cc` uses what it calls:

- `GetPostCardinalDir()` is only ever tested with `.empty()` (lines 73 and 77), so the model
  gives it a `string` result (`StreetName.PostCardinalDir`) and only compares it with `""`.
- Entry equality (`operator==`, line 53) is defined outside `streetnames_us.cc`. `SameName`
  takes it to compare the text and the route flag and to ignore the pronunciation. It is a
  separate predicate, so another definition can replace it.

## Model

| member | source | states |
|---|---|---|
| `StreetName.FromPair` | src/baldr/streetnames_us.cc:17 | the entry built from a pair has the pair's text and flag and no pronunciation |
| `StreetName.FromWire` | src/baldr/streetnames_us.cc:23-30 | the entry built from a wire record has the record's text and flag; it has a pronunciation exactly when the record has one, with the same alphabet and value |
| `StreetName.FromWireRoundTrip` | src/baldr/streetnames_us.cc:21-31 | building an entry from a wire record loses nothing: writing it back gives the record, in both directions |
| `UsStreetNames.StreetNamesUs.Empty` | src/baldr/streetnames_us.cc:12-13 | the default collection is empty |
| `UsStreetNames.StreetNamesUs.FromPairs` | src/baldr/streetnames_us.cc:15-19 | one entry per pair, in input order: entry i has the text and flag of pair i and no pronunciation; empty input gives an empty collection |
| `UsStreetNames.StreetNamesUs.FromWireNames` | src/baldr/streetnames_us.cc:21-32 | one entry per wire record, in order; entry i is the conversion of record i, so its pronunciation is present exactly when the record has one |
| `UsStreetNames.StreetNamesUs.EmplaceBack` | src/baldr/streetnames_us.cc:17 | appending an entry adds it at the end and leaves the earlier entries unchanged (the `emplace_back` of lines 17, 29, 40, 54, 74, 78, 84, 100 and 113) |
| `UsStreetNames.StreetNamesUs.Clone` | src/baldr/streetnames_us.cc:37-46 | a fresh collection whose entries equal those of `this` (value, flag and pronunciation) in order; `this` is not modified |
| `UsStreetNames.StreetNamesUs.FindCommonStreetNames` | src/baldr/streetnames_us.cc:48-63 | a fresh collection equal to `CommonNames(this, other)`; the nested loop with its first-match `break` builds exactly that list; neither input is modified |
| `UsStreetNames.StreetNamesUs.FindCommonBaseNames` | src/baldr/streetnames_us.cc:65-94 | a fresh collection equal to `CommonBaseNames(rules, this, other)`; the inner loop stops at the first base-name match and emits the variant chosen by the three-way rule; neither input is modified |
| `UsStreetNames.StreetNamesUs.GetRouteNumbers` | src/baldr/streetnames_us.cc:96-107 | a fresh collection equal to `RouteNumbers(this)`; `this` is not modified |
| `UsStreetNames.StreetNamesUs.GetNonRouteNumbers` | src/baldr/streetnames_us.cc:109-120 | a fresh collection equal to `NonRouteNumbers(this)`; `this` is not modified |
| `StreetNameSets.CommonNames` | src/baldr/streetnames_us.cc:49-63 | no longer than `self`; every entry of the result is an entry of `self` with an equal in `other`; every entry of `self` with an equal in `other` is in the result |
| `StreetNameSets.CommonNamesOrderedBySelf` | src/baldr/streetnames_us.cc:51-60 | the result lists `self` at exactly the positions whose entry has an equal in `other`, each position once, in increasing order |
| `StreetNameSets.CommonNamesEmpty` | src/baldr/streetnames_us.cc:51-60 | the intersection with an empty list, on either side, is empty |
| `StreetNameSets.CommonNamesContained` | src/baldr/streetnames_us.cc:53-56 | every entry of the result has an equal entry in each input |
| `StreetNameSets.FirstBaseMatch` | src/baldr/streetnames_us.cc:69-70 | a found index is in range, its entry has `a`'s base name, and no earlier entry does; when none is found, no entry has it |
| `StreetNameSets.PreferredVariant` | src/baldr/streetnames_us.cc:73-87 | the chosen entry is one of the two; it has a post-cardinal direction whenever either does; it is `a` unless `a` has no post-cardinal direction and `b` has one |
| `StreetNameSets.CommonBaseNames` | src/baldr/streetnames_us.cc:66-93 | at most one entry per entry of `self`, so no longer than `self` |
| `StreetNameSets.CommonBaseNamesIsFilterMap` | src/baldr/streetnames_us.cc:66-93 | the entry-by-entry definition of the base-name intersection equals the generic filter-map of the per-entry emission (first match, then preferred variant) over `self` |
| `StreetNameSets.CommonBaseNamesCopies` | src/baldr/streetnames_us.cc:73-87 | every emitted entry is a copy of an entry of `self` or of `other` |
| `StreetNameSets.FirstBaseMatchExists` | src/baldr/streetnames_us.cc:69-70 | the inner search finds a match exactly when some entry of `other` has the same base name |
| `StreetNameSets.CommonBaseNamesAtPositions` | src/baldr/streetnames_us.cc:68-91 | one entry is emitted per position of `self` that has a base-name match in `other`, none for other positions, in increasing position order; the entry for position i is the preferred variant of `self[i]` and its first match |
| `StreetNameSets.CommonBaseNamesTieBreak` | src/baldr/streetnames_us.cc:70-88 | with `a` the source entry and `b` its first base-name match: the result is `a` if `a` has a post-cardinal direction, else `b` if `b` has one, else `a` |
| `StreetNameSets.CommonBaseNamesEmpty` | src/baldr/streetnames_us.cc:68-70 | the base-name intersection with an empty list, on either side, is empty |
| `StreetNameSets.BaseNamePrecedence` | src/baldr/streetnames_us.cc:70-88 | the three precedence cases on one-entry lists (qualified self wins, else qualified other, else self), and no output without a base-name match |
| `StreetNameSets.RouteNumbers` | src/baldr/streetnames_us.cc:96-107 | no longer than `self`; every entry is a route number taken from `self`; every route number of `self` is kept |
| `StreetNameSets.NonRouteNumbers` | src/baldr/streetnames_us.cc:109-120 | no longer than `self`; no entry is a route number and all are taken from `self`; every non-route entry of `self` is kept |
| `StreetNameSets.RouteSplit` | src/baldr/streetnames_us.cc:96-120 | the two halves have lengths summing to the length of `self`; as multisets they add up to `self` and are disjoint |
| `StreetNameSets.RouteSplitOrdered` | src/baldr/streetnames_us.cc:98-117 | each half lists `self`'s entries at positions that strictly increase and are exactly the positions with (resp. without) the route flag |
| `Selection.FilterPartition` | src/baldr/streetnames_us.cc:98-117 | filtering on a predicate and on its negation splits a list: the lengths add up, and the multisets add up to the list's |

## Left out

- `StreetNameUs::HasSameBaseName` and `StreetNameUs::GetPostCardinalDir` are not part of this model. They are the two functions of a `BaseNameRules` parameter, and no property of them is assumed.
- `UsStreetNames.StreetNamesUs.FindCommonBaseNames` takes the base-name rules as an extra parameter, where the source calls virtual methods of the entries.
- Entry equality (`operator==`) is defined outside `streetnames_us.cc`. `SameName` compares text and route flag and ignores the pronunciation.
- The `unique_ptr` ownership, the heap-allocated entries and the virtual `StreetNames` base class are not modelled. Entries are values, so a copy cannot share state with its source. The returned collection is a fresh object.
- The destructor (lines 34-35) is empty and has nothing to model.
- Protobuf's `RepeatedPtrField` and `has_pronunciation()` are a `seq` of `WireName` records with an `Option` pronunciation.
- The pronunciation-alphabet enumeration is kept as its numeric code and copied unchanged, because its values are not part of this model.
- Names are opaque strings; no Unicode or byte-level detail is modelled.
