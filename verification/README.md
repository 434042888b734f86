# Translation-program contributors page: verified model of its data logic

The contributors page of the ethereum.org website receives, from a build-time
query, a list of raw user records (`allTimeData.data`, each `{ user: { username,
fullName } }`, every level nullable). It turns them into clean contributor
records, dropping incomplete records and a fixed set of bot, placeholder and
legacy-vendor accounts; it shows how many records survive; and it lists the
surviving usernames sorted case-insensitively.

This project models that derivation in Dafny and proves what it guarantees:

- `wrappers.dfy` — `Option`, standing for the nullable fields, with `GetOr` for `??`.
- `strings.dfy` — `includes` (`Includes`), computed by a left-to-right scan
  (`Scan`) and proved equal to "occurs at some position" (`IsSubstring`);
  `toLowerCase` on ASCII letters (`Lower`); ordinal lexicographic order
  (`LexLeq`), proved equal to the prefix-or-first-difference definition and
  proved a total order.
- `flat_map.dfy` — `flatMap` (`FlatMap`) and its laws for a callback that emits
  at most one element: length bound, membership, order, provenance and
  coverage (no emitted element is dropped or merged), and the exact count.
- `name_order.dfy` — the sort comparator (`NameLeq`: compare the lower-cased
  names), a stable insertion sort (`Sort`) proved to produce an ordered
  permutation, proved stable, and proved to be the only stable sorted
  arrangement, so any stable sort by this comparator lists the same sequence.
- `contributors.dfy` — the query shape as datatypes, the page's exclusion
  conjunction (`Admissible`), proved equal to the same rules written as an
  exact-name set plus two marker sets (`Excluded`), the `flatMap` callback
  (`Clean`), the filtered list (`TranslatorData`, `TranslatorDataOf`), the count
  (`ContributorCount`), the listed names (`DisplayedNames`), and the lemmas
  about them.

The code does not de-duplicate: every item whose record passes the checks
contributes one record, so the same username surviving twice is counted and
listed twice (`Contributors.TranslatorDataCount`, and the example
`Contributors.ScenarioDuplicatesKept`).

## Model

| member | source | states |
|---|---|---|
| `Strings.Includes` | src/pages/contributing/translation-program/contributors.tsx:48-53 | `includes` holds exactly when the marker occurs at some position of the string |
| `Strings.ScanIff` | src/pages/contributing/translation-program/contributors.tsx:48-53 | the left-to-right scan behind `includes` finds a marker exactly when the marker occurs at some position |
| `Strings.Lower` | src/pages/contributing/translation-program/contributors.tsx:125 | `toLowerCase` keeps the length, leaves no ASCII capital, turns each capital into its small letter and keeps every other character |
| `Strings.LowerIdempotent` | src/pages/contributing/translation-program/contributors.tsx:125 | lower-casing an already lower-cased name changes nothing |
| `Strings.LexLeq` | src/pages/contributing/translation-program/contributors.tsx:125 | the ordinal order standing in for `localeCompare` ranks a prefix not-after the longer string, and a non-empty string not-after another only if that one is non-empty with a first character at least as large |
| `Strings.LexLeqIff` | src/pages/contributing/translation-program/contributors.tsx:125 | the recursive string comparison holds exactly when the first string is a prefix of the second or is smaller at their first difference |
| `Strings.LexLeqTransitive` | src/pages/contributing/translation-program/contributors.tsx:125 | string comparison is transitive |
| `Strings.LexLeqTotal` | src/pages/contributing/translation-program/contributors.tsx:125 | any two strings are comparable |
| `Strings.LexLeqAntisymmetric` | src/pages/contributing/translation-program/contributors.tsx:125 | strings that compare not-after each other are equal |
| `NameOrder.NameLeq` | src/pages/contributing/translation-program/contributors.tsx:124-126 | the comparator `user1.toLowerCase().localeCompare(user2.toLowerCase())`, read as "not after": names equal but for case tie, and a non-empty name comes first only before a non-empty name whose lower-cased first letter is not smaller |
| `NameOrder.NameLeqIgnoresCase` | src/pages/contributing/translation-program/contributors.tsx:124-126 | lower-casing both names before comparing them gives the same answer |
| `NameOrder.NameLeqReflexive` | src/pages/contributing/translation-program/contributors.tsx:124-126 | the case-insensitive comparator ranks every name not-after itself |
| `NameOrder.NameLeqTransitive` | src/pages/contributing/translation-program/contributors.tsx:124-126 | the comparator is transitive |
| `NameOrder.NameLeqTotal` | src/pages/contributing/translation-program/contributors.tsx:124-126 | the comparator relates any two names one way or the other |
| `NameOrder.NameLeqTie` | src/pages/contributing/translation-program/contributors.tsx:124-126 | two names tie under the comparator exactly when they are equal after lower-casing |
| `NameOrder.SortedPairwise` | src/pages/contributing/translation-program/contributors.tsx:124-126 | in a sequence whose adjacent pairs are in comparator order, every earlier name is not after every later one |
| `NameOrder.Insert` | src/pages/contributing/translation-program/contributors.tsx:124-126 | inserting into a sorted list yields a sorted list holding the old names plus the new one |
| `NameOrder.Sort` | src/pages/contributing/translation-program/contributors.tsx:124-126 | the sort's output is in comparator order and is a permutation (same multiset) of its input |
| `NameOrder.InsertTies` | src/pages/contributing/translation-program/contributors.tsx:124-126 | an inserted name lands before every name it ties with, and other tie classes keep their order |
| `NameOrder.SortStable` | src/pages/contributing/translation-program/contributors.tsx:124-126 | names equal after lower-casing keep their input order through the sort |
| `NameOrder.SortedUnique` | src/pages/contributing/translation-program/contributors.tsx:124-126 | two sorted lists whose tie classes appear in the same order are the same list |
| `NameOrder.StableSortIsSort` | src/pages/contributing/translation-program/contributors.tsx:124-126 | any sorted arrangement that keeps each tie class in input order equals the sort's output |
| `FlatMaps.FlatMap` | src/pages/contributing/translation-program/contributors.tsx:36-66 | `flatMap` returns an empty array exactly when every item's callback returns an empty array |
| `FlatMaps.FlatMapLength` | src/pages/contributing/translation-program/contributors.tsx:36-66 | with a callback emitting at most one element, `flatMap` returns no more elements than it was given |
| `FlatMaps.FlatMapMembers` | src/pages/contributing/translation-program/contributors.tsx:36-66 | an element is in the `flatMap` result exactly when some item's callback emits it |
| `FlatMaps.FlatMapOrder` | src/pages/contributing/translation-program/contributors.tsx:36-66 | each result element comes from an input position, the positions strictly increase, the element is what that item emitted, and every position whose callback emits something is among them |
| `FlatMaps.FlatMapCount` | src/pages/contributing/translation-program/contributors.tsx:36-66 | with a callback emitting at most one element, the result has exactly one element per item whose callback emits one |
| `Contributors.Admissible` | src/pages/contributing/translation-program/contributors.tsx:47-56 | the page's ten-way conjunction accepts a record exactly when its username is none of the four reserved names, contains none of the four username markers, and its full name contains neither full-name marker |
| `Contributors.Normalise` | src/pages/contributing/translation-program/contributors.tsx:39-45 | an item stands for a record exactly when the item, its user and a non-empty username are present; the record carries that username and the full name, or "" when the full name is null |
| `Contributors.Clean` | src/pages/contributing/translation-program/contributors.tsx:38-66 | the callback emits at most one record per item |
| `Contributors.CleanIsFilterThenMap` | src/pages/contributing/translation-program/contributors.tsx:39-65 | the callback emits exactly the item's normalised record when the rule set does not exclude it, and nothing otherwise |
| `Contributors.CleanDropsIncomplete` | src/pages/contributing/translation-program/contributors.tsx:39-43 | a null item, a null user, or a null or empty username yields no record |
| `Contributors.CleanAtMostOne` | src/pages/contributing/translation-program/contributors.tsx:38-66 | the callback emits at most one record for every possible item |
| `Contributors.TranslatorData` | src/pages/contributing/translation-program/contributors.tsx:36-66 | `translatorData` is the `flatMap` of the callback and never has more records than input items |
| `Contributors.TranslatorDataMembers` | src/pages/contributing/translation-program/contributors.tsx:36-66 | a record survives exactly when some input item's callback emits it |
| `Contributors.TranslatorDataOrder` | src/pages/contributing/translation-program/contributors.tsx:36-66 | surviving records keep the input order: they come from strictly increasing input positions, each emitted by its item, and every item that emits a record is among those positions |
| `Contributors.TranslatorDataCount` | src/pages/contributing/translation-program/contributors.tsx:36-66 | the number of records equals the number of items with a non-empty username that the rule set does not exclude, so nothing is de-duplicated |
| `Contributors.TranslatorDataSound` | src/pages/contributing/translation-program/contributors.tsx:45-56 | every surviving record has a non-empty username, is not excluded, and is some item's username and full name copied unchanged (null full name as "") |
| `Contributors.TranslatorDataComplete` | src/pages/contributing/translation-program/contributors.tsx:45-65 | every item with a non-empty username whose record is not excluded survives, with its full name defaulted to "" |
| `Contributors.TranslatorDataOf` | src/pages/contributing/translation-program/contributors.tsx:36-67 | a null `allTimeData` or `data` gives the empty list, as `?.` and `?? []` do |
| `Contributors.ContributorCount` | src/pages/contributing/translation-program/contributors.tsx:90-133 | the count shown (`translatorData.length`, line 90) equals the number of names listed |
| `Contributors.Usernames` | src/pages/contributing/translation-program/contributors.tsx:123 | the projection keeps length and order: the i-th name is the i-th record's username, so the names are exactly the records' usernames |
| `Contributors.DisplayedNames` | src/pages/contributing/translation-program/contributors.tsx:122-126 | the listed names are sorted by the comparator and are the surviving usernames with their multiplicities |
| `Contributors.MissingDataShowsNothing` | src/pages/contributing/translation-program/contributors.tsx:36-67 | a null `allTimeData` or `data` gives no records, a count of 0 and an empty list |
| `Contributors.DisplayedNamesOrdered` | src/pages/contributing/translation-program/contributors.tsx:122-126 | every earlier listed name is not after every later one case-insensitively |
| `Contributors.DisplayedNamesClean` | src/pages/contributing/translation-program/contributors.tsx:47-56 | no listed name is empty, a reserved name, or contains a username marker, and it belongs to a surviving record whose full name has no full-name marker |
| `Contributors.DisplayedNamesStable` | src/pages/contributing/translation-program/contributors.tsx:122-126 | listed names equal after lower-casing appear in the order of their records in the data |
| `Contributors.DisplayedNamesDetermined` | src/pages/contributing/translation-program/contributors.tsx:122-126 | any stable case-insensitive sort of the surviving usernames lists exactly `DisplayedNames` |
| `Contributors.ScenarioCaseInsensitiveOrder` | src/pages/contributing/translation-program/contributors.tsx:35-126 | users "Bob" and "alice" give a count of 2 and the list "alice", "Bob" |
| `Contributors.ScenarioExclusions` | src/pages/contributing/translation-program/contributors.tsx:47-56 | "ethdotorg", "LQS_test", "Aco_x" with full name "Aco_x", and a full name "Acc_team" are each dropped |
| `Contributors.ScenarioDuplicatesKept` | src/pages/contributing/translation-program/contributors.tsx:35-126 | the same username in two records is counted twice and listed twice |

## Left out

- Rendering: the page markup, the responsive grid, list-item keys, the heading and paragraph layout (contributors.tsx lines 69-147) carry no data logic beyond showing the count and the list.
- Translation lookups, breadcrumbs, page metadata, the link and the feedback widget: their components are not part of this model.
- The GraphQL query (lines 152-163) runs at build time; only the shape of its result is modelled, as the `Query` datatype.
- `toLowerCase` is modelled for ASCII letters only (`Strings.LowerChar`); full Unicode case mapping is host-library behaviour.
- `localeCompare` is modelled as ordinal lexicographic order on characters (`Strings.LexLeq`); locale-aware collation is host-library behaviour. JavaScript strings are UTF-16 code units, the model's characters are Unicode scalar values.
- The engine's sort algorithm is not modelled as such: `Array.prototype.sort` is required to be stable, and the model uses a stable insertion sort and proves (`NameOrder.StableSortIsSort`) that every stable sort by the same comparator gives the same list.
- Uniqueness of list-item keys is not claimed: the code does not de-duplicate usernames.
- The page is recomputed from the same input on every render; that re-deriving gives the same list holds because every member here is a function.
