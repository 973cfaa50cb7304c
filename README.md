# Candidate browser core, modelled in Dafny

The application lists job candidates, sorts the list, and shows a detail view
with a short list of "strengths" for each candidate. This project models the
logic behind those views:

- **Types** (`types.dfy`): the `Candidate` record. It has a three-valued
  `Availability`, an optional `avatar`, ordered `skills` and an integer
  `experience` in years. The two-valued `SortOption` is also here. Each enum
  carries `Label()`, the string literal that stands for it in the
  TypeScript source.
- **CandidateData** (`candidate_data.dfy`): the read-only fixture of six
  candidates. `GetCandidates` returns the fixture. `GetCandidateById`
  returns the first record with exactly the given id, or `None`. It is built
  on `Find`, a model of the array `find`.
- **Sorting** (`sorting.dfy`): `SortCandidates` returns a sorted copy of a
  candidate list. The selector is the raw string that the page passes
  unchecked. Exactly `"name-asc"` sorts by name ascending. Every other string
  sorts by experience descending, through the comparator `b.experience -
  a.experience`. The array sort is stable as the language requires, and is
  modelled by the stable insertion sort `InsertionSort`. The model proves
  that the result is a permutation of the input, is sorted, and is stable
  (each key class keeps its input order). It also proves that any sorted,
  stable rearrangement equals this result, so the result does not depend on
  the sorting algorithm. Idempotence and the small cases follow from that.
- **Strengths** (`strengths.dfy`): the table from candidate id to four
  strengths, and the four-element fallback for every other id.
  `GenerateStrengthsServer` does the lookup and `GenerateStrengths`
  delegates to it.
- **CandidatesPage** (`candidates_page.dfy`): the one rule of the list page
  that affects the sorter. The `sort` query value defaults to `"name-asc"`
  only when it is absent. Any other value is passed on unchecked.

All operations are functions on values. The sorter's input, the fixture and
the strengths table cannot change: the source's copy (`[...candidates]`) and
its never-written constants become plain value semantics.

An unrecognised `sort` value is not defaulted to name order.
`app/candidates/page.tsx:23` defaults only an absent value, and
`lib/utils/sort-candidates.ts:5-9` sorts every other string by experience
descending (`Sorting.UnrecognisedSelectorSortsByExperience`,
`CandidatesPage.UnrecognisedQuerySortsByExperience`).

## Model

| member | source | states |
|---|---|---|
| `Types.Availability.Label` | types/index.ts:10 | an availability is written as one of "immediate", "2-weeks", "1-month" |
| `Types.AvailabilityLabels` | types/index.ts:10 | each of the three literals names exactly one availability, and distinct availabilities have distinct literals |
| `Types.SortOption.Label` | types/index.ts:13 | a sort option is written as "name-asc" or "experience-desc" |
| `Types.SortOptionLabels` | types/index.ts:13 | the two literals name exactly the two sort options, one each |
| `CandidateData.GetCandidates` | lib/data/candidates.ts:3-74 | returns the fixture itself: six records whose ids are "1" to "6" in declaration order |
| `CandidateData.FixtureIdsDistinct` | lib/data/candidates.ts:3-70 | no two fixture records share an id |
| `CandidateData.Find` | lib/data/candidates.ts:77 | a found record is in the list and has exactly the sought id; nothing is found exactly when no record has that id |
| `CandidateData.FindIsFirstMatch` | lib/data/candidates.ts:77 | the record found is the one at the first index carrying the id |
| `CandidateData.GetCandidateById` | lib/data/candidates.ts:76-78 | a returned candidate is a fixture record with the requested id; the result is absent exactly when the id is not one of "1" to "6" |
| `CandidateData.LookupOfListed` | lib/data/candidates.ts:72-78 | every candidate that `GetCandidates` lists is returned by a lookup of its own id |
| `CandidateData.UnknownIdNotFound` | lib/data/candidates.ts:76-78 | the lookup of "nonexistent-id" returns nothing |
| `Sorting.NameCompare` | lib/utils/sort-candidates.ts:6 | the name comparison returns -1, 0 or 1, and 0 exactly when the names are equal |
| `Sorting.NameCompareAntisymmetric` | lib/utils/sort-candidates.ts:6 | swapping the two names negates the comparison |
| `Sorting.NameCompareTransitive` | lib/utils/sort-candidates.ts:6 | name order is transitive |
| `Sorting.Compare` | lib/utils/sort-candidates.ts:5-9 | for exactly "name-asc" the comparator is negative or positive as `NameCompare` puts the first or the second name first; for any other selector it is negative exactly when the first candidate has more experience and positive exactly when it has less (larger experience sorts first); its order laws are `CompareZeroIffSameKey`, `InOrderTotal`, `InOrderBothWays` and `InOrderTransitive` |
| `Sorting.CompareZeroIffSameKey` | lib/utils/sort-candidates.ts:4-10 | the comparator returns 0 exactly when the selected keys (name, or experience) are equal |
| `Sorting.InOrderTotal` | lib/utils/sort-candidates.ts:4-10 | the comparator orders any two candidates one way or the other |
| `Sorting.InOrderBothWays` | lib/utils/sort-candidates.ts:4-10 | candidates ordered both ways have equal keys |
| `Sorting.InOrderTransitive` | lib/utils/sort-candidates.ts:4-10 | the comparator's order is transitive, for names and for experience |
| `Sorting.Insert` | lib/utils/sort-candidates.ts:4 | inserting adds exactly one element: the length grows by one and the multiset gains that element |
| `Sorting.InsertAfterPrefix` | lib/utils/sort-candidates.ts:4 | an inserted element lands behind the leading elements it may not precede and in front of the first one it may |
| `Sorting.InsertSorted` | lib/utils/sort-candidates.ts:4 | inserting into a sorted list keeps it sorted |
| `Sorting.InsertKeyClass` | lib/utils/sort-candidates.ts:4 | inserting puts the element at the front of its own key class and leaves every other key class unchanged |
| `Sorting.InsertStable` | lib/utils/sort-candidates.ts:4 | inserting the head into a stable sort of the tail gives a stable sort of the whole list |
| `Sorting.InsertionSort` | lib/utils/sort-candidates.ts:4-10 | the array sort returns a list of the same length and the same multiset of records |
| `Sorting.InsertionSortSorted` | lib/utils/sort-candidates.ts:4-10 | the array sort's output is ordered by the comparator |
| `Sorting.InsertionSortStable` | lib/utils/sort-candidates.ts:4-10 | the array sort keeps records with equal keys in their input order |
| `Sorting.SortCandidates` | lib/utils/sort-candidates.ts:3-11 | the result is a permutation of the input, sorted and stable; with "name-asc" each name compares at most the next, with any other selector each experience is at least the next |
| `Sorting.SortedStableUnique` | lib/utils/sort-candidates.ts:4 | two sorted lists with the same records in the same order within every key class are equal |
| `Sorting.SortIsUnique` | lib/utils/sort-candidates.ts:3-11 | any sorted, stable rearrangement of the input is exactly `SortCandidates`'s result |
| `Sorting.SortOfSorted` | lib/utils/sort-candidates.ts:3-11 | an already sorted list comes back unchanged |
| `Sorting.SortIdempotent` | lib/utils/sort-candidates.ts:3-11 | sorting the output again by the same selector returns the same list |
| `Sorting.SortSmall` | lib/utils/sort-candidates.ts:4 | the empty list sorts to the empty list and a one-element list to itself |
| `Sorting.UnrecognisedSelectorSortsByExperience` | lib/utils/sort-candidates.ts:5-9 | every selector other than "name-asc" gives the same result as "experience-desc" |
| `Strengths.GenerateStrengthsServer` | lib/ai/generate-strengths.ts:40-52 | total lookup: the result always has four strings; it is the table entry for a key in the table, and the fallback exactly when the key is not in the table |
| `Strengths.GenerateStrengths` | lib/ai/generate-strengths.ts:54-58 | returns the same four strings as `GenerateStrengthsServer` |
| `Strengths.TableKeysAreFixtureIds` | lib/ai/generate-strengths.ts:1-38 | the table has entries for exactly the ids "1" to "6" |
| `Strengths.ListedCandidatesHaveEntries` | lib/ai/generate-strengths.ts:2-45 | every fixture candidate gets its own table entry, never the fallback |
| `Strengths.KnownAndUnknownIds` | lib/ai/generate-strengths.ts:2-50 | "1" starts with "Strong leadership in frontend architecture"; "nonexistent-id" gets the fallback, starting with "Adaptable professional" |
| `CandidatesPage.SelectedSort` | app/candidates/page.tsx:23 | an absent query value selects the name order; a present one is passed through unchanged |
| `CandidatesPage.ListedCandidates` | app/candidates/page.tsx:23-26 | the list page shows a permutation of the whole fixture, sorted by the order the query selects and stable (equal keys keep their fixture order) |
| `CandidatesPage.UnrecognisedQuerySortsByExperience` | app/candidates/page.tsx:23-26 | a present query value other than "name-asc" lists the fixture by experience descending |

## Left out

- `Sorting.NameCompare`: ordinal character-by-character order stands in for `localeCompare`, whose collation depends on the locale and the ICU data of the runtime. A locale collation can also rank two different names as equal. The model treats only identical names as equal, so its key classes for the name order are those of ordinal comparison.
- `experience` is an unbounded `int`. The source computes `b.experience - a.experience` on floating-point numbers. The two agree on the integer fixture values.
- The 800 ms `setTimeout` and the `async`/`Promise` wrapper of the strengths lookup are timing and scheduling only. The model returns the result directly.
- The HTTP route `app/api/generate-strengths/[candidateId]/route.ts` (its 400 and 500 responses) is framework boundary code and is not part of this model.
- The lookup `MOCK_STRENGTHS_MAP[candidateId]` on a plain object also finds inherited members such as "toString". The model's table is a finite map with exactly the six keys.
- UI components, routing, layout and the skill-badge truncation of the candidate card are presentation only.
