# metascoop package index, modelled in Dafny

This project models the index of a package repository as
`metascoop/apps/index.go` defines it. The index is a `RepoIndex` made of four parts:
- opaque repository metadata;
- opaque request metadata;
- a list of opaque app entries;
- a map from package name to the list of `PackageInfo` build records for that name.

The model covers the two operations that change an index in place:

- `FindLatestPackage` looks a package name up. It sorts that name's stored list
  in place by version name and returns the last record, which is the one with
  the latest version. A name that does not parse as a version ranks lowest.
  An absent name gives `ok = false` and the zero record.
- `RemoveVersionCode` deletes the key `suggestedVersionCode` from every app
  entry. It also resets `versionCode` to 0 in every record of every list.

The project has four modules.

- `Versions` (versions.dfy) stands in for the semantic-version library the
  index calls (`NewVersion`, `LessThan` of github.com/hashicorp/go-version).
  That library is not part of this model. Here a version is one or more
  decimal numbers separated by dots. Versions compare segment by segment,
  with zero padding, so "1.2" equals "1.2.0". `Parse` returns `None` where
  the library returns an error. The module proves four things:
  - `Parse` accepts exactly the dotted decimals: digits and dots only,
    starting and ending with a digit, with a digit after every dot;
  - every version is parsed back from its canonical writing;
  - `Compare` matches an independent lexicographic definition;
  - `LessThan` is a strict order.
- `Sorting` (sorting.dfy) stands in for `sort.Slice`. It is the insertion sort
  that Go runs on short slices, written against an array with the comparator
  passed in. The sort permutes the array whatever the comparator is. If the
  comparator agrees with a transitive preorder, the sort leaves the array
  ordered by that preorder. It leaves an input with no adjacent inversion as
  it was.
- `Index` (index.dfy) holds these parts:
  - `PackageInfo`;
  - the two comparators (as written and corrected);
  - the version ranking;
  - the class `RepoIndex` with its two methods, each loop of `RemoveVersionCode`
    written as a method of its own;
  - the redaction functions those methods are proved against.
- `Scenarios` works through the three-build example `["1.0.0", "2.3.1", "2.3.0"]`.
  It works the example through the corrected query and through the
  comparator as written.

The opaque values (the `interface{}` of the Go maps) are a type parameter `V`
of `RepoIndex`. They are carried through and never inspected.

Three decisions settle how the model treats unusual inputs. Two keep the
source's behaviour and one corrects it:

- A package name present in the map but mapped to an empty list makes the
  source index `pkgs[-1]` and panic (index.go:56). A caller that needs
  `ok = false` for an empty list must guard against it. The model follows the
  code: `FindLatestPackage` requires the list, when present, to be non-empty.
- The corrected comparator still says that an unparsable name is less than
  itself. This is the source's own workaround for malformed names (index.go:43-45),
  and the model keeps it. The insertion sort needs only `Agrees` (see Sorting),
  not irreflexivity, so the corrected query is still proved to return a
  latest record.
- The comparator at index.go:47 parses its second operand from the first
  record. The model sorts with the corrected comparator, which parses
  `pkgs[j]`; see "## Findings".

## Model

| member | source | states |
|---|---|---|
| `Versions.Parse` | metascoop/apps/index.go:42-47 | the NewVersion stand-in succeeds exactly on dotted decimals (digits and dots only, a digit first, last and after every dot), and a parsed version has at least one segment |
| `Versions.LessThanMeaning` | metascoop/apps/index.go:52 | the LessThan stand-in holds of v and w exactly when, both padded with zeros, v's segment is the smaller one at the first position where they differ |
| `Versions.ParseFormat` | metascoop/apps/index.go:42-47 | the version-parse stand-in reads every version back from its canonical dotted writing |
| `Versions.CompareMeaning` | metascoop/apps/index.go:52 | the version comparison is below, equal or above exactly when the zero-padded segments first differ downwards, never differ, or first differ upwards (both directions of each) |
| `Versions.CompareAntisymmetric` | metascoop/apps/index.go:52 | comparing b with a gives the opposite of comparing a with b |
| `Versions.CompareTransitive` | metascoop/apps/index.go:52 | "at most" is transitive, and strict when either step is strict |
| `Versions.LessThanStrictOrder` | metascoop/apps/index.go:52 | the LessThan stand-in is irreflexive, asymmetric and transitive, and any two versions are ordered or equal once padded |
| `Index.RanksNoHigherPreorder` | metascoop/apps/index.go:41-53 | the ranking the sort is meant to produce (unparsable lowest, then by version) is reflexive, total and transitive |
| `Index.LessAgrees` | metascoop/apps/index.go:41-53 | the comparator, with line 47 corrected to pkgs[j], agrees with that ranking: less(x, y) lets x precede y, and not less(x, y) lets y precede x |
| `Index.Less` | metascoop/apps/index.go:41-53 | the comparator with line 47 corrected to pkgs[j]: true when the first name does not parse; false when only the second fails. A true answer lets the first record precede the second in the ranking, a false one lets the second precede the first |
| `Index.UnparsableRanksLowest` | metascoop/apps/index.go:42-45 | a record whose version name does not parse is less than every record and ranks strictly below every record whose name parses |
| `Index.LessAsWritten` | metascoop/apps/index.go:41-53 | as written, less(a, b) holds exactly when a's version name fails to parse, whatever b is |
| `Index.LastOfSortedIsLatest` | metascoop/apps/index.go:55-56 | in a rank-ordered list the last record ranks at least as high as every record, and its name parses when any name in the list does |
| `Index.SortByVersion` | metascoop/apps/index.go:41-53 | sorting a package's list gives a permutation of it (same multiset) in rank order |
| `Index.LatestOfPermutation` | metascoop/apps/index.go:55-56 | the last record of a rank-ordered permutation is a member of the original list, ranks at least as high as all of it, and parses when any of it does |
| `Sorting.InsertionSort` | metascoop/apps/index.go:41-53 | the in-place sort permutes the array for any comparator; it leaves it ordered when the comparator agrees with a transitive preorder; an input with no adjacent inversion is left unchanged |
| `Index.RepoIndex.constructor` | metascoop/apps/index.go:11-17 | an index holds exactly the repo, requests, apps and packages it is given |
| `Index.RepoIndex.FindLatestPackage` | metascoop/apps/index.go:35-57 | absent name: ok is false, the zero record is returned, and nothing changes. Present name: ok is true. The stored list becomes a rank-ordered permutation of itself whose last element is returned; that record is a member of the old list and ranks at least as high as every record in it; so an unparsable name is returned only when no name in the list parses. No other key, and not repo, requests or apps, changes. An empty stored list is excluded, as the source faults on it |
| `Index.RedactApps` | metascoop/apps/index.go:60-62 | the app list keeps its length and order; no entry has "suggestedVersionCode"; every other key of every entry keeps its presence and value |
| `Index.RedactList` | metascoop/apps/index.go:65-67 | a list keeps its length and order; every record has version code 0 and is otherwise the record it was |
| `Index.RedactPackages` | metascoop/apps/index.go:64-68 | the set of package names is unchanged; every list keeps its length; every record has version code 0 and is otherwise the record it was |
| `Index.RedactAppsIdempotent` | metascoop/apps/index.go:60-62 | redacting the app list twice is the same as once |
| `Index.RedactPackagesIdempotent` | metascoop/apps/index.go:64-68 | redacting the package map twice is the same as once |
| `Index.RepoIndex.RemoveVersionCode` | metascoop/apps/index.go:59-69 | the new apps and packages are the redacted old ones; repo and requests are unchanged |
| `Index.RepoIndex.DeleteSuggestedVersionCodes` | metascoop/apps/index.go:60-62 | the loop over app entries leaves exactly the redacted app list and changes no other field |
| `Index.RepoIndex.ResetVersionCodes` | metascoop/apps/index.go:64-68 | the loop over package names, in any order, leaves exactly the redacted package map and changes no other field |
| `Index.RepoIndex.ResetVersionCodesOf` | metascoop/apps/index.go:65-67 | the loop over one name's list redacts that list and leaves every other name's list as it was |
| `Scenarios.LatestOfThreeBuilds` | metascoop/apps/index.go:35-57 | on builds "1.0.0", "2.3.1", "2.3.0" the query returns the "2.3.1" build with ok true, and leaves the list stored as "1.0.0", "2.3.0", "2.3.1" |
| `Scenarios.AsWrittenReturnsStale` | metascoop/apps/index.go:41-56 | with the comparator as written, the same builds are sorted without a swap and the last record is "2.3.0", which ranks strictly below "2.3.1" |
| `Scenarios.AsWrittenDisagrees` | metascoop/apps/index.go:42-52 | the comparator as written does not agree with the version ranking |
| `Scenarios.UnparsableLessThanItself` | metascoop/apps/index.go:42-45 | a record whose name does not parse is less than itself under both comparators |

## Left out

- `ReadIndex` and `WriteIndex` (index.go:71-102) are not modelled. They are file I/O
  through os.Open, os.Create and os.Rename. Their temp-file-and-rename
  atomicity is a property of the file system shared by several processes.
- JSON encoding and decoding are not modelled. This includes the `omitempty`
  rule that drops a zero `versionCode` (index.go:31). These are done by
  the standard JSON library.
- `Versions.Parse` does not reproduce the library's grammar. It does not model
  the optional leading "v", pre-release or metadata suffixes, or the
  library's own limits. `Versions.LessThan` orders plain numeric segments
  only.
- `Sorting.InsertionSort` models the insertion sort Go uses for slices of up to 12
  elements. For longer slices sort.Slice runs pattern-defeating quicksort,
  which compares in a different order. The permutation holds for both, and
  so does the ordering under an agreeing comparator. The exact order that
  `Scenarios.AsWrittenReturnsStale` exhibits is the insertion sort's.
- `Index.RepoIndex.FindLatestPackage` gets a sorted copy and stores it back
  under the same name. The source instead sorts the slice that the map shares
  in place. The visible effect on the index is the same, but aliasing
  between this slice and other holders of it is not modelled.
- `Index.RepoIndex.RemoveVersionCode` treats app entries as map values. In Go
  they are map references, so two entries aliasing one map would be deleted
  from together. An index decoded from a document has no such aliasing.
- Go's `int` and `int64` fields are unbounded integers here. The index
  only copies them and resets `versionCode`, so their width does not matter.

## Findings

| source | as written | input that shows it | evidently intended | confidence | as-written member | corrected member |
|---|---|---|---|---|---|---|
| metascoop/apps/index.go:47 | the second operand is parsed from `pkgs[i]`, so `less(i, j)` only asks whether `pkgs[i]` fails to parse and never compares two versions | a package whose builds are "1.0.0", "2.3.1", "2.3.0": no pair is less, the sort makes no swap, and "2.3.0" is returned instead of "2.3.1" | parse `pkgs[j]` at line 47, so that line 52 compares the two records and the last element is the latest (line 55) | high; not executed | `Scenarios.AsWrittenReturnsStale` | `Index.LessAgrees` |
