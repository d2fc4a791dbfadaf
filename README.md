# getapp catalogue renderer, modelled in Dafny

The getapp site is a static "APK hub". It loads `apps.json`, shows one card per
application record and lets the reader search and sort them. The download
links stay blocked until the terms dialog has been accepted. This project
models the logic of `script.js`:

- **Wrappers**: `Option` and `Result`.
- **Text**: the string primitives the page relies on:
  - `String.prototype.trim` with the whole JavaScript whitespace set;
  - `toLowerCase`, on ASCII letters;
  - `includes`;
  - an ordinal stand-in for `localeCompare`;
  - `String(n)` for natural numbers.
- **SizeFormat**: `fmtBytes`.
  - The specification functions `UnitIndex`, `Scaled`, `Decimals` and `ToFixed` describe the result.
  - The method `FmtBytes` keeps the script's dividing loop and is proved equal to `FormatBytes`.
  - `toFixed` is modelled exactly. For a count below 2^53, `bytes / 1024^i` is an exact double. `toFixed(d)` then writes the integer `n` nearest to `v·10^d`, taking the larger one on a tie, with a point before the last `d` digits.
- **Catalog**: the record and the JSON document it arrives in. `Normalise` models `Array.isArray(data) ? data : (data.apps || [])`, including the `null` document that makes it throw.
- **Pipeline**: the pure part of `renderApps`:
  - the search filter: trim, lowercase, then test the name or package with `includes`;
  - the comparator of each sort selection;
  - `Array.prototype.sort`, a stable sort, modelled as insertion sort. For a consistent comparator every stable sort gives the same order.
- **Cards**: the values one card shows for one record: placeholders, the size text, the SDK text and the copy-hash control.
- **Session**: the `state` object as the class `State`:
  - the accept handler, the download-click handler, `renderApps` and `loadApps` are its methods;
  - `Snapshot`, `Step` and `Run` replay any sequence of user events as plain data, so facts about whole sessions are lemmas.

`fmtBytes(1073741824)` is `"1.0 GB"`, not `"1 GB"`: the scaled value 1 is below
10 and the unit is not B, so `toFixed(1)` is used (`SizeFormat.FormatGigabyte`).

## Model

| member | source | states |
|---|---|---|
| SizeFormat.FmtBytes | script.js:8-13 | The dividing loop returns exactly `FormatBytes(bytes)`: the value scaled to the unit `UnitIndex` picks, written by `toFixed` with `Decimals` digits, a space, then the unit name |
| SizeFormat.UnitIndexIsLeast | script.js:10-11 | The unit chosen is the smallest in which the count is below 1024 units, or GB when there is none; every smaller power of 1024 is at most the count |
| SizeFormat.UnitIndexUnique | script.js:10-11 | Only one unit index has the stop property of the loop, so the loop's exit index is `UnitIndex` |
| SizeFormat.ScaledIsQuotient | script.js:11 | The value shown is the byte count divided by 1024 to the power of the unit index |
| SizeFormat.ScaledRange | script.js:11 | Below GB the shown value is under 1024; above B it is at least 1 |
| SizeFormat.Decimals | script.js:12 | At most one fraction digit is ever asked of `toFixed` |
| SizeFormat.FixedTextShape | script.js:12 | `toFixed` output is the decimal numeral of the rounded value, padded with zeros to at least `d + 1` digits, with the point before the last `d` digits; read without the point it denotes the rounded value |
| SizeFormat.InsertPointShape | script.js:12 | Removing the point that `toFixed` inserts gives the digit string back, and the point sits exactly `d` places from the end |
| SizeFormat.UnitIndex | script.js:10-11 | The unit picked is one of B, KB, MB and GB |
| SizeFormat.Scaled | script.js:11 | The value shown lies between 0 and the byte count |
| SizeFormat.ToFixed | script.js:12 | `toFixed(d)` writes the numeral of the value rounded to `d` decimals, zero-padded to at least `d + 1` digits, with the point before the last `d` digits |
| SizeFormat.FormatBytes | script.js:12 | The text is non-empty text, a space, then the name of the unit picked; it holds a decimal point exactly when the unit is not B and the value shown is below 10 |
| SizeFormat.PointIffDecimal | script.js:12 | `toFixed(d)` writes a decimal point exactly when one fraction digit is asked for |
| SizeFormat.RoundedUnits | script.js:12 | `toFixed` rounds `v·10^d` to the nearest integer, a tie going to the larger one |
| SizeFormat.FormatZero | script.js:10-12 | 0 bytes is "0 B" |
| SizeFormat.FormatKilobytes | script.js:10-12 | 1536 bytes is "1.5 KB" |
| SizeFormat.FormatGigabyte | script.js:10-12 | 1073741824 bytes is "1.0 GB" |
| Text.NatToStringCanonical | script.js:12 | The decimal rendering of a natural is non-empty, all digits, has no leading zero unless the number is 0, and denotes the number |
| Text.TrimStart | script.js:18 | Trimming the start leaves a suffix of the text that is empty or starts with a non-whitespace character |
| Text.TrimEnd | script.js:18 | Trimming the end leaves a prefix of the text that is empty or ends with a non-whitespace character |
| Text.Trim | script.js:18 | The trimmed text is no longer than the input, and is empty or starts and ends with a non-whitespace character |
| Text.Lower | script.js:18-22 | Lowercasing keeps the length, turns each upper-case ASCII letter into its lower-case letter, and keeps every other character |
| Text.Contains | script.js:22 | Every text includes the empty string, and a text includes only strings no longer than itself |
| Text.TrimEmptyIffBlank | script.js:18 | The trimmed query is empty exactly when the raw query is all whitespace |
| Text.TrimStartDropsLeadingRun | script.js:18 | Trimming the start removes exactly the whole leading run of whitespace |
| Text.TrimEndDropsTrailingRun | script.js:18 | Trimming the end removes exactly the whole trailing run of whitespace |
| Text.TrimLowerCommute | script.js:18 | Trimming and lowercasing commute |
| Text.ContainsIffOccurs | script.js:22 | `includes` holds exactly when the needle occurs at some offset of the haystack |
| Text.Compare | script.js:26 | The name comparison answers -1, 0 or 1, and 0 only for strings of equal length |
| Text.CompareAntisymmetric | script.js:26 | Swapping the operands of the name comparison negates its answer |
| Text.CompareZeroIffEqual | script.js:26 | The name comparison answers 0 exactly for equal names |
| Text.CodePointOrderExample | script.js:26 | The ordinal stand-in for `localeCompare` puts "Banana" before "apple" |
| Text.CompareTransitive | script.js:26 | The name order is transitive |
| Catalog.Normalise | script.js:74 | An array document is the list. A `null` document fails. An object whose `apps` is an array gives that array. A truthy non-array `apps` is a shape error. Every other document gives the empty list. A non-empty list comes only from the array or from `apps` |
| Pipeline.NormaliseQuery | script.js:18 | The normalised query is empty exactly when the search text is all whitespace |
| Pipeline.Matches | script.js:21-23 | A record matches exactly when the query is empty or occurs in its lowercased name or its lowercased package |
| Pipeline.Keep | script.js:21-23 | Keeping the matches never lengthens the list, and a record is kept exactly when it is in the list and matches |
| Pipeline.FilterRows | script.js:18-23 | A record is among the filtered rows exactly when it is in the catalogue and matches the normalised search text |
| Pipeline.FilterIsSubsequence | script.js:21-23 | The filtered rows are the catalogue with some records left out and the rest in their original order |
| Pipeline.FilterKeepsExactlyMatches | script.js:18-23 | A record appears among the filtered rows exactly when it is in the catalogue and its lowercased name or package contains the trimmed, lowercased query; it appears as often as in the catalogue |
| Pipeline.KeepMultiplicity | script.js:21-23 | The filter keeps every occurrence of a matching record and none of the others |
| Pipeline.KeepIsSubsequence | script.js:21-23 | Keeping the matches of a query yields a subsequence of the input |
| Pipeline.KeepEmptyQuery | script.js:22 | An empty query keeps every row |
| Pipeline.BlankQueryKeepsAll | script.js:18-22 | A query of only whitespace shows the whole catalogue in catalogue order |
| Pipeline.FilterIgnoresQueryCase | script.js:18 | Upper and lower case in the query do not change the filtered rows |
| Pipeline.ParseSortKey | script.js:19-29 | The selection "name", "size" or "updated" picks that comparator, and any other value picks the one that answers 0 |
| Pipeline.Cmp | script.js:25-29 | By name the comparator answers 0 exactly for equal names. By size a row comes first or ties exactly when its size, missing counting as 0, is not larger. By date a row comes strictly first exactly when both dates exist and it is the more recent; a missing date ties. An unknown selection always ties |
| Pipeline.Insert | script.js:25-30 | Inserting a row adds exactly that row to the list |
| Pipeline.SortRows | script.js:25-30 | The sort keeps the number of rows and exactly the rows it was given |
| Pipeline.CmpAntisymmetric | script.js:25-29 | Swapping two rows negates the comparator's answer |
| Pipeline.CmpTransitive | script.js:25-28 | The comparator's order is transitive on rows it can compare |
| Pipeline.SortPermutation | script.js:25-30 | The sort is a permutation of the filtered rows |
| Pipeline.SortKeepsComparable | script.js:25-30 | Sorting keeps every row comparable under the chosen key |
| Pipeline.PrependSorted | script.js:25-30 | A row that precedes every row of a sorted list can go in front of it |
| Pipeline.InsertSorted | script.js:25-30 | Inserting a row into sorted rows keeps them sorted |
| Pipeline.SortSorted | script.js:25-30 | The sorted rows are in comparator order |
| Pipeline.SortOrdersByKey | script.js:25-28 | By name the rows are in ascending name order. By size they ascend, a missing size counting as 0. By date the most recent comes first |
| Pipeline.SortedIsFixpoint | script.js:25-30 | Rows already in order are left as they are |
| Pipeline.UnorderedKeepsOrder | script.js:29 | An unknown sort selection keeps the filter order |
| Pipeline.SortIdempotent | script.js:25-30 | Sorting sorted rows again changes nothing |
| Pipeline.InsertSameKey | script.js:25-30 | Inserting a row puts it in front of the rows with its key and leaves the rows with other keys as they were |
| Pipeline.SortIsStable | script.js:25-30 | Rows with equal keys keep their relative order |
| Pipeline.RowsAreSortedMatches | script.js:18-30 | The rows shown are exactly the matching records, each as often as in the catalogue. When every row is comparable, they are in the order of the sort selection |
| Pipeline.Rows | script.js:18-30 | A record is shown exactly when it is in the catalogue and matches the search text |
| Pipeline.NameSortExample | script.js:26 | Sorting by name shows "A" before "B" |
| Cards.CardOf | script.js:36-64 | The card carries the record's name and download link; it has a date line exactly when the record has a date, and a usable copy button exactly when it has a hash |
| Cards.CardShowsRecord | script.js:36-64 | A card shows the record's name, version, download link and icon, or the placeholder icon. It shows the description, or nothing. The size is written by `fmtBytes`, or is "Size: —" exactly when the size is missing or 0. The date or "Updated: —". The SDK or "Min SDK: —". A copy control holding the hash, disabled with "No SHA-256" exactly when there is no hash |
| Session.Gate | script.js:49-53 | A download click is prevented and opens the terms dialog exactly when the terms are not accepted |
| Session.AppsAfterLoad | script.js:70-79 | After a load that reaches the render, the catalogue is the normalised document. A failed fetch or a `null` document leaves it unchanged. A non-list `apps` leaves no rows |
| Session.Step | script.js:70-88 | After one event the terms are accepted exactly when they were already or the event is an accept. Only a load changes the catalogue, and a load sets it to what `loadApps` leaves |
| Session.Run | script.js:70-88 | Replaying events never clears an accepted flag, and a session ending in an accept has the terms accepted |
| Session.AcceptedIffAcceptEvent | script.js:88 | After any sequence of events, the terms are accepted exactly when they were at the start or an accept happened |
| Session.AcceptanceIsSticky | script.js:88 | Nothing clears the accepted flag |
| Session.DownloadGateFromStart | script.js:49-53 | From page load, download clicks are blocked exactly until the accept button has been clicked |
| Session.CatalogOnlyWrittenByLoad | script.js:74 | Events other than loads never change the catalogue |
| Session.View | script.js:33-67 | One card per row shown |
| Session.DrawCards | script.js:33-67 | The loop draws one card per row, in row order |
| Session.State.constructor | script.js:6 | The state starts with an empty catalogue and the terms not accepted |
| Session.State.Accept | script.js:88 | The accept handler sets the flag and leaves the catalogue alone |
| Session.State.OnDownloadClick | script.js:49-53 | The handler takes the decision of `Gate` on the current state: it prevents the navigation exactly when the terms are not accepted, and navigates exactly when they are |
| Session.State.Render | script.js:15-67 | Rendering draws exactly the cards of the filtered, sorted rows |
| Session.State.Load | script.js:70-79 | A load stores the normalised catalogue and draws it, or shows the error message on a fetch or shape failure. The flag is kept, and the new state is the `Step` of the load event |

## Left out

- `fmtBytes` of a non-finite value gives the empty string. Sizes are modelled as naturals: a byte count is a non-negative integer, and that branch is never reached.
- SizeFormat.FmtBytes: byte counts of 2^53 or more, where `bytes / 1024^i` is no longer an exact double, are not distinguished. Neither are non-integer or negative `size_bytes` values.
- SizeFormat.RoundedUnits: models `toFixed` for 0 and 1 fraction digits only, the only ones `fmtBytes` asks for, and for values below 10^21.
- Text.Compare: `localeCompare` depends on the reader's locale. The model compares by code point, so its order can differ from the page's whenever case, accents or punctuation matter. For example, the model puts "Banana" before "apple", and the page does the opposite.
- Text.LowerChar: only ASCII letters are lowercased. `toLowerCase` also folds other scripts.
- `new Date(...)` is modelled as an already-parsed timestamp. `toLocaleDateString` depends on the locale and is kept as the timestamp. An invalid or empty date string is not modelled.
- Pipeline.SortOrdersByKey: orders only rows that all have a date when sorting by date. With a date missing, the comparator answers NaN and the resulting order depends on the engine.
- A numeric `min_sdk` is modelled as a natural number. A fractional or negative number, which the script would print as `${app.min_sdk}`, cannot be represented.
- Records missing `name`, `package`, `version` or `download_url`, and array items that are not records, are not modelled. The script would print "undefined" or throw.
- Session.AppsAfterLoad: a truthy `apps` that is not a list is stored by the script, and every later render throws on it. The model stores the empty list instead and reports the load as failed, so later renders show no cards rather than throwing.
- `fetch`, `res.json()` and `console.error` are I/O. The model takes what they delivered as a `Response`.
- The DOM is not modelled: the template cloning, `innerHTML`, `querySelector`, the error message's markup and the `showModal` of the terms dialog.
- The copy button's click handler is asynchronous: the clipboard write, the "Copied ✓" label and its `setTimeout` reset. The model records only whether the button holds the hash or is disabled.
- `initUI` is not modelled. That covers the footer year from the clock, the listener wiring and the two buttons that only open the terms dialog. `DOMContentLoaded` is not modelled either.
