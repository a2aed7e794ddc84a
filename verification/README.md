# CityAnalysis in Dafny

A model of `CityAnalysis`, the one class with logic in the CollectingStreams
repository. It reads a text file of city records (`name,state,population`),
keeps the lines that parse, and prints five reports over the list:

- the three most populous cities of each state;
- the least populous city of each state;
- the names carried by more than one record;
- the cities of Arkansas ("AR") by descending population;
- the national rank of the largest Arkansas city.

The model takes the file as a sequence of lines. Each report returns the data
it would print, not the printed text.

Modules, leaf first:

- `CityRecords` (records.dfy): the `City` record, `Option`, and the Java
  `int` bounds.
- `Text` (text.dfy): the Java string operations the parser relies on.
  - `String.split(",")`: a string with no comma gives itself; otherwise the
    string is cut at every comma and trailing empty parts are dropped.
  - `String.trim()`: removes characters up to U+0020 at both ends.
  - `replaceAll("[^0-9]", "")`: keeps the digits only.
  - `Integer.parseInt` on a digit string: fails on the empty string or on a
    value above 2^31 - 1.
- `Parsing` (parsing.dfy): `parseCity` and the constructor's loading pipeline.
- `Sorting` (sorting.dfy): the comparator `c2.getPopulation() -
  c1.getPopulation()` in wrapping `int` arithmetic, and the stable sort that
  `sorted` performs, as a stable insertion sort. The insertion sort is proved
  to be the only stable descending order, so it agrees with the library's
  merge sort.
- `Grouping` (grouping.dfy): `Collectors.groupingBy` as a left fold into a
  map, proved equal to filtering by key.
- `Reports` (reports.dfy): the four stream-pipeline reports as functions.
- `Analysis` (analysis.dfy): class `CityAnalysis`.
  - The constructor assigns the `cities` field.
  - `printArkansasLargestCityRank` is an index loop with an early exit, kept
    as a method with a loop invariant.

Two consequences of the code are worth stating:

- A population written with thousands separators, such as
  `Springfield, IL, 1,200`, splits into four or more parts, so the line is
  dropped silently and never reaches the digit-stripping step
  (`Parsing.SpringfieldIllinoisIsSilent`, `Parsing.SpringfieldMissouriIsSilent`,
  `Parsing.ChicagoWithSeparatorsIsSilent`, and in general
  `Parsing.ExtraCommaFieldIsSilent`). A file of such lines loads no city and
  prints no diagnostic (`Parsing.SilentLinesLoadNothing`).
- `Integer.parseInt` accepts leading zeros, so a population field longer than
  ten digits parses when its value is at most 2^31 - 1
  (`Text.LeadingZerosIgnored`).

## Model

| member | source | states |
|---|---|---|
| Text.Trim | src/CityAnalysis.java:34-35 | `trim()`: the result is the slice of the input left after removing its leading and trailing characters at or below U+0020; everything removed is at or below U+0020, the result starts and ends above U+0020, and it is empty exactly when every input character is at most U+0020 |
| Text.TrimBounds | src/CityAnalysis.java:34-35 | the two passes of `trim()` leave a slice of the input with only characters at or below U+0020 around it |
| Text.TrimIdempotent | src/CityAnalysis.java:34-35 | trimming a trimmed string changes nothing |
| Text.SplitAll | src/CityAnalysis.java:31 | the comma-free parts of a string, at least one, which joined with commas give the string back; a string with no comma is its own single part |
| Text.SplitAllJoin | src/CityAnalysis.java:31 | splitting comma-free parts joined with commas gives the parts back |
| Text.JavaSplit | src/CityAnalysis.java:31 | `split(",")`: a comma-free string gives itself; otherwise the result is a prefix of the comma parts, every part it drops is empty, and it is empty or ends in a non-empty part |
| Text.JavaSplitUnique | src/CityAnalysis.java:31 | on a line with a comma, the only prefix of the comma parts that drops only empty parts and is empty or ends in a non-empty part is the result of `split(",")` |
| Text.TrailingCommaIgnored | src/CityAnalysis.java:31 | on a line with a comma, an extra trailing comma does not change `split(",")` |
| Text.Digits | src/CityAnalysis.java:36 | `replaceAll("[^0-9]", "")`: the result is all digits, is empty exactly when the input has no digit, and is the input itself when the input is all digits |
| Text.DigitsAppend | src/CityAnalysis.java:36 | digit stripping distributes over concatenation |
| Text.LeadingZerosIgnored | src/CityAnalysis.java:36 | leading zeros do not change the value of a digit string |
| Text.ParseInt32 | src/CityAnalysis.java:36 | `Integer.parseInt` on a digit string succeeds exactly when the string is non-empty and its value is at most 2^31 - 1; the result is that value |
| Text.ParseInt32Boundary | src/CityAnalysis.java:36 | "2147483647" parses to 2^31 - 1, and "2147483648" fails |
| Text.Decimal | src/CityAnalysis.java:36 | every natural number has a non-empty digit string that denotes it |
| Parsing.ParseCity | src/CityAnalysis.java:29-43 | a line is dropped silently exactly when `split` does not give three parts; it gives a city exactly when there are three parts and the third holds digits worth at most 2^31 - 1; the city is the trimmed name and state with that value as population; any other line gives a diagnostic carrying the raw line |
| Parsing.FormatThenParse | src/CityAnalysis.java:29-43 | a city with comma-free, already trimmed name and state and a valid population, written as `name,state,digits`, parses back to the same city |
| Parsing.ExtraCommaFieldIsSilent | src/CityAnalysis.java:31-32 | a line with a non-empty part after its third comma part splits into more than three parts and is dropped silently |
| Parsing.TrailingCommaKeepsOutcome | src/CityAnalysis.java:31-42 | a trailing comma on a line with a comma leaves the outcome unchanged: the same city, the same silent drop, or a diagnostic on the new line |
| Parsing.BlankLineIsSilent | src/CityAnalysis.java:31-32 | a blank line would be dropped silently by the parser anyway |
| Parsing.SeparatedLineIsSilent | src/CityAnalysis.java:31-32 | a line made of four or more comma-free parts, the fourth non-empty, is dropped silently |
| Parsing.ChicagoSplit | src/CityAnalysis.java:31 | `Chicago, IL, 2,700,000` has the five comma parts `Chicago`, ` IL`, ` 2`, `700`, `000` |
| Parsing.ChicagoWithSeparatorsIsSilent | src/CityAnalysis.java:31-32 | `Chicago, IL, 2,700,000` is dropped without a diagnostic |
| Parsing.SpringfieldIllinoisIsSilent | src/CityAnalysis.java:31-32 | `Springfield, IL, 1,200` is dropped without a diagnostic |
| Parsing.SpringfieldMissouriIsSilent | src/CityAnalysis.java:31-32 | `Springfield, MO, 2,500` is dropped without a diagnostic |
| Parsing.TwoFieldsIsSilent | src/CityAnalysis.java:32-42 | the two-field line `Austin,TX` is dropped without a diagnostic |
| Parsing.NoDigitsIsDiagnosed | src/CityAnalysis.java:36-42 | every line of three comma-free fields whose non-empty population field has no digit gives exactly one diagnostic, naming the line, and loads no city |
| Parsing.OverflowLineIsDiagnosed | src/CityAnalysis.java:36-42 | the three-field line `Austin,TX,2147483648`, whose population is 2^31, gives a diagnostic naming the line |
| Parsing.OverflowSplit | src/CityAnalysis.java:31 | `Austin,TX,2147483648` has the three comma parts `Austin`, `TX`, `2147483648` |
| Parsing.Load | src/CityAnalysis.java:18-22 | the repository has no more cities than the file has lines, and every population is between 0 and 2^31 - 1 |
| Parsing.LoadDiagnostics | src/CityAnalysis.java:39-40 | every diagnostic printed while loading is one of the file's lines |
| Parsing.LoadAppend | src/CityAnalysis.java:18-22 | loading keeps input order: the cities and diagnostics of two concatenated files are those of the first followed by those of the second |
| Parsing.LoadCitiesAppend | src/CityAnalysis.java:18-22 | the cities loaded from two concatenated files are those of the first followed by those of the second |
| Parsing.LoadDiagnosticsAppend | src/CityAnalysis.java:39-40 | the diagnostics of two concatenated files are those of the first followed by those of the second |
| Parsing.LoadOneLine | src/CityAnalysis.java:18-22 | a one-line file loads exactly the city the line parses to, or nothing; it prints a diagnostic exactly when the line is diagnosed |
| Parsing.LoadAccountsForLines | src/CityAnalysis.java:18-22 | each line gives at most one of a city and a diagnostic |
| Parsing.SilentLinesLoadNothing | src/CityAnalysis.java:18-22 | a file whose lines all have the wrong field count loads nothing and prints nothing |
| Sorting.Wrap32 | src/CityAnalysis.java:53 | Java `int` arithmetic: the result is an `int`, equal to the exact value modulo 2^32, and equal to it when it fits |
| Sorting.Compare | src/CityAnalysis.java:53 | for populations in [0, 2^31 - 1] the comparator's subtraction never wraps: it is negative exactly when the first city is larger and zero exactly on equal populations |
| Sorting.CompareWrapsOnNegativePopulation | src/CityAnalysis.java:53 | outside that range the subtraction can wrap, whenever `c2 - c1` leaves the `int` range; for populations -2^31 and 1 it wraps and inverts the order |
| Sorting.Insert | src/CityAnalysis.java:53 | inserting into a descending sequence keeps it descending and adds exactly the one city |
| Sorting.SortDesc | src/CityAnalysis.java:53 | `sorted` with the comparator: a descending permutation of its input |
| Sorting.SortDescMembers | src/CityAnalysis.java:53 | sorting neither adds nor loses a city |
| Sorting.SortDescFollowsCompare | src/CityAnalysis.java:53 | for cities with valid populations, no pair of the sorted list is out of order under the source comparator `c2.getPopulation() - c1.getPopulation()` |
| Sorting.SortDescStable | src/CityAnalysis.java:53 | the sort is stable: the cities of each population keep their input order |
| Sorting.StableSortIsUnique | src/CityAnalysis.java:53 | any descending order that keeps each population's cities in input order is this sort's result |
| Sorting.SortDescCountAbove | src/CityAnalysis.java:106 | sorting does not change how many cities are more populous than a given population |
| Sorting.SplitDominates | src/CityAnalysis.java:53-54 | in a descending order, every city of a prefix is at least as populous as every city after it |
| Sorting.SortedPosition | src/CityAnalysis.java:110-114 | in a descending order, a position is the number of more populous cities plus the equally populous ones placed before it |
| Grouping.WithKey | src/CityAnalysis.java:49 | the cities with one key value, in input order: exactly the input's cities with that key |
| Grouping.GroupBy | src/CityAnalysis.java:49 | `groupingBy`: one entry per key present, each holding every city with that key in input order |
| Grouping.WithKeySnoc | src/CityAnalysis.java:49 | appending a city extends the group of its key and no other |
| Grouping.TwoWithKey | src/CityAnalysis.java:76-78 | a key's group has two or more cities exactly when two different positions of the list carry it |
| Reports.TakeThree | src/CityAnalysis.java:54 | `limit(3)`: a prefix of length min(3, n) |
| Reports.TopThreeByState | src/CityAnalysis.java:45-57 | one entry per state present, holding the first three of its cities in stable descending order |
| Reports.TopThreePerState | src/CityAnalysis.java:45-57 | each state's list has min(3, n) of its n cities, at least one, all of that state, non-increasing, ties in input order, a prefix of the state's sorted cities, and no city of the state left out is more populous than one listed |
| Reports.FirstMinimum | src/CityAnalysis.java:65 | `minBy` over a group: a member of the group that no member undercuts, and the first such member in input order |
| Reports.LowestByState | src/CityAnalysis.java:59-70 | one entry per state present, holding the `minBy` of its cities |
| Reports.LowestPerState | src/CityAnalysis.java:59-70 | each state's entry is a city of that state, no city of the state is less populous, and it is the first of the least populous in input order |
| Reports.SharedNames | src/CityAnalysis.java:72-84 | a name is reported exactly when its group has more than one city, and the group is every city with that name in input order |
| Reports.SharedNamesExact | src/CityAnalysis.java:72-84 | a name is reported exactly when two different records carry it; its group has at least two cities and holds exactly the cities of that name |
| Reports.ArkansasCities | src/CityAnalysis.java:86-100 | "not found" exactly when no city is in "AR"; otherwise the count is the list's length and the list is the "AR" cities stably sorted |
| Reports.ArkansasListing | src/CityAnalysis.java:86-100 | when "AR" cities exist, the list holds each of them as often as the repository does and nothing else, is non-increasing with ties in input order, and the count is the number of "AR" cities |
| Analysis.CityAnalysis.constructor | src/CityAnalysis.java:16-27 | the field `cities` is the list loaded from the file's lines |
| Analysis.CityAnalysis.ArkansasLargestCityRank | src/CityAnalysis.java:102-118 | nothing is reported exactly when no city is in "AR"; otherwise the report meets `IsArkansasRank`: the 1-based position of the first "AR" city in the sorted repository, every city ranked ahead of it is outside "AR" and at least as populous, no "AR" city is more populous, and the rank is one more than the number of more populous cities plus the equally populous ones placed ahead of it (exactly one more than the more populous ones when no other city shares the population) |
| Analysis.FirstInStateIsRank | src/CityAnalysis.java:110-114 | the first "AR" city met by the scan, at position k, has national rank k + 1 in the sense above |
| Analysis.ArkansasRankUnique | src/CityAnalysis.java:102-118 | the rank report has one possible answer |
| Analysis.RankCounts | src/CityAnalysis.java:105-114 | a position in the sorted repository counts the more populous cities and the equally populous ones placed ahead, and only the more populous ones when the population is not shared |
| Analysis.LargestInState | src/CityAnalysis.java:110-114 | the first "AR" city of the sorted repository is in the repository, every city ranked ahead of it is outside "AR" and at least as populous, and no "AR" city is more populous |
| Analysis.FirstInStateIsLargest | src/CityAnalysis.java:110-114 | in any descending order, the first "AR" city is at least as populous as every city after it and as every "AR" city |
| Analysis.NoneInState | src/CityAnalysis.java:110-117 | when the scan meets no "AR" city, the repository has none |

## Left out

- File reading: the model takes the file's lines as a sequence. The `IOException` path, which prints a message and starts from an empty list, is I/O and is not modelled.
- Printed text: section headers, `City.toString`, indentation and the `%,d` thousands separator of the rank line. Each report returns the data it prints instead. `City.java` is not part of this model; the record is modelled from the constructor call in `parseCity`.
- Iteration order across groups: `groupingBy` builds a `HashMap`, whose key order is not specified. The per-state and per-name reports are maps, and their properties are stated per key.
- Unicode: strings are sequences of `char` compared by code. UTF-16 surrogates and the file's character decoding are not modelled.
- `Main.java`: it only calls the constructor and the five reports in order.
- Parsing.Load: its contract gives bounds only. Input order and where each city comes from are stated by `Parsing.LoadAppend` and `Parsing.LoadOneLine`.
- The last two reports are fixed to the state "AR", as in the code. The model does not take the state as a parameter.
- The reports accept any list of cities, but they are guaranteed to match the program only for populations in [0, 2^31 - 1], the lists `Parsing.Load` produces. Outside that range the source comparator can wrap, whenever `c2 - c1` leaves the `int` range (`Sorting.CompareWrapsOnNegativePopulation` shows one such pair), while `Sorting.SortDesc` compares exactly.
