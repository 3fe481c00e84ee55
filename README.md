# jrnl date resolution and entry files, in Dafny

jrnl is a small command-line journal that keeps one plain-text file per day.
A day's file lives at `<journal>/<year>/<YYYY-MM-DD>.txt`. This project models
the part of jrnl that decides which entries to open and what happens to their
files. That part has three pieces:

- The entry index: the year directories, the entry files in each, and the
  list of all entry dates. Built on that are the nth-ancestor,
  closest-entry and latest-entry lookups, and the bisect-based
  closest-date helper.
- The date-argument parser. It reads the `^`/`~N` ancestor suffixes, the
  `@` prefix, the `head`/`last`/`latest` keywords, day offsets and fuzzy
  dates.
- `write_timestamp` and `open_entry`. Together they create the year
  directory, append a date and time stamp to the file, and start the editor.

The project also models the two older versions of the same logic.
`jrnl/journal.py` has a `parse_dates` with no ancestor syntax.
`jrnl/jrnl.py` has a `main` that resolves dates itself and decides on
timestamps and read mode.

## Modules

- `Wrappers`: `Option`, `Result` and `PyError`, the Python exceptions that
  reach this code. Every uncaught exception is an `Err`/`Raised` value.
- `Text`: the parts of Python's `str` and `int()` the code relies on.
  `PyInt` is `int()` on a string, with whitespace and single underscores.
  `Lower` is ASCII lower-casing. `Occurs` is the substring test `in`.
  `SortedSeq` is `sorted()` on distinct strings, in code-point order.
- `Calendar`: a date is its proleptic Gregorian ordinal (`date.toordinal()`),
  from `0001-01-01` to `9999-12-31`. Leaving that range is Python's
  `OverflowError`. The module proves the conversion to (year, month, day)
  both ways, and gives `strftime("%Y-%m-%d")`, `strftime("%H:%M")` and
  `strptime` for that format.
- `EntryIndex`: the journal directory is a `Tree`, a map from the names
  in the base directory to each directory's files and their texts. The
  index helpers, the ancestor lookup, the closest-entry lookup and the
  latest-entry loop are defined over it.
- `Helpers`: `find_closest_date`.
- `AncestorOffsets`: the `parse_ancestor_offsets` loop and the function it
  computes.
- `DateParsing`: one turn of `parse_dates` (`ResolveArgument`), the loop
  over all arguments (`ParseDates` against `ParseDatesSpec`), and the
  properties of the fallback chain.
- `EntryFiles`: the timestamp text rules, entry paths, and a `Journal`
  class. Its `tree` field is the directory that `WriteTimestamp`,
  `OpenEntry` and `OpenEntries` change in place.
- `JournalOrder`: the order of the index. It is strictly increasing on
  journals laid out the way `open_entry` lays them out, and it is not in
  general. The closest-entry, latest-entry and `head^` lookups are
  restated on such journals.
- `LegacyJournal`: `parse_dates` of `jrnl/journal.py`.
- `LegacyMain`: `main` of `jrnl/jrnl.py` from the clock reading to the
  loop that opens the entries.

External pieces are parameters:
- the fuzzy parser `dateutil.parser.parse(s, fuzzy=True)` is a function
  `string -> Result<Date>`;
- today's date and the late-night offset are values;
- the moment a timestamp is written for is a `Moment`;
- the editor is a name, and starting it is the `Edited([editor, path])`
  outcome.

## Where the model follows the code rather than its documentation

- In `find_closest_existing_entry`, the docstring promises
  `EntryNeighbourNotFoundException`. The code raises
  `EntryAncestorNotFoundException` for an empty journal
  (src/jrnl/journal.py:186-187). `parse_dates` catches only the first
  (src/jrnl/journal.py:356), so an `@` argument on an empty journal ends
  `parse_dates` with that exception. `ClosestOnEmptyJournalRaises` proves
  this.
- A file name that matches the unanchored pattern
  `\d{4}-\d{2}-\d{2}.txt` but is not exactly a date plus four characters
  makes `strptime` raise `ValueError`, and with it every index lookup.
  `2024-01-01.txt~` is such a name. `AllEntryDatesRaises` proves this.
- The `write_timestamp` docstring promises an empty line between old
  text and a new stamp. The code adds one line break unless the text
  already ends with `"\n\n"`, so text that ends without a line break gets
  no empty line. `BlankLineBeforeStamp` states exactly when the empty
  line appears.
- The default `this_datetime=datetime.datetime.today()` of
  `write_timestamp` is evaluated once, when the module is loaded.
  `open_entry` passes no datetime, so every stamp carries the load-time
  moment, not the entry's date. `OpenEntry` takes that moment as `now`,
  and `LegacyMain.Run` takes it as `stampTime`.
- `~-` at the end of an argument matches the tilde pattern with the group
  `"-"`, and `int("-")` raises `ValueError`, which nothing catches
  (`TildeMinusRaises`). A bare trailing `~` stays in the argument
  (`BareTildeStays`).
- The docstring of `get_all_entry_dates` promises an index "Sorted in
  ascending order" (src/jrnl/journal.py:96). The code only sorts the year
  directory names as strings and each year's dates. It then concatenates
  the years. A directory `2020-old` also starts with four digits and sorts
  after `2020`, so a 2019 entry kept in it is listed after the 2020 ones
  (`UnsortedIndex`). `find_closest_date` then returns a farther entry
  (`ClosestOnUnsortedIndex`). A name like `2024-01-01Xtxt` matches the
  unescaped dot of the pattern and lists `2024-01-01` a second time
  (`RepeatedDate`). On journals whose every year directory is a
  four-digit year, and whose every entry file sits where `open_entry`
  puts it, the index is strictly increasing (`PlacedIndexIncreasing`).
  `open_entry` keeps that layout (`OpenedJournalIsOrdered`).
- The old base exception is `JournalNotFoundException` in
  `jrnl/journal.py`, not `EntryNotFoundException`. The model has no
  class hierarchy, only the leaf kinds.
- `write_timestamp` and `open_entry` are the same code in all three files
  (src/jrnl/journal.py:394-495, jrnl/journal.py:168-269,
  jrnl/jrnl.py:141-243). The index helpers and `find_lastest_existing_entry`
  of `jrnl/journal.py` are the same code as in `src/jrnl/journal.py`.
  Each is modelled once.

## Model

| member | source | states |
|---|---|---|
| Text.Decimal | src/jrnl/journal.py:476 | `str(n)` is a non-empty string of decimal digits |
| Text.DecimalValue | src/jrnl/journal.py:476 | the digits of `str(n)` read back give `n` |
| Text.DecimalLength | src/jrnl/journal.py:476 | `str(n)` has one to four characters as `n` is below 10, 100, 1000 or 10000, so a year below 1000 has fewer than four digits |
| Text.StripTrims | src/jrnl/journal.py:312 | the whitespace `int()` skips is all whitespace, and what it leaves starts and ends with a non-space |
| Text.PyIntOfDigits | src/jrnl/journal.py:312 | `int()` of a plain digit string is its decimal value |
| Text.PyIntOfNegatedDigits | src/jrnl/journal.py:312 | `int()` of `-` followed by digits is the negated value |
| Text.OccursInPrefix | src/jrnl/journal.py:430 | a date that occurs in a text still occurs after text is appended |
| Text.LexTotal | src/jrnl/journal.py:57-59 | any two distinct strings are ordered one way or the other by code point |
| Text.LexTransitive | src/jrnl/journal.py:57-59 | the code-point order of strings is transitive |
| Text.Least | src/jrnl/journal.py:57-59 | a non-empty set of names has a unique least name |
| Text.SortedSeq | src/jrnl/journal.py:57-59 | `sorted()` of distinct names is strictly increasing and has exactly the names of the set |
| Calendar.DaysBeforeYearStep | src/jrnl/journal.py:87 | the closed-form day count before a year grows by that year's length (365 or 366) |
| Calendar.ToFromOrdinal | src/jrnl/journal.py:87 | turning an ordinal into a (year, month, day) and back gives the ordinal |
| Calendar.FromToOrdinal | src/jrnl/journal.py:87 | turning a valid (year, month, day) into an ordinal and back gives the same triple |
| Calendar.ToOrdinalInjective | src/jrnl/journal.py:87 | distinct valid calendar dates have distinct ordinals |
| Calendar.AddDays | src/jrnl/journal.py:321-325 | adding days gives the shifted date inside 0001-01-01..9999-12-31 and `OverflowError` exactly outside it |
| Calendar.Pad4 | src/jrnl/journal.py:418 | the `%Y` field is four digits whose value is the year |
| Calendar.DecimalOfFourDigits | src/jrnl/journal.py:476-478 | from the year 1000 on, `str(year)` equals the `%Y` field |
| Calendar.IsoDate | src/jrnl/journal.py:418 | `strftime("%Y-%m-%d")` has ten characters |
| Calendar.ClockTime | src/jrnl/journal.py:419 | `strftime("%H:%M")` is the hour in two digits, a colon and the minute in two digits |
| Calendar.StrptimeIso | src/jrnl/journal.py:87 | `strptime(s, "%Y-%m-%d")` succeeds exactly on a ten-character string with a valid year, month and day, and otherwise raises `ValueError` |
| Calendar.IsoDateRoundTrip | src/jrnl/journal.py:87 | `strptime` of `strftime("%Y-%m-%d")` of a date gives that date back |
| EntryIndex.ExistingYearDirectories | src/jrnl/journal.py:44-59 | the years listed are strictly sorted and are exactly the base-directory names that start with four digits (the same code as jrnl/journal.py lines 23-38) |
| EntryIndex.EntryNameDate | src/jrnl/journal.py:81-88 | a matching file name gives the date of all but its last four characters, or `ValueError` |
| EntryIndex.NameDates | src/jrnl/journal.py:86-88 | the date of each matching name, in order |
| EntryIndex.SortDates | src/jrnl/journal.py:90 | `sorted()` of dates is sorted and as long as its input |
| EntryIndex.SortDatesPermutes | src/jrnl/journal.py:90 | `sorted()` of dates is a permutation of its input |
| EntryIndex.SortDatesMembers | src/jrnl/journal.py:90 | a date is in the sorted list exactly when it is in the input |
| EntryIndex.MatchingNames | src/jrnl/journal.py:81-83 | the names kept are exactly the file names that match the entry pattern at their start |
| EntryIndex.YearsExistingEntryDates | src/jrnl/journal.py:62-90 | a year's dates are sorted; they exist exactly when every matching name spells a date, and otherwise the result is `ValueError` (the same code as jrnl/journal.py lines 41-69) |
| EntryIndex.YearsExistingEntryDatesMembers | src/jrnl/journal.py:62-90 | a date is listed for a year exactly when some matching file of that year names it |
| EntryIndex.NameDatesMembers | src/jrnl/journal.py:86-88 | a date is among the parsed names exactly when one of them parses to it |
| EntryIndex.Flatten | src/jrnl/journal.py:106-116 | the concatenation succeeds exactly when every year's list does, and otherwise raises one year's error |
| EntryIndex.FlattenMembers | src/jrnl/journal.py:114-116 | a date is in the concatenation exactly when it is in one of the year lists |
| EntryIndex.AllEntryDates | src/jrnl/journal.py:93-116 | the only error of the full index is `ValueError` |
| EntryIndex.AllEntryDatesMembers | src/jrnl/journal.py:93-116 | a date is in the index exactly when a year directory holds a matching file that names it |
| EntryIndex.EntryIsListed | src/jrnl/journal.py:93-116 | a matching file in a listed year directory puts its date in the index |
| EntryIndex.ListedIsEntry | src/jrnl/journal.py:93-116 | every date in the index comes from such a file |
| EntryIndex.AllEntryDatesRaises | src/jrnl/journal.py:81-88 | the index raises exactly when some listed year directory holds a matching name that is not a date (such as `2024-01-01.txt~`) |
| EntryIndex.RaisesOnInvalidName | src/jrnl/journal.py:81-88 | a failing index has such a name |
| EntryIndex.InvalidNameRaises | src/jrnl/journal.py:81-88 | such a name makes the index fail |
| EntryIndex.FirstIndex | src/jrnl/journal.py:151 | `list.index` gives the first position holding the value |
| EntryIndex.NthAncestor | src/jrnl/journal.py:150-163 | the ancestor is `entries[index(date) - n]` and an entry; `EntryArgumentNotFound` exactly when the date is no entry; `EntryAncestorNotFound` exactly when the position is out of range |
| EntryIndex.FindEntrysNthAncestor | src/jrnl/journal.py:119-163 | the ancestor is an existing entry; `ValueError` exactly when the index fails; `EntryArgumentNotFound` exactly when no entry has the date |
| EntryIndex.AncestorInListing | src/jrnl/journal.py:147-163 | with a readable index, the lookup is positional indexing in it |
| EntryIndex.AncestorIsEntry | src/jrnl/journal.py:147-163 | a found ancestor has an entry file |
| EntryIndex.ZerothAncestor | src/jrnl/journal.py:157-163 | the 0th ancestor of an entry is the entry itself |
| EntryIndex.FirstIndexOfDistinct | src/jrnl/journal.py:151 | in a strictly increasing list the first position of the k-th element is k |
| EntryIndex.StepBackFromLastDate | src/jrnl/journal.py:157-163 | the first ancestor of the last entry is the one before it, or `EntryAncestorNotFound` when there is only one |
| EntryIndex.AncestorsCompose | src/jrnl/journal.py:157-163 | the b-th ancestor of the a-th ancestor is the (a+b)-th ancestor |
| EntryIndex.AncestorDirection | src/jrnl/journal.py:157-163 | a positive n goes to an earlier entry, a negative n to a later one |
| EntryIndex.FirstAncestorIsPredecessor | src/jrnl/journal.py:157-163 | no entry lies strictly between a date and its first ancestor |
| EntryIndex.FindClosestExistingEntry | src/jrnl/journal.py:166-189 | the result is an entry; an empty index raises `EntryAncestorNotFound` exactly; a failing index raises `ValueError`; `EntryNeighbourNotFound` is never raised; the result is at least as close as any other entry only when the index is sorted, which `PlacedIndexIncreasing` gives for journals in `open_entry`'s layout and `ClosestOnUnsortedIndex` shows can fail otherwise |
| EntryIndex.InsertStrict | src/jrnl/journal.py:90 | inserting a new date into a strictly increasing list keeps it strictly increasing |
| EntryIndex.SortDatesStrict | src/jrnl/journal.py:90 | `sorted()` of distinct dates is strictly increasing |
| EntryIndex.YearDatesStrict | src/jrnl/journal.py:62-90 | a year whose matching names spell distinct dates lists them strictly increasing |
| EntryIndex.FlattenIncreasing | src/jrnl/journal.py:106-116 | concatenating strictly increasing years, each below the next, gives a strictly increasing list |
| EntryIndex.AllEntryDatesIncreasing | src/jrnl/journal.py:93-116 | the index is strictly increasing when each year's names spell distinct dates and every date of a year directory that sorts first is earlier than every date of one that sorts later |
| EntryIndex.FindLatestExistingEntry | src/jrnl/journal.py:192-216 | the reversed loop over the years returns what the latest-entry function gives (the same code as jrnl/journal.py lines 72-96) |
| EntryIndex.LatestOfPrefix | src/jrnl/journal.py:209-213 | each later year decides the result: its error, its last date, or nothing when it is empty |
| EntryIndex.LatestOfFlatten | src/jrnl/journal.py:209-216 | over readable years the loop gives the last date of the concatenation, or `JournalHeadNotFound` when it is empty |
| EntryIndex.LatestIsLastEntry | src/jrnl/journal.py:192-216 | with a readable index the head is its last date, and `JournalHeadNotFound` exactly when it is empty |
| EntryIndex.LatestOfNoHead | src/jrnl/journal.py:209-216 | the loop raises `JournalHeadNotFound` exactly when every year it reads is empty |
| EntryIndex.LatestOfRaises | src/jrnl/journal.py:209-213 | the loop raises another error exactly when a year raises it and every later year is empty |
| EntryIndex.LatestHeadNotFound | src/jrnl/journal.py:206-216 | `JournalHeadNotFound` exactly when every listed year directory is readable and empty |
| Helpers.BisectLeft | src/jrnl/helpers.py:26 | `bisect_left`: every element before the position is smaller than the target, every one from it on is at least the target |
| Helpers.FindClosestDate | src/jrnl/helpers.py:9-39 | the result is in the list, no element is closer to the target, and on a tie it is the older one |
| Helpers.ClosestAtEnds | src/jrnl/helpers.py:26-31 | a target at or before the first date gives the first; one after the last gives the last |
| Helpers.ClosestOfMember | src/jrnl/helpers.py:26-39 | a target in the list is returned itself |
| AncestorOffsets.LastIndexOfSpec | src/jrnl/journal.py:235 | the last position of a character, as the greedy `.*` finds it, or none at all |
| AncestorOffsets.NoNewlineFound | src/jrnl/journal.py:235 | no line break is found exactly when there is none (`.` does not match a line break) |
| AncestorOffsets.TildeGroup | src/jrnl/journal.py:235 | the group of `.*~(-?\d*)$` is a sign and digits, shorter than the string |
| AncestorOffsets.NextStep | src/jrnl/journal.py:238-257 | a caret turn exactly when the argument ends in `^`; a tilde turn has a non-empty signed group |
| AncestorOffsets.GroupValueIsPyInt | src/jrnl/journal.py:253 | the group's value is `int()` of the group |
| AncestorOffsets.EmptyIsNotInt | src/jrnl/journal.py:250 | `int("")` raises |
| AncestorOffsets.MinusIsNotInt | src/jrnl/journal.py:253 | `int("-")` raises |
| AncestorOffsets.ParseAncestorOffsets | src/jrnl/journal.py:219-260 | the loop returns what the offsets function gives |
| AncestorOffsets.CaretTurn | src/jrnl/journal.py:240-245 | a trailing `^` adds one and removes one character |
| AncestorOffsets.TildeTurn | src/jrnl/journal.py:248-257 | a tilde group adds its value and removes itself and the `~`, or raises `ValueError` |
| AncestorOffsets.FinishedTurn | src/jrnl/journal.py:259-260 | with neither suffix the loop stops with the string and offset it has |
| AncestorOffsets.OffsetsFromPrefix | src/jrnl/journal.py:238-260 | the remaining argument is always a prefix of the input |
| AncestorOffsets.AncestorOffsetsPrefix | src/jrnl/journal.py:219-260 | the argument returned is a prefix of the argument given |
| AncestorOffsets.OffsetsFromShift | src/jrnl/journal.py:236-260 | the offsets add up by integer addition, whatever the starting count |
| AncestorOffsets.NoSuffixUnchanged | src/jrnl/journal.py:238-260 | an argument with no `~` and no trailing `^` comes back unchanged with offset 0 |
| AncestorOffsets.CaretAddsOne | src/jrnl/journal.py:240-245 | appending `^` adds exactly one to the offset and leaves the base |
| AncestorOffsets.LastTildeAfter | src/jrnl/journal.py:235 | the last `~` of `base~suffix` is the one after the base |
| AncestorOffsets.TildeGroupOf | src/jrnl/journal.py:235 | the group of `base~g` is `g` when the base has no line break |
| AncestorOffsets.TildeStepAdds | src/jrnl/journal.py:248-257 | `base~g` parses as `base` with `g`'s value already counted |
| AncestorOffsets.ShiftedParse | src/jrnl/journal.py:236-260 | a head start of k counts k more in the result |
| AncestorOffsets.TildeDigitsAdd | src/jrnl/journal.py:248-257 | `base~digits` has the base's result with the digits' value added |
| AncestorOffsets.TildeNegativeDigitsSubtract | src/jrnl/journal.py:248-257 | `base~-digits` has the base's result with the digits' value subtracted |
| AncestorOffsets.BareTildeStays | src/jrnl/journal.py:250 | a bare trailing `~` is left in place with offset 0 |
| AncestorOffsets.TildeMinusRaises | src/jrnl/journal.py:250-253 | a trailing `~-` raises `ValueError` |
| DateParsing.OffsetDate | src/jrnl/journal.py:321-325 | today plus k days plus the late-night offset, or `OverflowError` when either sum leaves the calendar |
| DateParsing.ParseDatesSpec | src/jrnl/journal.py:278-391 | no more dates and messages together than arguments |
| DateParsing.ResolveOne | src/jrnl/journal.py:280-389 | one turn of the loop, step by step, gives what `ResolveArgument` states |
| DateParsing.ParseBaseDate | src/jrnl/journal.py:296-348 | the head, day-offset and fuzzy checks give what `BaseDate` states |
| DateParsing.ParseDates | src/jrnl/journal.py:263-391 | the loop returns the dates and messages of `ParseDatesSpec`, stopping at the first exception |
| DateParsing.RaisedStops | src/jrnl/journal.py:280-391 | arguments after one that raises are never looked at |
| DateParsing.ParseDatesAppend | src/jrnl/journal.py:280-391 | parsing two lists one after the other concatenates their dates and messages, unless the first raised |
| DateParsing.ParseDatesSingle | src/jrnl/journal.py:280-391 | one argument contributes its date, its message, or its exception |
| DateParsing.ParsedDatesComeFromArguments | src/jrnl/journal.py:389 | every date returned is what one of the arguments resolved to |
| DateParsing.NumberIsNoKeyword | src/jrnl/journal.py:298 | an argument that starts with a digit or `-` is no head keyword |
| DateParsing.HeadIsLatestEntry | src/jrnl/journal.py:297-307 | a head keyword names the last date of the index, and "No existing journal entry found!" drops it on an empty journal |
| DateParsing.NegativeDayOffset | src/jrnl/journal.py:309-333 | `-digits` names today minus that many days plus the late-night offset, or prints "too large an offset" |
| DateParsing.DayOffset | src/jrnl/journal.py:309-333 | an integer k <= 0 names today plus k days plus the late-night offset, or is dropped as too large |
| DateParsing.ZeroIsToday | src/jrnl/journal.py:309-325 | `0` names today plus the late-night offset |
| DateParsing.PositiveNumberIsFuzzy | src/jrnl/journal.py:314-317 | a positive integer is never an offset; it goes to the fuzzy parser |
| DateParsing.FuzzyOnlyForOtherText | src/jrnl/journal.py:335-348 | other text is the fuzzy parser's date, and only its `ValueError` is caught |
| DateParsing.AncestorStepOutcomes | src/jrnl/journal.py:360-386 | no step for offset 0; otherwise a found ancestor is the resolved date, a date that is no entry drops the argument as not an entry, an ancestor out of range drops it as missing (each exactly when the lookup gives that error), and a failing index raises `ValueError` |
| DateParsing.ClosestStepOutcomes | src/jrnl/journal.py:350-358 | `@` resolves exactly when the closest-entry lookup succeeds, to an entry, and raises `EntryAncestorNotFound` exactly on an empty journal |
| DateParsing.ClosestOnEmptyJournalRaises | src/jrnl/journal.py:186-187 | an `@` argument on an empty journal ends `parse_dates` with `EntryAncestorNotFound` |
| DateParsing.ZeroOffsetIsBaseDate | src/jrnl/journal.py:361 | an argument whose offsets add to 0 means its base date |
| DateParsing.TildeZeroChangesNothing | src/jrnl/journal.py:361 | appending `~0` changes nothing |
| DateParsing.StepsLandOnEntries | src/jrnl/journal.py:350-389 | a date reached by `@` or an ancestor step is an existing entry |
| DateParsing.HeadResolvesFromLatest | src/jrnl/journal.py:297-307 | `head` with offsets starts from the latest entry |
| DateParsing.StepBackFromLast | src/jrnl/journal.py:360-386 | one step back from the last entry is the entry before it, or "Ancestor ... does not exist!" |
| DateParsing.HeadCaretOffsets | src/jrnl/journal.py:240-245 | `head^` is `head` with offset 1 |
| DateParsing.HeadOneBack | src/jrnl/journal.py:280-389 | an argument that is `head` one step back names the second-to-last entry, or is dropped |
| DateParsing.HeadCaretIsPreviousEntry | src/jrnl/journal.py:280-389 | on an index that is strictly increasing (as `PlacedIndexIncreasing` gives for journals in `open_entry`'s layout), `head^` names the entry before the latest; with one entry it is dropped as a missing ancestor, with none as no entry |
| EntryFiles.Separator | src/jrnl/journal.py:436-439 | no line break is added exactly when the text already ends with an empty line |
| EntryFiles.Timestamped | src/jrnl/journal.py:423-448 | a new file holds exactly the date line and the time line |
| EntryFiles.JoinKeepsParts | src/jrnl/journal.py:476-479 | `os.path.join` keeps both parts, with one `/` between them |
| EntryFiles.EntryDirectory | src/jrnl/journal.py:476 | the year directory is a string of digits |
| EntryFiles.EntryFileName | src/jrnl/journal.py:478 | the entry file name has fourteen characters |
| EntryFiles.StampOf | src/jrnl/journal.py:418-419 | the date line is a `%Y-%m-%d` string that `strptime` reads back as the moment's date; the time line is the two-digit hour, a colon and the two-digit minute |
| EntryFiles.StampedTree | src/jrnl/journal.py:423-448 | the stamp is written exactly when the year directory exists, and `FileNotFoundError` otherwise |
| EntryFiles.StampTouchesOnlyItsFile | src/jrnl/journal.py:423-448 | a stamp changes only its own file, which then holds the timestamped text |
| EntryFiles.OpenedTree | src/jrnl/journal.py:481-492 | unless read mode stops it, the year directory exists afterwards |
| EntryFiles.OpeningOf | src/jrnl/journal.py:481-495 | a missing entry is reported in read mode, and otherwise the editor is started on the entry path |
| EntryFiles.LocationsOfAt | src/jrnl/journal.py:476-479 | the i-th location is that of the i-th date |
| EntryFiles.OpenedAllStep | jrnl/jrnl.py:128-135 | opening one more entry continues from the journal the earlier ones left |
| EntryFiles.Journal.WriteTimestamp | src/jrnl/journal.py:394-448 | the journal afterwards is the stamped journal, or unchanged with `FileNotFoundError` (the same code as jrnl/journal.py lines 168-222 and jrnl/jrnl.py lines 141-195) |
| EntryFiles.Journal.OpenEntry | src/jrnl/journal.py:451-495 | the journal and the outcome afterwards are those of opening the date's location (the same code as jrnl/journal.py lines 225-269 and jrnl/jrnl.py lines 198-243) |
| EntryFiles.Journal.OpenAt | src/jrnl/journal.py:475-495 | the steps of `open_entry` once the paths are built |
| EntryFiles.Journal.OpenEntries | jrnl/jrnl.py:127-135 | the loop opens every date's entry in turn |
| EntryFiles.StampKeepsText | src/jrnl/journal.py:442-448 | the old text stays at the front of the file |
| EntryFiles.StampEndsLines | src/jrnl/journal.py:423-448 | a stamped file ends with a line break, and an existing one with an empty line |
| EntryFiles.StampNamesDate | src/jrnl/journal.py:423-448 | after a stamp the date occurs in the file |
| EntryFiles.DateLineOnlyWhenAbsent | src/jrnl/journal.py:430-433 | the date line is left out exactly when the date already occurs in the text |
| EntryFiles.SecondStampAddsNoDate | src/jrnl/journal.py:430-448 | a second stamp on the same date adds only its time, with no second date line |
| EntryFiles.BlankLineBeforeStamp | src/jrnl/journal.py:395-409 | an empty line comes before the stamp exactly when the old text ends with a line break |
| EntryFiles.EntryNameSpellsDate | src/jrnl/journal.py:476-479 | the file name `open_entry` builds is one the index reads back as that date |
| EntryFiles.YearDirectoryIsIndexed | src/jrnl/journal.py:476 | the year directory is indexed exactly from the year 1000 on |
| EntryFiles.ReadModeLeavesMissingEntryAlone | src/jrnl/journal.py:481-484 | in read mode a missing entry changes nothing and is only reported |
| EntryFiles.OpenTouchesOnlyItsEntry | src/jrnl/journal.py:486-492 | opening changes only the entry's year directory and file; without timestamping no file is written |
| EntryFiles.TimestampWritesEntry | src/jrnl/journal.py:486-492 | with timestamping the entry file exists afterwards and holds the stamped text |
| EntryFiles.LocatedFileIsEntry | src/jrnl/journal.py:476-479 | a file where `open_entry` puts a date's entry is in the index from the year 1000 on |
| EntryFiles.TimestampedEntryIsIndexed | src/jrnl/journal.py:486-492 | a timestamped opening leaves the date in the index |
| EntryFiles.OpenKeepsFiles | src/jrnl/journal.py:486-492 | opening an entry removes no file |
| EntryFiles.ReadModeStepCreatesNothing | src/jrnl/journal.py:481-492 | one opening in read mode creates no directory and no file |
| EntryFiles.ReadModeCreatesNothing | jrnl/jrnl.py:121-135 | any number of openings in read mode create no directory and no file |
| EntryFiles.TimestampedRunWritesAll | jrnl/jrnl.py:127-135 | outside read mode, with timestamps, every opened entry has a file afterwards |
| EntryFiles.LocationOfMember | jrnl/jrnl.py:127-135 | a date among those opened has its location among those opened |
| EntryFiles.TimestampedRunIndexesAll | jrnl/jrnl.py:127-135 | such a run leaves every opened date from the year 1000 on in the index |
| JournalOrder.LexLessFourDigits | src/jrnl/journal.py:57-59 | four-digit directory names sort as strings exactly as their years sort as numbers |
| JournalOrder.EarlierYearDirectory | src/jrnl/journal.py:476 | when one date's four-digit year directory sorts before another's, the date is earlier |
| JournalOrder.PlacedIndexIncreasing | src/jrnl/journal.py:93-116 | on a journal whose year directories are four-digit years and whose matching files are named and placed as `open_entry` names and places them, the index is readable and strictly increasing, as the docstring promises |
| JournalOrder.OpenKeepsPlaced | src/jrnl/journal.py:476-492 | one `open_entry` keeps that layout |
| JournalOrder.OpenedAllKeepsPlaced | jrnl/jrnl.py:127-135 | any number of openings keep that layout |
| JournalOrder.OpenedJournalIsOrdered | jrnl/jrnl.py:127-135 | a journal built from nothing by openings has a readable, strictly increasing index |
| JournalOrder.ClosestOnPlacedJournal | src/jrnl/journal.py:166-189 | on such a journal the closest-entry lookup succeeds exactly when there is an entry, raises only `EntryAncestorNotFound`, returns an entry no farther than any other, and the older one on a tie (src/jrnl/helpers.py:12-13) |
| JournalOrder.HeadIsMaxOnPlacedJournal | src/jrnl/journal.py:192-216 | on such a journal the latest-entry lookup succeeds exactly when there is an entry, raises only `JournalHeadNotFound`, and returns an entry no earlier than any other |
| JournalOrder.HeadCaretOnPlacedJournal | src/jrnl/journal.py:280-389 | on such a journal `head^` names the entry before the latest, or is dropped as a missing ancestor or as no entry |
| JournalOrder.UnsortedIndex | src/jrnl/journal.py:93-116 | the index of a journal with directories `2020` and `2020-old` lists 2020-01-01 before the earlier 2019-06-01, so it is not sorted |
| JournalOrder.ClosestOnUnsortedIndex | src/jrnl/helpers.py:9-39 | on that index the closest entry to 2019-06-01 is 2020-01-01, although 2019-06-01 is itself an entry |
| JournalOrder.RepeatedDate | src/jrnl/journal.py:81-90 | files `2024-01-01.txt` and `2024-01-01Xtxt` list 2024-01-01 twice, so the index is not strictly increasing, and the ancestor -1 of that date is the date itself |
| LegacyJournal.ParseOne | jrnl/journal.py:116-163 | one turn of the old loop gives what `LegacyResolve` states |
| LegacyJournal.ParseDates | jrnl/journal.py:99-165 | the old loop returns the dates and messages of `ParseDatesSpec` for that turn, stopping at the first exception |
| LegacyJournal.LegacyAgreesWithBaseDate | jrnl/journal.py:132-150 | the old rules give the new base date, except that an offset the new code drops as too large crashes with `OverflowError` |
| LegacyJournal.PlainArgumentKeepsMeaning | src/jrnl/journal.py:285-294 | an argument with no `~`, no trailing `^` and no leading `@` means its base date to the new code too |
| LegacyJournal.OtherTextIsFuzzy | jrnl/journal.py:152-163 | other text is the fuzzy parser's date, "is not a valid date!" on its `ValueError`, and its other errors escape |
| LegacyJournal.HeadCaretIsOtherText | jrnl/journal.py:116-150 | `head^` is neither a head keyword nor an integer to the old code |
| LegacyMain.LateNightOffset | jrnl/jrnl.py:67-71 | one day back exactly when the hour is before the configured hour, none otherwise |
| LegacyMain.ResolveDateString | jrnl/jrnl.py:78-105 | one turn of `main`'s date loop gives what `MainResolve` states |
| LegacyMain.CollectDates | jrnl/jrnl.py:74-105 | the date loop returns the dates and messages of `ParseDatesSpec` for that turn |
| LegacyMain.WriteTimestampWanted | jrnl/jrnl.py:115-119 | `--timestamp` always stamps; otherwise `--no-timestamp` never does, and with neither the configured default decides |
| LegacyMain.ReadModeWanted | jrnl/jrnl.py:121-125 | read mode needs date arguments, and with them it is the negation of the create-new setting |
| LegacyMain.Decide | jrnl/jrnl.py:64-125 | `main` decides what `PlanOf` states |
| LegacyMain.Run | jrnl/jrnl.py:64-135 | `main` opens the entries of the planned dates in the journal, or changes nothing when it aborts or crashes |
| LegacyMain.AllDroppedLeavesNothing | jrnl/jrnl.py:78-105 | arguments that are all rejected leave no date and one message each |
| LegacyMain.AbortsWhenNoDate | jrnl/jrnl.py:107-110 | `main` aborts exactly when date arguments were given and none resolved, with no exception |
| LegacyMain.AllInvalidAborts | jrnl/jrnl.py:100-110 | when no argument names a date, `main` aborts after one message per argument |
| LegacyMain.NoArgumentsOpensToday | jrnl/jrnl.py:111-113 | with no arguments the one date is today plus the late-night offset, never in read mode, and a shift out of the calendar crashes |
| LegacyMain.OpenedDatesAreResolved | jrnl/jrnl.py:78-105 | every date `main` opens is what one of its arguments resolved to |
| LegacyMain.OffsetsAgreeWithParseDates | jrnl/jrnl.py:79-93 | a day offset means the same in `main` as in the old `parse_dates` |
| LegacyMain.FuzzyDatesShiftLate | jrnl/jrnl.py:94-100 | `main` shifts a fuzzy date by the late-night offset, which the old `parse_dates` does not |
| LegacyMain.ArgumentsWithoutCreateNewCreateNothing | jrnl/jrnl.py:121-135 | date arguments without the create-new setting open the entries without creating or removing a file |
| LegacyMain.PlainRunWritesToday | jrnl/jrnl.py:111-135 | with no arguments and timestamps wanted, today's entry is in the index afterwards |

## Left out

- Regular expressions and `int()` accept Unicode digits and whitespace. The model's `IsDigit` and `IsSpace` are ASCII only, and `Lower` folds ASCII letters only.
- Python's limit of 4300 digits for `int()` of a string is not modelled; every digit string converts.
- The base directory holds only directories. A plain file there whose name starts with four digits, and directories inside year directories, are not modelled. Nor is `os.path.exists` being true of a directory with the entry's name.
- Starting the editor (`subprocess.Popen(...).wait()`) is only the `Edited` outcome. Printed messages are `Diagnostic` values, not text on standard error.
- The clock is not modelled. Today's date, the late-night offset and the moment of a timestamp are parameters. `main` calls `datetime.today()` twice; both calls are taken as one moment.
- The fuzzy parser (`dateutil.parser.parse(..., fuzzy=True)`) is a function parameter. Its own behaviour is out of scope.
- IsoDate: pads the year to four digits. For years below 1000 `strftime("%Y")` is platform dependent. Dates below 1000 can still be indexed, from a directory such as `0999`. Only the directory `open_entry` makes for them, `str(year)` such as `999`, is not indexed (`YearDirectoryIsIndexed`).
- Entry files are read in text mode (src/jrnl/journal.py:428). With universal newlines, `"\r\n"` and `"\r"` are read as `"\n"`, and that changes the `endswith` and `in` tests. Bytes the locale encoding cannot decode raise `UnicodeDecodeError`. The model takes a file's text as stored, so it models neither the newline translation nor the decoding error.
- I/O errors other than a missing year directory are not modelled: permissions, `open(path, "x")` racing another writer, or disks running full.
- Running Python with `-O` strips the `assert` used for the head keywords. The model keeps the assert.
- `os.listdir` order does not matter, because every listing is sorted. The model has no listing order.
- The handler for `EntryNeighbourNotFoundException` in `parse_dates` (src/jrnl/journal.py:356-358) never fires, so its message is never produced.
- The rest of the entry points is not part of this model. `src/jrnl/main.py`, and the first part of `main` in `jrnl/jrnl.py` (lines 20-62), do configuration loading, grep mode, creating the journal directory at a prompt, and choosing the editor.
- Exception classes form no hierarchy in the model. Where the source catches a base class, the model lists the leaf kinds.
- The three copies of write_timestamp and open_entry differ only in comments and a parameter name. Each is modelled once.
