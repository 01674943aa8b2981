# Dubai café finder: the filtering core in Dafny

This project models the core of a small café finder, a single-page app that
shows a catalog of cafés as a list and on a map. The user narrows the list
by three controls:

- a search anchor picked in an address autocomplete, which keeps the cafés
  within 5 km of it;
- a mood (Any, Calm, Lively, Cozy, Work, Friends, Family);
- a time-of-day bucket (Morning, Afternoon, Evening, Late Night).

Each café card shows whether the café is usually busy, likely calm, or
"moderate" in the selected bucket. That label comes from the café's
human-written "HH:MM-HH:MM" busiest-hours ranges.

The model has six modules:

- `Wrappers` holds `Option` and `Result`.
- `Types` holds the entities of `types.ts`: `Cafe`, `MoodOption`,
  `TimeOption`, `FilterState` and the search `Location`. The cozy score is
  a subset type `1..5`, and an hour of the day `Hour` is the subset type
  `0..23` shared by the busy test and the initial bucket.
- `JsParse` models the two pieces of JavaScript string handling the busy test
  relies on:
  - element 0 of `s.split(sep)`;
  - `parseInt(s)` without a radix, as section 19.2.5 of ECMA-262 defines it.
    It skips leading white space, takes an optional sign, reads an optional
    "0x" prefix, then the longest run of digits. NaN is `None`.
- `Activity` models `isBusyAtTime` and `isCalmAtTime`. A bucket is reduced to
  a representative hour (9, 14, 19, 22). Each range is split at '-' and at
  ':' and the hour text is read with `parseInt`. The range covers the hour
  when `start <= hour < end`. `some` scans the ranges in order and stops at
  the first match. A range with no '-' makes `end.split` throw a TypeError,
  modelled as `Failure(EndUndefined(range))`.
- `Filtering` models `filterCafes`: a location stage, then a mood stage,
  each an `Array.prototype.filter`. `Filter` models the filter once,
  generically. The great-circle distance is a function-valued parameter
  `dist`.
- `App` models the page as a state machine. Its state is the filters, the
  displayed list, the selected café and the "Near" input text. Each user
  action is one step: the `setFilters` updater of the handler, then the
  filter effect. A new filter object always re-runs the effect, which
  recomputes the list and clears the selection. The catalog and the current
  hour are parameters.

## Model

| member | source | states |
|---|---|---|
| `JsParse.TakeUntil` | services/utils.ts:33-34 | the first field of `split(sep)` is a prefix free of `sep`, stopping at the first `sep` or the end |
| `JsParse.TakeUntilUnique` | services/utils.ts:33-34 | any prefix that stops exactly at the first separator is that first field |
| `JsParse.TakeUntilConcat` | services/utils.ts:33-34 | only the text before the first separator matters |
| `JsParse.ParseInt` | services/utils.ts:34-35 | no contract of its own; `parseInt` without a radix, characterised by `JsParse.ParseIntNeedsDecimalDigit`, `JsParse.ParseIntReadsDecimalPrefix`, `JsParse.ParseIntSkipsWhiteSpace` and `JsParse.ParseIntPad2` |
| `JsParse.ParseIntNeedsDecimalDigit` | services/utils.ts:34-35 | hour text without a decimal digit reads as NaN, whatever its sign, spaces or letters |
| `JsParse.ParseIntReadsDecimalPrefix` | services/utils.ts:34-35 | `parseInt` reads the leading run of decimal digits and ignores what follows, such as ":30" or "pm"; only a lone "0" before an "x" or "X" is excluded, since that starts a hexadecimal number |
| `JsParse.DigitPrefixUnique` | services/utils.ts:34-35 | the digit run read is the longest prefix made of digits of the chosen radix |
| `JsParse.ParseIntSkipsWhiteSpace` | services/utils.ts:34-35 | leading white space never changes the value read |
| `JsParse.ParseIntPad2` | services/utils.ts:34-35 | a two-digit zero-padded hour reads back as the number written; there is no octal reading of "09" |
| `JsParse.ParseIntHexExample` | services/utils.ts:34-35 | without a radix argument "0x13" reads as 19 |
| `JsParse.ParseIntTextExample` | services/utils.ts:34-35 | "7pm" reads as 7 |
| `JsParse.ParseIntNaNExample` | services/utils.ts:34-35 | "noon" reads as NaN |
| `JsParse.ParseIntLetterExample` | services/utils.ts:34-35 | "O9", with a letter O typed for a zero, reads as NaN: the digit after the letter is never reached |
| `Activity.RepresentativeHour` | services/utils.ts:23-29 | no contract of its own; its result type `Types.Hour` makes each bucket one hour of the day, and `Activity.RepresentativeHourTable` gives the values |
| `Activity.RepresentativeHourTable` | services/utils.ts:24-29 | Morning is read at 9, Afternoon at 14, Evening at 19 and Late Night at 22 |
| `Activity.RangeHours` | services/utils.ts:33-35 | reading a range's hours fails exactly when the range has no '-' |
| `Activity.RangeMatches` | services/utils.ts:33-36 | the per-range test fails exactly when the range has no '-' |
| `Activity.HourWithin` | services/utils.ts:36 | no contract of its own; the comparison `start <= hour < end`, where a NaN side compares false, characterised by `Activity.FormattedRange`, `Activity.OvernightRangeNeverMatches` and `Activity.NaNHourNeverMatches` |
| `Activity.ArraySome` | services/utils.ts:32-37 | `some` with a throwing test: true means some element tests true after only false ones; false means all test false; a throw means one throws after only false ones |
| `Activity.ArraySomeFirstTrue` | services/utils.ts:32-37 | a true test after only false ones makes the scan true, whatever follows |
| `Activity.ArraySomeFirstThrow` | services/utils.ts:32-37 | a throwing test after only false ones makes the scan throw |
| `Activity.ArraySomeSingleton` | services/utils.ts:32-37 | with one element, the scan is that element's test |
| `Activity.IsBusyAtTime` | services/utils.ts:21-38 | no busiest hours means never busy; ranges that all contain '-' never throw |
| `Activity.BusyIffSomeRangeCovers` | services/utils.ts:21-38 | with well-formed ranges, busy exactly when some range covers the representative hour |
| `Activity.IsCalmAtTime` | services/utils.ts:40-46 | calm throws exactly when busy throws; calm exactly when not busy and not lively |
| `Activity.ActivityIsThreeWay` | components/CafeCard.tsx:66-73 | the card's busy and calm labels never both apply, and "moderate" is exactly not busy but lively |
| `Activity.MinutesIgnored` | services/utils.ts:33-35 | only the hour text before each side's ':' is read; the minutes and any text after a second '-' are ignored |
| `Activity.FormattedRange` | services/utils.ts:33-36 | an "HH:MM-HH:MM" range reads back its hours and covers exactly start <= hour < end |
| `Activity.RangeText` | services/utils.ts:33-36 | the same, for every hour at once |
| `Activity.OvernightRangeNeverMatches` | services/utils.ts:36 | a range ending at or before its start, such as "22:00-02:00", covers no hour |
| `Activity.NaNHourNeverMatches` | services/utils.ts:34-36 | a range whose start or end hour text reads as NaN never matches, whatever the hour, including text that holds a digit but reads as NaN, such as "O9" |
| `Activity.DigitlessHourNeverMatches` | services/utils.ts:34-36 | in particular, hour text without any decimal digit never matches |
| `Activity.SingleRangeBusy` | services/utils.ts:32-37 | with one range, busy is that range's test |
| `Activity.BusyBoundaries` | services/utils.ts:25-36 | "19:00-22:00" is busy in the Evening bucket and not in Late Night: start inclusive, end exclusive |
| `Activity.EveningRangeText` | types.ts:15 | the range text used above is the "19:00-22:00" of the data's example |
| `Activity.MissingDashThrows` | services/utils.ts:33-35 | a first range without '-' makes the busy test throw in every bucket |
| `Activity.FirstRangeMatchDecides` | services/utils.ts:32-37 | a first range covering the hour makes the café busy, whatever follows |
| `Activity.SecondRangeThrows` | services/utils.ts:32-37 | a malformed second range after a non-matching first one throws |
| `Activity.MatchHidesMalformedRange` | services/utils.ts:32-37 | a malformed range after a matching one is never read; after a non-matching one it throws |
| `Activity.EarlierMatchHidesMalformedRange` | services/utils.ts:32-37 | the same for "19:00-22:00": busy in the evening, a throw in the morning |
| `Activity.ArraySomeAgree` | services/utils.ts:32-37 | two tests that agree wherever the first does not throw give the same scan |
| `Activity.IsBusyAtTimeSkipping` | services/utils.ts:32-37 | corrected busy test: never throws; busy exactly when some range covers the hour, a malformed range counting as not covering |
| `Activity.RangeMatchesOrSkip` | services/utils.ts:33-36 | no contract of its own; the corrected per-range test, where a range without '-' counts as not covering the hour, characterised by `Activity.IsBusyAtTimeSkipping` and `Activity.MalformedRangeSkipped` |
| `Activity.SkippingAgreesWhenNoThrow` | services/utils.ts:21-38 | wherever the code as written answers, the corrected busy test gives the same answer |
| `Activity.MalformedRangeSkipped` | services/utils.ts:33-35 | in the corrected test a range without '-' is skipped: busy exactly when another range covers the hour |
| `Activity.IsCalmAtTimeSkipping` | services/utils.ts:40-46 | corrected calm test: calm exactly when not lively and no range covers the hour |
| `Activity.CalmSkippingAgreesWhenNoThrow` | services/utils.ts:40-46 | wherever the calm test as written answers, the corrected one agrees |
| `Filtering.Filter` | services/utils.ts:53-61 | `filter` keeps at most the input's elements, all passing the test, and holds exactly the input's elements that pass |
| `Filtering.FilterCounts` | services/utils.ts:53-61 | each passing element is kept as often as the input holds it; every other is dropped |
| `Filtering.FilterIsSubsequence` | services/utils.ts:53-61 | `filter` never reorders |
| `Filtering.FilterUnique` | services/utils.ts:53-61 | the filter is the only order-preserving sub-list holding exactly the passing elements with their multiplicities |
| `Filtering.FilterAllTrue` | services/utils.ts:53-61 | a test every element passes leaves the list unchanged |
| `Filtering.FilterNoneTrue` | services/utils.ts:53-61 | a test no element passes leaves nothing |
| `Filtering.FilterIdempotent` | services/utils.ts:53-61 | filtering twice by one test is filtering once |
| `Filtering.FilterFuse` | services/utils.ts:53-83 | two filters in a row are one filter by the conjunction of the tests |
| `Filtering.FilterCongruent` | services/utils.ts:53-61 | a filter only consults its test on the elements it is given |
| `Filtering.Radius` | services/utils.ts:60 | no contract of its own; the 5 km radius, characterised by `Filtering.FilterCafes` and `Filtering.FarAnchorLeavesNothing` |
| `Filtering.WithinRadius` | services/utils.ts:54-60 | no contract of its own; the 5 km test, characterised by `Filtering.FilterCafes` and `Filtering.FarAnchorLeavesNothing` |
| `Filtering.MoodMatches` | services/utils.ts:65-86 | no contract of its own; the per-mood test, characterised by `Filtering.FilterCafes`, `Filtering.MoodNarrows` and `Filtering.WorkNeedsWifi` |
| `Filtering.Admits` | services/utils.ts:52-86 | no contract of its own; the conjunction of both criteria, characterised by `Filtering.FilterCafes` and `Filtering.FilterCafesMatchesReference` |
| `Filtering.LocationStage` | services/utils.ts:52-62 | no contract of its own; the first stage, characterised by `Filtering.FilterCafes` and `Filtering.StageOrderIrrelevant` |
| `Filtering.MoodStage` | services/utils.ts:65-86 | no contract of its own; the second stage, characterised by `Filtering.FilterCafes` and `Filtering.StageOrderIrrelevant` |
| `Filtering.FilterCafes` | services/utils.ts:48-89 | the result is no longer than the catalog and holds exactly the catalog's cafés that are within 5 km of the anchor (when there is one) and match the mood; with no anchor and mood Any it is the catalog |
| `Filtering.FilterCafesMatchesReference` | services/utils.ts:48-89 | the two stages together are one filter by the combined criterion |
| `Filtering.FilterCafesUnique` | services/utils.ts:48-89 | the result is the only order-preserving sub-list of the catalog holding exactly the admitted cafés with their multiplicities |
| `Filtering.FilterCafesIsSubsequence` | services/utils.ts:48-89 | the result keeps the catalog's order |
| `Filtering.FilterCafesIdempotent` | services/utils.ts:48-89 | filtering the filtered list again changes nothing |
| `Filtering.StageOrderIrrelevant` | services/utils.ts:51-86 | the mood stage first and the location stage second give the same list |
| `Filtering.FilterCafesIgnoresTime` | services/utils.ts:48-89 | the time bucket never affects the list |
| `Filtering.FilterCafesIgnoresAddress` | services/utils.ts:52-61 | only the anchor's coordinates matter, not its address text |
| `Filtering.MoodNarrows` | services/utils.ts:65-86 | choosing a mood only removes cafés from the list obtained with Any |
| `Filtering.LocationNarrows` | services/utils.ts:52-62 | removing the anchor only adds cafés to the list |
| `Filtering.FarAnchorLeavesNothing` | services/utils.ts:53-60 | an anchor farther than 5 km from every café leaves an empty list |
| `Filtering.WorkNeedsWifi` | services/utils.ts:76-78 | the Work mood needs both good-for-work and Wi-Fi |
| `App.GetInitialTime` | App.tsx:15-21 | the initial bucket holds the current hour, counted cyclically from the bucket's start (5, 12, 17, 21) |
| `App.GetInitialTimeUnique` | App.tsx:15-21 | the buckets do not overlap: the bucket chosen is the only one holding the hour |
| `App.RepresentativeHourInBucket` | App.tsx:15-21 | the busy test's representative hour of each bucket lies in that bucket |
| `App.OrElse` | App.tsx:85 | no contract of its own; JavaScript's logical or on an optional string, where "" counts as false, characterised by `App.PlaceAddress` |
| `App.PlaceAddress` | App.tsx:85 | the anchor's label is a non-empty formatted address when there is one, else a non-empty name, and "" exactly when neither exists |
| `App.InitialFilters` | App.tsx:30-34 | no contract of its own; any mood, the current bucket and no anchor, also the Reset value at line 266, characterised by `App.ResetShowsCatalog` |
| `App.Init` | App.tsx:25-35 | no contract of its own; the first render with the whole catalog, nothing selected and an empty input, characterised by `App.InitConsistent` |
| `App.ApplyFilters` | App.tsx:100-104 | no contract of its own; the filter effect, which recomputes the list from the catalog and clears the selection, characterised by `App.Step` and `App.StepConsistent` |
| `App.InitConsistent` | App.tsx:25-34 | the first render already shows the catalog filtered by the initial filters |
| `App.FilterUpdate` | App.tsx:88 | exactly typing, clicks and places without a location leave the filters alone; every other action but Reset changes only its own field (the anchor for a place and for Clear, the mood, the bucket); lines 160, 219, 242 and 266 are the other updaters |
| `App.InputUpdate` | App.tsx:89 | only a picked place, typing and Clear change the "Near" text, and typing sets it to the text typed; lines 161 and 199 are the other two |
| `App.Step` | App.tsx:100-104 | an action that hands new filters to `setFilters` leaves the list equal to the filtered catalog and nothing selected; any other action keeps the filters and the list |
| `App.Run` | App.tsx:100-104 | no contract of its own; a fold of `App.Step` over the actions, characterised by `App.RunConsistent` and `App.SelectionIsLastClick` |
| `App.StepConsistent` | App.tsx:100-104 | every action keeps the displayed list equal to the catalog filtered by the current filters |
| `App.RunConsistent` | App.tsx:100-104 | the same holds after any sequence of actions |
| `App.ReachableConsistent` | App.tsx:100-104 | from the first render, whatever the user does, the list shown is the catalog filtered by the filters shown |
| `App.MoodChangeOwnField` | App.tsx:219 | the mood control replaces only the mood and keeps the input text |
| `App.TimeChangeKeepsList` | App.tsx:242 | the time control replaces only the bucket and leaves the list unchanged, though the selection is cleared |
| `App.ClearLocationWidens` | App.tsx:159-161 | Clear removes only the anchor, empties the input, and only widens the list |
| `App.PlaceWithoutLocationIgnored` | App.tsx:79-80 | a picked place without a location changes nothing |
| `App.PlaceBecomesAnchor` | App.tsx:82-89 | a picked place replaces only the anchor, labelled by its address, and the input shows its name |
| `App.ResetShowsCatalog` | App.tsx:266 | Reset shows the whole catalog with the initial filters for the current hour, and leaves the input text alone |
| `App.SelectionAfterStep` | App.tsx:100-104 | actions that change the filters clear the selection, a click selects its café, and typing or a place without a location change neither |
| `App.SelectionIsLastClick` | App.tsx:151-152 | a selected café is the last one clicked, with only quiet actions after the click, or the starting selection if every action was quiet |
| `App.SelectionNeedsClick` | App.tsx:129-130 | from the first render, a café is selected only because it was clicked, with nothing but quiet actions since |
| `App.StepKeepsSelectionShown` | App.tsx:269-275 | with a click only on a card the list shows, an action keeps the selected café among the cafés shown |
| `App.RunKeepsSelectionShown` | App.tsx:269-275 | the same over any run whose clicks are all on cards shown at that moment |
| `App.ReachableSelectionShown` | App.tsx:129-130 | from the first render, with clicks only on shown cards and markers, the selected café is always one of the cafés shown |

## Left out

- The body of `calculateDistance` (haversine with `Math.sin`, `Math.cos`, `Math.atan2` on doubles) and `deg2rad` are not modelled. `dist` is an arbitrary function, so every property here holds for any distance function.
- Floating point is not modelled. Coordinates and distances are `real`, and `parseInt` results are unbounded integers. JavaScript would round huge digit runs to doubles, but comparisons with the hours 9, 14, 19 and 22 are unaffected. The sign of `-0` is not modelled; it compares like 0.
- The `Cafe` fields `bestForWorkHours`, `hasOutlets`, `area`, `name` and `image` are carried but never read by the core.
- Out-of-range hours such as "25:00" are not rejected. The code compares them like any number, and the model does the same.
- Google Maps is not modelled: the map, the markers, panning, zooming and fitting bounds, the autocomplete widget and the "Map Error" overlay.
- The clock (`new Date().getHours()`) and the `CAFES` constant become the `hour` and `catalog` parameters. The unused `cafes` state is left out.
- React rendering is not modelled. In the code, the effect runs after the render that changed `filters`, so for one render the old list shows with the new filters. A step here is the handler and its effect together.
- Button visibility is not modelled. Clear is only rendered while an anchor is set, and Reset only while the list is empty. The model lets each action happen in any state, which covers every state the page can reach. Likewise a click may carry any café id, while the page only offers cards and markers for the cafés shown; `App.ReachableSelectionShown` states what follows when clicks keep to those.
- `Activity.RepresentativeHour`: its signature states only that the result is an hour of the day, through its result type `Types.Hour`. The exact values are stated by `Activity.RepresentativeHourTable`.

## Findings

| source | as written | input that shows it | evidently intended | confidence | as-written member | corrected member |
|---|---|---|---|---|---|---|
| services/utils.ts:33-35 | `range.split('-')` on a range without '-' leaves `end` undefined, and `end.split(':')` throws a TypeError. The card calls `isBusyAtTime` while rendering, so one malformed entry breaks the page. | a café whose busiest hours are `["19:00"]`, in any time bucket | a malformed range counts as not matching and the scan goes on, so one bad entry cannot break the page | high; not executed | `Activity.MissingDashThrows` | `Activity.IsBusyAtTimeSkipping` |

The corrected tests `Activity.IsBusyAtTimeSkipping` and `Activity.IsCalmAtTimeSkipping` never throw. They agree with the code as written wherever the code does not throw (`Activity.SkippingAgreesWhenNoThrow` and `Activity.CalmSkippingAgreesWhenNoThrow`). `Activity.MalformedRangeSkipped` states the intended property. Because `some` stops at the first match, the code only throws when no earlier range matches (`Activity.MatchHidesMalformedRange`). The correction covers only the throw. A range whose hours are out of range, such as "05:00-30:00", still matches as the code has it, and a range with an unreadable hour still never matches. The filtering and the state machine do not use the busy test, so the rest of the model is unaffected.
