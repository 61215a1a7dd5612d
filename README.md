# WheelOfDoom selection engine, in Dafny

WheelOfDoom is a browser "wheel of fortune". The user keeps a table of entries, each with a text,
a weight and a comma-separated tag string. Tag toggles choose which entries are on the wheel, and
a spin draws one of the active entries with probability proportional to its weight, then animates
the wheel so that it comes to rest with the winner under the pointer. This project models the
logic of `script/main.js` behind that:

- `Entries`: the entry rows, the tag filter `getActiveWheelEntrys` with its `+w || 1` weight
  coercion, the summing loop `getTotalWeight`, and the count `updateWheelEntriesCount`.
- `TagFilters`: the `enabledTags` / `knownTags` state kept by `updateTagFilters` and flipped by a
  tag toggle, as a class over two sets, with the function it is proved against.
- `Draw`: the subtraction walk shared by `pullWeightedWheelEntry` and `getPointerWheelEntry`, and
  the weighted draw itself with `Math.random()` passed in.
- `Spin`: `spin` and its `frame` closure as a class holding the wheel angle, the `spinning` guard
  and the animation state, the pointer lookup, and the angle and easing arithmetic.
- `EntryEdits`: the in-place edits of `wheelEntries` (typing into a row, add, delete, drag and
  drop, multi-line paste, Fisher-Yates shuffle, replacement from text mode).
- `TextMode`: the `text | weight | tags` text form (`updateTextModeArea`) and its parser
  (`parseTextModeArea`).
- `Strings` and `Reals`: JavaScript's `trim`, `split` on one character and on `/\r?\n/`, `join`,
  decimal numerals, and the real-arithmetic facts the proofs use.

Angles are measured in turns: 1.0 is a full revolution (`2 * Math.PI` in the page), so the slice of
one unit of weight is `1 / W` turns for a total active weight `W`. They are exact reals, with
JavaScript's `%` written out as a remainder truncated toward zero. Turns rather than units of
weight are used because the page keeps `angle` between spins while `W` can change. Randomness
(`Math.random()`) and the animation timestamps are parameters.

## Model

| member | source | states |
|---|---|---|
| Entries.Coerce | script/main.js:358 | `+w \|\| 1` on a stored weight turns 0 into 1 and keeps every positive weight |
| Entries.NumberOrOne | script/main.js:118 | a weight read from an input is at least 1: a cleared input or one that is not a numeral reads as 1, a numeral as its value with 0 read as 1 |
| Entries.NumberOrOneOfDecimal | script/main.js:118 | a weight written in decimal is read back as itself, and 0 as 1 |
| Entries.TagComponents | script/main.js:355 | the trimmed comma components of a tag string; there is always at least one |
| Entries.ActiveEntries | script/main.js:351-359 | the active list is no longer than the table and every weight in it is at least 1 |
| Entries.ActiveEntriesSpec | script/main.js:351-359 | the active list is exactly the active rows, each once, in table order, each mapped to its text and coerced weight; a row appears if and only if it is active |
| Entries.ActiveIff | script/main.js:354-357 | a row is kept if and only if one of its tags is enabled or its tag string has an empty component; a row with no tag is always kept |
| Entries.KeptIff | script/main.js:356 | the `some` test on the components holds if and only if an enabled tag or an empty component is among them |
| Entries.IsActive | script/main.js:354-357 | defines the filter of `getActiveWheelEntrys` on the trimmed components; `ActiveIff` states what it means |
| Entries.ToActive | script/main.js:358 | the mapped row keeps its text and carries a weight of at least 1, the row's own weight when that is positive |
| Entries.SumPrefixMonotone | script/main.js:362-371 | running totals of the weights never decrease |
| Entries.ActiveTotalPositive | script/main.js:362-371 | the active total weight is at least the number of active entries |
| Entries.GetTotalWeight | script/main.js:362-371 | the summing loop returns the sum of the active entries' coerced weights, at least their number |
| Entries.AllWeightSplits | script/main.js:288-292 | the count's weight sum over all rows is the active total plus the weight the filter drops, and at least the number of rows |
| Entries.AllWeight | script/main.js:290 | the `reduce` over all rows, at least the number of rows |
| Entries.WheelEntriesCount | script/main.js:288-291 | the count shown is the number of rows and a weight sum at least as large |
| Entries.NothingDroppedIff | script/main.js:288-292 | no weight is dropped if and only if every row is active |
| Entries.WheelEntriesCountBounds | script/main.js:288-292 | the count is the number of rows; its weight sum is at least that and at least the wheel's total, and equals the wheel's total if and only if every row is active |
| TagFilters.AllTags | script/main.js:297-304 | the tags in use never include the empty string |
| TagFilters.AllTagsIff | script/main.js:297-304 | a tag is in use if and only if some row carries it |
| TagFilters.AllTagsHas | script/main.js:297-304 | a tag some row carries is in use |
| TagFilters.AllTagsWitness | script/main.js:297-304 | a tag in use is carried by some row |
| TagFilters.UpdatedTags | script/main.js:296-321 | after the update the known tags are exactly the tags in use, every enabled tag is known, a tag not known before is enabled, and a tag known before keeps its status |
| TagFilters.UpdateIdempotent | script/main.js:296-321 | running the update a second time changes nothing |
| TagFilters.TagFilter.UpdateTagFilters | script/main.js:296-321 | the loops that collect, prune and add leave exactly the state `UpdatedTags` describes, with every enabled tag known |
| TagFilters.Toggled | script/main.js:338-339 | a click flips exactly the clicked tag and leaves every other tag as it was |
| TagFilters.ToggleTwice | script/main.js:338-339 | two clicks on the same tag restore the enabled set |
| TagFilters.TagFilter.constructor | script/main.js:87-88 | the page starts with no tag known and none enabled |
| TagFilters.TagFilter.ToggleTag | script/main.js:338-339 | the click updates the enabled set as `Toggled` says, keeps every enabled tag known and leaves the known tags alone |
| Draw.FirstReachingFromSpec | script/main.js:515-520 | the walk from an index stops at the first later index whose running total reaches the position, and runs off the end if and only if no running total does |
| Draw.FirstReachingInterval | script/main.js:515-520 | for a positive position the walk stops at entry `i` if and only if the position lies in `(Sum(ws[..i]), Sum(ws[..i+1])]`, an interval as long as the entry's weight |
| Draw.FirstReachingFound | script/main.js:515-520 | the walk finds nothing if and only if there is nothing to walk or the position exceeds the total weight; a position of zero or less stops at the first entry |
| Draw.DrawPosition | script/main.js:512 | `totalWeight * Math.random()` lies in `[0, W]`, and below `W` when `W` is positive |
| Draw.DrawFound | script/main.js:507-521 | the drawn position always falls in some entry when there is any |
| Draw.FirstReachingFrom | script/main.js:515-520 | the walk from an index stops, if at all, at an index from there on; `FirstReachingFromSpec` says which |
| Draw.FirstReaching | script/main.js:515-520 | the walk from the first entry stops, if at all, at an index of the list |
| Draw.EntryAt | script/main.js:515-520 | the entry the walk stops at is one of the active entries, and there is none exactly when the walk runs off the end |
| Draw.Walk | script/main.js:513-520 | the subtraction loop returns the entry the walk specification names |
| Draw.PullWeighted | script/main.js:507-521 | there is a winner exactly when some entry is active; its weight is the drawn position and its entry the one the walk reaches at that position |
| Spin.TurnRemainder | script/main.js:460-462 | the remainder by one turn lies strictly between -1 and 1 and keeps the sign of the angle |
| Spin.TurnRemainderWhole | script/main.js:462 | what the remainder takes off is a whole number of turns |
| Spin.TurnRemainderOfTurns | script/main.js:462 | whole turns added to a fraction of a turn come off again |
| Spin.SlicePerWeight | script/main.js:459 | the slice of one unit of weight is positive, at most one turn, and `W` slices make one turn |
| Spin.PointerPos | script/main.js:460 | defines `(angle % (2 * Math.PI)) / slicePerWeight` in turns; `PointerPosScaled` states its range |
| Spin.TargetAngle | script/main.js:464 | a position along the weights from 0 to `W` becomes an angle of at most one turn |
| Spin.SpinTotal | script/main.js:463-466 | the rotation is never backwards when the start is below one turn, the target is not negative and the strength is not negative |
| Spin.PointerPosScaled | script/main.js:460 | the pointer position is the remainder of the angle scaled to the total weight, at most `W`, and not negative for a non-negative angle |
| Spin.ScaledTarget | script/main.js:464 | the drawn position turned back into an angle is the random fraction itself |
| Spin.SpinLands | script/main.js:462-466 | for a non-negative spin strength the rotation is forward and the wheel stops with the target angle under the pointer, after `floor(spinStrength)` whole turns, or one turn when that is zero and the target lies behind the start |
| Spin.StopsAtDrawn | script/main.js:459-466 | the wheel turned by `spin`'s rotation stops with the pointer at the drawn position |
| Spin.PointerLandsOnWinner | script/main.js:459-466 | where the wheel stops, the pointer walk reads the same entry the draw picked |
| Spin.Progress | script/main.js:475 | the progress is at most 1, reaches 1 exactly when the duration has elapsed, is 0 at the start and never negative afterwards |
| Spin.ProgressMonotone | script/main.js:475 | later frames have larger progress |
| Spin.EasedShape | script/main.js:476 | the ease-out cubic is 0 at the start and 1 at the end, and never decreases in between |
| Spin.Eased | script/main.js:476 | defines the ease-out cubic `1 - (1 - p)^3`; `EasedShape` states its shape |
| Spin.FrameAngle | script/main.js:476 | defines `start + total * eased`; `FrameAngleMonotone`, `FrameAngleStart` and `FrameAngleEnd` state its behaviour |
| Spin.FrameAngleStart | script/main.js:473-476 | the animation starts at the angle `start` |
| Spin.FrameAngleEnd | script/main.js:475-476 | once the duration is over the angle is exactly `start + total` |
| Spin.FrameAngleMonotone | script/main.js:476 | for a forward rotation a later progress never shows a smaller angle, and every angle lies between `start` and `start + total` |
| Spin.FramesMoveForward | script/main.js:473-476 | frame after frame the angle moves forward from `start` and never passes `start + total` |
| Spin.TurnedBetween | script/main.js:476 | a smaller share of a forward rotation never lands past a larger share |
| Spin.PointerEntry | script/main.js:493-505 | with nothing active nothing is found; otherwise the walk from the pointer position always finds an entry, the one the walk specification names |
| Spin.NothingActiveExample | script/main.js:351-359 | a table whose only row carries a tag that is switched off has no active entry |
| Spin.Spinner.constructor | script/main.js:83-84 | the wheel starts at angle 0, not spinning, with no animation scheduled |
| Spin.Spinner.Spin | script/main.js:449-468 | a click while spinning changes nothing; otherwise the wheel is marked spinning and, with an active entry, the winner is drawn and the rotation is set so that the pointer reads that winner when the wheel stops; with no active entry no winner is drawn and `spinning` stays set |
| Spin.Spinner.SpinOrRefuse | script/main.js:449-468 | as `Spin`, except that with no active entry nothing changes |
| Spin.Spinner.Frame | script/main.js:470-488 | the first frame fixes the start time; each frame shows the eased angle; `spinning` is cleared exactly when the duration is over, and then the wheel is at `start + total` and the winner is shown |
| EntryEdits.Removed | script/main.js:128 | `splice(i, 1)` drops element `i` and shifts the rest up |
| EntryEdits.Inserted | script/main.js:280 | `splice(i, 0, x)` puts `x` at `i` and shifts the rest down |
| EntryEdits.InsertRemoved | script/main.js:279-280 | taking an element out and putting it back where it was changes nothing |
| EntryEdits.Moved | script/main.js:279-280 | the two splices of a drop keep the length and put the dragged row at the target |
| EntryEdits.MovedSpec | script/main.js:277-280 | a drop keeps the length, puts the dragged row at the target, leaves the other rows in their old order, and changes nothing when the row is dropped on itself |
| EntryEdits.MovedPermutes | script/main.js:279-280 | a drop neither loses nor duplicates a row |
| EntryEdits.Swap | script/main.js:241 | the swap exchanges the two cells, leaves the others, and keeps the same rows |
| EntryEdits.Pick | script/main.js:240 | `Math.floor(Math.random() * (i + 1))` is an index from 0 to `i` |
| EntryEdits.Picks | script/main.js:239-240 | step `k` of the shuffle swaps with an index from 0 to `k` |
| EntryEdits.ShuffleFrom | script/main.js:239-242 | the remaining swap steps keep the length |
| EntryEdits.Shuffled | script/main.js:238-242 | defines the shuffle's result for given random numbers; `ShuffledPermutes` states that it reorders the rows |
| EntryEdits.ShuffleFromPermutes | script/main.js:239-242 | the remaining steps of the shuffle neither lose nor duplicate a row |
| EntryEdits.ShuffledPermutes | script/main.js:239-242 | the shuffle only reorders the rows |
| EntryEdits.PastedSpec | script/main.js:158-171 | the rows before the pasted row stay, the row and the new rows carry the lines in order with the row's weight and tags, and the later rows move down |
| EntryEdits.PastedOneLine | script/main.js:158-171 | a paste of a single line only retitles the row |
| EntryEdits.Pasted | script/main.js:158-171 | the table grows by one row less than the number of lines, and the pasted row takes the first line with its own weight and tags |
| EntryEdits.EntryList.constructor | script/main.js:827 | a new wheel, loaded from data without entries, holds one "Apple" row of weight 1 tagged "fruit" |
| EntryEdits.EntryList.FirstVisit | script/main.js:849-854 | the page opened with nothing saved holds an "Apple" and a "Banana" row, both of weight 1 tagged "fruit" |
| EntryEdits.EntryList.Add | script/main.js:95-96 | `addWheelEntry` appends an empty row of weight 1 |
| EntryEdits.EntryList.Edit | script/main.js:116-119 | typing into a row sets its three fields from the inputs, with a weight of at least 1 |
| EntryEdits.EntryList.Delete | script/main.js:127-128 | the delete button removes exactly that row |
| EntryEdits.EntryList.Drop | script/main.js:273-280 | without a dragged row, or on itself, a drop changes nothing; otherwise it moves the dragged row to the target |
| EntryEdits.EntryList.Paste | script/main.js:143-171 | text without a line feed is left to the browser; text whose lines are all blank changes nothing; otherwise the rows become `Pasted` |
| EntryEdits.EntryList.Shuffle | script/main.js:238-242 | the Fisher-Yates loop leaves the rows `Shuffled` says, a permutation of the old rows |
| EntryEdits.EntryList.LoadText | script/main.js:200-210 | the table becomes the parsed text, every row of which survives another round through text mode |
| TextMode.FormatEntry | script/main.js:194 | defines the line `${e.text} \| ${e.weight} \| ${e.tags}`; `LineRoundTrip` and `FormattedLine` state what it keeps |
| TextMode.Serialise | script/main.js:192-197 | no entries give the empty text, and the text of writable entries splits back into one line per entry |
| TextMode.FormattedLines | script/main.js:193-196 | no line written for writable entries holds a line feed or is blank |
| TextMode.FormatLines | script/main.js:193-195 | one line per entry |
| TextMode.ParseLine | script/main.js:203-208 | a parsed line has a weight of at least 1 and trimmed text and tags without `\|`; a line without `\|` is all text, with weight 1 and no tags |
| TextMode.ParseLineDefaults | script/main.js:203-208 | the text is the trimmed first part; the weight is read from the trimmed second part, 1 when it is missing, empty or zero; the tags are the trimmed third part, empty when it is missing |
| TextMode.ParseText | script/main.js:200-209 | one entry per non-blank line |
| TextMode.DecimalIsTrimmed | script/main.js:194 | a weight written out has no surrounding space, no `\|` and no line feed |
| TextMode.FormatPieces | script/main.js:194 | splitting a formatted line at `\|` gives its three fields with the padding spaces |
| TextMode.LineRoundTrip | script/main.js:192-208 | a formatted line, trimmed, parses back to its entry |
| TextMode.FormattedLine | script/main.js:194 | a formatted line holds no line feed and is never blank |
| TextMode.RoundTrip | script/main.js:192-215 | writing the entries out and reading them back gives them back, when every weight is positive and texts and tags are trimmed and free of `\|` and line feeds |
| TextMode.ParsedWritable | script/main.js:200-215 | whatever text mode reads survives another round: parsing, writing and parsing again gives the same entries |
| Strings.Trim | script/main.js:201 | `trim()` leaves a string with no surrounding whitespace |
| Strings.TrimOfTrimmed | script/main.js:201 | trimming a trimmed string changes nothing |
| Strings.TrimKeepsNonSpace | script/main.js:201 | trimming keeps a string that has a non-space character non-empty |
| Strings.Split | script/main.js:203 | `split` gives at least one piece and no piece holds the separator |
| Strings.SplitJoin | script/main.js:196 | splitting undoes joining when no piece holds the separator |
| Strings.JoinSplit | script/main.js:196 | joining undoes splitting |
| Strings.SplitOfTrimmed | script/main.js:201-203 | trimming the line before splitting it at `\|` does not change the trimmed pieces |
| Strings.TrimmedLinesIgnoreCr | script/main.js:151-154 | once the lines are trimmed, splitting at `/\r?\n/` gives what splitting at line feeds gives |
| Strings.NonBlankLines | script/main.js:201 | the lines kept are non-empty and trimmed |
| Strings.NonBlankLinesSpec | script/main.js:151-154 | the lines kept are exactly the non-blank lines of the text, trimmed, each once and in order |
| Strings.NonBlankLinesFirst | script/main.js:151-159 | the first line kept is the first non-blank line of the text, trimmed |
| Strings.TrimFilter | script/main.js:153-154 | `.map(trim).filter(Boolean)` keeps no more strings than it is given, each non-empty and trimmed |
| Strings.TrimFilterSpec | script/main.js:153-154 | the strings kept are exactly the trimmed non-blank ones, each once and in order |
| Strings.TrimFilterConcat | script/main.js:153-154 | filtering two lists in turn is filtering their concatenation |
| Strings.TrimFilterStep | script/main.js:153-154 | one more string is kept, trimmed, exactly when it is not blank |
| Strings.SplitLines | script/main.js:152 | `split(/\r?\n/)` gives at least one line |
| Strings.Join | script/main.js:196 | defines `join`; `SplitJoin` and `JoinSplit` state that it is undone by `split` |
| Strings.Decimal | script/main.js:194 | `${n}` for a natural is a non-empty string of digits |
| Strings.NonBlankLinesAreLines | script/main.js:151-154 | no line kept holds a line feed |
| Strings.SplitKeepsAbsent | script/main.js:203 | splitting brings in no character |
| Strings.DecimalRoundTrip | script/main.js:194-206 | a natural written in decimal reads back as itself |
| Reals.Scale | script/main.js:512 | a total scaled by a fraction in `[0, 1)` lies in `[0, total]`, below a positive total |

## Left out

- The page itself: building the table, drag highlighting, the canvas drawing (`drawWheel`), the
  tag toggle elements, the winner modal, the settings dialog, sounds and toasts. `drawWheel` lays
  out the sectors in the opposite direction from the pointer walk; the model does not relate the
  drawn sector to the pointer.
- Persistence: `localStorage`, JSON import and export, saved presets and the settings merge of
  `loadWheelData`. Only the default table of `loadWheelData` is kept (`EntryList.constructor`).
- The follow-up calls after each edit (`rebuildTable`, `updateTagFilters`, `saveState`,
  `drawWheel`) are not chained; each state change is modelled on its own.
- Floating point: angles, positions and times are exact reals, and the model says nothing about
  IEEE rounding, `Math.PI` or `Infinity` beyond the empty-wheel case of `getPointerWheelEntry`.
- `Math.random()` and the animation timestamps are parameters. The uniformity of the shuffle and
  of the draw is not proved; `Draw.FirstReachingInterval` states the interval each entry owns.
- Entries.NumberOrOne: reads only decimal naturals. JavaScript's unary plus also accepts signs,
  fractions, exponents, hexadecimal and surrounding space; those inputs are read as 1 here.
  Weights are natural numbers throughout.
- Strings.Decimal: `${e.weight}` is written as a plain decimal numeral; JavaScript switches to
  exponent notation from 1e21 on.
- Spin.PointerEntry: `getPointerWheelEntry` only logs the entry it finds and returns nothing; the
  model returns the entry.
- Spin.Spinner.Spin: requires a positive spin duration, and states where the wheel stops only for
  a spin strength of at least 0. A negative setting can make the start angle negative, and the
  landing property then no longer holds as stated.
- Spin.Spinner.Frame: the animation loop (`requestAnimationFrame`) is not modelled; each call is
  one frame at time `t`, and a first frame at time 0 is treated as unset, as `!startTime` does.
- EntryEdits.EntryList.Paste: a paste without a line feed keeps the browser's default behaviour,
  which is not modelled.
- A tag string with an empty component, such as `"a,"`, keeps the row active whatever is enabled,
  because the code accepts an empty component (`t == ""`). The model follows the code here, not a
  reading in which only rows without tags are always active.

## Findings

| source | as written | input that shows it | evidently intended | confidence | as-written member | corrected member |
|---|---|---|---|---|---|---|
| script/main.js:449-466 | `spin` sets `spinning = true` before drawing; with no active entry `pullWeightedWheelEntry` returns `undefined`, reading `winner["weight"]` throws, and `spinning` is never cleared, so the wheel can never be spun again | one row `Entry("X", 1, "a")` with no tag enabled (`Spin.NothingActiveExample`), then a click on the wheel | refuse the spin and leave the wheel free when no entry is active | not executed | Spin.Spinner.Spin | Spin.Spinner.SpinOrRefuse |
