# School cleaning inspection: a verified model of the administration core

This project models the server core of a school cleaning-inspection
application. Inspectors walk the cleaning areas of a school every working
day and file reports against an area. A report is usually one of a
curated list of canned messages (the *Defaults*), and each carries a
"repeated" streak count. Administrators run the application through
these pieces:

- the settings router: classes, areas and Defaults. Areas and Defaults are
  kept in an administrator-chosen order through a UNIQUE `rank` column,
  which single-step moves and a bulk rank update maintain;
- the drag-and-drop reorder of Defaults on the settings page, which sends
  the new order to the bulk rank update;
- the inspection page's list of Defaults for one area. Each Default is
  marked with whether the area already got that message today, and with
  the streak the message would get if it were filed again. The streak
  comes from the last working day (`getLastWorkday`);
- report submission and deletion;
- the home page's reports of one date grouped by class;
- the analytics router, which counts the reports of a date range per area
  (or per class) and per Default.

The model is written in Dafny. The modules are:

- `Schema`: the tables and their declared constraints.
- `Ranking`: the ascending order of a map's values.
- `RankedTables`: the rank protocol shared by Areas and Defaults, and the
  class `RankedTable` whose methods change a table in place through
  transactions that the unique index checks write by write.
- `Settings`, `DragReorder`, `Evaluate`, `Reports`, `Home`, `Analytics`:
  one module per router or page.
- `Validators`: the input schemas and JavaScript `parseInt`.
- `Calendar`: civil dates and the last working day.

State that the source changes in place is modelled as classes:

- `RankedTables.RankedTable` stands for an Area or Default table.
- `Reports.ReportTable` stands for the Report table.

Their methods are proved against specification functions. Queries are
functions, and the loop that builds the analytics result is a method
with loop invariants.

## Model

| member | source | states |
|---|---|---|
| Ranking.AscendingOrderUnique | src/server/api/routers/admin/settings.ts:181-192 | the list of keys by strictly ascending value is unique, so "ordered by rank" determines the listing |
| RankedTables.Order | src/server/api/routers/admin/settings.ts:181-192 | the ids by ascending rank: every row once, ranks strictly increasing |
| RankedTables.Listing | src/server/api/routers/admin/settings.ts:181-192 | `findMany` ordered by rank returns as many rows as the table holds, each with its own columns, by strictly ascending rank |
| RankedTables.Listed | src/server/api/routers/admin/settings.ts:181-192 | every row of the table appears in the listing |
| RankedTables.NewRank | src/server/api/routers/admin/settings.ts:193-214 | a created row's rank is 1 on an empty table, otherwise one more than the largest rank, so it is above every rank |
| RankedTables.NearestBelow | src/server/api/routers/admin/settings.ts:224-264 | the row with the largest rank below the given one, or none exactly when no rank is smaller |
| RankedTables.NearestAbove | src/server/api/routers/admin/settings.ts:265-305 | the row with the smallest rank above the given one, or none exactly when no rank is larger |
| RankedTables.WriteKeepsRanksUnique | src/server/db/schema.ts:51 | a rank write the unique index accepts keeps ranks distinct and changes only that row's rank |
| RankedTables.WritesVerbatim | src/server/api/routers/admin/settings.ts:306-320 | a committed transaction of rank writes has exactly the effect of the writes applied in order; rows and other columns are kept |
| RankedTables.ApplyWrites | src/server/api/routers/admin/settings.ts:312-319 | the `$transaction` of rank updates: the writes in order, all-or-nothing, the first write the UNIQUE index refuses aborting it; its effect is stated by `WritesVerbatim`, `StepwiseCommit` and `WriteOntoTakenRank` |
| RankedTables.NoOpWrite | src/server/db/schema.ts:51 | writing the rank a row already holds is accepted and changes nothing |
| RankedTables.SwapRanksKeeps | src/server/api/routers/admin/settings.ts:241-258 | exchanging two rows' ranks keeps ranks unique, the rows, their data and the set of rank values |
| RankedTables.SwapThroughSentinel | src/server/api/routers/admin/settings.ts:241-258 | the three-write move through rank -1 commits exactly when no row holds -1, and then exchanges the two ranks; otherwise the unique index rejects it |
| RankedTables.PredecessorInOrder | src/server/api/routers/admin/settings.ts:224-264 | the row found "just above" is the row listed immediately before; none exactly for the first row |
| RankedTables.SuccessorInOrder | src/server/api/routers/admin/settings.ts:265-305 | the row found "just below" is the row listed immediately after; none exactly for the last row |
| RankedTables.SwapNeighboursOrder | src/server/api/routers/admin/settings.ts:224-305 | exchanging the ranks of two neighbours in the listing exchanges their positions and nothing else |
| RankedTables.MoveUpAtPosition | src/server/api/routers/admin/settings.ts:92-128 | moving up the first row fails "already at top"; with a row holding -1 it fails on the unique index; otherwise the row trades places with its predecessor and rows, data and rank values are kept |
| RankedTables.MoveDownAtPosition | src/server/api/routers/admin/settings.ts:129-165 | the mirror image for moving down: "already at bottom" for the last row, otherwise a trade with its successor |
| RankedTables.PositionOf | src/server/api/routers/admin/settings.ts:181-192 | every existing row has a position in the listing |
| RankedTables.MoveUpCommitted | src/server/api/routers/admin/settings.ts:224-264 | a committed move up exchanged the row's rank with the nearest smaller rank, and no row held -1 |
| RankedTables.MoveUpOutcome | src/server/api/routers/admin/settings.ts:92-128 | the outcome of a move up, for Areas and likewise for Defaults (settings.ts:224-264): not found, already at the top, the sentinel clash, or the swap with the nearest smaller rank; stated by `MoveUpAtPosition` and `MoveUpCommitted` |
| RankedTables.MoveDownOutcome | src/server/api/routers/admin/settings.ts:129-165 | the mirror image for a move down, for Areas and likewise for Defaults (settings.ts:265-305); stated by `MoveDownAtPosition` and `MoveDownCommitted` |
| RankedTables.MoveDownCommitted | src/server/api/routers/admin/settings.ts:265-305 | a committed move down exchanged the row's rank with the nearest larger rank, and no row held -1 |
| RankedTables.MoveUpThenDown | src/server/api/routers/admin/settings.ts:92-165 | a committed move up is undone exactly by a move down of the same row |
| RankedTables.MoveDownThenUp | src/server/api/routers/admin/settings.ts:92-165 | a committed move down is undone exactly by a move up of the same row |
| RankedTables.OverrideAppend | src/server/api/routers/admin/settings.ts:306-320 | writing two lists of ranks in turn is writing their concatenation |
| RankedTables.OverrideAt | src/server/api/routers/admin/settings.ts:306-320 | when no id is written twice, each written row takes its rank and every other row is untouched |
| RankedTables.StepwiseCommit | src/server/api/routers/admin/settings.ts:306-320 | a transaction whose every write is accepted in turn commits with the verbatim effect |
| RankedTables.NoOpPrefix | src/server/api/routers/admin/settings.ts:306-320 | leading writes of ranks that rows already hold are accepted and change nothing |
| RankedTables.WriteOntoTakenRank | src/server/db/schema.ts:51 | a write of a rank another row holds aborts the transaction with a unique violation |
| RankedTables.Below | src/server/api/routers/admin/settings.ts:306-320 | a value below every element of a list |
| RankedTables.ParkingBase | src/server/api/routers/admin/settings.ts:306-320 | a rank below every rank held and every rank requested |
| RankedTables.Parking | src/server/api/routers/admin/settings.ts:306-320 | the parking writes send the i-th listed row to `base - i` |
| RankedTables.ParkStep | src/server/api/routers/admin/settings.ts:306-320 | every parking write of the staged update is accepted |
| RankedTables.ParkedState | src/server/api/routers/admin/settings.ts:306-320 | after parking, every listed row holds its parking rank and the others are untouched |
| RankedTables.FinalState | src/server/api/routers/admin/settings.ts:306-320 | midway through the final phase the first rows hold their new ranks and the rest stay parked |
| RankedTables.FinalStep | src/server/api/routers/admin/settings.ts:306-320 | every final write of the staged update is accepted |
| RankedTables.StagedStepsAccepted | src/server/api/routers/admin/settings.ts:306-320 | every write of the two-phase transaction is accepted |
| RankedTables.ParkingLeavesNoTrace | src/server/api/routers/admin/settings.ts:306-320 | the parking ranks leave no trace once the requested ranks are written |
| RankedTables.StagedCommits | src/server/api/routers/admin/settings.ts:306-320 | the two-phase rank update commits every valid new ranking with exactly the requested ranks |
| RankedTables.AppendSortsLast | src/server/api/routers/admin/settings.ts:193-214 | a created row is listed last and the existing rows keep their order and columns |
| RankedTables.AppendKeepsUnique | src/server/api/routers/admin/settings.ts:193-214 | a created row that collides with no row on a UNIQUE column keeps ranks and those columns unique |
| RankedTables.RemoveAt | src/server/api/routers/admin/settings.ts:215-223 | a list without one position: the elements before it stay, the ones after shift by one |
| RankedTables.DeleteKeepsOrder | src/server/api/routers/admin/settings.ts:215-223 | a delete removes exactly that row from the listing and does not renumber the others |
| RankedTables.Staircase | src/server/api/routers/admin/settings.ts:193-214 | N strictly increasing ranks within 1..N are exactly 1..N |
| RankedTables.StairBelow | src/server/api/routers/admin/settings.ts:193-214 | the i-th of strictly increasing ranks that are at least 1 is at least i + 1 |
| RankedTables.StairAbove | src/server/api/routers/admin/settings.ts:193-214 | the i-th of strictly increasing ranks that are at most N is at most i + 1 |
| RankedTables.DensePositions | src/server/api/routers/admin/settings.ts:193-214 | with ranks 1..N, the row listed at position p has rank p + 1 |
| RankedTables.CreateKeepsDense | src/server/api/routers/admin/settings.ts:193-214 | on ranks 1..N a create assigns N + 1 and keeps the ranks 1..N+1 |
| RankedTables.MoveKeepsDense | src/server/api/routers/admin/settings.ts:92-165 | a committed move keeps ranks 1..N |
| RankedTables.DenseMovesCommit | src/server/api/routers/admin/settings.ts:92-165 | on ranks 1..N every move commits except at the two ends of the list |
| RankedTables.DeleteLeavesGap | src/server/api/routers/admin/settings.ts:215-223 | a delete does not renumber, so ranks 1..N are not kept |
| RankedTables.RankedTable.Create | src/server/api/routers/admin/settings.ts:193-214 | an insert colliding on a UNIQUE column fails and changes nothing; otherwise the row is added under the next id at the next rank |
| RankedTables.RankedTable.Delete | src/server/api/routers/admin/settings.ts:83-91 | removes exactly that row, or fails "not found" and changes nothing |
| RankedTables.RankedTable.Transaction | src/server/api/routers/admin/settings.ts:166-180 | a `$transaction` of rank writes, here `areaUpdateRanks` and equally `defaultUpdateRanks` (settings.ts:306-320) and the three-write moves: the writes run in order against the unique index; the table becomes their combined effect, or stays as it was on the first rejection |
| RankedTables.RankedTable.MoveUp | src/server/api/routers/admin/settings.ts:92-128 | the table takes the outcome of the move up, or stays as it was with the move's error |
| RankedTables.RankedTable.MoveDown | src/server/api/routers/admin/settings.ts:129-165 | the table takes the outcome of the move down, or stays as it was with the move's error |
| RankedTables.RankedTable.UpdateRanksStaged | src/server/api/routers/admin/settings.ts:306-320 | the corrected bulk update: every valid new ranking commits with exactly the requested ranks |
| Settings.AreaViews | src/server/api/routers/admin/settings.ts:43-60 | each listed Area carries its id, rank, name and its class's id and name |
| Settings.AreaGetAll | src/server/api/routers/admin/settings.ts:43-60 | the Areas by ascending rank with the selected columns, or a failure when an Area's required `class` relation names no Class; stated by `AreaListing` |
| Settings.AreaListing | src/server/api/routers/admin/settings.ts:43-60 | `areaGetAll` fails exactly when some Area's `classId` names no Class; otherwise it lists every Area once by strictly ascending rank, each with its class's id and name |
| Settings.DefaultViews | src/server/api/routers/admin/settings.ts:181-192 | each listed Default carries its id, shorthand and text |
| Settings.DefaultGetAll | src/server/api/routers/admin/settings.ts:181-192 | the settings list has one entry per Default |
| Settings.DefaultListing | src/server/api/routers/admin/settings.ts:181-192 | `defaultGetAll` lists every Default in rank order with its own shorthand and text |
| Settings.AreaCreate | src/server/api/routers/admin/settings.ts:61-82 | the schema, `parseInt` and unique-name failures change nothing; otherwise the Area is appended under the next id at the next rank with the parsed class id, whether or not a Class has that id |
| Settings.DefaultCreate | src/server/api/routers/admin/settings.ts:193-214 | a schema or unique failure changes nothing; success appends the Default under the next id at the next rank |
| Settings.CreatedDefaultAt | src/server/api/routers/admin/settings.ts:193-214 | after a create, every position of the settings list is unchanged except the new last one |
| Settings.CreatedDefaultListedLast | src/server/api/routers/admin/settings.ts:193-214 | a created Default is listed last, after the earlier Defaults in their old order |
| DragReorder.FindIndex | src/app/admin/settings/_tabs/default.tsx:119-120 | `findIndex`: the first position with that id, or -1 exactly when none has it |
| DragReorder.ArrayMove | src/app/admin/settings/_tabs/default.tsx:122 | `arrayMove` keeps the length, and position i holds the element from the matching old position |
| DragReorder.ArrayMoveSpec | src/app/admin/settings/_tabs/default.tsx:122 | the moved element lands at the target, the others keep their relative order, and the result is a permutation |
| DragReorder.RankUpdates | src/app/admin/settings/_tabs/default.tsx:126-129 | the update list gives the i-th shown item the rank i + 1 |
| DragReorder.Ids | src/app/admin/settings/_tabs/default.tsx:126-129 | the ids of a list, position by position |
| DragReorder.UpdatesSpec | src/app/admin/settings/_tabs/default.tsx:126-129 | the updates name exactly the shown items in display order, with ranks 1..N |
| DragReorder.DragEndSpec | src/app/admin/settings/_tabs/default.tsx:116-134 | no drop target or a drop on itself does nothing; otherwise the dragged item moves to the target's position, a permutation, and ranks 1..N of the new order are sent |
| DragReorder.DragEnd | src/app/admin/settings/_tabs/default.tsx:115-131 | `handleDragEnd` before the network call: the moved list and the rank updates, or nothing; stated by `DragEndSpec` |
| DragReorder.ListedIds | src/server/api/routers/admin/settings.ts:181-192 | the settings list names each Default once, in listing order |
| DragReorder.DenseRewriteRejected | src/server/api/routers/admin/settings.ts:306-320 | on ranks 1..N, ranks 1..N written in any other order are refused at the first changed position |
| DragReorder.RewriteIsValid | src/server/api/routers/admin/settings.ts:306-320 | ranks 1..N for a list naming every row once are a valid new ranking |
| DragReorder.RewriteRows | src/server/api/routers/admin/settings.ts:306-320 | after those writes the row at position i has rank i + 1 and its data |
| DragReorder.RewriteListsInOrder | src/server/api/routers/admin/settings.ts:306-320 | after those writes the rows are listed exactly in the written order |
| DragReorder.MovedIdsOf | src/app/admin/settings/_tabs/default.tsx:122 | the ids of a moved list, position by position |
| DragReorder.SettingsListShows | src/server/api/routers/admin/settings.ts:181-192 | the settings list shows the Defaults in listing order |
| DragReorder.MovedRows | src/app/admin/settings/_tabs/default.tsx:122 | the ids of a moved settings list, position by position |
| DragReorder.VerbatimRejectedOn | src/server/api/routers/admin/settings.ts:306-320 | written verbatim, the updates of any real move are refused on ranks 1..N |
| DragReorder.VerbatimUpdateRejected | src/server/api/routers/admin/settings.ts:306-320 | written verbatim, the updates of any real drag on the settings page are refused on ranks 1..N |
| DragReorder.TwoDefaultsSwapRejected | src/app/admin/settings/_tabs/default.tsx:116-134 | dragging the second of two Defaults onto the first sends updates that the unique index refuses |
| DragReorder.StagedMoveOn | src/app/admin/settings/_tabs/default.tsx:116-134 | the updates of any move are a valid new ranking, and once written the rows are listed in the moved order |
| DragReorder.StagedMoveListing | src/app/admin/settings/_tabs/default.tsx:116-134 | after the corrected update commits, the server lists the Defaults in exactly the order the page shows |
| DragReorder.HandleDragEndAsWritten | src/app/admin/settings/_tabs/default.tsx:116-134 | as the source is written: the page shows the moved list; the table becomes the verbatim transaction's result when it commits and is left unchanged when it is refused |
| DragReorder.HandleDragEnd | src/app/admin/settings/_tabs/default.tsx:116-134 | corrected: every drop commits, and the stored order equals the shown order |
| Evaluate.ReportsOn | src/server/api/routers/admin/evaluate.ts:25-37 | the reports of one date and area, and only those |
| Evaluate.ReportsOnAppend | src/server/api/routers/admin/evaluate.ts:32-37 | the query keeps storage order: a later report comes after the earlier matches, and is listed exactly when it matches |
| Evaluate.FirstWithText | src/server/api/routers/admin/evaluate.ts:42-46 | `find` by text: the first report with that text, or -1 exactly when none has it |
| Evaluate.StatusList | src/server/api/routers/admin/evaluate.ts:39-53 | one entry per Default, in order, each computed from that Default |
| Evaluate.DefaultGetAll | src/server/api/routers/admin/evaluate.ts:8-54 | the Defaults by rank, each with `reportedToday` and `repeatedToday` for today and the last working day; stated by `ListShape`, `EntryStatus` and `ReferenceDate` |
| Evaluate.ReferenceDate | src/server/api/routers/admin/evaluate.ts:18-24 | the streaks come from the last working day before today |
| Evaluate.StatusFields | src/server/api/routers/admin/evaluate.ts:39-53 | `reportedToday` holds exactly when a report of today has the text; `repeatedToday` is the first reference report's `repeated` plus 1, or 0 |
| Evaluate.ListShape | src/server/api/routers/admin/evaluate.ts:13-17 | one entry per Default, by strictly ascending rank, with its own columns |
| Evaluate.EntryStatus | src/server/api/routers/admin/evaluate.ts:8-54 | for the area, the two computed fields of each entry as above, in terms of the Report table |
| Evaluate.StatusesAt | src/server/api/routers/admin/evaluate.ts:8-54 | there is one entry per Default, and each entry is the status of a Default row against the reports of the date and of the last working day |
| Evaluate.ReportedOn | src/server/api/routers/admin/evaluate.ts:32-43 | the report query of the area and date holds a text exactly when the Report table has such a report |
| Evaluate.OfArea | src/server/api/routers/admin/evaluate.ts:25-37 | the reports of one area, and only those |
| Evaluate.ReportsOnOfArea | src/server/api/routers/admin/evaluate.ts:25-37 | keeping only the area's reports does not change the query |
| Evaluate.OtherAreasIrrelevant | src/server/api/routers/admin/evaluate.ts:8-54 | reports of other areas never affect the list |
| Evaluate.Monday | src/server/api/routers/admin/evaluate.ts:18-24 | on Monday 2024-06-10 the streaks come from Friday 2024-06-07 |
| Evaluate.StreakStatuses | src/server/api/routers/admin/evaluate.ts:45-46 | a message with `repeated` 2 on the reference day has the streak 3 |
| Evaluate.StreakExample | src/server/api/routers/admin/evaluate.ts:8-54 | the same through the whole query on Monday 2024-06-10 |
| Evaluate.NoStreakStatuses | src/server/api/routers/admin/evaluate.ts:42-46 | a message given on neither day is unreported with streak 0 |
| Evaluate.NoStreakExample | src/server/api/routers/admin/evaluate.ts:8-54 | the same through the whole query |
| Reports.SubmittedInsert | src/server/api/routers/admin/evaluate.ts:77-86 | an accepted form inserts a `repeated` count from 1 to 30 |
| Reports.SubmittedFields | src/server/api/routers/admin/evaluate.ts:74-88 | a stored submission keeps the form's fields verbatim except `repeated`, which is `parseInt`'s value in 1..30 |
| Reports.SubmittedLeadingZero | src/server/api/routers/admin/evaluate.ts:81 | the repeated text "07" is stored as 7 |
| Reports.IndexOfId | src/server/api/routers/admin/home.ts:40-44 | the position of the report with that id, or -1 exactly when there is none |
| Reports.WithoutOnlyThatReport | src/server/api/routers/admin/home.ts:35-45 | deleting by id drops exactly that report and keeps the others in order |
| Reports.ReportTable.SubmitReport | src/server/api/routers/admin/evaluate.ts:74-88 | a refused form changes nothing; an accepted one is appended under the next id, whether or not its area exists |
| Reports.ReportTable.DeleteOne | src/server/api/routers/admin/home.ts:35-45 | an id below 1 is refused and an unknown id is "not found", each changing nothing; otherwise exactly that report is removed |
| Ranking.AscendingKeys | src/server/api/routers/admin/home.ts:10-14 | `findMany` ordered by id: every key of the table once, strictly ascending |
| Home.ReportsOfClass | src/server/api/routers/admin/home.ts:17-27 | exactly the reports of the date whose Area belongs to the class, each with its Area row |
| Home.Entries | src/server/api/routers/admin/home.ts:15-32 | one entry per listed class id, with its name and its reports |
| Home.GetReportsSortedByClass | src/server/api/routers/admin/home.ts:5-34 | refused exactly when the date is not of the YYYY-MM-DD shape |
| Home.OnePerClass | src/server/api/routers/admin/home.ts:10-33 | exactly one entry per class, by strictly ascending id, with the class's name |
| Home.EntriesSound | src/server/api/routers/admin/home.ts:17-27 | every listed report is of that date and of an Area of that class, and carries the Area's row |
| Home.EntriesComplete | src/server/api/routers/admin/home.ts:17-27 | every report of the date is listed under its Area's class and under no other |
| Home.ListedUnderItsClass | src/server/api/routers/admin/home.ts:17-27 | a class's query lists a report of the date exactly when its Area is in that class |
| Home.EmptyEntry | src/server/api/routers/admin/home.ts:15-32 | a class gets no reports exactly when none of its Areas has a report on that date |
| Home.EmptyForClass | src/server/api/routers/admin/home.ts:15-32 | the nested query for one class is empty exactly when no report of the date belongs to an Area of that class |
| Validators.DigitValue | src/lib/schema/admin.ts:42 | a digit's value is below 16, and below 10 exactly for decimal digits |
| Validators.TrimStart | src/lib/schema/admin.ts:42 | `parseInt` drops the leading white space and nothing else |
| Validators.ParseInt | src/lib/schema/admin.ts:42 | JavaScript `parseInt` with no radix, `None` for `NaN`; stated by `ParseIntOfNumeral`, `ParseIntSkipsWhitespace` and the examples below |
| Validators.DigitRun | src/lib/schema/admin.ts:42 | the longest run of digits at the start |
| Validators.RadixSplit | src/lib/schema/admin.ts:42 | the radix is 10 or, after `0x`/`0X`, 16 |
| Validators.DecimalString | src/lib/utils.ts:33-35 | `String(n)` of a natural number: digits only, no leading zero |
| Validators.DecimalValue | src/lib/utils.ts:33-35 | reading a numeral back gives the number |
| Validators.DigitRunOfNumeral | src/lib/schema/admin.ts:42 | the digit run of a numeral stops where the numeral ends |
| Validators.UnsignedNumeral | src/lib/schema/admin.ts:42 | a numeral followed by other text reads as its value |
| Validators.MinusSign | src/lib/schema/admin.ts:42 | a leading '-' negates the number |
| Validators.NothingToTrim | src/lib/schema/admin.ts:42 | text that starts with no white space is read as it is |
| Validators.NegativeNumeral | src/lib/schema/admin.ts:42 | the numeral of a negative number reads back as that number |
| Validators.ParseIntOfNumeral | src/lib/schema/admin.ts:42 | `parseInt` reads back any integer's numeral, also with trailing text |
| Validators.ParseIntSkipsWhitespace | src/lib/schema/admin.ts:42 | leading white space changes nothing |
| Validators.TrimAll | src/lib/schema/admin.ts:42 | white space before text is trimmed in full |
| Validators.DateFieldIsShape | src/lib/schema/admin.ts:39 | the date rule accepts exactly the YYYY-MM-DD shape; the calendar is not consulted |
| Validators.RepeatedRange | src/lib/schema/admin.ts:41-46 | the numeral of n, with or without trailing text, is accepted exactly when 1 <= n <= 30 |
| Validators.RepeatedOk | src/lib/schema/admin.ts:41-46 | the `repeated` refinement: `parseInt` gives a number from 1 to 30; stated by `RepeatedRange` and the examples below |
| Validators.RepeatedTrailingText | src/lib/schema/admin.ts:41-46 | "7天" is accepted |
| Validators.RepeatedLeadingSpace | src/lib/schema/admin.ts:41-46 | " 07" is accepted |
| Validators.LeadingZero | src/lib/schema/admin.ts:42 | "07" reads as 7 |
| Validators.RepeatedHexAccepted | src/lib/schema/admin.ts:41-46 | "0x1E" reads as 30 and is accepted |
| Validators.RepeatedHexRefused | src/lib/schema/admin.ts:41-46 | "0x1F" reads as 31 and is refused |
| Validators.RepeatedNoDigits | src/lib/schema/admin.ts:41-46 | text without digits, and the empty text, are refused |
| Validators.Paths | src/lib/schema/admin.ts:48-62 | the paths an array of strings holds, item by item |
| Validators.PathArray | src/lib/schema/admin.ts:48-62 | a list of paths serialises to an array of strings |
| Validators.EvidenceRule | src/lib/schema/admin.ts:48-62 | evidence is refused exactly when it parses to something other than an array of strings; unparsable text passes |
| Validators.EvidenceOk | src/lib/schema/admin.ts:49-62 | the evidence refinement on the result of `JSON.parse`; stated by `EvidenceRule` |
| Validators.AcceptedReport | src/lib/schema/admin.ts:38-64 | an accepted submission has a well-shaped date, a text, an area id of at least 1, a repeated count of 1..30, and an optional comment |
| Validators.EvaluateReportOk | src/lib/schema/admin.ts:38-64 | the whole `evaluateReportSchema`; stated by `AcceptedReport` |
| Calendar.DaysInMonth | src/lib/utils.ts:8-38 | a month has 28 to 31 days, and February has 29 exactly in leap years |
| Calendar.WeekdayOf | src/lib/utils.ts:16 | a weekday number 0..6 |
| Calendar.Weekday | src/lib/utils.ts:16 | `getDay`: 0 Sunday .. 6 Saturday |
| Calendar.YearLength | src/lib/utils.ts:20-29 | a year has 366 days exactly when it is a leap year |
| Calendar.MonthLength | src/lib/utils.ts:20-29 | a month starts where the one before ends |
| Calendar.PrevDay | src/lib/utils.ts:20-29 | the day before is a valid date, one day number earlier |
| Calendar.MinusDays | src/lib/utils.ts:20-29 | `setDate(getDate() - k)` is a valid date k days earlier |
| Calendar.Offset | src/lib/utils.ts:18-30 | the step back is 1 to 3 days |
| Calendar.LastWorkdayOffsets | src/lib/utils.ts:18-30 | Sunday steps back 2, Saturday 1, Monday 3, Tuesday to Friday 1 |
| Calendar.LastWorkdayDate | src/lib/utils.ts:16-30 | the date stepped back by the weekday's offset; stated by `LastWorkdayOffsets` and `LastWorkdayIsPreviousWorkday` |
| Calendar.LastWorkdayIsPreviousWorkday | src/lib/utils.ts:8-38 | the result is a Monday-to-Friday 1 to 3 days earlier with only weekend days in between: the latest working day before the input |
| Calendar.WeekdayBack | src/lib/utils.ts:16 | stepping back j days steps the weekday back by j modulo 7 |
| Calendar.Pad2 | src/lib/utils.ts:34-35 | `padStart(2, "0")` gives two digits |
| Calendar.FormatDate | src/lib/utils.ts:33-37 | `${yyyy}-${mm}-${dd}` of a date; stated by `FormatParse` |
| Calendar.ParseDate | src/lib/utils.ts:9-13 | a parsed date is a valid calendar date and its text has the YYYY-MM-DD shape |
| Calendar.LastWorkday | src/lib/utils.ts:8-38 | fails with "Invalid date format. Expected YYYY-MM-DD" exactly when the input names no date |
| Calendar.FourDigitYear | src/lib/utils.ts:33 | a year from 1000 to 9999 is written with four digits |
| Calendar.NumeralLength | src/lib/utils.ts:33 | the length of a numeral |
| Calendar.Pad2Value | src/lib/utils.ts:34-35 | two padded digits read back as their value |
| Calendar.FormatParse | src/lib/utils.ts:33-37 | formatting a date and parsing the text gives the date back |
| Calendar.LastWorkdayOfFormatted | src/lib/utils.ts:8-38 | on a formatted date the result is the formatted last working day |
| Calendar.JuneExamples | src/lib/utils.ts:18-30 | in June 2024, Monday, Saturday and Sunday go back to Friday the 7th, and Wednesday to Tuesday |
| Calendar.RolloverExamples | src/lib/utils.ts:18-30 | 2024-01-01 goes back to 2023-12-29, and 2024-03-01 to the leap day |
| Calendar.TextExample | src/lib/utils.ts:8-38 | "2024-06-10" gives "2024-06-07" |
| Analytics.ViewsOf | src/server/api/routers/admin/analytics.ts:9-15 | the selected columns of the listed Defaults |
| Analytics.GetDefaults | src/server/api/routers/admin/analytics.ts:6-22 | as many entries as Defaults, each a Default with its own text and shorthand, by strictly ascending id |
| Analytics.DefaultListed | src/server/api/routers/admin/analytics.ts:6-22 | every Default appears in the result |
| Analytics.Bucket | src/server/api/routers/admin/analytics.ts:55 | 0 when no Default has the text, otherwise the id of a Default with it |
| Analytics.BucketIsTheDefault | src/server/api/routers/admin/analytics.ts:55 | with unique texts, the bucket is THE Default with the text, and 0 exactly when there is none |
| Analytics.FirstKeys | src/server/api/routers/admin/analytics.ts:57-59 | each key once, exactly the keys that occur |
| Analytics.FirstKeysSnoc | src/server/api/routers/admin/analytics.ts:57-59 | a new key is appended after the old ones |
| Analytics.CountSnoc | src/server/api/routers/admin/analytics.ts:60-64 | one more report adds one to its own pair's count only |
| Analytics.CountedKeyListed | src/server/api/routers/admin/analytics.ts:57-59 | a key that is counted has an entry |
| Analytics.TallyNewKey | src/server/api/routers/admin/analytics.ts:58-59 | a report with a new key appends an entry with its bucket at 1 |
| Analytics.TallyKnownKey | src/server/api/routers/admin/analytics.ts:60-64 | a report with a known key adds one to its bucket, starting a missing bucket at 1 |
| Analytics.MapSumRemove | src/server/api/routers/admin/analytics.ts:60-64 | the sum of a map's counts does not depend on the order of the keys |
| Analytics.MapSumUpdate | src/server/api/routers/admin/analytics.ts:60-64 | setting one bucket changes the sum by the difference |
| Analytics.TotalSnoc | src/server/api/routers/admin/analytics.ts:58-59 | a new entry adds its counts to the total |
| Analytics.TotalUpdate | src/server/api/routers/admin/analytics.ts:60-64 | changing one entry changes the total by the difference |
| Analytics.StepNewKey | src/server/api/routers/admin/analytics.ts:58-59 | the loop body's push keeps the tally and adds one to the total |
| Analytics.StepKnownKey | src/server/api/routers/admin/analytics.ts:60-64 | the loop body's increment keeps the tally and adds one to the total |
| Analytics.Tally | src/server/api/routers/admin/analytics.ts:52-65 | one entry per key in first-occurrence order, each bucket's exact count, and counts adding up to the number of reports |
| Analytics.FindKey | src/server/api/routers/admin/analytics.ts:57 | `areaMap.find(entry => entry.key === key)`: an entry with that key (keys are distinct), or -1 exactly when none has it |
| Analytics.TalliesUnique | src/server/api/routers/admin/analytics.ts:52-65 | the counting specification determines the entries |
| Analytics.FirstAt | src/server/api/routers/admin/analytics.ts:57-59 | the first position of a key, or -1 exactly when it does not occur |
| Analytics.FirstAtSnoc | src/server/api/routers/admin/analytics.ts:57-59 | one more report keeps every earlier first position |
| Analytics.FirstKeysInOrder | src/server/api/routers/admin/analytics.ts:57-59 | the entries come in the order in which their keys first occur |
| Analytics.FirstKeysInOrderStep | src/server/api/routers/admin/analytics.ts:57-59 | that order is kept when one more report is counted |
| Analytics.InRange | src/server/api/routers/admin/analytics.ts:30-36 | exactly the reports dated from the start to the end date, as text comparison orders them |
| Analytics.AreaItems | src/server/api/routers/admin/analytics.ts:53-55 | each report's area name and bucket |
| Analytics.ClassItems | src/server/api/routers/admin/analytics.ts:102-104 | each report's class name and bucket |
| Analytics.ReportsInRangeByArea | src/server/api/routers/admin/analytics.ts:23-67 | refused exactly for a malformed date; fails exactly when an in-range report names no Area; otherwise the in-range reports counted per area name and bucket, totalling their number |
| Analytics.ReportsInRangeByClass | src/server/api/routers/admin/analytics.ts:68-115 | refused exactly for a malformed date; fails exactly when an in-range report names no Area or its Area names no Class; otherwise the in-range reports counted per class name and bucket, totalling their number |
| Analytics.OneEntryPerArea | src/server/api/routers/admin/analytics.ts:57-59 | with unique area names, an area has an entry exactly when one of its reports is counted |
| Analytics.OneEntryPerClass | src/server/api/routers/admin/analytics.ts:105-107 | with unique class names, a class has an entry exactly when a report of one of its Areas is counted |

## Left out

- The pages and components are not modelled: rendering, forms, toasts, query invalidation and the optimistic `setItems`, which appears only as the `shown` result of the drag handler.
- Object storage is not part of this model: presigned URLs, the bucket check in `classCreate`, and the evidence upload. Neither are the zip export, the printable pages, the environment, the database clients or authentication.
- Class and account operations (`classGetAll`, `classCreate`, `classDelete`, `account*`) are outside the modelled core. Their schemas are modelled only where a core operation uses them (`ClassCreateOk`). Neither is the public view router.
- Concurrency is not modelled. Each procedure runs alone, and every transaction is atomic.
- The current date is a parameter (`today` in `Evaluate.DefaultGetAll`): the clock, the server's time zone and `getFullYear`/`getMonth` local-time effects are not modelled.
- `JSON.parse` is a parameter of the evidence rule. The JSON grammar is not modelled.
- `Calendar.ParseDate`: `new Date(input)` in JavaScript also accepts texts other than YYYY-MM-DD. The model accepts only that shape and names a date only when the calendar has it. Years outside 1000..9999 are formatted without zero padding (as `getFullYear` is), and the round trip is proved only for four-digit years.
- `Validators.ParseInt`: numbers are exact integers. The rounding of numerals longer than 2^53 and the 32-bit overflow of the Int columns are not modelled.
- `Analytics.GetDefaults`: the query has no `orderBy`. The model takes storage order to be ascending id, which holds for rows created by AUTOINCREMENT.
- `Analytics.InRange` compares dates as sequences of characters. This is the order SQLite gives UTF-8 text, since UTF-8 byte order equals code-point order.
- `DragReorder.DragEnd`: a drop whose active or target id is not in the list is treated as no drop. In the source, `arrayMove` would receive -1; both ids always come from the list itself.
- `Settings.AreaGetAll` fails with `MissingClass` when an Area's `classId` names no Class. The schema declares no database-level foreign key, so `Settings.AreaCreate` can store such an Area, and the `class` relation the query selects is required. The model does not distinguish how the query fails.
- `Analytics.ReportsInRangeByArea` and `Analytics.ReportsInRangeByClass` report a missing Area or Class of an in-range report as one error, `MissingRelation`. The schema declares these relations without a database-level foreign key, so such rows can exist. The model does not distinguish how the query fails (a null dereference or the ORM's refusal of a missing required relation).
- `Evaluate.DefaultGetAll`, `Validators.ReportForm` and `Reports.ReportTable.DeleteOne` take `areaId` and `reportId` as integers. The input schemas (`z.number()` at src/server/api/routers/admin/evaluate.ts:10, `z.number().min(1)` at src/lib/schema/admin.ts:47 and src/server/api/routers/admin/home.ts:37) also accept fractions such as 1.5, which the database then refuses for an Int column; that refusal is not modelled.
- Cascading deletes are not modelled. Deleting an Area, Default or Class does not touch the rows that refer to it.
- The `createdAt`/`updatedAt` timestamps are not modelled.
- `Settings.AreaCreate` and `Settings.DefaultCreate` model the unique-column rejection by a clash relation on the table class rather than by named columns.
- The analytics router is modelled as written. The application's root router does not register it, so its procedures are not reachable from the client.
- Ranks are not kept as 1..N. Deleting a row leaves a gap (`RankedTables.DeleteLeavesGap`), so this density is modelled as a property (`DenseRanks`) that creates and moves keep and deletes break, not as an invariant.

## Findings

| source | as written | input that shows it | evidently intended | confidence | as-written member | corrected member |
|---|---|---|---|---|---|---|
| src/server/api/routers/admin/settings.ts:306-320 with src/app/admin/settings/_tabs/default.tsx:126-131 | `defaultUpdateRanks` writes the new ranks 1..N one row at a time in a single transaction, and the UNIQUE index on `rank` checks each write as it runs. While the ranks are 1..N (which creates and moves keep and a delete breaks), after any real drag the first changed write asks for a rank that another row still holds, so the whole transaction is refused. | Two Defaults with ranks 1 and 2; drag the second onto the first. The page sends `[{id: 2, rank: 1}, {id: 1, rank: 2}]`, and the first write collides with Default 1, which still holds rank 1. | The reorder commits, and the stored order becomes the order the page shows. | not executed | DragReorder.VerbatimUpdateRejected, DragReorder.TwoDefaultsSwapRejected, DragReorder.HandleDragEndAsWritten | DragReorder.StagedMoveListing, DragReorder.HandleDragEnd, RankedTables.RankedTable.UpdateRanksStaged |
