# Calendar control data rules, modelled in Dafny

This project models the data-shaping rules of the calendar control in
`Calendar/CalendarControl.tsx`. The control reads calendar entries from a
tabular data set of a Power Apps host, which is either a model-driven app or a
canvas app. It turns those entries into resources and events for the calendar
widget and filters the events it shows. This project covers:

- **Field names** (`FieldNames`). A configured `relationship.column` reference
  is rewritten to the alias under which the data set exposes the joined table.
- **Resources** (`Resources`). Every row contributes a resource candidate,
  resolved from a lookup in a model app or from plain text in a canvas app.
  Rows with an empty id are skipped. In a model app the candidates can be
  extended with every record of the resource table. The result is then
  de-duplicated by id and keeps the first occurrence. The table's records
  are an input list.
- **Events** (`Events`). Each row whose name, start and end cells are present
  becomes an event. A cell is present when it is neither null nor the empty
  text, which is JavaScript's truthiness test. The rules for the id fallback,
  the colour and the resource are modelled explicitly. Every other row is
  dropped.
- **Live and saved data** (`CalendarState`). The class `Calendar` holds the
  data the calendar shows, the saved snapshot that filters start from, and the
  displayed date. The filter widget and the navigation actions re-derive the
  live events from the snapshot and never change the snapshot.
- **View configuration** (`Views`):
  - the allowed views;
  - the view shown at start;
  - the work-week day list;
  - the localizer's week-start override.
- **View windows** (`Ranges`). This is the date interval each view covers.
  Dates are day numbers plus milliseconds into the day. Weeks begin on a
  weekday parameter. The month a date falls in is given by its first and last
  day and the length of the next month.
- **Form parameters** (`DateFormat`). A date is formatted as the
  `M/D/YYYY h:m:s` text passed to a form. A reader for that text serves as
  the format's inverse.

`Text` models the JavaScript string operations these rules use:
`indexOf`, `split` and `join` on one character, `toLowerCase`, `trim`,
integer `String(n)` and unary `+`. `Dataset` models the data set's rows,
cells and resolved field keys.

The host's calls are inputs or are left out:
- the data set is a list of rows;
- the resource table's fetched records are a list of string maps;
- the locale's first weekday, the current time (`now`) and the month bounds are parameters.

## Model

| member | source | states |
|---|---|---|
| FieldNames.GetFieldName | Calendar/CalendarControl.tsx:709-718 | a name without '.' or a data set without linking comes back unchanged; a rewritten name still holds a '.'; the full rewrite is stated by GetFieldNameRewritesRelationship |
| FieldNames.FindAlias | Calendar/CalendarControl.tsx:716 | the alias of the first linked entity whose name matches; "" when none matches |
| FieldNames.GetFieldNameRewritesRelationship | Calendar/CalendarControl.tsx:709-718 | a name without '.' or a data set without linking comes back unchanged; otherwise the text before the first '.' is replaced by the alias of the linked entity named by its lower-cased form ("" if none), and the rest from the first '.' on is kept |
| FieldNames.GetFieldNameSegments | Calendar/CalendarControl.tsx:715-717 | when the alias holds no '.', the segments of the result are the alias followed by the input's segments after the first |
| Resources.RowCandidate | Calendar/CalendarControl.tsx:744-766 | a row contributes a candidate exactly when its resolved resource id (the lookup's id in a model app, the column text in a canvas app) is non-empty, and the candidate carries that id; its title is the linked name column's text when the name key holds a '.', else the lookup's name (model app), or the name column's text (canvas app); its table is the lookup's (model app) or none |
| Resources.RowCandidates | Calendar/CalendarControl.tsx:740-767 | at most one candidate per row, none with an empty id |
| Resources.RowCandidatesExact | Calendar/CalendarControl.tsx:740-767 | a candidate is collected exactly when some row contributes it |
| Resources.RowCandidateIds | Calendar/CalendarControl.tsx:749-766 | an id is among the row candidates exactly when some row resolves to it and it is non-empty |
| Resources.FetchedCandidates | Calendar/CalendarControl.tsx:789-801 | one candidate per fetched record, in order: the id column's value and the name column's value (for a linked name, its second '.'-separated segment) |
| Resources.Candidates | Calendar/CalendarControl.tsx:769-771 | the row candidates come first, unchanged; at most one candidate per row and per fetched record; without fetching, no candidate has an empty id |
| Resources.Distinct | Calendar/CalendarControl.tsx:773-783 | never longer than its input, and non-empty when the input is; its ids, titles and order are stated by the three lemmas that follow |
| Resources.DistinctIdsUnique | Calendar/CalendarControl.tsx:773-783 | the de-duplicated ids are pairwise distinct |
| Resources.DistinctIdsExact | Calendar/CalendarControl.tsx:773-783 | an id is in the output exactly when some candidate has it |
| Resources.DistinctFirstSeen | Calendar/CalendarControl.tsx:773-783 | each output title is the title of the first candidate with that id, and the output is in first-occurrence order |
| Resources.DistinctExtends | Calendar/CalendarControl.tsx:769-783 | appending candidates only adds resources after the existing ones, so row-derived titles win over fetched ones |
| Resources.CollectRowCandidates | Calendar/CalendarControl.tsx:740-767 | the row loop collects exactly the row candidates, in row order |
| Resources.AppendAllResources | Calendar/CalendarControl.tsx:788-802 | the fetched candidates are appended after the existing ones |
| Resources.DistinctResources | Calendar/CalendarControl.tsx:773-785 | the loop with a seen-id map yields exactly the first-occurrence de-duplication |
| Resources.GetResources | Calendar/CalendarControl.tsx:731-786 | no resource key gives undefined (None), not an empty list; otherwise the de-duplicated row candidates, followed by the fetched ones in a model app that fetches all |
| Resources.ResourcesOfRows | Calendar/CalendarControl.tsx:736-785 | the resource list has distinct ids; an id is listed exactly when a row resolves to it or a fetched record carries it; the row resources come first, in order |
| Events.EventOf | Calendar/CalendarControl.tsx:814-838 | the id is the configured id column's cell when it is present, else the record id; title, start and end are their columns' cells, all present; a colour exactly when the colour cell is present, and then that cell; a resource only when a resource list exists and the row's resource cell holds a lookup (its id, in a model app) or non-empty text (in a canvas app); no filter tag |
| Events.EventsOf | Calendar/CalendarControl.tsx:810-843 | at most one event per row, none with a filter tag; its length, order and members are stated by the lemmas that follow |
| Events.EventsCount | Calendar/CalendarControl.tsx:810-843 | the number of events is the row count minus the rows dropped because the name, start or end cell is null or empty text |
| Events.EventsAppend | Calendar/CalendarControl.tsx:810-843 | projection distributes over concatenation, so events keep row order |
| Events.EventsExact | Calendar/CalendarControl.tsx:810-843 | an event is emitted exactly when some row with present name, start and end cells projects to it |
| Events.EventsSound | Calendar/CalendarControl.tsx:810-843 | every emitted event is the projection of a row with present name, start and end cells |
| Events.EventsComplete | Calendar/CalendarControl.tsx:810-843 | every row with present name, start and end cells has its projection emitted |
| Events.GetEvents | Calendar/CalendarControl.tsx:805-844 | the loop returns exactly the projection of the rows |
| Events.EventResourcesAreListed | Calendar/CalendarControl.tsx:830-838 | every non-empty resource id of an event names a resource in the list built from the same rows |
| CalendarState.Values | Calendar/CalendarControl.tsx:486 | the selected options' values, one per option, in order |
| CalendarState.Selected | Calendar/CalendarControl.tsx:489 | never more events than saved, and every shown event's tag is a selected value |
| CalendarState.Tagged | Calendar/CalendarControl.tsx:467 | never more events than saved, and every shown event carries the action as its tag |
| CalendarState.SelectedExact | Calendar/CalendarControl.tsx:489 | an event is shown exactly when it is saved and its tag is among the selected values |
| CalendarState.SelectedIsSubsequence | Calendar/CalendarControl.tsx:489 | filtering keeps the saved order |
| CalendarState.SelectedNothing | Calendar/CalendarControl.tsx:486-489 | an empty selection shows no events |
| CalendarState.SelectedAppend | Calendar/CalendarControl.tsx:489 | filtering distributes over concatenation of event lists |
| CalendarState.TaggedIsSelected | Calendar/CalendarControl.tsx:467 | filtering by equality with an action is selection by the one-value list of that action |
| CalendarState.SelectedIdempotent | Calendar/CalendarControl.tsx:482-500 | filtering the result again with the same selection changes nothing |
| CalendarState.Calendar.constructor | Calendar/CalendarControl.tsx:70-73 | live and saved data both start as no events, an empty resource list and unresolved keys |
| CalendarState.Calendar.Load | Calendar/CalendarControl.tsx:248-258 | a refresh sets the live data and the snapshot to the same value and keeps the date |
| CalendarState.Calendar.Filter | Calendar/CalendarControl.tsx:482-500 | live events become the saved events tagged with a selected value; resources and keys are the saved ones; snapshot and date unchanged; the live events stay a subsequence of the saved ones |
| CalendarState.Calendar.Navigate | Calendar/CalendarControl.tsx:461-480 | coach, frontdesk and all filter the saved events by tag equality and keep the date; any other action sets the date and keeps the data; the snapshot never changes |
| Views.ValidSegments | Calendar/CalendarControl.tsx:864 | a segment is kept exactly when its trimmed form is an allowed view; kept segments stay untrimmed; when any segment is allowed, the first kept one is the first allowed segment |
| Views.TrimmedValidSegments | Calendar/CalendarControl.tsx:864 | every kept entry is an allowed view, and a view is kept exactly when some segment trims to it; when any segment is allowed, the first kept entry is the first allowed segment, trimmed |
| Views.InsertionOrder | Calendar/CalendarControl.tsx:870-878 | the object keys are the assigned names, each once, and the first key is the first name assigned |
| Views.FirstAllowed | Calendar/CalendarControl.tsx:864 | the position of the first segment whose trimmed form is an allowed view: no earlier segment's is |
| Views.UntrimmedViewsOf | Calendar/CalendarControl.tsx:864-881 | for a list of segments as written: never empty, each key once; week alone when no segment trims to an allowed view; otherwise a key is present exactly when it is a segment whose trimmed form is allowed, blanks kept, and the first key is the first such segment |
| Views.ViewsAsWritten | Calendar/CalendarControl.tsx:862-882 | the view set as the source computes it: never empty, each key once; week alone when no configured segment trims to an allowed view; otherwise exactly the configured segments whose trimmed form is allowed, untrimmed, the first such segment first |
| Views.SegmentsAgree | Calendar/CalendarControl.tsx:864 | when no segment has blanks around it, the filter as written and the trimmed filter keep the same list |
| Views.ViewsAgreeWithoutBlanks | Calendar/CalendarControl.tsx:862-882 | when no configured segment has blanks around it (as in "month,week,agenda"), the view set as written equals the corrected one |
| Views.ViewsAsWrittenKeepsBlanks | Calendar/CalendarControl.tsx:864-877 | for "month, week" the view set as written holds the key " week", which is not a view, while the corrected set holds "week" |
| Views.ViewsOf | Calendar/CalendarControl.tsx:864-881 | for a list of segments with each admitted one trimmed: never empty, only allowed views, each once; a view is present exactly when some segment trims to it, or the set is week alone when none does; the first view is the first allowed segment, trimmed |
| Views.CalendarViews | Calendar/CalendarControl.tsx:862-882 | never empty; only allowed views, each once; a view is present exactly when some configured segment trims to it, or the set is week alone when none does (absent configuration reads as month); the first view is the first configured allowed view |
| Views.CalendarView | Calendar/CalendarControl.tsx:857-860 | the shown view is always a key: the lower-cased requested name when it is a non-empty key, else the first key |
| Views.ShownByDefault | Calendar/CalendarControl.tsx:857-882 | with the corrected view set, a request naming no allowed view (none or an unknown one) shows the first configured allowed view, or week when none is configured |
| Views.ShownViewIsAllowed | Calendar/CalendarControl.tsx:69 | with the corrected view set, the view shown at start is an allowed view, whatever is configured or requested |
| Views.ShownViewAsWritten | Calendar/CalendarControl.tsx:69 | with the view set as written, configuring " week,month" and requesting no view shows the key " week", which is not a view |
| Views.ShiftedDays | Calendar/CalendarControl.tsx:888 | each comma-separated entry becomes its number minus one, NaN where it is not a number |
| Views.WorkWeekDays | Calendar/CalendarControl.tsx:884-894 | never empty; one entry per comma-separated segment when days are configured; 1 to 5 (Monday to Friday) when none are |
| Views.WorkWeekDaysRoundTrip | Calendar/CalendarControl.tsx:884-894 | a configured comma-separated list of day numbers yields those days, each one lower, in order |
| Views.WeekStartDay | Calendar/CalendarControl.tsx:59-63 | a positive configured day d gives d - 1; otherwise the locale's first weekday, or Sunday (0) without locale data; a weekday index whenever the inputs are in range |
| Ranges.AddMonth | Calendar/CalendarControl.tsx:917 | for a day of the month, a day of the next month: the same day of the month when the next month has it, else the next month's last day |
| Ranges.CurrentRange | Calendar/CalendarControl.tsx:896-920 | the day window runs from the start of the date's day (ms 0) to its end (its last millisecond); the week, work-week, month and agenda windows start on an earlier day than they end; the lemmas that follow state the other windows' bounds, the agenda end through AddMonth |
| Ranges.WeekStartBounds | Calendar/CalendarControl.tsx:904 | the start of a day's week lies at most six days before it and falls on the first weekday |
| Ranges.RangeContainsDate | Calendar/CalendarControl.tsx:899-914 | the day, week and month windows contain the date |
| Ranges.WeekRange | Calendar/CalendarControl.tsx:903-906 | the week window starts on the first weekday at midnight and ends six days later at the last millisecond, around the date |
| Ranges.MonthRangeWholeWeeks | Calendar/CalendarControl.tsx:911-914 | the month window starts on the week start on or before the 1st and ends on the week end on or after the last day, spanning whole weeks |
| Ranges.WorkWeekRange | Calendar/CalendarControl.tsx:907-910 | the work-week window runs from the second to the sixth day of the locale's week at the date's time of day; Monday to Friday when weeks start on Sunday, Tuesday to Saturday when they start on Monday |
| Ranges.WorkWeekExample | Calendar/CalendarControl.tsx:907-910 | for Friday 15 March 2024 with weeks from Sunday, the window is 11 to 15 March |
| Ranges.AgendaRange | Calendar/CalendarControl.tsx:915-918 | the agenda window starts at the start of the date's day and ends at the end of the same day of the next month, or of the next month's last day when that month is shorter |
| Ranges.UnknownViewRange | Calendar/CalendarControl.tsx:898 | any other view gives the empty window at the current time |
| DateFormat.FormatDateAsParameterString | Calendar/CalendarControl.tsx:847-855 | the text is at least eleven characters long, since every field has a digit; what it says is stated by FormatRoundTrip and FormatExample |
| DateFormat.FormatRoundTrip | Calendar/CalendarControl.tsx:847-855 | the formatted text reads back as the same date and time, with the month counted from 1 in the text |
| DateFormat.FormatExample | Calendar/CalendarControl.tsx:847-855 | 15 March 2024 09:05:00 formats as "3/15/2024 9:5:0", with no padding |

## Left out

- Rendering and wiring are not modelled. This covers the React components, the modal, tooltips, the toolbar, `useEffect` and the calls that open forms. They are user interface and framework lifecycle.
- `Calendar/MobileToolbar.tsx` is not part of this model. It is user-interface code.
- Theme colours and CSS generation are not modelled. They are presentation, and the colour arithmetic is floating point.
- `getKeys` is not modelled. It reads metadata from the platform asynchronously. The resolved keys are an input (`Dataset.FieldKeys`).
- `getAllResources` is modelled only as the mapping of fetched records. The Web API call itself is I/O, so its records are an input list.
- `getISOLanguage` is not modelled. It depends on an external language-code library.
- `alert` and `console.log` calls are not modelled. They are output only.
- The data-set path is dormant in the source and not modelled. `asyncCalendarData` (`Calendar/CalendarControl.tsx:231-244`) writes the data it builds only to the live copy, at line 242, never to the snapshot. Its call is commented out at line 245. `CalendarState.Calendar.Load` models the refresh at lines 248-258, which sets both copies. Were line 242 enabled, the live and saved copies would differ and the first filter would discard the projected events.
- The hard-coded sample events are not modelled. They are test scaffolding. `CalendarState.Calendar.Load` takes any snapshot.
- The moment library is not modelled. Locale data, time zones and daylight-saving transitions are replaced by day numbers with a weekday parameter. Month lengths are replaced by the month's bounds.
- `Ranges.CurrentRange` assumes every day has 86 400 000 ms.
- `Ranges.CurrentRange` takes the current time as a parameter. Reading the clock is not modelled.
- `Ranges.CurrentRange` takes the first weekday from the locale as moment knows it. The same parameter is used for every view, and the `culture` argument is not used.
- The week-start override at `Calendar/CalendarControl.tsx:59-63` changes only the calendar widget's localizer. `getCurrentRange` asks moment, which keeps the locale's first weekday. The model keeps the two apart: `Views.WeekStartDay` computes the widget's first weekday, and `Ranges.CurrentRange` takes the locale's as its own parameter. With an override set, the reported range can therefore start on a different day than the grid shows. With a Monday-first locale, the work-week window runs from Tuesday to Saturday (`Ranges.WorkWeekRange`).
- The `work_week` branch of `getCalendarViews` is not modelled. It is unreachable because `work_week` is not among the allowed views.
- Dataset.AsText: a cell whose kind differs from the cast the source applies reads as empty. In JavaScript the foreign value would pass through. This affects the resource list: a canvas resource id or name cell, or a linked resource name cell, that holds an instant or a lookup.
- Dataset.Present: a time cell holding instant 0 counts as present. The source's truthiness test on a `Date` object agrees, but it would drop a raw number 0.
- Events.EventOf: start and end are carried as the cells read. How `new Date` turns them into dates is not modelled: it parses text and gives an invalid date for a lookup.
- Resources.RowCandidate: in a model app, a present resource cell that is not a lookup (text or an instant) makes the source throw at `Calendar/CalendarControl.tsx:752`, where it reads `resourceRef.id.guid`. Resources are built before events (lines 723-724), so the whole refresh fails there. The model skips the row instead.
- Events.EventOf: in a model app, a present resource cell that is not a lookup makes the source throw, because it reads `.id.guid` of a non-lookup. The model attaches no resource there. In a canvas app, a resource cell that is not text is read as empty, where the source would attach the value itself.
- Text.ToNumber: reads only optionally signed integer numerals and blanks. Decimals, exponents, `Infinity` and `-Infinity`, and hexadecimal, binary (`0b`) and octal (`0o`) forms read as NaN (None), where unary `+` would accept them.
- Text.ToLower: lower-cases ASCII letters only.
- Text.Trim: strips ASCII white space, no-break space and the byte-order mark, not every Unicode space.
- Resources.Field: a missing fetched field reads as "", where JavaScript would give `undefined`. An `undefined` id would then pass the de-duplication as a key.

## Findings

| source | as written | input that shows it | evidently intended | confidence | as-written member | corrected member |
|---|---|---|---|---|---|---|
| Calendar/CalendarControl.tsx:864-877 | a view segment is admitted when its trimmed form is allowed, but the untrimmed segment becomes the view key | calendar available views "month, week" gives the keys "month" and " week"; " week" is not a view. With " week,month" and no requested view, the view shown at start is " week" (Views.ShownViewAsWritten) | key each admitted view by its trimmed name | not executed | Views.ViewsAsWrittenKeepsBlanks | Views.CalendarViews |
