# Carpeta Digital core, modelled in Dafny

This project models the deterministic core of a small study-organiser web app. The app has three parts.

- **The browser workspace (`app.js`).** The `appState` object holds:
  - the folder list;
  - the documents of each folder, keyed by folder id;
  - the event list;
  - the current folder and document;
  - the selected date.

  The commands that change `appState` are modelled as the class `Workspace.Store`. These are creating folders, documents and events, saving a document, deleting an event, loading saved data and month navigation. The module also holds the per-day event filter and the Sunday-first month grid.
- **The calendar page (`static/js/app.js`).** The closure state of `initCalendarView` is modelled as the class `CalendarView.MonthCalendar`. That state is the shown month and year, the selected date and today. The module also covers:
  - the Monday-first grid, padded with the days of the neighbouring months;
  - the `data-date` key and its parse on click;
  - grouping the month's events by date;
  - the dot loop, which draws at most three dots per day;
  - the event-type labels.
- **The Flask API (`app.py`).** Module `Server` holds the request logic of the handlers:
  - the required-field checks of the three create handlers;
  - the `data.get(k, stored)` merge of the three update handlers;
  - the filter choice of `get_events`;
  - the "last edited" label.

  Each SQLite table is a map from row id to row.

Shared helpers:
- `Gregorian`: proleptic Gregorian arithmetic. This covers month lengths, leap years, day numbers counted from 1 January of year 1, the weekday, and the way JavaScript's `Date` constructor normalises a month outside 0..11.
- `Text`: decimal printing and parsing of integers, and `String.prototype.split` on one character.

Dates are triples of year, month and day. The month counts from 0, as `getMonth` does. The clock, the ids from `Date.now()`, the user's answer to `confirm` and the editor's text are all parameters.

## Model

| member | source | states |
|---|---|---|
| Text.NatToString | app.py:138 | The decimal form of a natural number is one or more digits, with no leading zero. |
| Text.IntToString | app.py:141 | An integer prints as digits, with a leading '-' exactly when it is negative. |
| Text.ParseDecimal | static/js/app.js:266 | On the digit-only strings the model reads, `Number` gives a value exactly when every character is a digit (the empty string reads as 0). |
| Text.ParseNatToString | static/js/app.js:266 | Parsing the printed form of a natural number gives the number back. |
| Text.IntToStringInjective | app.py:138-141 | Different integers print differently. |
| Text.Split | static/js/app.js:266 | `split` returns at least one piece, and no piece contains the separator. |
| Text.SplitWithoutSeparator | static/js/app.js:266 | A string without the separator splits into itself alone. |
| Text.SplitAfterPiece | static/js/app.js:266 | Splitting `a + sep + b`, where `a` has no separator, gives `a` followed by the pieces of `b`. |
| Gregorian.DaysInMonth | static/js/app.js:211-212 | `new Date(y, m + 1, 0).getDate()` is between 28 and 31. |
| Gregorian.MonthLengths | app.js:262-263 | Only February's length depends on the year: it has 29 days exactly in leap years and 28 otherwise. |
| Gregorian.MonthIndexInjective | static/js/app.js:174-190 | A month index determines the year and the month. |
| Gregorian.MonthStart | app.js:564-576 | The Date constructor carries whole years out of an out-of-range month: the result has month 0..11 and the same month index. |
| Gregorian.Weekday | app.js:256-257 | `getDay()` lies in 0..6. |
| Gregorian.YearLength | static/js/app.js:210-212 | Consecutive 1 January day numbers differ by 366 in leap years and by 365 otherwise. |
| Gregorian.MonthsFillYear | static/js/app.js:211-212 | The twelve month lengths add up to the length of the year. |
| Gregorian.PrevMonthLength | static/js/app.js:219 | `new Date(currentYear, currentMonth, 0).getDate()` is a month length, between 28 and 31. |
| Gregorian.PrevMonthLastDay | static/js/app.js:219 | Day 0 of a month is the last day of the month before: the day it names is immediately followed by the 1st of the month, January stepping back into December of the year before. |
| Gregorian.NextMonthFollowsLastDay | static/js/app.js:211-212 | The first of the next month, with December rolling into January, is the day after the last day of this month. |
| Gregorian.WeekdayOfDay | app.js:256-274 | Days of one month fall on consecutive weekdays, counted from the weekday of the 1st. |
| Gregorian.NextMonthWeekday | static/js/app.js:210-212 | The next month starts on this month's first weekday moved on by the month's length. |
| Gregorian.EpochWeekday | app.js:256-257 | The weekday arithmetic is anchored: 1 January 1970 was a Thursday. |
| Workspace.FindIndex | app.js:201 | `findIndex` returns -1 exactly when nothing matches; otherwise it returns the first matching position. |
| Workspace.RemoveAtFacts | app.js:374 | `splice(i, 1)` removes exactly one copy of the element. With distinct ids, it keeps ids distinct and leaves no element with the removed id. |
| Workspace.EventsOnDay | app.js:320-327 | The per-day list holds exactly the events whose date equals the selected day, and is no longer than the event list. |
| Workspace.EventsOnDayAppend | app.js:320-327 | Filtering a concatenation gives the filtered parts in order, so the original relative order is kept. |
| Workspace.EventsOnDayCount | app.js:320-327 | Each event of that day appears as often as in the full list; events of other days do not appear. |
| Workspace.HasEventOn | app.js:296-299 | `events.some(...)` is true exactly when some event of the list falls on that day. |
| Workspace.HasEventIffListed | app.js:296-303 | A grid day gets the `has-event` flag exactly when its per-day list is non-empty. |
| Workspace.Store.constructor | app.js:2-9 | The initial state has empty containers, nothing open and today selected. |
| Workspace.Store.CreateFolder | app.js:85-95 | Appends one folder `{id, name, createdAt}` at the end and maps its id to an empty list. Nothing else changes. Every folder still has a list, and folder ids stay distinct when the id is new. |
| Workspace.Store.CreateDocument | app.js:129-142 | Appends a document with empty content, `createdAt == updatedAt` and the title defaulting to "Nuevo documento" to that folder's list only, and returns it. A folder without a list (where `push` throws) changes nothing. |
| Workspace.Store.SelectFolder | app.js:111-112 | A folder click makes that folder current. |
| Workspace.Store.OpenDocument | app.js:188-189 | The opened document becomes the current one. |
| Workspace.Store.AddDocument | app.js:546-551 | Without a current folder nothing happens. Otherwise a default document is appended to the current folder and opened. |
| Workspace.Store.SaveDocument | app.js:196-207 | With no current document, no current folder, a folder without a list, or an id absent from the list, nothing changes. Otherwise only the title, content and `updatedAt` of the first entry with that id change. |
| Workspace.Store.CreateEvent | app.js:219-228 | Appends exactly one event at the end. The day's list gains it last, every other day's list is unchanged, and ids stay distinct when the id is new. |
| Workspace.Store.DeleteEvent | app.js:367-374 | A declined confirmation or an unknown id leaves the list unchanged. Otherwise exactly the first event with the id is removed, the others keep their order, and with distinct ids none with that id remains. |
| Workspace.Store.InitializeAppState | app.js:456-470 | Replaces the three containers with the loaded ones, or empty ones when a field is absent. It opens the first folder when there is one and keeps the current folder otherwise. |
| Workspace.Store.LoadData | app.js:426-454 | Uses the server's data when there is some, otherwise the saved copy: folders, documents and events all come from that source (empty when a field is absent), and the first folder becomes current when there is one. With neither, it creates the folder "Mis Documentos" and changes nothing else. |
| Workspace.Store.SelectDay | app.js:306-309 | Clicking day i selects that day of the shown month. |
| Workspace.Store.PrevMonth | app.js:564-569 | Selects the 1st of the previous month: one month index back, rolling the year at January. |
| Workspace.Store.NextMonth | app.js:571-576 | Selects the 1st of the next month: one month index on, rolling the year at December. |
| Workspace.Store.RenderCalendar | app.js:258-311 | Emits `startingDay` blanks (the weekday of the 1st), then days 1..N with N the Gregorian month length. Each day carries today, selected and has-event flags that compare year, month and day, and each day sits in its weekday's column. |
| Workspace.AddThenSave | app.js:546-557 | A new document followed by a save holds the saved title and content, its creation time and the save time. |
| CalendarView.IsSameDay | static/js/app.js:396-402 | Two dates are the same day exactly when year, month and day agree. |
| CalendarView.DateKey | static/js/app.js:238 | For a year, month and day of 0 or more, the `data-date` text splits at '-' into exactly the three printed numbers. |
| CalendarView.ParseDateKey | static/js/app.js:266 | The click handler reads a date exactly when the key has at least three '-'-separated pieces and the first three are digit strings; the numbers read are never negative. |
| CalendarView.DateKeyRoundTrip | static/js/app.js:238-267 | Splitting a `${year}-${month+1}-${i}` key and reading it with `Number` gives back the three numbers it was written from. |
| CalendarView.FirstDayIndex | static/js/app.js:214-216 | `firstDayIndex` lies in 0..6 and is the weekday of the 1st on a Monday=0 … Sunday=6 scale. |
| CalendarView.MondayColumn | static/js/app.js:214-243 | Day d, placed after `firstDayIndex` leading cells, falls in column (weekday + 6) mod 7. |
| CalendarView.MonthColumns | static/js/app.js:219-243 | Every day of the month sits in its Monday-first weekday column. |
| CalendarView.ColumnShift | static/js/app.js:215-216 | Moving Sunday from -1 to 6 shifts columns by one modulo 7. |
| CalendarView.GridLength | static/js/app.js:246-252 | Padding with `nextDays` only when that is below 7 gives a multiple of 7 between 28 and 42, less than a week beyond the month's cells. |
| CalendarView.EventsWithDate | static/js/app.js:281-287 | A bucket holds exactly the events with that date. |
| CalendarView.NoEventsWithDate | static/js/app.js:283-285 | A date that no event has so far has an empty bucket. |
| CalendarView.BucketCount | static/js/app.js:281-287 | Every event lands in the bucket of its own date, as often as it occurs, and in no other bucket. |
| CalendarView.GroupByDate | static/js/app.js:281-287 | There is one bucket per date that occurs, and each bucket holds that date's events in their original order. |
| CalendarView.EventTypeLabel | static/js/app.js:380-393 | The label is "Evento" exactly for types other than deadline, exam, class and meeting. |
| CalendarView.KnownLabelsDistinct | static/js/app.js:380-393 | The four known types get four different labels. |
| CalendarView.DotColor | static/js/app.js:301-309 | A dot is coloured exactly for the four known types, which are the types with a label other than "Evento". |
| CalendarView.RenderDots | static/js/app.js:297-313 | The number of dots is `min(bucket size, 3)`, and the dots are coloured by the first events' types. |
| CalendarView.PreviousMonthCells | static/js/app.js:219-228 | The leading cells are the last `firstDayIndex` days of the previous month, ascending to `prevMonthLastDay`, keyed as written. |
| CalendarView.MonthCells | static/js/app.js:231-243 | The current-month cells are days 1..`daysInMonth` in order. Each is flagged today or selected exactly when `isSameDay` holds. |
| CalendarView.NextMonthCells | static/js/app.js:249-251 | The trailing cells are days 1..`nextDays` of the next month, keyed as written. |
| CalendarView.MonthCalendar.constructor | static/js/app.js:161-164 | The view opens on today's month with today selected. |
| CalendarView.MonthCalendar.PrevMonth | static/js/app.js:174-181 | The month stays in 0..11 and moves one back, and the year drops at January. |
| CalendarView.MonthCalendar.NextMonth | static/js/app.js:183-190 | The month stays in 0..11 and moves one on, and the year rises at December. |
| CalendarView.MonthCalendar.RenderCalendar | static/js/app.js:209-252 | Emits the leading, current-month and trailing cells in that order. The total is a multiple of 7 between 28 and 42. |
| CalendarView.MonthCalendar.SelectDay | static/js/app.js:261-268 | A click on day i, through the key text, selects exactly (year, month, i) of the shown month. |
| CalendarView.NextThenPrev | static/js/app.js:174-190 | Next followed by previous restores the original month and year. |
| Server.Truthy | app.py:194 | A decoded JSON value is falsy exactly when it is null, false, 0, "", [] or {}. |
| Server.MissingField | app.py:194 | The first falsy field exists exactly when some required field is missing or falsy. |
| Server.CheckRequired | app.py:194-195 | A falsy body or a missing or falsy required field gives 400. A truthy body that is not an object gives 500. Otherwise the fields are accepted. |
| Server.Insert | app.py:200-203 | An insert adds exactly the new row under the fresh id, unless a value cannot be stored. |
| Server.CreateDocument | app.py:191-218 | Answers 400 exactly when the body is missing or falsy, or title or subject is missing or falsy. Answers 201 exactly when the body is an object with both given and the new row (sent title and subject, insert time) can be stored; the table then gains exactly that row. Otherwise the table is unchanged. |
| Server.CreateNote | app.py:299-327 | Answers 400 exactly when the body is missing or falsy, or title or content is missing or falsy. Answers 201 exactly when the body is an object with both given and the new row can be stored; the row's color is the sent one, "#FFFFFF" only when absent. Otherwise the table is unchanged. |
| Server.CreateEvent | app.py:419-447 | Answers 400 unless title, date, time and type are all present and truthy. Answers 201 exactly when, in addition, the body is an object and the four values can be stored; the row then holds the four as sent. Otherwise the table is unchanged. |
| Server.DocumentRowStorable | app.py:32-37 | With a text timestamp, a new document is refused by the database (500) exactly when its title or subject is a list or an object. |
| Server.NoteRowStorable | app.py:41-47 | A new note is refused exactly when title, content or a sent color is a list or an object; a null color is accepted, since that column may be null. |
| Server.EventRowStorable | app.py:51-57 | A new event is refused exactly when one of title, date, time and type is a list or an object. |
| Server.Merge | app.py:237-238 | Each updatable field present in the body replaces the stored value. Every other field keeps its stored value. |
| Server.MergeIdempotent | app.py:237-238 | Merging the same body twice gives the same row as merging it once. |
| Server.MergeNothing | app.py:237-238 | A body naming no updatable field leaves the row as it was. |
| Server.UpdateRow | app.py:229-243 | An unknown id gives 404 and changes nothing. Answers 200 exactly when the id is known, the body is an object and the merged row plus the timestamp can be stored; only that row changes, to exactly that. Every other case is 500 and changes nothing. |
| Server.UpdateDocument | app.py:222-253 | Unknown id gives 404. Answers 200 exactly when the id is known, the body is an object and the new row can be stored. The new row is the stored one with title and subject taken from the body when present and `last_edited` set to now; other rows are unchanged. |
| Server.UpdateNote | app.py:331-364 | Unknown id gives 404. Answers 200 exactly when the id is known, the body is an object and the new row can be stored. The new row is the stored one with title, content and color taken from the body when present and `last_edited` set to now. |
| Server.UpdateEvent | app.py:451-485 | Unknown id gives 404. Answers 200 exactly when the id is known, the body is an object and the new row can be stored. The new row is the stored one with title, date, time and type taken from the body when present; no timestamp is written. |
| Server.UpdateStorable | app.py:237-243 | When the stored row and the timestamp can be stored, the database refuses an update exactly when a sent updatable value is a list or an object, or is null for a NOT NULL column. |
| Server.UpdateIdempotent | app.py:232-243 | Repeating a successful update with the same body and clock leaves the table as the first update did. |
| Server.UpdateWithoutColumns | app.py:237-243 | An update naming no updatable field rewrites only the timestamp. |
| Server.ChooseEventQuery | app.py:384-400 | Both parameters give the exact date `month-day`. Only a month gives the month prefix. Otherwise everything is returned. |
| Server.Matches | app.py:389-400 | `date = ?` holds exactly when the stored date is that text, `LIKE 'month%'` exactly when the stored date is text beginning with the month, and the unfiltered query matches every row. |
| Server.GetEvents | app.py:384-400 | With both a month and a day, exactly the events dated `month-day`; with only a month, exactly the events whose date text begins with it; with no month, every event. |
| Server.DayWithinMonth | app.py:387-398 | The events of a day are among the events of its month. |
| Server.FiltersNarrow | app.py:387-400 | Every query returns a subset of the unfiltered query. |
| Server.FormatLastEdited | app.py:129-141 | "Hoy" exactly for 0 days and "Ayer" exactly for 1 day. Every other label starts with "Hace ". |
| Server.LabelDeterminesBucket | app.py:133-141 | The label tells whether the count is below a week. Below a week it determines the day count, and from a week on it determines the number of whole weeks. |
| Server.DaysLabelInjective | app.py:137-138 | "Hace {days} días" differs for different day counts. |
| Server.WeeksLabelInjective | app.py:139-141 | "Hace {weeks} semana(s)" differs for different week counts. |
| Server.DaysNotWeeks | app.py:137-141 | A days label never equals a weeks label. |
| Server.WeeksPlural | app.py:140-141 | A weeks label ends in "s" exactly when `days // 7 > 1`. |

## Left out

- DOM construction and rendering are not modelled: `innerHTML`, element creation, CSS classes, views, modals, `alert`, and the weekday and month header text. `confirm` is a boolean parameter.
- Persistence is not modelled: `localStorage`, `JSON.stringify`/`parse` and every `fetch`. They are I/O against code that is not part of this model. `loadData` is modelled only as the choice between the server's data, the saved copy and a default folder.
- Locale and ISO formatting are not modelled: `toLocaleDateString`, `formatDate` and the `toISOString` date input.
- `Date.now()` ids and wall-clock times are parameters. Id freshness is a stated precondition where a property needs it, since the code does not guarantee it.
- The time zone and the time of day are not modelled. This covers `new Date("YYYY-MM-DD")` in `createEvent` and the string-to-`Date` conversion in `initializeAppState`. An event's date is a (year, month, day) triple.
- Workspace.Store.CreateDocument: the two `new Date()` calls for `createdAt` and `updatedAt` are one clock reading.
- Workspace.Store: `currentFolder` and `currentDocument` hold ids, not object references. The aliasing between the current document object and its list entry is therefore not modelled.
- Workspace.Store.CreateFolder and Workspace.Store.CreateEvent: the listeners' `trim()` and non-empty guards are not modelled. The commands are modelled as called.
- The Date constructor's mapping of years 0..99 to 1900..1999 is not modelled, and the JavaScript year range is not bounded.
- CalendarView.MonthCalendar.SelectDay and CalendarView.DateKeyRoundTrip cover only years ≥ 0. A negative year prints a leading '-', which `split` treats as a separator.
- Text.ParseDecimal reads only strings of ASCII digits. Signs, spaces, decimals, exponents and hexadecimal are outside the model, and so is the loss of precision of `Number` above 2^53: the model reads every digit string exactly.
- The keys of the neighbouring-month cells are modelled as written. They keep the year, and the month after December is written as 13. Nothing is claimed about which day they name.
- The client asks for events with an unpadded `YYYY-M` month, while the server stores zero-padded dates. The model does not claim these match. For January, the prefix "2024-1" also matches October to December.
- The dots are placed by looking up a cell through `data-date`. The model covers the grouping and the dots per bucket, not which cell receives them.
- Text editing through `document.execCommand` and `debounce` are not modelled. They are host facilities and timer behaviour.
- Flask routing and templates are not modelled. A request body is the parsed JSON value, or None when absent. Flask's own handling of a non-JSON content type is not modelled.
- SQL ordering (`ORDER BY`) is not modelled: Server.GetEvents returns a set of ids. `LIKE` is modelled as a plain prefix test. Its wildcards, its ASCII case-insensitivity and dates stored as non-text values are not modelled.
- The randomised seed data of `init_db` is not modelled.
- `datetime.strptime` and `now()` in `format_last_edited` are not modelled. Server.FormatLastEdited takes the whole day count.
- JSON numbers are integers. Floating-point values, and their truthiness, are not modelled.
- SQLite is modelled only as refusing list or object values and null in NOT NULL columns. Both give 500. Other database errors are not modelled.
- The response bodies of the handlers (ids as strings, "lastEdited": "Hoy") are not modelled. The model keeps the status and the table.
- `get_documents` and `get_notes`, with their search, and the three delete handlers are not modelled.
