# Church service roster: schedule store model

A Dafny model of the schedule screen of a church volunteer-roster app. An
administrator publishes services (a date, a time, an open/closed flag and a
description). The signed-in user registers in one area of a service, such as
"Recepção" or "Café". Entries can be renamed, moved to another area or removed,
and the roster of a service can be exported as CSV or shared as a WhatsApp
message.

The screen keeps two lists, `services` and `assignments`. Every handler replaces
them with a new list computed from the old one. The model has these modules:

- `Store.ScheduleStore` is a class whose two `seq` fields are those lists. Its
  methods are the handlers. Each method's `ensures` gives the new lists as a
  function of the old ones and says which consistency rules the step keeps.
- `Schedule` holds those functions (filter, map, append) and the lemmas about them:
  - the delete cascade;
  - one registration per volunteer per service;
  - every assignment pointing at an existing service;
  - toggling twice restores the list;
  - the CSV export lines.
- `Text` holds the CSV body builder and the WhatsApp roster text of `lib/utils.ts`.
  It also defines `Split`, which stands for `String.prototype.split`. `Split` is
  used to state what the built texts contain line by line, and the CSV round trip.
- `Ordering` holds the date-then-time order of the service list and a stable
  insertion sort. The sort is proved to give a sorted permutation that keeps services with the same date and time in their stored order.
- `Calendar` holds the day-name table and the weekday of a `YYYY-MM-DD` date. The
  date is parsed in the Date Time String Format of ECMA-262. The weekday comes from
  proleptic Gregorian day counting.
- `Types` holds the records and constants. `Seqs` holds `Option`, `Filter`, `Map`
  and the subsequence relation.

Modelling choices:

- Browser confirmations are a `confirmed: bool` parameter.
- Random ids are a caller-supplied `freshId` that is not yet in use.
- An `alert` followed by an early return is a `false` result.
- The current date and the browser's clock are never read. Dates come in as
  parameters.
- The time comparison uses `localeCompare` and the date comparison uses
  `Date.getTime`. Both are modelled as character-by-character comparison of the
  texts. This agrees with both for well-formed `YYYY-MM-DD` dates and `HH:MM`
  times, and that is assumed.
- A date that does not parse gets no day name (`dayOfWeek == None`). At run time
  the stored value is `undefined`, because `getDay()` gives NaN and the day-name
  table has no entry for it.

## Model

| member | source | states |
|---|---|---|
| `Types.ServiceAreasListEachOnce` | constants.ts:4-11 | The area list has six entries and holds every service area exactly once. |
| `Types.AreaNameInjective` | types.ts:23-29 | Different areas have different names, so an exported or shared name identifies its area. |
| `Types.AreaName` | types.ts:23-29 | Each area's text is non-empty and has no comma or line break, so it is always a clean CSV cell and a clean part of a roster line. |
| `Calendar.DayNamesLabels` | App.tsx:25-27 | The table's labels are, in weekday order, `Domingo`, `Segunda-feira`, `Terça-feira`, `Quarta-feira`, `Quinta-feira`, `Sexta-feira`, `Sábado`. |
| `Calendar.DayNamesEachOnce` | App.tsx:25-27 | The day-name table has seven entries, names every day once and has no repeats. |
| `Calendar.ParseDate` | App.tsx:48-49 | Only a ten-character `YYYY-MM-DD` text that denotes a real calendar date parses. Anything else is the invalid date. |
| `Calendar.ParseFormatRoundTrip` | App.tsx:48 | Parsing the `YYYY-MM-DD` text of a valid date gives that date back. |
| `Calendar.FormatParseRoundTrip` | App.tsx:48 | Formatting a parsed date gives back the exact text that was parsed. |
| `Calendar.Weekday` | App.tsx:49 | `getDay()` of a valid date is in 0..6. |
| `Calendar.DayOfWeekOf` | App.tsx:49 | A date text gets a day name exactly when it parses. |
| `Calendar.NextDateAdvancesDay` | App.tsx:100-103 | The day after a valid date is valid and has the next day number. Its day name is the next entry of the table, wrapping from Sábado to Domingo, across month and year ends too. |
| `Text.Join` | lib/utils.ts:24 | `Array.prototype.join`. It has no contract of its own. `Text.SplitJoin` and `Text.JoinAvoids` state what it produces. |
| `Text.JoinAvoids` | lib/utils.ts:24 | A joined text contains a character only if one of the parts or the separator contains it. |
| `Text.CsvLine` | lib/utils.ts:24 | A row's line has a line break only if a cell has one. Splitting it at commas gives back the cells when there is at least one cell and no cell contains a comma. |
| `Text.CsvContent` | lib/utils.ts:24 | No rows give the empty content. |
| `Text.CsvLineOfFour` | lib/utils.ts:24 | A four-cell row becomes one line with the cells separated by three commas. |
| `Text.SplitJoin` | lib/utils.ts:24 | Splitting on the separator undoes joining when there is at least one part and no part contains the separator. |
| `Text.CsvContentLines` | lib/utils.ts:24 | If there is at least one row and no cell holds a line break, the content splits into exactly one line per row. Line `i` is row `i` joined by commas. |
| `Text.CsvRoundTrip` | lib/utils.ts:24 | If every row is non-empty and no cell holds a comma or a line break, splitting into lines and then into cells gives back the rows. |
| `Text.RosterHeader` | lib/utils.ts:15 | The header is the title `*ESCALA DE SERVIÇO - `, then the service label unchanged, then `*` and two line breaks. |
| `Text.RosterLine` | lib/utils.ts:17 | A roster line ends with the volunteer's name. It is a single line whenever the name is, because no area name contains a line break. |
| `Text.RosterText` | lib/utils.ts:15-20 | The roster text starts with `*ESCALA DE SERVIÇO - <label>*` and two line breaks, and ends with the fixed footer. With no assignments it is exactly header plus footer. |
| `Text.RosterBodyLines` | lib/utils.ts:16-18 | If no volunteer name holds a line break, the text between header and footer has one line per assignment, in input order. Each line is `📍 *<area>*: <name>`, with no separator after the last. |
| `Ordering.ServiceLeTotal` | App.tsx:172-175 | Of any two services, one may come before the other under the date-then-time comparator. |
| `Ordering.ServiceLeTransitive` | App.tsx:172-175 | The date-then-time order is transitive. |
| `Ordering.Insert` | App.tsx:172-176 | Inserting adds exactly that service to the list (as a multiset). |
| `Ordering.InsertKeepsSorted` | App.tsx:172-176 | Inserting into a list sorted by date then time keeps it sorted. |
| `Ordering.SortServices` | App.tsx:172-176 | The result is a permutation of the services, ordered by date and then by time. |
| `Ordering.InsertStable` | App.tsx:172-176 | Inserting into a sorted list places the new service after every service with the same date and time. Each such group keeps its order. |
| `Ordering.SortServicesStable` | App.tsx:172-176 | The sort is stable, as `Array.prototype.sort` is: services with the same date and time appear in the same relative order as in the stored list. |
| `Schedule.FindService` | App.tsx:111 | `find` gives nothing exactly when no service has the id. Otherwise it gives the first service with that id. |
| `Schedule.NewService` | App.tsx:82-89 | A new service is open and has the form's id, date, time and description. It has a day name exactly when the date parses, and that name is the table entry at the date's weekday. |
| `Schedule.WithDayRecomputed` | App.tsx:100-104 | A saved edit differs from the edited service only in its day name, which is recomputed from its date. |
| `Schedule.ReplaceService` | App.tsx:106 | Saving keeps the length and every id. Each service with the edited id becomes the edited service and every other service is unchanged. |
| `Schedule.ToggleOpen` | App.tsx:135 | Toggling keeps the length and every field except `isOpen`. `isOpen` flips exactly on the services with the id. |
| `Schedule.PatchAssignment` | App.tsx:131 | Updating keeps the length and leaves every assignment with another id unchanged. The matching ones get the partial update merged in. |
| `Schedule.WithoutService` | App.tsx:123 | A service is kept exactly when it was in the list and has another id. The kept services stay in their order. |
| `Schedule.WithoutServiceAssignments` | App.tsx:126 | An assignment is kept exactly when it was in the list and belongs to another service. The kept ones stay in their order. |
| `Schedule.AlreadyRegistered` | App.tsx:139 | The `some` check holds exactly when one of the service's assignments belongs to the volunteer. |
| `Schedule.SomeOfService` | App.tsx:139 | The `some` over the whole list finds the volunteer exactly when one of the service's own assignments is theirs. |
| `Schedule.NewAssignment` | App.tsx:145-151 | The appended record has the fresh id, the service, the area, and the user's id and current name. A list containing it shows the user as registered in that service. |
| `Schedule.ApplyPatch` | App.tsx:131 | `{...a, ...updates}`: every field the update carries takes the update's value, and every other field keeps its value. An empty update changes nothing. A name-or-area update keeps the id and the (service, volunteer) pair. |
| `Schedule.WithoutAssignment` | App.tsx:157 | An assignment is kept exactly when it was in the list and has another id. The kept ones stay in their order. |
| `Schedule.AssignmentsOf` | App.tsx:163 | The service's assignments are exactly the listed assignments with that service id, in list order. Each appears as many times as it is listed, so the export has one row per listed assignment. |
| `Schedule.DateCell` | App.tsx:166 | `service?.date \|\| ""` gives the date of the service `find` returns, or the empty cell when no service has the id. |
| `Schedule.TimeCell` | App.tsx:166 | `service?.time \|\| ""` gives the time of the service `find` returns, or the empty cell when no service has the id. |
| `Schedule.ExportRows` | App.tsx:161-167 | The CSV table is the header `Area,Servo,Data,Hora` and then one row per assignment of the service, in list order. Each row is area, name and the service's date and time, or empty cells when the service is unknown. |
| `Schedule.ExportFileName` | App.tsx:168 | The file is `escala_<date>.csv`, or `escala_undefined.csv` when the service is unknown. |
| `Schedule.DeleteServiceCascade` | App.tsx:123-126 | Deleting removes every service with the id and every assignment of that service. Everything else keeps its multiplicity and relative order. |
| `Schedule.DeleteServiceKeepsReferences` | App.tsx:123-126 | If every assignment pointed at an existing service before a delete, every remaining assignment still does. |
| `Schedule.FilterKeepsUnique` | App.tsx:126 | Any filter of a list with one assignment per (service, volunteer) keeps that property. |
| `Schedule.RemovalsKeepUnique` | App.tsx:155-157 | Removing an assignment, and the delete cascade of line 126, keep one assignment per (service, volunteer). |
| `Schedule.RegisterKeepsUnique` | App.tsx:139-152 | An append that passed the duplicate check keeps one assignment per (service, volunteer). Afterwards the user counts as registered, so a second attempt is rejected. |
| `Schedule.AppendAssignment` | App.tsx:145-152 | Appending an assignment makes its volunteer registered in its service. A fresh id keeps the ids distinct, and a reference to an existing service keeps every reference valid. |
| `Schedule.NameOrAreaPatchKeepsUnique` | App.tsx:130-132 | An update of only the name or area keeps one assignment per (service, volunteer) and every service reference. |
| `Schedule.PatchAssignmentIdempotent` | App.tsx:130-132 | Applying the same update twice gives the same list as applying it once. |
| `Schedule.RemoveAssignmentEffect` | App.tsx:157 | Removing leaves no entry with the id and keeps every other entry with its multiplicity and order. An unknown id changes nothing. |
| `Schedule.ToggleTwiceRestores` | App.tsx:134-136 | Toggling the same service twice restores the list. |
| `Schedule.SameIdsKeepReferences` | App.tsx:106 | An update that keeps every service id (save, toggle) keeps all assignment references valid and the ids distinct. |
| `Schedule.ExportRowsArePlain` | App.tsx:164-167 | If no name, date or time holds a comma or a line break, every row has four cells and no cell holds either character. |
| `Schedule.ExportCsvLines` | App.tsx:161-168 | Under the same condition, the exported content splits into the header line and one line per assignment of the service, in list order. Each line is `area,name,date,time`. |
| `Schedule.ExportCsvRoundTrip` | App.tsx:161-168 | Under the same condition, splitting the exported content into lines and then cells gives back the table. |
| `Schedule.MockServicesConsistent` | App.tsx:53-60 | The sample services have distinct ids, and each stored day name is the one computed from its date. |
| `Store.ScheduleStore.constructor` | App.tsx:36-38 | The user is the fixed signed-in user and both lists start empty. |
| `Store.ScheduleStore.LoadMockServices` | App.tsx:53-60 | Mounting replaces the services with the sample list and leaves assignments alone. |
| `Store.ScheduleStore.AddService` | App.tsx:75-94 | With no time nothing changes. Otherwise exactly one open service is appended, with the form's date, time and description and the day name of the date. Assignments are unchanged, and valid references and distinct ids are kept. |
| `Store.ScheduleStore.SaveEdit` | App.tsx:96-108 | With no service being edited nothing changes. Otherwise the matching services become the edited one with its day name recomputed. The count and every id are kept, assignments are unchanged and valid references are kept. |
| `Store.ScheduleStore.DeleteService` | App.tsx:110-128 | An unknown id or a declined confirmation changes nothing. Otherwise the service and all its assignments go and the rest stays in order. Valid references and one registration per pair are kept. |
| `Store.ScheduleStore.UpdateAssignment` | App.tsx:130-132 | Only the assignments with the id change and the length is kept. A name-or-area update keeps uniqueness and references. |
| `Store.ScheduleStore.ToggleStatus` | App.tsx:134-136 | Only `isOpen` of the matching services flips. Assignments are unchanged. |
| `Store.ScheduleStore.Register` | App.tsx:138-153 | If the user already holds an assignment in the service, nothing changes. Otherwise exactly one assignment `{freshId, serviceId, user.id, user.name, area}` is appended after the old ones. Afterwards the user is registered. Uniqueness and distinct ids are kept, and so are valid references when the service exists. |
| `Store.ScheduleStore.RemoveAssignment` | App.tsx:155-159 | Declining changes nothing. Otherwise exactly the entries with the id are dropped. Services are unchanged and uniqueness is kept. |
| `Store.ScheduleStore.SortedServices` | App.tsx:171-176 | The displayed list is a permutation of the stored services, ordered by date and then by time. Services with the same date and time keep their stored order. The stored list is not changed. |
| `Store.ScheduleStore.ExportCsv` | App.tsx:161-169 | The file is named after the service's date, and the content is the CSV text of the export table. If no cell holds a comma or a line break, the header line comes first. After it, line `i + 1` is `area,name,date,time` for the `i`-th assignment of the service, in list order, and there are no other lines. |

## Left out

- Rendering, the modals and the form state are not modelled, because they are presentation only. This covers `isAddModalOpen`, `editingService` visibility, resetting `newTime` after an add, closing the edit modal when its service is deleted, the time-slot auto-selection effect and `STANDARD_SLOTS`.
- The text of `alert`, `confirm` and `prompt` dialogs is not modelled. A dialog is I/O and appears only as the `confirmed` parameter or the `false` result.
- `Math.random` ids are replaced by a `freshId` argument that the caller guarantees is unused. Nothing is said about collisions of real random ids.
- `Calendar.ParseDate`: only the full `YYYY-MM-DD` form with a four-digit year is read. The shorter `YYYY` and `YYYY-MM` forms, six-digit years and engine-specific fallback formats are all treated as invalid. A date input never produces them. Some engines roll an impossible day such as `2023-02-30` over into the next month, but the model follows ECMA-262 and treats it as invalid.
- `Ordering.SortServices`: the date comparison through `Date.getTime` and the time comparison through `localeCompare` are modelled as character-by-character comparison of the texts. This is exact only for well-formed `YYYY-MM-DD` dates and `HH:MM` times. A comparator involving an unparseable date returns NaN, and the resulting order is not modelled.
- `formatDate` is not modelled, because it depends on `Intl.DateTimeFormat`. The roster text takes the service label it builds as a plain string.
- `encodeURIComponent` is not modelled. `Text.RosterText` is the text before encoding.
- The Blob, object URL and link-click mechanics of `downloadCSV` are not modelled, because they are I/O. `Store.ScheduleStore.ExportCsv` returns the file name and content that would be downloaded.
- `Store.ScheduleStore.UpdateAssignment`: an update object whose keys are present but set to `undefined` would write `undefined` into the record. The model's patch has only "present with a value" and "absent".
- `ChurchService.description` is optional in the record type. Every service the app creates carries a string, so the model uses a plain string.
