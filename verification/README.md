# Timetable editor core, in Dafny

This project models the data-handling core of a university timetable editor, a React application.
The editor lets a coordinator keep five lists: degrees (licenciaturas), shifts (turnos), teachers,
subjects and groups. It can also show a generated timetable. The model covers three parts:

- **Availability editor** (`Availability`): each teacher's weekly availability is a list of time
  slots. The editor paints it as a grid of (day, hour) cells, 07:00 to 22:00. A click on a cell
  rebuilds the list in three steps:
  1. it gathers each day's hours in a dictionary kept in key-insertion order;
  2. it flips the clicked hour and sorts that day;
  3. it compresses every day's hours back into slots, one slot per run of consecutive hours.

  The methods keep the source's loops. Their contracts go through one specification function,
  `Cells`, which gives the set of cells a slot list covers.
- **Schedule view** (`ScheduleGrid`): one block per group, rendered as follows.
  - A group whose shift id matches no shift gets an error block.
  - Otherwise the block is a grid: the shift's days are the columns, and one "HH:00" row per hour
    of the shift.
  - A cell shows the first schedule entry of the group with that day and exactly that start text.
  - An unknown subject or teacher is named "Desconocido". The subject colour is the subject's list
    index modulo 8, taken with JavaScript's truncating `%`.
- **Data handlers** (`AppStore`, `SubjectPicker`):
  - add, update and remove for every list;
  - guarded removal: a subject, shift or degree still referred to stays, and a notice is raised
    instead;
  - the form validations and the trimming of degree names;
  - the checkbox toggles, and the reset of a group's subjects when its degree changes;
  - the subject pickers, which bucket subjects by degree and by ascending semester.

  React state updates (`prev => next`) become functions from one `AppState` to the next. The
  two picker loops are methods.

Supporting modules:

- `Domain`: the entity datatypes.
- `EntityLists`: the generic `find`/`findIndex`/`filter`/`map`/toggle operations, each with its
  contract.
- `HourFormat`: the `padStart(2, '0')` hour labels, and a reading-back function proving that
  labels are injective.
- `Sorting`: the numeric sort.
- `JsText`: `String.prototype.trim` over the ECMAScript white-space set.

Times written "HH:mm" are represented by their hour, an `int`. That is all `parseInt(s.split(':')[0])`
keeps of them. The availability set's string keys `${day}-HH:00` are modelled as (day, hour)
pairs, which is faithful because `HourFormat.HourLabelInjective` proves distinct hours give
distinct labels. Schedule entries keep their start as a string, because the grid compares it
as text.

## Model

| member | source | states |
|---|---|---|
| Availability.CellsMembership | components/AvailabilityEditor.tsx:17-22 | a cell (d, h) is in the availability set exactly when some slot on day d has start <= h < end |
| Availability.EmptySlotCoversNothing | components/AvailabilityEditor.tsx:20 | a slot whose end is not after its start adds no cell |
| Availability.AvailabilitySet | components/AvailabilityEditor.tsx:15-25 | the set the nested loops build is exactly the cells the slots cover |
| Availability.DayOrder | components/AvailabilityEditor.tsx:28-41 | the days in order of first appearance carry no repeats |
| Availability.DayOrderMembership | components/AvailabilityEditor.tsx:28-41 | a day is listed exactly when some slot falls on it |
| Availability.BuildDayHours | components/AvailabilityEditor.tsx:28-41 | the day list is `DayOrder` of the slots (each day once, in order of its first slot), the per-day map has a key exactly for those days, no hour twice in a day's list, and the map holds exactly the covered cells |
| Availability.AddSlotHours | components/AvailabilityEditor.tsx:35-39 | appending a slot's missing hours keeps the old list as a prefix, keeps the list duplicate-free and yields the old hours plus the slot's hours |
| Availability.IndexOf | components/AvailabilityEditor.tsx:47 | the index of the first occurrence of the hour |
| Availability.RemoveAt | components/AvailabilityEditor.tsx:48 | `splice(index, 1)` removes exactly one occurrence of that element |
| Availability.ToggledHours | components/AvailabilityEditor.tsx:44-52 | the clicked day's hours with the clicked hour flipped, strictly ascending, no duplicates |
| Availability.ToggleClickedDay | components/AvailabilityEditor.tsx:43-52 | the map after the toggle holds the same cells except the clicked one, which is flipped; the clicked day's list is strictly ascending; the key order is unchanged, a day that had no key becoming the last one |
| Availability.CompressRuns | components/AvailabilityEditor.tsx:59-71 | a non-empty hour list becomes at least one slot on that day, each with start < end, covering exactly the listed hours even when the list is unsorted; for a strictly ascending list the slots are ascending maximal runs |
| Availability.NonEmptyDays | components/AvailabilityEditor.tsx:56-57 | the keys the third step writes slots for are exactly the keys whose list is not empty |
| Availability.MapToSlots | components/AvailabilityEditor.tsx:55-72 | a day with an empty list emits no slot; the slots cover exactly the map's cells, each with start < end; the clicked day's slots are maximal runs; the slots' days, in order of first appearance, are the keys with a non-empty list in key order |
| Availability.HandleTimeSlotClick | components/AvailabilityEditor.tsx:27-74 | the new availability covers the old cells with exactly the clicked cell flipped; every slot has start < end; the clicked day's slots are ascending maximal runs; the days of the new list, in order, are the old days in order of first appearance followed by the clicked day when it had no slot, keeping those that still have a cell |
| Availability.ToggleTwice | components/AvailabilityEditor.tsx:46-51 | flipping a cell twice gives back the original cell set |
| Availability.ToggleChangesOnlyClicked | components/AvailabilityEditor.tsx:46-51 | a click changes the clicked cell and no other |
| Availability.ClickTwice | components/AvailabilityEditor.tsx:27-74 | two clicks on the same cell give back an availability covering the original cells |
| Availability.NoSlotForEmptyDay | components/AvailabilityEditor.tsx:57 | in a list of non-empty slots, a day with no covered cell has no slot at all |
| HourFormat.HourLabelRoundTrip | components/AvailabilityEditor.tsx:21 | the label of hour h (decimal digits padded to two with '0', then ":00") reads back as h |
| HourFormat.HourLabelInjective | components/AvailabilityEditor.tsx:21 | two hours with the same label are the same hour, so a `${day}-HH:00` key names one cell |
| HourFormat.HourLabelShape | components/AvailabilityEditor.tsx:11 | hours 0 to 99 give five-character labels of two digits and ":00" |
| ScheduleGrid.EditorRowsAreHourRows | components/AvailabilityEditor.tsx:11 | the editor's sixteen row labels are the hour rows 07:00 to 22:00 |
| Sorting.SortAscending | components/AvailabilityEditor.tsx:52 | `sort((a, b) => a - b)` gives an ascending permutation of the list |
| Sorting.SortedDistinctIsStrict | components/AvailabilityEditor.tsx:52 | sorting a duplicate-free list gives a strictly ascending one |
| Sorting.SortDistinct | App.tsx:550 | sorting distinct keys gives the strictly ascending sequence of exactly those keys |
| ScheduleGrid.GenerateHours | components/ScheduleDisplay.tsx:13-23 | the loop yields max(0, end - start) labels, and row i reads back as hour start + i |
| ScheduleGrid.HourRowsRiseByOne | components/ScheduleDisplay.tsx:18-21 | row i is the label of start + i, and no two rows share a label |
| ScheduleGrid.JsRemainder | components/ScheduleDisplay.tsx:33 | JavaScript `%`: the ordinary remainder for a non-negative dividend; for a negative dividend the truncating remainder, above -n and at most 0, with the dividend minus it a multiple of n (-1 % 8 is -1) |
| ScheduleGrid.SubjectColor | components/ScheduleDisplay.tsx:31-34 | no colour (`undefined`) exactly for an unknown subject, otherwise the palette entry at its first index modulo 8 |
| ScheduleGrid.ColorRepeatsEveryEight | components/ScheduleDisplay.tsx:25-34 | subjects eight positions apart get the same colour |
| ScheduleGrid.GroupGrid | components/ScheduleDisplay.tsx:48-80 | an error block exactly when no shift has the group's shift id; otherwise the block carries the shift's name, the columns are the shift's days, the rows are the shift's hour labels, and every row has one cell per day |
| ScheduleGrid.ScheduleView | components/ScheduleDisplay.tsx:48-57 | one block per group in group order, block i being group i's grid, an error block exactly for groups whose shift is missing |
| ScheduleGrid.GridCellShowsFirstEntry | components/ScheduleDisplay.tsx:57-80 | a grid cell is occupied exactly when some schedule entry of the group falls on its day and hour, and then shows the first such entry |
| ScheduleGrid.CellShowsFirstMatch | components/ScheduleDisplay.tsx:49-80 | a cell is empty exactly when no entry of the group has that day and start, and otherwise shows the first such entry of the whole schedule |
| ScheduleGrid.ShownEntriesLieInShift | components/ScheduleDisplay.tsx:56-80 | a shown entry belongs to the group, lies on the column's day of the shift, and starts at the label of an hour inside the shift; entries off-shift or off-label are never shown |
| ScheduleGrid.KnownIdsRenderNamesAndColor | components/ScheduleDisplay.tsx:80-92 | a rendered cell (`RenderCell`: the first entry `CellEntry` finds for its day and hour in the group's `GroupSchedule`) with a known subject id shows the first such subject's name, or "Desconocido" when that name is empty, and the palette colour at that subject's index modulo 8; a known teacher id shows the first such teacher's name, or "Desconocido" when it is empty |
| ScheduleGrid.UnknownIdsRenderAsUnknown | components/ScheduleDisplay.tsx:80-84 | an entry with an unknown subject shows "Desconocido" and no colour; one with an unknown teacher shows "Desconocido" |
| EntityLists.FindIndex | components/ScheduleDisplay.tsx:32 | `findIndex`: -1 when nothing matches, otherwise the first matching index |
| EntityLists.FindFirst | components/ScheduleDisplay.tsx:80 | `find`: nothing when no element matches, otherwise the first match |
| EntityLists.IndexOfId | components/ScheduleDisplay.tsx:32 | the first index with that id, or -1 when none has it |
| EntityLists.FindById | components/ScheduleDisplay.tsx:38-40 | nothing exactly when no entity has the id, otherwise the first entity with it |
| EntityLists.FindEntityName | components/ScheduleDisplay.tsx:42-44 | the found entity's name, or the fallback when it is missing or its name is empty |
| EntityLists.Filter | components/ScheduleDisplay.tsx:49 | `filter` keeps exactly the matching elements, each as often as before |
| EntityLists.FilterConcat | components/ScheduleDisplay.tsx:49 | filtering keeps the original order: it distributes over concatenation |
| EntityLists.FilterAllKept | components/ScheduleDisplay.tsx:49 | filtering a list whose elements all match changes nothing |
| EntityLists.FindFirstOfFilter | components/ScheduleDisplay.tsx:49-80 | `find` on a filtered list equals `find` on the whole list for elements passing both tests |
| EntityLists.RemoveById | App.tsx:89 | `filter(e => e.id !== id)` keeps exactly the entities with another id, each as often as before |
| EntityLists.RemoveByIdConcat | App.tsx:89 | removal keeps the survivors in their order |
| EntityLists.RemoveAbsentId | App.tsx:89 | removing an id no entity has changes nothing |
| EntityLists.HasIdAfterRemove | App.tsx:89 | removal keeps every other id present |
| EntityLists.RemoveByIdIdempotent | App.tsx:89 | removing twice is removing once |
| EntityLists.ReplaceById | App.tsx:97 | `map(e => e.id === u.id ? u : e)` keeps the length and ids, replaces exactly the entities with the updated id and leaves the rest |
| EntityLists.FindAfterReplace | App.tsx:97 | after an update of a present id, looking it up finds the updated entity |
| EntityLists.ReplaceAbsentId | App.tsx:97 | updating an absent id changes nothing |
| EntityLists.Without | App.tsx:486 | `filter(y => y !== x)` keeps exactly the other members and keeps a duplicate-free list duplicate-free |
| EntityLists.WithoutIsFilter | App.tsx:486 | dropping a member is `filter` with the test `y !== x` |
| EntityLists.ToggleMember | App.tsx:484-489 | membership of the toggled value flips, every other member stays; a present value is dropped with `Without` (the others keep their order); an absent value is appended at the end |
| EntityLists.ToggleTwice | App.tsx:484-489 | toggling the same value twice gives back the same members |
| AppStore.NameOrNA | App.tsx:238-240 | the first entity's name for that id, or "N/A" when there is none or its name is empty |
| AppStore.AddTeacher | App.tsx:82 | one teacher "Nuevo Docente" with the new id and no availability or subjects is appended; nothing else changes |
| AppStore.RemoveTeacher | App.tsx:84-94 | an unknown id changes nothing; otherwise the teachers become `RemoveById` of them (the others, in their order) and nothing else changes |
| AppStore.AddTeacherThenRemove | App.tsx:82-94 | removing a teacher just added under a fresh id gives back the earlier state |
| AppStore.UpdateTeacher | App.tsx:96-99 | the teachers with the edited id are replaced, the list keeps its length and order |
| AppStore.UpdateTeacherIsFound | App.tsx:96-99 | after updating a present teacher, looking its id up finds the edited teacher |
| AppStore.ToggleCanTeach | App.tsx:484-489 | the subject's membership in the teacher's subjects flips and nothing else about the teacher changes |
| AppStore.SaveSubject | App.tsx:109-116 | editing replaces the subject of that id in place; adding appends the subject under the new id |
| AppStore.SubjectFormSave | App.tsx:621-627 | a missing name or degree raises the "complete all fields" notice and saves nothing; a complete draft is saved by `SaveSubject`; every subject written has a name and a degree |
| AppStore.UntouchedSubjectFormIsRejected | App.tsx:619-627 | saving the new-subject form with its initial empty name adds no subject |
| AppStore.RemoveSubject | App.tsx:118-137 | an unknown id changes nothing; a subject a group or teacher uses stays and a notice names it; otherwise the subjects become `RemoveById` of them (the others, in their order) |
| AppStore.AddGroup | App.tsx:139 | one group "Nuevo Grupo" with the new id and no subjects is appended, on the first shift and first degree (the empty id when the list is empty); nothing else changes |
| AppStore.RemoveGroup | App.tsx:141-151 | an unknown id changes nothing; otherwise the groups become `RemoveById` of them (the others, in their order) |
| AppStore.UpdateGroup | App.tsx:153-156 | the groups with the edited id are replaced, the list keeps its length and order |
| AppStore.ToggleGroupSubject | App.tsx:553-558 | the subject's membership in the group flips and nothing else about the group changes |
| AppStore.ChangeGroupDegree | App.tsx:570 | a degree change sets the degree and empties the group's subjects, nothing else |
| AppStore.SaveShift | App.tsx:168-175 | editing replaces the shift of that id in place; adding appends the shift under the new id |
| AppStore.ToggleShiftDay | App.tsx:664-669 | the day's membership in the shift flips and nothing else about the shift changes |
| AppStore.RemoveShift | App.tsx:177-196 | an unknown id changes nothing; a shift a group uses stays and a notice names it; otherwise the shifts become `RemoveById` of them (the others, in their order) |
| AppStore.RenameById | App.tsx:211 | the degrees with that id get the new name and keep their ids; the others are untouched |
| AppStore.SaveDegree | App.tsx:206-216 | a name that trims to nothing changes nothing; with an id, that degree is renamed to the trimmed name and the length is kept; without one, one degree with the trimmed name is appended |
| AppStore.SaveDegreeWritesTrimmedNames | App.tsx:206-216 | every degree written has a non-empty name with no white space at either end |
| AppStore.DegreeFormSave | App.tsx:718-724 | a blank name raises the empty-name notice and saves nothing; otherwise only the degrees change |
| AppStore.DegreeFormTrimsOnce | App.tsx:718-724 | trimming in the form and again in `saveDegree` saves exactly what one trim would |
| AppStore.RemoveDegree | App.tsx:218-236 | an unknown id changes nothing; a degree a subject or group uses stays and a notice names it; otherwise the degrees become `RemoveById` of them (the others, in their order) |
| AppStore.RemoveSubjectKeepsConsistent | App.tsx:118-128 | the subject-removal guard never leaves a group or teacher referring to a missing subject |
| AppStore.RemoveShiftKeepsConsistent | App.tsx:177-184 | the shift-removal guard never leaves a group on a missing shift |
| AppStore.RemoveDegreeKeepsConsistent | App.tsx:218-226 | the degree-removal guard never leaves a subject or group on a missing degree |
| AppStore.RemoveTeacherOrGroupKeepsConsistent | App.tsx:84-151 | removing a teacher or a group leaves no dangling reference among the five entity lists |
| AppStore.AddGroupKeepsConsistent | App.tsx:139 | a group added while a shift and a degree exist refers to existing ones |
| JsText.Trim | App.tsx:207 | `trim` cuts only white space from both ends; the result neither starts nor ends with white space, and it is empty exactly for an all-white-space string |
| JsText.TrimIdempotent | App.tsx:723 | trimming twice is trimming once |
| SubjectPicker.OfKey | App.tsx:459-465 | a key's bucket holds exactly the subjects with that key, in list order |
| SubjectPicker.OfKeyIsFilter | App.tsx:543 | a key's bucket is `filter` with the test `key(s) === k` |
| SubjectPicker.Keys | App.tsx:459-465 | the keys in order of first appearance carry no repeats |
| SubjectPicker.KeysMembership | App.tsx:459-465 | the keys met are exactly the keys some subject of the list carries |
| SubjectPicker.GroupByKey | App.tsx:459-465 | the loop builds, for every key met, the bucket of subjects with that key in list order; keys are recorded in first-appearance order |
| SubjectPicker.BucketBySemester | App.tsx:541-550 | semester buckets in strictly ascending semester order, each non-empty and holding exactly that semester's subjects, every subject's semester present |
| SubjectPicker.BucketsInOrder | App.tsx:550 | walking the sorted semesters yields their buckets in that order |
| SubjectPicker.SubjectsForDegree | App.tsx:540-551 | the semester buckets of the degree's subjects; empty exactly when no subject has that degree |
| SubjectPicker.DegreeEntries | App.tsx:468-480 | walking the keys, each with its bucket, gives one entry per key in key order, each with the degree of that id and the semester buckets of its subjects |
| SubjectPicker.GroupedSubjects | App.tsx:458-482 | one entry per degree id the subjects carry, without repeats; each has the degree found under that id (absent when none) and the semester buckets of that degree's subjects |
| SubjectPicker.SemesterBucketsPartition | App.tsx:540-551 | the semester buckets together hold every subject of the list exactly as often as the list does |
| SubjectPicker.GroupedSubjectsPartition | App.tsx:458-482 | across all degrees and semesters every subject appears exactly once |
| SubjectPicker.SemesterBucketsUnique | App.tsx:550 | the semester view of a list is unique, so the bucketing contract fixes the result |

## Left out

- `services/geminiService.ts` is not part of this model. It builds the prompt, calls the remote model and parses its reply. `handleGenerateSchedule` (App.tsx:45-59) only calls it; the loading and error flags it sets are not modelled either.
- JSX rendering, modal open/close state, the collapsible sections and React memoisation are not modelled. The text inputs' `onChange` record updates (names, shift times) are not modelled either.
- `Date.now()` ids are not modelled: the new id is a parameter of each add handler.
- The deletion confirmation dialog is not modelled. Each removal is the confirmed removal; cancelling changes nothing.
- The generated schedule (App.tsx:26) is not part of `AppState`. Only `handleGenerateSchedule` sets it, and the removal handlers (App.tsx:84-236) leave it as it is. A schedule shown after a teacher, group or subject was removed can therefore still name the removed id: the grid then shows "Desconocido" for that teacher or subject, or no longer shows that group. `Consistent` and the `Remove*KeepsConsistent` lemmas speak only of the five entity lists.
- Notice texts are not modelled: a notice is a datatype value carrying the entity name.
- The initial mock data (`constants.ts`) is not modelled.
- `parseInt` on arbitrary text is not modelled.
  - Slot and shift times are their hour, as an `int`.
  - The minutes of a "HH:mm" time are dropped, as `parseInt(s.split(':')[0])` drops them.
  - A time whose hour part is not a number (NaN) is not represented.
  - The subject form's `parseInt(...) || 1` for hours and semester is not modelled.
- HourFormat.ParseHour reads only an optional '-' followed by digits before the first ':'. It exists only to state what a label encodes.
- ScheduleGrid.GenerateHours takes the shift's start and end hour already parsed.
- ScheduleGrid.SubjectColor gives `None` where the source reads `undefined`. The resulting class text "undefined" is not modelled.
- SubjectPicker.BucketBySemester keeps each semester's subjects in list order. The `localeCompare` sort by subject name is not modelled, because it depends on locale collation.
- SubjectPicker.SubjectsForDegree, SubjectPicker.DegreeEntries and SubjectPicker.GroupedSubjects keep each semester's subjects in list order. The `localeCompare` name sort of App.tsx:478 and App.tsx:550 is not modelled, because it depends on locale collation.
- SubjectPicker.GroupedSubjects keeps degree entries in first-appearance order. Two orderings are not modelled:
  - the final `localeCompare` sort by degree name, which depends on locale collation;
  - JavaScript's ordering of integer-like object keys, which would put a degree id such as "12" first.
- The day names `Miércoles` and `Sábado` are written `Miercoles` and `Sabado`.
- Schedule entries' end time is not used by the grid, so no property is stated about it.
