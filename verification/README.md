# Practical examination scheduler — a Dafny model

This project models the rules at the core of the CIT practical-examination
scheduler, a web application that does three things:

- It fills lab sessions with students, subject by subject.
- It lets a coordinator assign internal examiners to sessions while guarding against double bookings.
- It keeps a local list of saved department allocations and exports them as CSV.

Each core source file becomes one Dafny module:

| module | source file | form |
|---|---|---|
| `Allocation` | `src/lib/allocation.ts` | the nested day/session/lab loop with its labelled break, proved equal to a greedy fold over the slot order |
| `ViewAllocations` | `src/app/view-allocations/page.tsx` | examiner assignment map keyed by subject code, date and lab joined with pipes, the export filter, the day/lab cards |
| `SavedAllocations` | `src/app/view-allocations/page.tsx` | the saved list: upsert, remove, view, drag-reorder inside the phase/regulation view, the summary panel |
| `AllocateSessions` | `src/pages/AllocateSessions.tsx` | the 30-student session generator, examiner availability by day, the low-experience dialog |
| `ViewLabs` | `src/pages/ViewLabs.tsx` | sessions-per-day, session and day estimates |
| `EnterExamDetails` | `src/app/enter-exam-details/page.tsx` | subject list update and resize, the Next predicate |
| `SelectTimePhase` | `src/app/select-time-phase/page.tsx` | start/end date clamping, the Next predicate |
| `Export` | `src/app/export/page.tsx` | CSV quoting and lines, examiner lookup, department grouping, summary totals |
| `SelectRegulation` | `src/pages/SelectRegulation.tsx` | regulation/department join, selection and continue guard |
| `SummaryBar` | `src/components/SummaryBar.tsx` | the title string |
| `GlobalSubtitle` | `src/components/GlobalSubtitle.tsx` | the subtitle string |

`Common` holds the shared pieces: `Option`/`Result`, `Math.ceil` of a quotient,
splitting and joining on a separator, ASCII upper-casing, and first-occurrence
deduplication.

Code that changes state step by step is modelled imperatively, and each such method is
proved equal to a specification function:

- the allocation loops (`Allocation.GenerateAllocations`, `Allocation.AllocateSubject`);
- the session loop (`AllocateSessions.GenerateSessions`);
- the subject-list resize (`EnterExamDetails.OnNumSubjectsChange`);
- the CSV builder (`Export.ExportCsv`);
- the grouping reduce (`Export.GroupRows`);
- the reorder write-back (`SavedAllocations.WriteBack`, `SavedAllocations.Reorder`).

Page state that handlers update in place is a class:

- `AllocateSessions.SessionBoard`: the sessions and the warning dialog;
- `ViewAllocations.AssignmentBoard`: the assignment map, with no same-day double booking as its invariant;
- `SavedAllocations.SavedList`: the saved list and the entry being viewed.

Conventions used throughout:

- Dates are opaque `YYYY-MM-DD` strings. They are compared as JavaScript compares strings.
- In the session generator a date is a day offset from the day the sessions were generated.
- A JavaScript value that may be `undefined` or `null` is an `Option`, or the empty string where the source only tests it for truthiness.

## Model

| member | source | states |
|---|---|---|
| Allocation.GenerateAllocations | src/lib/allocation.ts:25-58 | The three nested loops return exactly `Allocations`. That is no rows for no labs, no subjects, no days or a non-positive session count. Otherwise each subject's greedy rows follow in subject order. |
| Allocation.AllocateSubject | src/lib/allocation.ts:36-54 | One subject's loop is the greedy fold over the (day, session 1..spd, lab) order, with the labelled `break outer` included. |
| Allocation.Allocations | src/lib/allocation.ts:27-30 | Empty labs, empty subjects, zero days or `sessionsPerDay <= 0` give no rows. |
| Allocation.PartialRunIsFinal | src/lib/allocation.ts:40 | Breaking out once nothing remains gives the same result as visiting every remaining slot. |
| Allocation.RunShape | src/lib/allocation.ts:40-51 | Rows are emitted for a prefix of the slots, one per slot in order. `remaining` is the total minus what was placed. A non-positive total emits nothing. |
| Allocation.RunBounds | src/lib/allocation.ts:40-51 | With positive capacities:<br>- each row holds 1..capacity students;<br>- every row but the last fills its lab;<br>- the remainder never goes negative;<br>- slots go unused only when nothing remains. |
| Allocation.RunConservation | src/lib/allocation.ts:36-51 | A non-negative total places `min(total, seats of the slots)` students. |
| Allocation.SlotsOrder | src/lib/allocation.ts:37-39 | The visiting order has `days × spd × labs` slots. Each is a real cell with session in 1..spd. They come in strictly increasing (day, session, lab) order. |
| Allocation.SlotsCapacity | src/lib/allocation.ts:37-41 | The timetable offers `days × spd × Σcapacity` seats per subject. |
| Allocation.SubjectRowsConservation | src/lib/allocation.ts:34-54 | Per subject, the students placed equal `min(totalStudents, days × spd × Σcapacity)`. The excess is dropped silently. A non-positive count places nobody. |
| Allocation.SubjectRowsFollowSlots | src/lib/allocation.ts:37-51 | Row k of a subject is slot k of the visiting order, filled with 1..capacity students. All but the last row are full. Slots are left unused only once the whole count is placed. |
| Allocation.SubjectRowsWithinTimetable | src/lib/allocation.ts:42-50 | Every row carries the subject's code and name, a listed date, a session in 1..sessionsPerDay, and a listed lab whose capacity it respects. |
| Allocation.AllocationsAppend | src/lib/allocation.ts:35-36 | The rows for `a + b` are the rows for `a` followed by those for `b`. Each subject restarts from the full count. |
| Allocation.AllocationsOneSubject | src/lib/allocation.ts:35-55 | With a real timetable, a single subject's output is its own greedy fill. |
| Allocation.AllocationsTotal | src/lib/allocation.ts:34-57 | The output places the number of subjects × `min(total, seats)` students in all. |
| Allocation.ExampleTwoLabs | src/lib/allocation.ts:37-51 | Labs of 20 and 15 seats, one slot each, 35 students: rows of 20 then 15. |
| Allocation.ExampleOverflow | src/lib/allocation.ts:37-51 | One 30-seat slot and 45 students: one row of 30, and 15 students are never placed. |
| ViewAllocations.KeyDateField | src/app/view-allocations/page.tsx:122-125 | With pipe-free code and date, the second pipe-separated piece of the key built from code, date and lab is the date. |
| ViewAllocations.TakenForDay | src/app/view-allocations/page.tsx:123-127 | The ids held under another key whose date field is the date, and only those. |
| ViewAllocations.SelectOutcomeOf | src/app/view-allocations/page.tsx:114-131 | The selection is handled in four ways:<br>- ignored exactly when the id is empty;<br>- refused exactly when the roster's first match has under 2 years;<br>- accepted only when no other same-day key holds the id;<br>- refused as already taken only when one does. |
| ViewAllocations.SelectPreservesNoDoubleBooking | src/app/view-allocations/page.tsx:121-132 | Every selection keeps the invariant: no id is held under two keys with the same date. |
| ViewAllocations.AlreadyTakenWouldDoubleBook | src/app/view-allocations/page.tsx:128-131 | A selection refused as already taken would, if stored, break that invariant. |
| ViewAllocations.ReselectSameKeyAccepted | src/app/view-allocations/page.tsx:122-132 | Re-selecting a key's own examiner is accepted and leaves the map as it was. |
| ViewAllocations.SampleLowExperienceRefused | src/app/view-allocations/page.tsx:25-38 | With no department faculty, the sample member with one year is warned about and the map is unchanged. |
| ViewAllocations.AssignmentBoard.constructor | src/app/view-allocations/page.tsx:105 | The map starts empty and satisfies the invariant. |
| ViewAllocations.AssignmentBoard.Select | src/app/view-allocations/page.tsx:114-133 | The map changes only on acceptance, and then only at the key of that subject code, date and lab. The invariant is kept. |
| ViewAllocations.HasAssigned | src/app/view-allocations/page.tsx:107-112 | True exactly when some row's key holds a non-empty id. |
| ViewAllocations.ExportRows | src/app/view-allocations/page.tsx:144-147 | The rows handed to export are exactly the generated rows whose key holds an id. |
| ViewAllocations.HasAssignedIffExportRows | src/app/view-allocations/page.tsx:107-160 | The export button's enabling test and goExport's "nothing to export" refusal agree. |
| ViewAllocations.ExportRowsAppend | src/app/view-allocations/page.tsx:144-147 | The filter keeps generation order: it distributes over concatenation. |
| ViewAllocations.ParseDayLabString | src/app/view-allocations/page.tsx:97-100 | With pipe-free fields, a card string splits back into its date, lab name and lab key. |
| ViewAllocations.DayLabKeysExact | src/app/view-allocations/page.tsx:95-102 | The cards are exactly the rows' (date, lab) pairs, each once. |
| SavedAllocations.FindSaved | src/app/view-allocations/page.tsx:218 | `findIndex`: the first index with that identity, or -1 exactly when there is none. |
| SavedAllocations.UpsertShape | src/app/view-allocations/page.tsx:218-225 | Saving works in one of two ways:<br>- a match is replaced in place, keeping its `createdAt`, length unchanged;<br>- otherwise the payload is appended.<br>Non-matching entries are untouched. |
| SavedAllocations.FindAfterUpsert | src/app/view-allocations/page.tsx:218-225 | After saving, the lookup finds the payload at the old index or at the end. |
| SavedAllocations.UpsertIdempotent | src/app/view-allocations/page.tsx:218-226 | Saving the same payload twice equals saving it once. |
| SavedAllocations.Removed | src/app/view-allocations/page.tsx:230-237 | The result holds exactly the entries without that identity. |
| SavedAllocations.RemovedAppend | src/app/view-allocations/page.tsx:231-235 | Removal keeps the survivors in their original order. |
| SavedAllocations.RemovedNoMatch | src/app/view-allocations/page.tsx:231-235 | Removing an identity that is absent leaves the list as it was. |
| SavedAllocations.RemovedDropsMatch | src/app/view-allocations/page.tsx:231-235 | A matching entry is dropped wherever it sits. |
| SavedAllocations.RemoveAfterUpsert | src/app/view-allocations/page.tsx:218-235 | Removing after saving leaves no entry with that identity and the others as before the save. |
| SavedAllocations.Lookup | src/app/view-allocations/page.tsx:269 | `viewSaved`'s find returns the first listed entry with that identity, or None exactly when there is none. |
| SavedAllocations.ViewIndicesShape | src/app/view-allocations/page.tsx:255-257 | onDrop's `indices` are increasing, in range, list the filtered entries one for one, and are exactly the positions in view. |
| SavedAllocations.FilteredInView | src/app/view-allocations/page.tsx:274 | `filteredSaved` holds only entries of the current phase and regulation. |
| SavedAllocations.MoveProperties | src/app/view-allocations/page.tsx:261-262 | The two splices put the moved entry at the target and keep the others in relative order. Nothing is gained or lost. |
| SavedAllocations.MoveBack | src/app/view-allocations/page.tsx:261-262 | Dragging back undoes a drag. |
| SavedAllocations.MoveStaysInView | src/app/view-allocations/page.tsx:259-262 | The moved view has the same entries, all still in view. |
| SavedAllocations.WriteBackView | src/app/view-allocations/page.tsx:263-264 | Writing in-view entries into the view's positions makes them the new view. |
| SavedAllocations.ReorderIsPermutation | src/app/view-allocations/page.tsx:254-265 | A drop that rewrites only in-view positions is a permutation of the whole list. |
| SavedAllocations.WriteBack | src/app/view-allocations/page.tsx:263-264 | The `forEach` write-back gives each listed position its value. Every other position keeps its entry. |
| SavedAllocations.Reorder | src/app/view-allocations/page.tsx:255-265 | After an accepted drop:<br>- entries outside the view keep their indices;<br>- the new view is the old view with `src` moved to `target`;<br>- the list is a permutation of the old one. |
| SavedAllocations.Summarize | src/app/view-allocations/page.tsx:409-428 | Total Subjects is the number of different code-and-name keys and Unique Days the number of different dates. Total Sessions is the row count. Subjects and days are at most that, and zero exactly when there are no rows. |
| SavedAllocations.GroupOf | src/app/view-allocations/page.tsx:417 | Exactly the rows with that subject code. |
| SavedAllocations.GroupOfCount | src/app/view-allocations/page.tsx:417-419 | The group holds one row for each position whose row has that code, so `group.length` counts them. |
| SavedAllocations.SubjectBreakdownCounts | src/app/view-allocations/page.tsx:415-419 | A line's sessions is the number of rows with its code, and its days the number of different dates among those rows. |
| SavedAllocations.SubjectBreakdownBounds | src/app/view-allocations/page.tsx:415-419 | Each per-subject line names a code that occurs and counts `1 <= days <= sessions <= rows`. |
| SavedAllocations.SavedList.constructor | src/app/view-allocations/page.tsx:181-190 | The list starts as loaded and nothing is selected. |
| SavedAllocations.SavedList.Save | src/app/view-allocations/page.tsx:197-228 | Nothing is saved without rows, a department and a phase. Otherwise the list becomes the upsert of the payload, named "Department" when no name is given. |
| SavedAllocations.SavedList.Remove | src/app/view-allocations/page.tsx:230-237 | The list becomes `Removed` of the current identity. The selection is kept. |
| SavedAllocations.SavedList.View | src/app/view-allocations/page.tsx:268-272 | The matching entry is selected, or the selection stays. The list is unchanged. |
| SavedAllocations.SavedList.Drop | src/app/view-allocations/page.tsx:249-266 | The list is unchanged when the drop is refused: NaN source, equal indices, empty view, or out of range. Otherwise the old view is moved inside the view, other entries keep their indices, and the result is a permutation. |
| AllocateSessions.GenerateSessions | src/pages/AllocateSessions.tsx:127-154 | The loop produces `Generated`:<br>- no sessions for a non-positive count;<br>- a RangeError with sessions to place and no timing;<br>- otherwise `Sessions`. |
| AllocateSessions.SessionCountBounds | src/pages/AllocateSessions.tsx:128-129 | `ceil(total/30)` sessions seat everyone and one fewer would not. The count is positive exactly when students are. |
| AllocateSessions.SessionsShape | src/pages/AllocateSessions.tsx:135-150 | Sessions are numbered 1..n and start without an examiner. Each holds 1..30 students, and all but the last hold 30. |
| AllocateSessions.SessionsCoverAll | src/pages/AllocateSessions.tsx:141-142 | The session counts add up to the lab's student total. |
| AllocateSessions.SessionsDays | src/pages/AllocateSessions.tsx:136-147 | Session i is on day `i / spd` with timing `i mod spd`. Days never decrease. Sessions on one day are fewer than spd apart and use distinct timings. |
| Common.FindFaculty | src/pages/AllocateSessions.tsx:157 | The first roster member with that id, or None exactly when no member has it. The same lookup serves the view-allocations page (src/app/view-allocations/page.tsx:116). |
| AllocateSessions.AssignedOn | src/pages/AllocateSessions.tsx:185-187 | Exactly the ids assigned to sessions on that day. |
| AllocateSessions.AvailableFaculty | src/pages/AllocateSessions.tsx:183-190 | Exactly the roster members not assigned on that day, including the current session's own examiner. |
| AllocateSessions.NotBooked | src/pages/AllocateSessions.tsx:189 | The roster members whose id is not among the booked ids, and never more than the roster. |
| AllocateSessions.AvailableAppend | src/pages/AllocateSessions.tsx:189 | The filter keeps roster order. |
| AllocateSessions.FreshScheduleAllAvailable | src/pages/AllocateSessions.tsx:144-190 | On freshly generated sessions the whole roster is available every day. |
| AllocateSessions.AssignedNotAvailable | src/pages/AllocateSessions.tsx:172-190 | Once an examiner is placed on a session, nobody with that id is offered again on that day. |
| AllocateSessions.SessionBoard.constructor | src/pages/AllocateSessions.tsx:153 | The generated sessions are stored and the dialog is closed. |
| AllocateSessions.SessionBoard.AssignFaculty | src/pages/AllocateSessions.tsx:172-176 | Only the indexed session's examiner changes. An index out of range throws and stores nothing. |
| AllocateSessions.SessionBoard.HandleFacultyAssignment | src/pages/AllocateSessions.tsx:156-170 | A roster member with under 2 years only opens the dialog and leaves the sessions alone. Anyone else is assigned at once. |
| AllocateSessions.SessionBoard.ConfirmLowExperience | src/pages/AllocateSessions.tsx:178-181 | Confirming assigns the pending choice and closes the dialog. If the index is out of range, nothing changes. |
| AllocateSessions.SessionBoard.CancelDialog | src/pages/AllocateSessions.tsx:420 | Cancelling closes the dialog and changes no session. |
| Common.CeilDiv | src/pages/AllocateSessions.tsx:129 | `Math.ceil(n/d)` for d > 0: `q·d >= n` and `(q-1)·d < n`. |
| Common.CeilDivLeast | src/pages/ViewLabs.tsx:116-118 | That quotient is the least q with `q·d >= n`. |
| Common.SplitJoin | src/app/view-allocations/page.tsx:97-99 | Splitting a join of separator-free pieces gives the pieces back. |
| Common.Upper | src/components/SummaryBar.tsx:20-21 | `toUpperCase` keeps the length and upper-cases each ASCII letter. |
| Common.DistinctProperties | src/app/view-allocations/page.tsx:96-98 | `Array.from(new Set(...))` keeps exactly the values, each once, and never more entries than the input. |
| Common.DistinctOrder | src/app/view-allocations/page.tsx:96-98 | The values come in the order of their first occurrence in the input. |
| Common.DistinctCount | src/app/view-allocations/page.tsx:409-410 | There are as many entries as the input has different values, the size of the `Set`. |
| ViewLabs.SessionsPerDay | src/pages/ViewLabs.tsx:111-114 | 3 exactly for "phase-3", otherwise 2, including for no phase. |
| ViewLabs.TotalSessions | src/pages/ViewLabs.tsx:116-118 | `k·30 >= n` and `(k-1)·30 < n`. |
| ViewLabs.DaysRequired | src/pages/ViewLabs.tsx:194-196 | `d·spd >= sessions` and `(d-1)·spd < sessions`. |
| ViewLabs.TotalSessionsLeast | src/pages/ViewLabs.tsx:116-118 | The session count is the least k with `30k >= n`. |
| ViewLabs.TotalSessionsAgree | src/pages/ViewLabs.tsx:116-118 | The lab page's estimate equals the number of sessions the session page generates. It is positive exactly when students are. |
| ViewLabs.EmptyLab | src/pages/ViewLabs.tsx:194-196 | Zero students exactly when zero sessions, and exactly when zero days. |
| ViewLabs.DaysSeatEveryone | src/pages/ViewLabs.tsx:194-196 | The days estimate seats everyone and is the least number of days that does. |
| ViewLabs.DaysMatchSchedule | src/pages/ViewLabs.tsx:194-196 | With one timing per daily session, the generated sessions end on the last estimated day. |
| EnterExamDetails.WithField | src/app/enter-exam-details/page.tsx:21 | The chosen field gets the value and the other field is kept. |
| EnterExamDetails.UpdateSubject | src/app/enter-exam-details/page.tsx:20-22 | Only field `key` of entry `idx` changes. Length and the other entries are kept, and an index out of range changes nothing. |
| EnterExamDetails.UpdateTwice | src/app/enter-exam-details/page.tsx:20-22 | A second write to the same field replaces the first. |
| EnterExamDetails.SliceEnd | src/app/enter-exam-details/page.tsx:29 | `slice(0, end)`'s end for a non-negative end is `min(end, length)`. |
| EnterExamDetails.OnNumSubjectsChange | src/app/enter-exam-details/page.tsx:24-31 | The push loop then `slice` gives `Resized(prev, n)`. |
| EnterExamDetails.ResizedShape | src/app/enter-exam-details/page.tsx:26-30 | For n >= 0 the list has exactly n entries. The first `min(old, n)` are unchanged and new ones are blank. |
| EnterExamDetails.ResizedNegative | src/app/enter-exam-details/page.tsx:29 | A negative n drops -n entries from the end, down to none. |
| EnterExamDetails.ResizedIdempotent | src/app/enter-exam-details/page.tsx:24-31 | Resizing to the current length, or twice to the same n, changes nothing more. |
| EnterExamDetails.SomeIncomplete | src/app/enter-exam-details/page.tsx:81 | True exactly when some subject lacks a name or a code. |
| EnterExamDetails.NextEnabled | src/app/enter-exam-details/page.tsx:81 | Next is enabled exactly when students is non-zero and every subject has a name and a code. |
| EnterExamDetails.GrowingDisablesNext | src/app/enter-exam-details/page.tsx:28 | Adding subjects disables Next. |
| EnterExamDetails.ShrinkingKeepsNext | src/app/enter-exam-details/page.tsx:29 | Shrinking a complete list keeps Next enabled. |
| EnterExamDetails.UpdateKeepsNext | src/app/enter-exam-details/page.tsx:20-22 | Filling a field with non-empty text cannot disable Next. |
| SelectTimePhase.Clamp | src/app/select-time-phase/page.tsx:46 | Values are clamped as follows:<br>- empty stays empty;<br>- a value before the minimum becomes the minimum;<br>- any other value is kept;<br>- a non-empty result is never before the minimum. |
| SelectTimePhase.OnStartChange | src/app/select-time-phase/page.tsx:44-49 | The start is clamped to today. An end before the new start is raised to it, otherwise kept. The result is consistent. |
| SelectTimePhase.OnEndChange | src/app/select-time-phase/page.tsx:59-64 | The end is clamped to the start, or to today while no start is chosen. The start and phase are kept and the result is consistent. |
| SelectTimePhase.EditsKeepConsistent | src/app/select-time-phase/page.tsx:44-64 | Over any edit sequence the end is never before the start. The phase changes only through the selector. |
| SelectTimePhase.NextEnabledAfterEdits | src/app/select-time-phase/page.tsx:81 | From the first render, Next is enabled exactly when both dates are chosen. |
| SelectTimePhase.EndNotInPast | src/app/select-time-phase/page.tsx:57-64 | A consistent form whose start is not before today has an end not before today. |
| SelectTimePhase.LexTotal | src/app/select-time-phase/page.tsx:81 | Of two different date strings exactly one is the smaller. |
| SelectTimePhase.LexTransitive | src/app/select-time-phase/page.tsx:81 | The string order is transitive. |
| Export.QuoteRoundTrip | src/app/export/page.tsx:158-165 | A quoted field reads back to its text under section 2 of RFC 4180, for any text. |
| Export.NaiveQuoteBreaks | src/app/export/page.tsx:186-196 | Quoting without doubling inner quotes does not read back for `a"b`, while the doubled quoting does. |
| Export.IntToString | src/app/export/page.tsx:161 | The student count renders as non-empty text with no comma, quote or line break. |
| Export.FacultyKeyMatchesReview | src/app/export/page.tsx:151 | The export's lookup key is the key the review page stored the examiner under. |
| Export.DisplayedFaculty | src/app/export/page.tsx:152-153 | The directory name when there is one, else the raw id, else "Not Assigned". The result is never empty. |
| Export.HeadFaculty | src/app/export/page.tsx:183-184 | The other version shows the raw id or "Not Assigned". |
| Export.FacultyVersionsAgree | src/app/export/page.tsx:184 | The two versions agree whenever the directory has no name for the examiner. |
| Export.Packs | src/app/export/page.tsx:127-135 | There is always at least one pack: the saved ones if any, else the single allocation. |
| Export.Headers | src/app/export/page.tsx:137-140 | 10 columns exactly when several packs are exported, else 8. |
| Export.Fields | src/app/export/page.tsx:154-166 | Every data row has as many fields as the header. |
| Export.FieldsReadBack | src/app/export/page.tsx:154-166 | The lab, subject, examiner and department-name fields read back as their texts under the header that names them. |
| Export.PackLines | src/app/export/page.tsx:150-168 | One line per row of the pack. |
| Export.ExportCsv | src/app/export/page.tsx:125-179 | The file is the header line and then one line per row, pack by pack, joined by line breaks. The file name depends on the pack count. |
| Export.CsvLinesAppend | src/app/export/page.tsx:143-169 | Exporting `a + b` is exporting `a` and then `b`. |
| Export.CsvLinesCount | src/app/export/page.tsx:487 | The CSV of all packs has as many data lines as the page's "Total Allocations". |
| Export.SummaryRows | src/app/export/page.tsx:216-222 | One summary line per saved pack. |
| Export.SummaryAddsUp | src/app/export/page.tsx:216-222 | Lines are numbered 1..n and their allocation counts add up to the total. |
| Export.RowsOf | src/app/export/page.tsx:460-465 | Exactly the rows whose department key is k. |
| Export.GroupRows | src/app/export/page.tsx:460-465 | The reduce with its in-place accumulator equals `Grouped`. |
| Export.GroupedKeys | src/app/export/page.tsx:460-465 | There is a group for exactly the department keys that occur, with "NA" for none. |
| Export.GroupedRows | src/app/export/page.tsx:460-465 | Each group holds exactly its department's rows, in input order. |
| Export.GroupedName | src/app/export/page.tsx:462 | Each group is non-empty and is named after its first row. |
| Export.RowInOneGroup | src/app/export/page.tsx:460-465 | Every row is in its own department's group and in no other. |
| SelectRegulation.DepartmentsOf | src/pages/SelectRegulation.tsx:70 | Exactly the departments naming the regulation. The result is empty when the department query returned nothing. |
| SelectRegulation.Matching | src/pages/SelectRegulation.tsx:70 | The filter keeps exactly the matching departments. |
| SelectRegulation.MatchingAppend | src/pages/SelectRegulation.tsx:70 | The filter keeps query order. |
| SelectRegulation.WithDepartments | src/pages/SelectRegulation.tsx:68-71 | One group per regulation, in query order, with its departments. The result is empty when the regulation query returned nothing. |
| SelectRegulation.DepartmentPlacement | src/pages/SelectRegulation.tsx:68-71 | A department is listed under a regulation exactly when it names it. One naming no listed regulation appears nowhere. |
| SelectRegulation.ChooseRegulation | src/pages/SelectRegulation.tsx:145-148 | Choosing a regulation clears the department. |
| SelectRegulation.ChooseDepartment | src/pages/SelectRegulation.tsx:193 | Choosing a department keeps the regulation. |
| SelectRegulation.ChoosingRegulationBlocksContinue | src/pages/SelectRegulation.tsx:86-90 | After a regulation is chosen, Continue is off until a department is chosen. |
| SelectRegulation.SelectedRegulationData | src/pages/SelectRegulation.tsx:92 | The first regulation with that id, or None exactly when there is none. |
| SelectRegulation.OfferedDepartments | src/pages/SelectRegulation.tsx:175-185 | The departments offered are exactly those naming the selected regulation. |
| SummaryBar.PhaseLabel | src/components/SummaryBar.tsx:12-18 | Undefined exactly for an absent or empty phase. Unknown phases pass through. |
| SummaryBar.Title | src/components/SummaryBar.tsx:9-22 | Renders nothing exactly when both cycle and phase are absent or empty. |
| SummaryBar.TitleShape | src/components/SummaryBar.tsx:20-22 | The title is the prefix plus the upper-cased cycle. The ` (LABEL)` suffix is there exactly when a phase is given. |
| SummaryBar.KnownPhaseLabel | src/components/SummaryBar.tsx:14-20 | The three known phases display as `PHASE n`. |
| SummaryBar.KnownPhaseTitle | src/components/SummaryBar.tsx:20-22 | A known phase's title ends in `(PHASE n)`. |
| GlobalSubtitle.FirstDigit | src/components/GlobalSubtitle.tsx:13 | The position of the first ASCII digit, or the length when there is none. |
| GlobalSubtitle.DigitRun | src/components/GlobalSubtitle.tsx:13 | The maximal run of digits at the front. |
| GlobalSubtitle.PhaseNumber | src/components/GlobalSubtitle.tsx:13 | A non-empty run of digits, and "1" when the phase has no digit. |
| GlobalSubtitle.PhaseNumberIsFirstRun | src/components/GlobalSubtitle.tsx:13 | The number is the first maximal digit run of the phase. |
| GlobalSubtitle.PhaseNumberOfPhase | src/components/GlobalSubtitle.tsx:12-13 | The number of `phase-n` is n. |
| GlobalSubtitle.DefaultSubtitle | src/components/GlobalSubtitle.tsx:11-14 | With no parameters the text is `END-SEMESTER PRACTICAL EXAMINATIONS - NOV/DEC (PHASE 1)`. |
| GlobalSubtitle.AgreesWithSummaryBar | src/components/GlobalSubtitle.tsx:14 | For the three known phases, the subtitle and the summary bar name the same phase number. |

## Left out

- Supabase reads and writes, routing, toasts and React state plumbing are not modelled. Loaded data (labs, faculty, timings, regulations, departments) enters the model as parameters.
- Calendar arithmetic is not modelled: `eachDayOfInterval`, `formatISO`, `new Date()`, `setDate` and `toISOString`.
  - The generator takes its days as an ordered list of date labels.
  - The session page uses a day offset from the generation day.
  - `today` is a parameter of each date-picker edit.
- Allocation.GenerateAllocations: the behaviour of a reversed or invalid date interval belongs to the date library and is not modelled.
- Lab capacities are taken as given integers. The lemmas about bounds and conservation assume positive capacities; the rows themselves are modelled for any capacity.
- `localStorage`, `sessionStorage`, JSON and URL encoding are not modelled, and neither are the PDF/XLSX/Blob downloads and document rendering.
- Export.ExportCsv:
  - `meta` and `facultyDirectory` are undefined in the conflicted export file, so they are parameters.
  - Only the incoming CSV builder (lines 125-179) is modelled. The other version's builder appears only as `Export.NaiveQuote` and `Export.HeadFaculty`.
- Export.Fields: the date, session, time, subject code and department id fields are written unquoted, as in the source. The model does not claim they read back when they contain a comma, a quote or a line break.
- Export.GroupRows: object keys that clash with `Object.prototype` members (such as "constructor") are not modelled; the model uses a plain map.
- Number coercion is not modelled. `Number(...)` of non-numeric or fractional text (NaN, fractions) is not represented; student counts, indices and the dragged index are integers, and a non-number drag source is `None`.
- SavedAllocations.SubjectBreakdown: the `localeCompare` sort of the per-subject table is not modelled, and neither is the sort of the date list. The model keeps first-occurrence order.
- SavedAllocations.Summarize: the faculty names line (directory lookup and `filter(Boolean)`) is not modelled. `facultyInvolved` counts distinct assigned values with no stated property.
- Export.SummaryRows: the creation date is kept as the stored text. The `toLocaleDateString` rendering is not modelled.
- AllocateSessions.SessionBoard.AssignFaculty: the source mutates the session object it shares with the previous state array. The model replaces the element in a new sequence, so it does not capture that aliasing.
- ViewAllocations.KeyDateField: statements about dates read back from keys assume subject codes and dates contain no `|`, as the key format requires.
- ViewAllocations.LabKey: an absent lab id is modelled as the empty string, since `labId || labName` treats both alike.
- Common.Upper: `toUpperCase` is modelled on ASCII letters only. Unicode case mapping is left out.
- SelectTimePhase.LexLess: JavaScript compares UTF-16 code units. The model compares `char` values, which agree on the ASCII digits and dashes of date strings.
- ViewLabs.TotalSessions: `calculateTotalSessions` is modelled only with its default of 30 students per session, the only way it is called.

## Findings

| source | as written | input that shows it | evidently intended | confidence | as-written member | corrected member |
|---|---|---|---|---|---|---|
| src/app/export/page.tsx:186-196 | The other version of the CSV builder wraps the lab and subject names in quotes without doubling quotes inside them. | A subject name `a"b` is written as `"a"b"`, which does not read back as a quoted field. | Quote fields as the incoming version does: `"` + text with each `"` doubled + `"`. | not executed | Export.NaiveQuoteBreaks | Export.QuoteRoundTrip |
