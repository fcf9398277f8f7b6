# TaskEasy task store, modelled in Dafny

TaskEasy is a browser to-do list. Its one piece of real logic is the
`TaskManager` class in `src/TaskManager.js`. The class keeps an ordered
collection of tasks. It validates and creates tasks, merges and re-validates
updates, sorts tasks by priority with a stable sort, and counts tasks per
priority. It also keeps an "editing" pointer and holds two display helpers:
an HTML escaper and a relative-date formatter.

This project models that logic as pure functions over immutable values:

- `wrappers.dfy` (`Wrappers`): `Option` and `Result`.
- `text.dfy` (`Text`): JavaScript's `String.prototype.trim`, with the
  ECMAScript whitespace and line-terminator code points, and the UTF-16
  `length` of a string.
- `tasks.dfy` (`Tasks`, `Validation`): the `Task` record, the `high/medium/low`
  and `to-do/in-progress/done` enums, loosely typed input values (`JsValue` =
  undefined, null or a string), and `validateTask`.
- `store.dfy` (`TaskStore`): the store state (tasks plus `currentEditId`),
  loading, `createTask`, `updateTask`, the edit-mode operations, and the
  invariant that create and update keep.
- `sort.dfy` (`PrioritySort`): `getTasksSortedByPriority` and
  `getPriorityStats` over a raw collection that may hold null entries and
  entries without a priority.
- `escape.dfy` (`Escape`): the non-DOM branch of `escapeHtml`.
- `age.dfy` (`RelativeTime`): the bucket logic of `formatDate`.

Parameters stand in for the clock and the id generator. `Create` takes the
new id and its two clock readings, one for `createdAt` and a later one for
`updatedAt`. `Update` takes `now`. `formatDate` takes the millisecond
difference. Each operation returns a `Step`: the store afterwards, plus the
task returned or the error thrown. That makes "a failed call changes nothing"
an explicit postcondition. `Failure.Message` gives the text of the thrown
`Error`.

The model follows the code in these places:

- The length check uses the raw, untrimmed title (`createTask` validates the
  input before trimming). The emptiness check uses the trimmed title. A title
  made only of whitespace and longer than 100 code units gets both title
  errors, and the first one reported is "Title is required"
  (`Validation.BlankLongTitle`).
- Title length is JavaScript's `length`: UTF-16 code units, not characters
  (`Text.Utf16Length`). A character beyond the Basic Multilingual Plane, such
  as most emoji, counts twice, so 51 characters beyond the Basic Multilingual
  Plane already make a title too long
  (`Validation.AstralTitleTooLong`).
- `updateTask` re-trims the stored title when it writes, even when the update
  does not supply a title. This appears in `TaskStore.UpdatedFrom`.
- The edit pointer lives in the store, as it does in the class.

Some functions carry no contract of their own; lemmas specify them:

- `Escape.EscapeHtml`: `Escape.EscapeHtmlIsCharwise`, `Escape.EscapeHtmlSafe`
  and `Escape.UnescapeEscape`.
- `PrioritySort.Tick`, the reducer of `getPriorityStats`: `PrioritySort.TickTally`.
- `TaskStore.IsInEditMode` and `TaskStore.GetEditingTaskId`: the contracts of
  `TaskStore.EnterEditMode` and `TaskStore.ExitEditMode`.
- `RelativeTime.AgeText`: the contract of `RelativeTime.FormatDate`.
- `Escape.ReplaceAll`, one global `.replace` of a single character:
  `Escape.ReplaceAllChars`, `Escape.ReplaceAllConcat`, `Escape.ReplaceAllAbsent`
  and `Escape.ReplaceAllSingle`.
- `Tasks.StringOf`, which reads a null or undefined text as "" (the null and
  undefined tests of src/TaskManager.js:53, :82, :84, :109 and :112): the
  contracts of `Validation.Validate`, `TaskStore.Create` and `TaskStore.Merge`.
- `PrioritySort.Rank`, the `priorityOrder` table: `PrioritySort.SortSorted`
  and `PrioritySort.SortedIsByBuckets`, which put high before medium before low.
- `Validation.Issue.Message` and `TaskStore.Failure.Message`, the thrown
  texts: `TaskStore.MessagesDistinct`, and the contracts of `TaskStore.Update`
  and `TaskStore.BlankTitleUpdateRefused`, which name the failure thrown.

## Model

| member | source | states |
|---|---|---|
| Text.Trim | src/TaskManager.js:55 | the trimmed text is no longer than the input and neither starts nor ends with whitespace |
| Text.TrimStartDrops | src/TaskManager.js:55 | trimming the start drops an all-whitespace prefix and keeps a suffix that does not start with whitespace |
| Text.TrimEndDrops | src/TaskManager.js:55 | trimming the end drops an all-whitespace suffix and keeps a prefix that does not end with whitespace |
| Text.Utf16Length | src/TaskManager.js:59 | `length` counts UTF-16 code units: at least one and at most two per character |
| Text.Utf16Concat | src/TaskManager.js:59 | the UTF-16 length of a concatenation is the sum of the lengths |
| Text.Utf16Bmp | src/TaskManager.js:59 | without characters beyond the Basic Multilingual Plane, the UTF-16 length is the number of characters |
| Text.Utf16Astral | src/TaskManager.js:59 | characters beyond the Basic Multilingual Plane take two code units each |
| Text.TrimUtf16 | src/TaskManager.js:83-85 | trimming never makes the UTF-16 length longer |
| Text.TrimIsSlice | src/TaskManager.js:83-85 | trim removes exactly a whitespace-only prefix and a whitespace-only suffix; what remains is the contiguous middle of the input |
| Text.TrimFixesTrimmed | src/TaskManager.js:123 | a string equals its own trim exactly when neither end is whitespace |
| Text.TrimIdempotent | src/TaskManager.js:109 | trimming an already trimmed title (update trims it, then trims it again when writing) changes nothing |
| Text.TrimEmptyIff | src/TaskManager.js:55 | the trimmed title is empty exactly when every character of the title is whitespace |
| Tasks.ParsePriority | src/TaskManager.js:63 | a text is accepted as a priority exactly when it is "high", "medium" or "low", and the accepted enum names that same text |
| Tasks.ParseStatus | src/TaskManager.js:67 | a text is accepted as a status exactly when it is "to-do", "in-progress" or "done", and the accepted enum names that same text |
| Tasks.PriorityOf | src/TaskManager.js:63 | a JavaScript value is a valid priority exactly when it is a string that the priority test accepts; null and undefined are refused |
| Tasks.StatusOf | src/TaskManager.js:67 | a JavaScript value is a valid status exactly when it is a string that the status test accepts; null and undefined are refused |
| Tasks.NamesRoundTrip | src/TaskManager.js:63-67 | every enum value's stored name is accepted by validation and parses back to that value |
| Validation.Validate | src/TaskManager.js:50-72 | each of the four errors is reported exactly when its condition holds (null or absent title counts as ""; emptiness after trimming; raw UTF-16 length over 100; priority or status outside its enum), each error at most once, in the fixed order |
| Validation.ValidIff | src/TaskManager.js:50-72 | the error list is empty exactly when the title trims to something non-empty, is at most 100 UTF-16 code units raw, and both enums are valid |
| Validation.LengthBoundary | src/TaskManager.js:59-61 | a title of 100 code units passes the length check and one of 101 fails it; for a title within the Basic Multilingual Plane the limit is 100 characters |
| Validation.AstralTitleTooLong | src/TaskManager.js:59-61 | a title of more than 50 characters beyond the Basic Multilingual Plane is too long |
| Validation.BlankLongTitle | src/TaskManager.js:54-61 | a whitespace-only title over 100 code units gets both title errors, and "Title is required" comes first |
| Validation.FirstIssue | src/TaskManager.js:78 | the first reported error is the earliest-declared one in the list |
| TaskStore.Load | src/TaskManager.js:22-31 | a parsed blob gives its tasks; missing storage, no blob, or an unparseable blob gives the empty collection |
| TaskStore.Init | src/TaskManager.js:5-7 | the constructor loads the tasks and starts outside edit mode |
| TaskStore.FindIndex | src/TaskManager.js:99-102 | gives the first position holding the id, or none exactly when no task has it |
| TaskStore.Create | src/TaskManager.js:75-95 | failed validation gives the first error and leaves the store unchanged; otherwise exactly one task is appended with the given id, trimmed title and description, the input enums, createdAt set to the first clock reading and updatedAt to the second |
| TaskStore.MessagesDistinct | src/TaskManager.js:55-101 | the four validation texts and "Task not found" differ pairwise, so the message identifies the failure |
| TaskStore.Merge | src/TaskManager.js:104-113 | fields not supplied come from the stored task, whose enums always validate; a supplied title or description is converted and trimmed; a supplied priority or status is taken as given |
| TaskStore.Update | src/TaskManager.js:98-130 | an unknown id gives "Task not found"; a merged candidate that fails validation gives its first error; both failures leave the store unchanged; on success only the first task with the id is replaced in place, fields not supplied are kept, supplied text is trimmed, id and creation time are kept, and the update time is the clock |
| TaskStore.ExitEditMode | src/TaskManager.js:166-172 | leaving edit mode clears the pointer and touches no task |
| TaskStore.EnterEditMode | src/TaskManager.js:157-164 | entering edit mode records the id, without checking that a task has it, and touches no task |
| TaskStore.EnterForgetsPrevious | src/TaskManager.js:157-159 | entering edit mode first exits any current edit, so the result does not depend on the previous pointer |
| TaskStore.EmptyStoreValid | src/TaskManager.js:24-29 | a store started without usable stored data satisfies the task invariant |
| TaskStore.CreatedTaskValid | src/TaskManager.js:81-90 | a created task has a trimmed, non-empty title of at most 100 code units and a trimmed description, because trimming a raw title never lengthens it |
| TaskStore.AppendKeepsValid | src/TaskManager.js:92 | appending a valid task whose id is fresh keeps every task valid and all ids distinct |
| TaskStore.ReplaceKeepsValid | src/TaskManager.js:120 | replacing a task in place with a valid task of the same id keeps the store valid |
| TaskStore.CreatePreservesValid | src/setupTests.js:71-80 | createTask keeps every task valid and ids distinct, provided the generated id is fresh and the clock does not go back between its two readings |
| TaskStore.UpdatedTaskValid | src/TaskManager.js:120-126 | an update that passed validation writes a valid task, provided the replaced task was valid and the clock has not gone back |
| TaskStore.UpdatePreservesValid | src/TaskManager.js:98-130 | updateTask keeps the store invariant while the clock does not go back |
| TaskStore.PaddingTrims | src/TaskManager.js:109 | one leading space trims away from a trimmed title |
| TaskStore.CreateRefusesPaddedTitle | src/TaskManager.js:75-79 | createTask validates the raw title, so a valid title of 100 code units padded with one space is refused as too long |
| TaskStore.UpdateAcceptsPaddedTitle | src/TaskManager.js:108-115 | updateTask trims before validating, so the same padded title is accepted and stored without the padding |
| TaskStore.StatusOnlyUpdate | src/TaskManager.js:120-126 | an update that supplies only the status succeeds and keeps title, description, priority and creation time |
| TaskStore.BlankTitleUpdateRefused | src/TaskManager.js:108-118 | a supplied title that trims to nothing is refused with "Title is required" and the store keeps the old task |
| TaskStore.Entries | src/TaskManager.js:136 | the store as a raw collection: one present entry per task, carrying its priority |
| TaskStore.EntriesAllPresent | src/TaskManager.js:137 | the null/priority filter keeps every task of a store built by the operations, in order |
| TaskStore.SortedViewComplete | src/TaskManager.js:133-154 | the sorted view of such a store holds every task, and the three counts add up to the number of tasks |
| PrioritySort.Present | src/TaskManager.js:137 | the filter returns entries that all have a priority and is no longer than the raw collection |
| PrioritySort.PresentMembers | src/TaskManager.js:137 | the filter keeps exactly the entries that are present and have a priority |
| PrioritySort.BucketOnly | src/TaskManager.js:134 | a priority group holds only entries of that priority |
| PrioritySort.InsertPerm | src/TaskManager.js:138-140 | inserting adds exactly the one entry to the multiset of entries |
| PrioritySort.InsertionSort | src/TaskManager.js:136-140 | the sort keeps every entry ranked and the number of entries; the lemmas below state the rest |
| PrioritySort.SortPerm | src/TaskManager.js:136-140 | the sort returns a permutation of its input |
| PrioritySort.InsertSorted | src/TaskManager.js:138-140 | inserting into a sorted sequence keeps it sorted by rank high=1, medium=2, low=3 |
| PrioritySort.InsertBucket | src/TaskManager.js:138-140 | inserting puts the entry at the front of its own priority group and leaves the other groups unchanged |
| PrioritySort.SortSorted | src/TaskManager.js:138-140 | the sort's output is non-decreasing by rank |
| PrioritySort.SortStable | src/TaskManager.js:138-140 | stability: each priority group of the output equals that group of the input, in collection order |
| PrioritySort.BucketEmpty | src/TaskManager.js:134 | a sequence with no entry of a priority has an empty group for it |
| PrioritySort.SortedCons | src/TaskManager.js:138-140 | an entry ranked no worse than every entry of a sorted sequence can be put in front of it and the result stays sorted |
| PrioritySort.SortedIsByBuckets | src/TaskManager.js:138-140 | a sorted sequence is its high group, then its medium group, then its low group |
| PrioritySort.SortedStableUnique | src/TaskManager.js:138-140 | two sorted sequences with the same priority groups are equal, so every stable sort returns the same result |
| PrioritySort.SortByPriority | src/TaskManager.js:133-141 | the result is sorted, a permutation of the filtered entries, stable per priority, and equal to the high-medium-low concatenation |
| PrioritySort.BucketsPartition | src/TaskManager.js:144-154 | the three priority groups partition the filtered entries, so their sizes add up to its length |
| PrioritySort.BucketConcat | src/TaskManager.js:146-151 | a priority group of a concatenation is the concatenation of the groups |
| PrioritySort.PresentConcat | src/TaskManager.js:146-151 | filtering a concatenation concatenates the filtered parts |
| PrioritySort.TickTally | src/TaskManager.js:146-151 | one more reducer step over the next slot gives the counts of the longer prefix |
| PrioritySort.PriorityStats | src/TaskManager.js:144-154 | starting from zero, each count equals the number of present entries of that priority, null and priority-less slots are ignored, and the total equals the length of the sorted output |
| Escape.ReplaceAllChars | src/TaskManager.js:441 | a global single-character replacement removes that character when the replacement text lacks it and introduces only characters of the input or the replacement |
| Escape.ReplaceAllConcat | src/TaskManager.js:441-445 | a global replacement works character by character, so it distributes over concatenation |
| Escape.ReplaceAllAbsent | src/TaskManager.js:442-445 | a replacement pass leaves text that lacks its character unchanged |
| Escape.ReplaceAllSingle | src/TaskManager.js:441-445 | a replacement pass over a single character gives the replacement or the character itself |
| Escape.EscapeHtmlConcat | src/TaskManager.js:440-445 | the five-pass escaper distributes over concatenation |
| Escape.EscapeAmpersand | src/TaskManager.js:441 | "&" becomes "&amp;" and no later pass alters the entity |
| Escape.EscapeLess | src/TaskManager.js:442 | "<" becomes "&lt;" |
| Escape.EscapeGreater | src/TaskManager.js:443 | ">" becomes "&gt;" |
| Escape.EscapeQuote | src/TaskManager.js:444 | the double quote becomes "&quot;" |
| Escape.EscapeApostrophe | src/TaskManager.js:445 | the apostrophe becomes "&#039;" |
| Escape.EscapeOrdinary | src/TaskManager.js:440-445 | every other character passes through unchanged |
| Escape.EscapeHtmlChar | src/TaskManager.js:440-445 | one character goes through the whole chain to exactly its own entity or itself |
| Escape.EscapeHtmlIsCharwise | src/TaskManager.js:440-445 | the sequential passes, ampersand first, equal escaping each character once, so nothing is escaped twice |
| Escape.EscapeHtmlSafe | src/TaskManager.js:440-445 | the output contains no "<", ">", double quote or apostrophe |
| Escape.UnescapeChar | src/TaskManager.js:440-445 | decoding an escaped character in front of any text gives back the character and decodes the rest |
| Escape.EachRoundTrip | src/TaskManager.js:440-445 | decoding the per-character escape of any text gives the text back |
| Escape.UnescapeEscape | src/TaskManager.js:440-445 | escaping loses no information: decoding the escaper's output gives back the input |
| RelativeTime.FloorDiv | src/TaskManager.js:457-459 | Math.floor division: the quotient times the unit is at most the difference, and the next multiple is above it |
| RelativeTime.AgeOf | src/TaskManager.js:457-465 | "Just now" below one minute, including future times; minutes below one hour; hours below one day; days below seven days; otherwise the calendar date; each count is the floor of the difference and lies in its bucket's range |
| RelativeTime.AgeMonotone | src/TaskManager.js:461-465 | an older timestamp never lands in a more recent bucket |
| RelativeTime.Decimal | src/TaskManager.js:462-464 | the interpolated count is a non-empty string of decimal digits without a leading zero, except for zero itself |
| RelativeTime.DecimalRoundTrip | src/TaskManager.js:462-464 | reading the decimal text back gives the count |
| RelativeTime.FormatDate | src/TaskManager.js:453-470 | below one minute (future times included) "Just now"; below an hour the floored minutes with "m ago"; below a day the floored hours with "h ago"; below seven days the floored days with "d ago"; otherwise the locale date |
| RelativeTime.FormatDateExamples | src/TaskManager.js:453-470 | 30 s gives "Just now", 5 min gives "5m ago", 3 h gives "3h ago", 5 days gives "5d ago", and exactly 7 days gives the locale date |

## Left out

- DOM and UI glue is not modelled: event wiring, form handling, rendering, statistics display and notifications (src/TaskManager.js:182-434). It is presentation with no invariants of its own.
- `enterEditMode` and `exitEditMode` also call `populateEditForm`, `resetForm` and `renderTasks`. Those DOM side effects are not modelled; only the pointer is.
- The DOM branch of `escapeHtml` delegates to the browser's serialiser and is not modelled.
- Saving is not modelled: `saveTasks`, `localStorage.setItem`, `JSON.stringify` and the logged save error. Every successful `Create` or `Update` corresponds to one full write of its resulting `tasks`. A failed write does not undo the in-memory change.
- Loading is modelled only by its outcome (`Blob`). JSON parsing and the logged load error are outside the model.
- `generateId` (`Date.now` and `Math.random` in base 36) is replaced by an id parameter. The generated id is not guaranteed unique. `TaskStore.CreatePreservesValid` therefore assumes a fresh id.
- The clock is an integer parameter, and ISO timestamp strings are not modelled. `createdAt <= updatedAt` holds only while the clock does not go back, which is a hypothesis of `TaskStore.CreatePreservesValid` (between the two `new Date()` readings of `createTask`) and of `TaskStore.UpdatePreservesValid`.
- JavaScript's `String()` coercion of numbers, booleans and objects is not modelled. Input values are already strings, null or undefined.
- TaskStore.Update: updates carry only title, description, priority and status, and a key whose value is `undefined` counts as not supplied. In the code the spread copies an explicit `undefined`. For priority or status, validation then fails. For the title, the trim is skipped, validation reads the title as "" and the update fails with "Title is required", while the model keeps the old title and succeeds. For the description, the code stores `undefined`, while the model keeps the old description. Extra keys such as `id` or `createdAt` in the updates are not copied through, so id and creation time are always kept.
- TaskStore.Load: a parsed blob is taken to hold well-formed task records. The code keeps whatever `JSON.parse` returns, and a null entry in it makes the `findIndex` of `updateTask` throw; such collections are reached only through the raw entries of `PrioritySort`.
- PrioritySort.SortByPriority: a raw entry's priority is a valid enum or missing. Arbitrary truthy priority strings make the code's comparator return NaN, and `getPriorityStats` adds a key for them; neither is modelled.
- `enterEditMode(undefined)` is not modelled; ids are strings. In the code it would set the pointer to `undefined`, and `isInEditMode` would then return true.
- RelativeTime.AgeOf: an unparseable date (NaN difference) and the locale date text are not modelled. The date text is a parameter.
- Logging in the constructor and the browser-environment probe are not modelled.
