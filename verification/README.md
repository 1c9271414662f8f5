# Note-taking app: a Dafny model of the view logic

This project models the data logic of a React note-taking app that stores its data in Firestore:

- **Todo list** (`Todo.tsx`):
  - the importance filter, the title search, the overdue flag and the three sort orders;
  - splitting the list under the High / Medium / Low headings;
  - the expand and edit keys;
  - the optimistic completion toggle, adding a todo and saving an edited todo.
- **Calendar** (`CalendarView.tsx`):
  - the date normaliser and reading stored event documents with their defaults;
  - the public-holiday pipeline;
  - drag and resize, save (update or insert), delete;
  - the LeetCode note lookup and the end the calendar draws.
- **Event form** (`CalendarItemAdd.tsx`): its initial state, the change handler and the submitted start and end.
- **Note editor** (`EditNote.tsx`): the save handler, which also renames the linked LeetCode calendar event.
- **Tree chart** (`TreeChart.tsx`): notes grouped under categories, and the click that opens a note.
- **Force graph** (`NoteTree.tsx`): category and note nodes, the colour allocator, links and the click handler.

Modelling choices:

- The store's collections are sequences in store order.
- A store write is a boolean parameter that says whether it succeeded.
- Instants are integers.
- Parsing a date string, formatting a date or time, and the start and end of a calendar day are function
  parameters. So is the id the store gives a new document.
- JavaScript's `||`, `??` and truthiness are written out case by case.

Modules:

| module | file | what |
|---|---|---|
| `Wrappers` | wrappers.dfy | `Option` and `Result` |
| `Seqs` | seqs.dfy | the array methods the views use: filter, find, de-duplication by key, map, and a stable sort |
| `Text` | text.dfy | ASCII lower-casing, substring search and JavaScript `trim` |
| `Todos` | todos.dfy | the todo list |
| `Calendar` | calendar.dfy | the calendar view |
| `EventForm` | event_form.dfy | the add/edit event form |
| `EditNote` | edit_note.dfy | the note editor's save |
| `TreeChart` | tree_chart.dfy | the tree chart |
| `NoteGraph` | note_graph.dfy | the force graph |

Behaviours of the code that are easy to miss:

- Creating a note creates no calendar event.
- The note editor finds the calendar event by its old title only. It does not check the event's category.
- There is no completion toggle for notes.
- The "Importance" sort uses `localeCompare` on the level names. The order is therefore alphabetical: High, Low,
  Medium.
- The LeetCode lookup's `title.replace("", "")` inserts an empty string at position 0. That leaves the title
  unchanged, so the model uses the title as it is.

## Model

| member | source | states |
|---|---|---|
| Seqs.Filter | src/components/Todo.tsx:287-290 | the result keeps exactly the elements that pass the test and is no longer than the input |
| Seqs.FilterCounts | src/components/Calendar/CalendarView.tsx:301 | an element that passes the test occurs as many times in the result as in the input; an element that fails does not occur |
| Seqs.FindFirst | src/components/EditNote.tsx:96-97 | it finds the first element that passes the test, and finds nothing exactly when no element passes |
| Seqs.DedupBy | src/components/Calendar/CalendarView.tsx:193-200 | no two kept elements share a key, every key of the input is kept, and each kept element is the first of its key |
| Seqs.DedupPositions | src/components/Calendar/CalendarView.tsx:193-200 | the kept elements sit at strictly increasing positions of the input, so the result is an in-order subsequence of it |
| Seqs.FilterDedupMap | src/components/Calendar/CalendarView.tsx:191-211 | the single pass with a set of seen keys equals "filter, keep the first of each key, then map" |
| Seqs.FirstKeysDistinctAndComplete | src/components/TreeChart.tsx:57-74 | the keys in order of first appearance are distinct, and they are exactly the keys that occur |
| Seqs.FirstKeysSnoc | src/components/NoteTree.tsx:72-73 | adding an element adds its key at the end exactly when the key is new |
| Seqs.SortBy | src/components/Todo.tsx:309-325 | the result is in ascending key order and is a permutation of the input |
| Seqs.SortByStable | src/components/Todo.tsx:309-325 | elements with equal keys keep their relative order, as the array sort guarantees |
| Text.Lower | src/components/Todo.tsx:295 | lower-casing keeps the length and leaves no capital A-Z; each capital becomes its own lower-case letter, and every other character is kept |
| Text.LowerIdempotent | src/components/Todo.tsx:295 | lower-casing twice gives the same string as lower-casing once |
| Text.LowerKeepsLower | src/components/Todo.tsx:295 | a string without capitals is left unchanged |
| Text.Contains | src/components/Todo.tsx:295 | `includes` holds exactly when the query occurs at some position of the title |
| Text.Trim | src/components/Todo.tsx:134 | the trimmed string is empty exactly when the input is all whitespace; otherwise it neither starts nor ends with whitespace, and it occurs in the input with only whitespace before and after it |
| Todos.FilterByImportance | src/components/Todo.tsx:287-290 | "All" keeps the list unchanged; a level keeps every copy of the todos of that level and nothing else |
| Todos.SearchByTitle | src/components/Todo.tsx:293-297 | an empty query keeps the list; otherwise the result holds exactly the todos whose lower-cased title contains the lower-cased query |
| Todos.EmptySearchKeepsAll | src/components/Todo.tsx:293-297 | the guard against an empty query changes nothing, because every title contains the empty string |
| Todos.MarkKeepsTests | src/components/Todo.tsx:300-307 | setting the overdue flag changes neither the filter nor the search, and setting it twice is the same as once |
| Todos.MarkOverdue | src/components/Todo.tsx:300-307 | each todo is flagged in place; the list keeps its length |
| Todos.SelectionStage | src/components/Todo.tsx:287-297 | the filter followed by the search keeps exactly the todos that pass both tests |
| Todos.FilterAndSortTodos | src/components/Todo.tsx:286-328 | the result is a permutation of the flagged survivors of the filter and search, sorted by the chosen key; every member passes both tests and carries the correct overdue flag, and every passing input todo appears flagged |
| Todos.FilterAndSortIsStable | src/components/Todo.tsx:309-325 | todos that tie on the sort key keep the order they had after filtering |
| Todos.PartitionByImportance | src/components/Todo.tsx:565-575 | each heading lists exactly the todos of its level, in order, and the three sizes add up to the length of the list |
| Todos.PartitionExactlyOne | src/components/Todo.tsx:565-575 | every todo is under exactly one heading, the one of its importance |
| Todos.ToggleExpand | src/components/Todo.tsx:211-220 | the key `${id}-${context}` flips between present and absent, and no other key changes |
| Todos.ToggleExpandTwice | src/components/Todo.tsx:211-220 | expanding and then collapsing restores the set |
| Todos.StartEditing | src/components/Todo.tsx:222-235 | the key is marked as edited, other keys are kept, and the edit fields are loaded from the todo, with a missing linked note shown as empty |
| Todos.CancelEditing | src/components/Todo.tsx:237-244 | the key is no longer edited and other keys are kept |
| Todos.CancelUndoesStart | src/components/Todo.tsx:222-244 | starting and then cancelling an edit leaves the set of edited keys as it was |
| Todos.SaveEditedTodo | src/components/Todo.tsx:246-270 | saving fails exactly when no todo has the id; otherwise only that todo changes: it keeps its id, tasks and creation time, takes the edited title, description, category, importance and due date, links the typed note (none when the field is empty), and `completed` is reset; its edit key is dropped |
| Todos.SaveUnchangedEdit | src/components/Todo.tsx:222-260 | saving an edit without changing any field only resets `completed` |
| Todos.SetCompleted | src/components/Todo.tsx:174-178 | only the todos with the id change, and only in `completed` |
| Todos.ToggleTodoCompletion | src/components/Todo.tsx:171-195 | on success the todo shows the flipped value and the error shown before is kept; on failure it shows the value passed in, with the update-failed message; other todos never change |
| Todos.FailedToggleRestores | src/components/Todo.tsx:186-194 | when the current value is passed, a failed write restores the list exactly |
| Todos.ToggleTwiceRestores | src/components/Todo.tsx:171-184 | toggling twice restores the list and the error shown |
| Todos.FailureMessageOutlivesSuccess | src/components/Todo.tsx:171-195 | a successful toggle after a failed one still shows the failure message, since the success path never clears it |
| Todos.AddTodo | src/components/Todo.tsx:131-169 | an all-whitespace title or description is refused with the required-fields message and nothing is written; a failed write reports the failure; otherwise one todo is appended with the typed fields, linked to the typed note only when that field is non-empty, not completed, created now, without tasks and without an overdue flag |
| Calendar.ConvertToDate | src/components/Calendar/CalendarView.tsx:103-113 | a Date or a store timestamp gives its instant and a string is parsed; any other value fails with "Invalid date format", and only such a value fails |
| Calendar.ConvertToDateIdempotent | src/components/Calendar/CalendarView.tsx:103-113 | a normalised date, normalised again, is unchanged |
| Calendar.OrDefault | src/components/Calendar/CalendarView.tsx:90-92 | the `or` default gives the value when it is present and not empty, and the fallback otherwise |
| Calendar.ReadEventDoc | src/components/Calendar/CalendarView.tsx:82-95 | reading fails exactly when the start, or a truthy end, is not a date; otherwise the event carries the document's id and title, a normalised start, no end exactly when the stored end is falsy, and the Normal / Pending / General / not-all-day defaults |
| Calendar.ReadAfterWrite | src/components/Calendar/CalendarView.tsx:82-95 | an event read from the store, written back and read again, is the same event |
| Calendar.ReadEventDocs | src/components/Calendar/CalendarView.tsx:80-95 | the load fails exactly when some document is unreadable; otherwise it holds one event per document, in store order |
| Calendar.KeyDash | src/components/Calendar/CalendarView.tsx:194 | in the key of a name without a dash, the first dash follows the name |
| Calendar.HolidayKeyInjective | src/components/Calendar/CalendarView.tsx:194 | for the listed names, two holidays with the same `${localName}-${date}` key are the same holiday |
| Calendar.MainHolidaysHaveNoDash | src/components/Calendar/CalendarView.tsx:175-187 | no listed holiday name contains a dash |
| Calendar.HolidayEvents | src/components/Calendar/CalendarView.tsx:189-211 | the pipeline yields one all-day "Holiday" event, for the start and end of its day, per kept holiday, in feed order |
| Calendar.KeptHolidaysListedAndDistinct | src/components/Calendar/CalendarView.tsx:191-200 | every kept holiday has a listed name, and no holiday is kept twice |
| Calendar.KeptHolidaysComplete | src/components/Calendar/CalendarView.tsx:191-200 | every listed holiday in the feed is kept |
| Calendar.KeptHolidaysFirst | src/components/Calendar/CalendarView.tsx:193-200 | every kept holiday is the first occurrence of its value in the feed |
| Calendar.FirstInFiltered | src/components/Calendar/CalendarView.tsx:191-200 | the first of a key after filtering is the first of its value before filtering |
| Calendar.CombineEventsAndHolidays | src/components/Calendar/CalendarView.tsx:72-99 | the load fails exactly when reading the stored events fails; otherwise the list is the stored events in store order followed by the holiday events |
| Calendar.MoveEvent | src/components/Calendar/CalendarView.tsx:118-155 | as written: every event whose optional id equals the dragged event's id becomes the dragged event with the new start and end; others are kept |
| Calendar.MoveEventAt | src/components/Calendar/CalendarView.tsx:118-155 | as intended: only the dragged event changes, and only in its start and end |
| Calendar.MoveEventWithIdIsMoveAt | src/components/Calendar/CalendarView.tsx:118-155 | for an event with an id, among unique ids, the code as written does what is intended |
| Calendar.MoveIdlessHolidayOverwritesOthers | src/components/Calendar/CalendarView.tsx:119-121 | dragging one holiday replaces a second holiday with a copy of the first |
| Calendar.EventToSave | src/components/Calendar/CalendarView.tsx:329-338 | the saved record keeps the title, start and end, and fills in the same defaults as reading, plus an empty description |
| Calendar.SaveThenReadSameDefaults | src/components/Calendar/CalendarView.tsx:82-95 | an event saved and read back is the one the list shows after saving, apart from the description that reading does not load |
| Calendar.SaveEvent | src/components/Calendar/CalendarView.tsx:319-369 | a failed write leaves the list; an event with an id replaces in place every event with that id; one without an id is appended once under the store's new id |
| Calendar.DeleteEvent | src/components/Calendar/CalendarView.tsx:290-307 | with a selected event that has an id and a successful delete, exactly the events with that id leave, and every other event stays with its count and in its order, as `events.filter` keeps it; otherwise the list is unchanged |
| Calendar.ConnectedNoteId | src/components/Calendar/CalendarView.tsx:258-280 | a LeetCode event links to the first note with its title, and to none exactly when no note has that title; other events link to nothing |
| Calendar.DisplayedEnd | src/components/Calendar/CalendarView.tsx:412 | the end drawn is the event's end, or its start when it has none |
| Calendar.DisplayedEndOfReadAndHoliday | src/components/Calendar/CalendarView.tsx:85-89 | an event read with a falsy end is drawn as an instant, and a holiday runs to the end of its day |
| EventForm.InitialState | src/components/Calendar/CalendarItemAdd.tsx:26-33 | the form takes the id, title, start, end, priority, status and category of the initial data, its date and time inputs are empty, and all-day is false unless the initial data sets it |
| EventForm.LoadInitialData | src/components/Calendar/CalendarItemAdd.tsx:35-47 | the mount effect fills the four date and time inputs from the initial start and end and changes nothing else |
| EventForm.HandleChange | src/components/Calendar/CalendarItemAdd.tsx:49-81 | ticking all-day sets 00:00-23:59 and unticking sets 08:00-17:00, nothing else changing; any other input changes only its own field |
| EventForm.Submit | src/components/Calendar/CalendarItemAdd.tsx:83-105 | an all-day event spans the whole start day; any other event runs from the start date and time to the end date and time; the other fields pass through |
| EventForm.AllDaySubmitIgnoresEndAndTimes | src/components/Calendar/CalendarItemAdd.tsx:89-92 | an all-day submission does not depend on the end date or either time |
| EventForm.TickThenSubmit | src/components/Calendar/CalendarItemAdd.tsx:53-92 | ticking all-day and submitting gives the start day; unticking restores the default times |
| EventForm.EditThenSave | src/components/Calendar/CalendarView.tsx:447-464 | submitting the edit form and saving replaces the event in place with the submitted times |
| EditNote.RenameLinkedEvent | src/components/EditNote.tsx:88-105 | the first event with the old title, whatever its category, takes the new title, "In Progress" and the update time; all other events are kept; no event is created |
| EditNote.RenameTouchesAtMostOne | src/components/EditNote.tsx:96-104 | at most one event changes |
| EditNote.SubmitEdit | src/components/EditNote.tsx:55-114 | the save fails exactly when no note has the id; otherwise only that note changes, in the written fields, and the events change only through the rename, which happens for a LeetCode note with a non-empty old title; the note and the event get their own update times, one clock reading each |
| EditNote.MatchUsesOldTitle | src/components/EditNote.tsx:67-93 | the event is matched by the title read before the write; when no event has it, no event changes |
| EditNote.RenameScenario | src/components/EditNote.tsx:55-105 | renaming a LeetCode note renames its event and marks it in progress without adding an event |
| EditNote.MatchIgnoresCategory | src/components/EditNote.tsx:88-104 | for a LeetCode note with a non-empty title, the first event carrying that title is renamed and marked in progress whatever its category, and keeps its category |
| EditNote.OtherCategoryLeavesEvents | src/components/EditNote.tsx:79-80 | saving a note of any other category changes no event |
| TreeChart.BuildTree | src/components/TreeChart.tsx:54-106 | the one pass over the notes with a category map builds exactly the reference chart |
| TreeChart.TreeShape | src/components/TreeChart.tsx:57-106 | the root is "My Notes" with no note id; its children have distinct names; every note's category is a child and every child is some note's category; no child has a note id, and each is coloured by the position of its category's first note |
| TreeChart.TreeLeafTotal | src/components/TreeChart.tsx:76-90 | the chart holds exactly one leaf per note |
| TreeChart.LeafUnderOwnCategory | src/components/TreeChart.tsx:76-90 | each note's leaf, with its title and id, sits under its own category |
| TreeChart.CategoryColorIsFirstPosition | src/components/TreeChart.tsx:58-62 | a category's colour is the palette entry at the position of its first note, modulo seven |
| TreeChart.HandleChartClick | src/components/TreeChart.tsx:161-166 | a node opens `/note/<id>` exactly when it carries a non-empty note id |
| TreeChart.ClickOnlyOnLeaves | src/components/TreeChart.tsx:93-106 | clicking the root or a category does nothing; clicking a leaf opens its note |
| TreeChart.Lookup | src/components/TreeChart.tsx:58-76 | reading `categoryMap[category]` finds the category's own node when it was added, an inherited value when it was not but names an inherited object property, and nothing otherwise |
| TreeChart.PlaceAsWrittenAgrees | src/components/TreeChart.tsx:57-91 | after each note, the steps as written have thrown exactly when some category so far names an inherited object property; otherwise they hold the categories in order of first appearance and the reference category nodes |
| TreeChart.BuildTreeAsWritten | src/components/TreeChart.tsx:54-91 | built from the step-by-step model of the plain object and the throwing push: the build throws exactly when some category is the name of an inherited object property, and otherwise gives the reference chart |
| TreeChart.ConstructorCategoryBreaksChart | src/components/TreeChart.tsx:58-76 | one note in category "constructor" breaks the chart as written, though the intended chart holds it |
| NoteGraph.NextColor | src/components/NoteTree.tsx:57-68 | the first unused palette colour is handed out and recorded as used; when all are used, black is returned and nothing is recorded |
| NoteGraph.AddNote | src/components/NoteTree.tsx:70-94 | a new category adds its node with the next colour before the note's grey node; a known one adds only the note's node; one link from category to note is added |
| NoteGraph.NextColorAt | src/components/NoteTree.tsx:57-68 | the k-th call hands out the k-th scheme colour, and black from the eleventh call on |
| NoteGraph.BuildGraphMatches | src/components/NoteTree.tsx:70-94 | after the notes are processed, the remembered categories, the used colours and the links agree with the reference description |
| NoteGraph.BuildGraphCategoryNodes | src/components/NoteTree.tsx:72-80 | the category nodes are one per category, in order of first appearance, coloured in scheme order |
| NoteGraph.BuildGraphNoteNodes | src/components/NoteTree.tsx:83-87 | the note nodes are one grey node per note, in note order |
| NoteGraph.CategoryNodesDistinct | src/components/NoteTree.tsx:72-80 | no two category nodes share an id, and every note's category has one |
| NoteGraph.LinksFromCategories | src/components/NoteTree.tsx:89-93 | there is one link per note, from its category to it, and the category's node exists when the link is added |
| NoteGraph.NoteNodesGrey | src/components/NoteTree.tsx:83-87 | every non-category node is grey, one per note |
| NoteGraph.DistinctColorsWithinPalette | src/components/NoteTree.tsx:57-68 | the first ten category colours are pairwise distinct and never black, however many categories the graph has |
| NoteGraph.BlackWhenExhausted | src/components/NoteTree.tsx:66-67 | from the eleventh category on, category nodes are black |
| NoteGraph.HandleNodeClick | src/components/NoteTree.tsx:135-139 | a node opens `/note/<id>` exactly when it is not a category node |
| NoteGraph.ClickOpensNote | src/components/NoteTree.tsx:83-87 | clicking the m-th note node opens the m-th note |

## Left out

- **Store, auth and routing.** The store calls, authentication, routing and rendering (markup, styles, modals,
  tooltips, the legend colours) are left out. Each store call is a success flag, or a failure when the document
  is missing. Navigation is the route string.
- **Re-fetching after a write.** After a write the todo list re-fetches. The model applies the change to the list
  it holds instead.
  - Todos.AddTodo appends the new todo at the end. The order a real re-fetch returns is not modelled.
  - Calendar.SaveEvent and Calendar.DeleteEvent return the list each handler sets. Both handlers then close the
    modal (CalendarView.tsx:306 and 368). Closing it toggles `forceUpdate` (CalendarView.tsx:316), which re-runs
    the load (CalendarView.tsx:116). The list shown afterwards is the reloaded one: the stored events in store
    order, then the holidays, as in Calendar.CombineEventsAndHolidays. That reload is not modelled.
- **Hidden mutation.** `filterAndSortTodos` mutates the todo objects it flags in place. The model returns flagged
  copies and leaves the held list alone.
- **Form and modal state.** The add form's field reset, `showAddTodo` and the calendar's modal and dimming flags
  carry no logic beyond setting constants.
- **handleDeleteTodo.** It deletes one document and re-fetches. There is no list logic to model.
- **The todo-description lookup in handleSelectEvent.** For "Todo" events, `handleSelectEvent` fetches a todo
  description. That is a read for display only.
- **Dates.** Date parsing, formatting and the start and end of a day are function parameters.
  - An invalid date, JavaScript's `Invalid Date`, is not distinguished from a valid instant.
  - The due-date sort key of a todo without a due date is 0, as in the source.
  - Todos.IsOverdue does not model the case where `new Date(dueDate)` is invalid. In the source that case
    compares as not overdue.
- **Lower-casing.** `toLowerCase` is modelled on ASCII letters only. Other characters are kept.
- **Holiday fetch.**
  - The two HTTP requests to the holiday feed are left out. Their concatenated results are the input `fetched`.
  - A failed request makes the source return no holidays. That is the input `fetched == []`.
- **Drag-and-drop store write.** The store update in `moveEvent` and `resizeEvent` is left out. Only the list
  update is modelled.
- **Failed event save.** When the store write fails, `handleSaveEvent` still closes the modal. The model leaves
  the list unchanged.
- **EditNote.SubmitEdit: the failure between the writes.** The two writes are modelled as happening together. A
  failure of the event write after the note write succeeded is not modelled.
- **Tree chart key order.** The tree chart lists its categories with `Object.values`. That puts integer-like keys
  first, in numeric order. The model keeps first-appearance order for all keys.
- **Tree chart styles.** The label and line styles of the tree chart are left out. Only node colours are kept.
- **NoteGraph: missing categories.** A note without a category would give `undefined` as its category key. The
  model takes categories as strings.
- **NoteGraph: the d3 force settings and canvas drawing.** They are presentation only.

## Findings

| source | as written | input that shows it | evidently intended | confidence | as-written member | corrected member |
|---|---|---|---|---|---|---|
| src/components/Calendar/CalendarView.tsx:119-121 | drag and resize replace every event whose optional `id` equals the dragged event's `id` | two holidays, neither with an id; drag the first | only the dragged event moves; the other holiday stays | not executed | Calendar.MoveEvent (shown by Calendar.MoveIdlessHolidayOverwritesOthers) | Calendar.MoveEventAt (agrees with the code for events with unique ids: Calendar.MoveEventWithIdIsMoveAt) |
| src/components/TreeChart.tsx:54-76 | `categoryMap` is a plain object, so `categoryMap["constructor"]` is already truthy; no node is created, and `.children!.push` throws a TypeError that abandons the chart | one note whose category is "constructor" | every category, whatever its name, gets its own node | not executed | TreeChart.BuildTreeAsWritten (built on TreeChart.PlaceAsWritten; shown by TreeChart.ConstructorCategoryBreaksChart) | TreeChart.BuildTree (proved equal to TreeChart.TreeOf; shape in TreeChart.TreeShape) |
