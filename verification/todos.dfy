/** The list logic of the Todo view: the importance filter, the title search, the overdue flag,
    the three sort orders, the High/Medium/Low buckets, the expand/edit key sets, the optimistic
    completion toggle, the add-todo validation and the edit-save record. The todos collection of
    the store is the in-memory sequence the view holds. */
module Todos {
  import opened Wrappers
  import Seqs
  import Text

  datatype Importance = High | Medium | Low

  /** A task embedded in its todo. */
  datatype Task = Task(id: string, title: string, importance: string, completed: bool)

  /** A todo as the view holds it; `isOverdue` is absent until the view computes it. */
  datatype Todo = Todo(
    id: string,
    title: string,
    description: string,
    category: string,
    importance: Importance,
    linkedNoteId: Option<string>,
    completed: bool,
    createdAt: int,
    dueDate: Option<int>,
    tasks: seq<Task>,
    isOverdue: Option<bool>)

  /** The importance drop-down: "All" or a single level. */
  datatype FilterType = All | Only(level: Importance)

  /** The "Sort by" drop-down. */
  datatype SortCategory = ByDueDate | ByImportance | ByCreated

  // ---------------------------------------------------------------- filter and search

  predicate PassesFilter(filter: FilterType, t: Todo)
  {
    filter.All? || t.importance == filter.level
  }

  /** The importance filter: "All" keeps the list as it is; a level keeps exactly the todos of that
      level, every copy of them, and nothing else. */
  function FilterByImportance(todos: seq<Todo>, filter: FilterType): (r: seq<Todo>)
    ensures filter.All? ==> r == todos
    ensures forall t :: t in r <==> t in todos && PassesFilter(filter, t)
    ensures forall t :: PassesFilter(filter, t) ==> multiset(r)[t] == multiset(todos)[t]
  {
    var p := t => PassesFilter(filter, t);
    var r := Seqs.Filter(todos, p);
    if filter.All? then
      Seqs.FilterAll(todos, p);
      r
    else
      assert forall t :: PassesFilter(filter, t) ==> multiset(r)[t] == multiset(todos)[t] by {
        forall t | PassesFilter(filter, t) ensures multiset(r)[t] == multiset(todos)[t] {
          Seqs.FilterCounts(todos, p, t);
        }
      }
      r
  }

  /** The search test: the lower-cased title contains the lower-cased query. */
  predicate TitleMatches(t: Todo, query: string)
  {
    Text.Contains(Text.Lower(t.title), Text.Lower(query))
  }

  /** The title search: an empty query keeps the list; any other keeps exactly the todos whose
      lower-cased title contains the lower-cased query. */
  function SearchByTitle(todos: seq<Todo>, query: string): (r: seq<Todo>)
    ensures query == "" ==> r == todos
    ensures query != "" ==> forall t :: t in r <==> t in todos && TitleMatches(t, query)
  {
    if query == "" then todos else Seqs.Filter(todos, t => TitleMatches(t, query))
  }

  /** The guard on an empty query changes nothing: every title contains the empty string, so the
      search filter would have kept every todo anyway. */
  lemma EmptySearchKeepsAll(todos: seq<Todo>)
    ensures Seqs.Filter(todos, t => TitleMatches(t, "")) == todos
  {
    forall i | 0 <= i < |todos| ensures TitleMatches(todos[i], "") {
      Text.ContainsEmpty(Text.Lower(todos[i].title));
    }
    Seqs.FilterAll(todos, t => TitleMatches(t, ""));
  }

  // ---------------------------------------------------------------- overdue flag

  /** A todo is overdue when it has a due date, that date is before `now`, and it is not done. */
  predicate IsOverdue(t: Todo, now: int)
  {
    t.dueDate.Some? && t.dueDate.value < now && !t.completed
  }

  /** The todo with its overdue flag set. */
  function Mark(t: Todo, now: int): Todo
  {
    t.(isOverdue := Some(IsOverdue(t, now)))
  }

  /** Setting the flag changes nothing the filter, the search or the flag itself looks at. */
  lemma MarkKeepsTests(t: Todo, now: int, filter: FilterType, query: string)
    ensures PassesFilter(filter, Mark(t, now)) == PassesFilter(filter, t)
    ensures TitleMatches(Mark(t, now), query) == TitleMatches(t, query)
    ensures IsOverdue(Mark(t, now), now) == IsOverdue(t, now)
    ensures Mark(Mark(t, now), now) == Mark(t, now)
  {
  }

  function MarkOverdue(todos: seq<Todo>, now: int): (r: seq<Todo>)
    ensures |r| == |todos|
    ensures forall i :: 0 <= i < |r| ==> r[i] == Mark(todos[i], now)
  {
    seq(|todos|, i requires 0 <= i < |todos| => Mark(todos[i], now))
  }

  // ---------------------------------------------------------------- sorting

  /** `localeCompare` on the three level names orders them alphabetically: High, Low, Medium. */
  function ImportanceRank(level: Importance): int
  {
    match level
    case High => 0
    case Low => 1
    case Medium => 2
  }

  /** The number each sort order compares; a missing due date counts as 0. */
  function SortKey(category: SortCategory): Todo -> int
  {
    (t: Todo) =>
      match category
      case ByDueDate => t.dueDate.GetOr(0)
      case ByImportance => ImportanceRank(t.importance)
      case ByCreated => t.createdAt
  }

  /** The todos that both the importance filter and the title search let through. */
  predicate Selected(filter: FilterType, query: string, t: Todo)
  {
    PassesFilter(filter, t) && (query == "" || TitleMatches(t, query))
  }

  /** The filter followed by the search keeps exactly the selected todos. */
  lemma SelectionStage(todos: seq<Todo>, filter: FilterType, query: string)
    ensures var s := SearchByTitle(FilterByImportance(todos, filter), query);
      forall t :: t in s <==> t in todos && Selected(filter, query, t)
  {
  }

  /** Flagging keeps every selected todo selected and sets the flag on each. */
  lemma MarkStage(s: seq<Todo>, filter: FilterType, query: string, now: int)
    requires forall t :: t in s ==> Selected(filter, query, t)
    ensures forall t :: t in MarkOverdue(s, now) ==>
      Selected(filter, query, t) && t.isOverdue == Some(IsOverdue(t, now))
    ensures forall t :: t in s ==> Mark(t, now) in MarkOverdue(s, now)
  {
    var marked := MarkOverdue(s, now);
    forall t | t in marked ensures Selected(filter, query, t) && t.isOverdue == Some(IsOverdue(t, now)) {
      var i :| 0 <= i < |marked| && marked[i] == t;
      assert s[i] in s;
      MarkKeepsTests(s[i], now, filter, query);
    }
    forall t | t in s ensures Mark(t, now) in marked {
      var i :| 0 <= i < |s| && s[i] == t;
      assert marked[i] == Mark(t, now);
    }
  }

  /** Two sequences with the same multiset have the same members. */
  lemma SameMembers(a: seq<Todo>, b: seq<Todo>)
    requires multiset(a) == multiset(b)
    ensures forall t :: t in a <==> t in b
  {
    forall t ensures t in a <==> t in b {
      assert t in a <==> t in multiset(a);
      assert t in b <==> t in multiset(b);
    }
  }

  /** `filterAndSortTodos`: the importance filter, then the title search, then the overdue flag,
      then the chosen sort. The result holds exactly the flagged todos that pass both tests, as
      many times as the input holds them, in ascending order of the sort key. */
  function FilterAndSortTodos(todos: seq<Todo>, filter: FilterType, query: string,
                              category: SortCategory, now: int): (r: seq<Todo>)
    ensures Seqs.SortedBy(r, SortKey(category))
    ensures multiset(r) == multiset(MarkOverdue(SearchByTitle(FilterByImportance(todos, filter), query), now))
    ensures forall t :: t in r ==> Selected(filter, query, t) && t.isOverdue == Some(IsOverdue(t, now))
    ensures forall t :: t in todos && Selected(filter, query, t) ==> Mark(t, now) in r
  {
    var searched := SearchByTitle(FilterByImportance(todos, filter), query);
    var marked := MarkOverdue(searched, now);
    var r := Seqs.SortBy(marked, SortKey(category));
    SelectionStage(todos, filter, query);
    MarkStage(searched, filter, query, now);
    SameMembers(r, marked);
    r
  }

  /** Todos that tie on the sort key keep the order they had after filtering. */
  lemma FilterAndSortIsStable(todos: seq<Todo>, filter: FilterType, query: string,
                              category: SortCategory, now: int, k: int)
    ensures Seqs.WithKey(FilterAndSortTodos(todos, filter, query, category, now), SortKey(category), k)
         == Seqs.WithKey(MarkOverdue(SearchByTitle(FilterByImportance(todos, filter), query), now), SortKey(category), k)
  {
    Seqs.SortByStable(MarkOverdue(SearchByTitle(FilterByImportance(todos, filter), query), now), SortKey(category), k);
  }

  // ---------------------------------------------------------------- buckets

  /** The test "has importance `level`". */
  function IsLevel(level: Importance): Todo -> bool
  {
    (t: Todo) => t.importance == level
  }

  /** The three lists the view renders under the High, Medium and Low headings. */
  datatype Buckets = Buckets(high: seq<Todo>, medium: seq<Todo>, low: seq<Todo>)

  /** The `reduce` in `renderTodosByImportance`: each todo is pushed onto the list of its level, in
      order. Each bucket is the subsequence of its level, so every todo lands in exactly one
      bucket, and the three sizes add up to the length of the input. */
  function PartitionByImportance(todos: seq<Todo>): (b: Buckets)
    ensures b.high == Seqs.Filter(todos, IsLevel(High))
    ensures b.medium == Seqs.Filter(todos, IsLevel(Medium))
    ensures b.low == Seqs.Filter(todos, IsLevel(Low))
    ensures |b.high| + |b.medium| + |b.low| == |todos|
    decreases |todos|
  {
    if |todos| == 0 then Buckets([], [], [])
    else
      var init := todos[..|todos| - 1];
      var t := todos[|todos| - 1];
      var b := PartitionByImportance(init);
      assert todos == init + [t];
      Seqs.FilterSnoc(init, t, IsLevel(High));
      Seqs.FilterSnoc(init, t, IsLevel(Medium));
      Seqs.FilterSnoc(init, t, IsLevel(Low));
      match t.importance
      case High => b.(high := b.high + [t])
      case Medium => b.(medium := b.medium + [t])
      case Low => b.(low := b.low + [t])
  }

  /** Every todo of the input is in exactly one bucket, the one named by its importance. */
  lemma PartitionExactlyOne(todos: seq<Todo>, t: Todo)
    requires t in todos
    ensures var b := PartitionByImportance(todos);
      && (t in b.high <==> t.importance == High)
      && (t in b.medium <==> t.importance == Medium)
      && (t in b.low <==> t.importance == Low)
  {
  }

  // ---------------------------------------------------------------- expand and edit keys

  /** The key `${todoId}-${context}` under which the view remembers an expanded or edited item. */
  function ContextKey(id: string, context: string): string
  {
    id + "-" + context
  }

  /** `toggleExpandTodo`: flips whether the key is present and leaves every other key alone. */
  function ToggleExpand(expanded: set<string>, id: string, context: string): (r: set<string>)
    ensures ContextKey(id, context) in r <==> ContextKey(id, context) !in expanded
    ensures forall k :: k != ContextKey(id, context) ==> (k in r <==> k in expanded)
  {
    var key := ContextKey(id, context);
    if key in expanded then expanded - {key} else expanded + {key}
  }

  /** Toggling twice restores the set. */
  lemma ToggleExpandTwice(expanded: set<string>, id: string, context: string)
    ensures ToggleExpand(ToggleExpand(expanded, id, context), id, context) == expanded
  {
  }

  /** The edit fields the view keeps while a todo is being edited. */
  datatype EditForm = EditForm(
    title: string,
    description: string,
    category: string,
    importance: Importance,
    dueDate: Option<int>,
    linkedNoteId: string)

  /** `startEditingTodo`: marks the key as being edited and loads the todo into the edit fields, a
      missing linked note as the empty string. */
  function StartEditing(editing: set<string>, todo: Todo, context: string): (r: (set<string>, EditForm))
    ensures ContextKey(todo.id, context) in r.0
    ensures forall k :: k != ContextKey(todo.id, context) ==> (k in r.0 <==> k in editing)
    ensures r.1.title == todo.title && r.1.description == todo.description
    ensures r.1.category == todo.category && r.1.importance == todo.importance
    ensures r.1.dueDate == todo.dueDate && r.1.linkedNoteId == todo.linkedNoteId.GetOr("")
  {
    (editing + {ContextKey(todo.id, context)},
     EditForm(todo.title, todo.description, todo.category, todo.importance, todo.dueDate,
              todo.linkedNoteId.GetOr("")))
  }

  /** `cancelEditingTodo`: forgets the key and leaves every other key alone. */
  function CancelEditing(editing: set<string>, id: string, context: string): (r: set<string>)
    ensures ContextKey(id, context) !in r
    ensures forall k :: k != ContextKey(id, context) ==> (k in r <==> k in editing)
  {
    editing - {ContextKey(id, context)}
  }

  /** Starting and then cancelling an edit leaves the set of edited keys as it was before. */
  lemma CancelUndoesStart(editing: set<string>, todo: Todo, context: string)
    requires ContextKey(todo.id, context) !in editing
    ensures CancelEditing(StartEditing(editing, todo, context).0, todo.id, context) == editing
  {
  }

  /** The record `saveEditedTodo` writes over a todo: the edit fields, an empty linked note as none,
      `completed` reset, and the todo's own tasks. */
  function ApplyEdit(t: Todo, form: EditForm, tasks: seq<Task>): Todo
  {
    t.(title := form.title, description := form.description, category := form.category,
       importance := form.importance, dueDate := form.dueDate,
       linkedNoteId := if form.linkedNoteId == "" then None else Some(form.linkedNoteId),
       completed := false, tasks := tasks)
  }

  /** `saveEditedTodo`: writes the edit record onto the todo with the id and removes the edit key.
      A missing todo makes the store write fail, and nothing changes. */
  function SaveEditedTodo(todos: seq<Todo>, editing: set<string>, id: string, context: string,
                          form: EditForm): (r: Result<(seq<Todo>, set<string>)>)
    ensures r.Failure? <==> forall i :: 0 <= i < |todos| ==> todos[i].id != id
    ensures r.Success? ==>
      var (after, keys) := r.value;
      && |after| == |todos|
      && ContextKey(id, context) !in keys
      && (forall k :: k != ContextKey(id, context) ==> (k in keys <==> k in editing))
      && exists k :: 0 <= k < |todos| && todos[k].id == id
           && after[k] == todos[k].(title := form.title, description := form.description,
                                    category := form.category, importance := form.importance,
                                    dueDate := form.dueDate,
                                    linkedNoteId := if form.linkedNoteId == "" then None else Some(form.linkedNoteId),
                                    completed := false)
           && (forall j :: 0 <= j < |todos| && j != k ==> after[j] == todos[j])
  {
    match Seqs.FindFirst(todos, (t: Todo) => t.id == id)
    case None => Failure("No document to update")
    case Some(k) =>
      var updated := ApplyEdit(todos[k], form, todos[k].tasks);
      (Success((todos[k := updated], CancelEditing(editing, id, context))))
  }

  /** Saving an edit that was started and not changed keeps the todo, except that it is no longer
      completed. */
  lemma SaveUnchangedEdit(todos: seq<Todo>, editing: set<string>, k: nat, context: string)
    requires k < |todos|
    requires forall j :: 0 <= j < k ==> todos[j].id != todos[k].id
    requires todos[k].linkedNoteId != Some("")
    ensures var form := StartEditing(editing, todos[k], context).1;
      SaveEditedTodo(todos, editing, todos[k].id, context, form).Success?
      && SaveEditedTodo(todos, editing, todos[k].id, context, form).value.0
         == todos[k := todos[k].(completed := false)]
  {
    var form := StartEditing(editing, todos[k], context).1;
    var f := Seqs.FindFirst(todos, (t: Todo) => t.id == todos[k].id);
    assert f == Some(k);
    assert ApplyEdit(todos[k], form, todos[k].tasks) == todos[k].(completed := false);
  }

  // ---------------------------------------------------------------- completion toggle

  /** The view's list, with the error message it shows. */
  datatype Outcome = Outcome(todos: seq<Todo>, error: Option<string>)

  const UpdateFailedMessage := "Failed to update todo. Please try again."

  /** Sets `completed` to `value` on every todo with the id and leaves the others untouched. */
  function SetCompleted(todos: seq<Todo>, id: string, value: bool): (r: seq<Todo>)
    ensures |r| == |todos|
    ensures forall i :: 0 <= i < |todos| && todos[i].id != id ==> r[i] == todos[i]
    ensures forall i :: 0 <= i < |todos| && todos[i].id == id ==>
      r[i].completed == value && r[i].(completed := todos[i].completed) == todos[i]
  {
    seq(|todos|, i requires 0 <= i < |todos| =>
      if todos[i].id == id then todos[i].(completed := value) else todos[i])
  }

  /** `toggleTodoCompletion(id, completed)`: the list first shows `!completed` on the todo with the
      id; if the store write fails it shows `completed` again and reports the failure. A successful
      write leaves the error the view was showing as it was. */
  function ToggleTodoCompletion(todos: seq<Todo>, error: Option<string>, id: string, completed: bool,
                                writeSucceeds: bool): (o: Outcome)
    ensures |o.todos| == |todos|
    ensures forall i :: 0 <= i < |todos| && todos[i].id != id ==> o.todos[i] == todos[i]
    ensures writeSucceeds ==> o.error == error
    ensures writeSucceeds ==>
      forall i :: 0 <= i < |todos| && todos[i].id == id ==> o.todos[i] == todos[i].(completed := !completed)
    ensures !writeSucceeds ==> o.error == Some(UpdateFailedMessage)
    ensures !writeSucceeds ==>
      forall i :: 0 <= i < |todos| && todos[i].id == id ==> o.todos[i] == todos[i].(completed := completed)
  {
    var optimistic := SetCompleted(todos, id, !completed);
    if writeSucceeds then Outcome(optimistic, error)
    else Outcome(SetCompleted(optimistic, id, completed), Some(UpdateFailedMessage))
  }

  /** When the view passes the todo's own `completed` value, as the checkbox does, a failed write
      leaves the list exactly as it was. */
  lemma FailedToggleRestores(todos: seq<Todo>, error: Option<string>, id: string, completed: bool)
    requires forall i :: 0 <= i < |todos| && todos[i].id == id ==> todos[i].completed == completed
    ensures ToggleTodoCompletion(todos, error, id, completed, false).todos == todos
  {
  }

  /** A successful toggle followed by a toggle of the new value brings the list back. */
  lemma ToggleTwiceRestores(todos: seq<Todo>, error: Option<string>, id: string, completed: bool)
    requires forall i :: 0 <= i < |todos| && todos[i].id == id ==> todos[i].completed == completed
    ensures var once := ToggleTodoCompletion(todos, error, id, completed, true);
      ToggleTodoCompletion(once.todos, once.error, id, !completed, true) == Outcome(todos, error)
  {
  }

  /** Nothing clears the message of a failed toggle: after a later successful toggle the view still
      reports the failure. */
  lemma FailureMessageOutlivesSuccess(todos: seq<Todo>, error: Option<string>, id: string, completed: bool)
    ensures var failed := ToggleTodoCompletion(todos, error, id, completed, false);
      ToggleTodoCompletion(failed.todos, failed.error, id, completed, true).error == Some(UpdateFailedMessage)
  {
  }

  // ---------------------------------------------------------------- add

  /** The add form. */
  datatype NewTodoForm = NewTodoForm(
    title: string,
    description: string,
    category: string,
    importance: Importance,
    linkedNoteId: string,
    dueDate: Option<int>)

  const RequiredMessage := "Title and Description are required."
  const AddFailedMessage := "Failed to add todo. Please try again."

  /** `handleAddTodo`: a title or description that is empty after trimming is refused with an error
      and nothing is written; otherwise one todo is appended, under the id the store gives it, with
      the form's fields as typed (untrimmed), not completed, created `now` and without tasks. A
      failed write leaves the list and reports the failure. */
  function AddTodo(todos: seq<Todo>, form: NewTodoForm, now: int, newId: string, writeSucceeds: bool): (o: Outcome)
    ensures Text.AllSpace(form.title) || Text.AllSpace(form.description) ==>
      o == Outcome(todos, Some(RequiredMessage))
    ensures !Text.AllSpace(form.title) && !Text.AllSpace(form.description) && !writeSucceeds ==>
      o == Outcome(todos, Some(AddFailedMessage))
    ensures !Text.AllSpace(form.title) && !Text.AllSpace(form.description) && writeSucceeds ==>
      && o.error.None?
      && |o.todos| == |todos| + 1
      && o.todos[..|todos|] == todos
      && var t := o.todos[|todos|];
         t.id == newId && t.title == form.title && t.description == form.description
         && t.importance == form.importance && t.category == form.category
         && !t.completed && t.createdAt == now && t.tasks == [] && t.dueDate == form.dueDate
         && t.linkedNoteId == (if form.linkedNoteId == "" then None else Some(form.linkedNoteId))
         && t.isOverdue.None?
  {
    if Text.Trim(form.title) == "" || Text.Trim(form.description) == "" then
      Outcome(todos, Some(RequiredMessage))
    else if !writeSucceeds then
      Outcome(todos, Some(AddFailedMessage))
    else
      var t := Todo(newId, form.title, form.description, form.category, form.importance,
                    if form.linkedNoteId == "" then None else Some(form.linkedNoteId),
                    false, now, form.dueDate, [], None);
      Outcome(todos + [t], None)
  }
}
