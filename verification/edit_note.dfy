/** The save handler of the note editor: it writes the note's new title, content and category, and,
    for a LeetCode note, renames the first calendar event that carries the note's old title and
    marks it in progress. The notes and events collections are sequences in store order, and the
    two writes run one after the other. */
module EditNote {
  import opened Wrappers
  import Seqs

  /** A stored note. */
  datatype NoteDoc = NoteDoc(
    id: string,
    title: string,
    content: string,
    category: string,
    createdAt: int,
    updatedAt: Option<int>,
    status: Option<string>,
    completedAt: Option<int>,
    leetcodeLink: Option<string>)

  /** A stored calendar event. */
  datatype EventDoc = EventDoc(
    id: string,
    title: string,
    start: int,
    end: Option<int>,
    priority: Option<string>,
    status: Option<string>,
    category: Option<string>,
    updatedAt: Option<int>)

  /** The user's two collections. */
  datatype Store = Store(notes: seq<NoteDoc>, events: seq<EventDoc>)

  /** The editor's fields. */
  datatype NoteForm = NoteForm(title: string, content: string, category: string)

  const LeetCode := "LeetCode"
  const InProgress := "In Progress"

  /** The event update: the first event (in store order) titled `oldTitle`, whatever its category,
      takes the new title, status "In Progress" and the update time; its other fields and every
      other event are kept, and no event is created. */
  function RenameLinkedEvent(events: seq<EventDoc>, oldTitle: string, newTitle: string, now: int): (r: seq<EventDoc>)
    ensures |r| == |events|
    ensures (forall i :: 0 <= i < |events| ==> events[i].title != oldTitle) ==> r == events
    ensures (exists i :: 0 <= i < |events| && events[i].title == oldTitle) ==>
      exists k :: 0 <= k < |events| && events[k].title == oldTitle
        && (forall j :: 0 <= j < k ==> events[j].title != oldTitle)
        && r[k] == events[k].(title := newTitle, status := Some(InProgress), updatedAt := Some(now))
        && (forall j :: 0 <= j < |events| && j != k ==> r[j] == events[j])
  {
    match Seqs.FindFirst(events, (e: EventDoc) => e.title == oldTitle)
    case None => events
    case Some(k) =>
      events[k := events[k].(title := newTitle, status := Some(InProgress), updatedAt := Some(now))]
  }

  /** At most one event changes. */
  lemma RenameTouchesAtMostOne(events: seq<EventDoc>, oldTitle: string, newTitle: string, now: int)
    ensures var r := RenameLinkedEvent(events, oldTitle, newTitle, now);
      forall i, j :: 0 <= i < j < |events| ==> r[i] == events[i] || r[j] == events[j]
  {
  }

  /** The store after `handleSubmit` wrote the form onto note `k`: only that note changed, in the
      four fields written, and the events changed only by the LeetCode rename keyed on the title
      note `k` had before the write. */
  ghost predicate WrittenAt(before: Store, after: Store, k: int, noteId: string, form: NoteForm, noteTime: int, eventTime: int)
  {
    && 0 <= k < |before.notes| == |after.notes|
    && before.notes[k].id == noteId
    && (forall j :: 0 <= j < k ==> before.notes[j].id != noteId)
    && after.notes[k] == before.notes[k].(title := form.title, content := form.content,
                                          category := form.category, updatedAt := Some(noteTime))
    && (forall j :: 0 <= j < |before.notes| && j != k ==> after.notes[j] == before.notes[j])
    && after.events == (if form.category == LeetCode && before.notes[k].title != ""
                        then RenameLinkedEvent(before.events, before.notes[k].title, form.title, eventTime)
                        else before.events)
  }

  /** `handleSubmit`: reads the note's title as stored before the write, writes the form's title,
      content and category with the time of the note write, `noteTime` (every other note field is
      kept), and then, when the saved category is "LeetCode" and the old title is not empty,
      renames the event matched by the old title, stamping it with the later `eventTime`; each
      write reads the clock itself. A note that does not exist makes the note write fail, and
      nothing changes. */
  function SubmitEdit(store: Store, noteId: string, form: NoteForm, noteTime: int, eventTime: int): (r: Result<Store>)
    ensures r.Failure? <==> forall i :: 0 <= i < |store.notes| ==> store.notes[i].id != noteId
    ensures r.Success? ==> |r.value.notes| == |store.notes| && |r.value.events| == |store.events|
    ensures r.Success? ==> exists k :: WrittenAt(store, r.value, k, noteId, form, noteTime, eventTime)
  {
    match Seqs.FindFirst(store.notes, (n: NoteDoc) => n.id == noteId)
    case None => Failure("No document to update")
    case Some(k) =>
      var originalTitle := store.notes[k].title;
      var notes := store.notes[k := store.notes[k].(title := form.title, content := form.content,
                                                    category := form.category, updatedAt := Some(noteTime))];
      var events := if form.category == LeetCode && originalTitle != ""
                    then RenameLinkedEvent(store.events, originalTitle, form.title, eventTime)
                    else store.events;
      assert WrittenAt(store, Store(notes, events), k, noteId, form, noteTime, eventTime);
      Success(Store(notes, events))
  }

  /** The event match uses the title stored before the write: when no event carries the old title,
      no event changes, even one that already carries the new title. */
  lemma MatchUsesOldTitle(store: Store, k: nat, form: NoteForm, noteTime: int, eventTime: int)
    requires k < |store.notes|
    requires forall j :: 0 <= j < k ==> store.notes[j].id != store.notes[k].id
    requires forall i :: 0 <= i < |store.events| ==> store.events[i].title != store.notes[k].title
    ensures SubmitEdit(store, store.notes[k].id, form, noteTime, eventTime).Success?
    ensures SubmitEdit(store, store.notes[k].id, form, noteTime, eventTime).value.events == store.events
  {
    var f := Seqs.FindFirst(store.notes, (n: NoteDoc) => n.id == store.notes[k].id);
    assert f == Some(k);
  }

  /** Renaming a LeetCode note "Two Sum" to "Two Sum II" renames its event and marks it in
      progress, without creating a second event. */
  lemma RenameScenario(noteTime: int, eventTime: int)
    ensures var note := NoteDoc("n1", "Two Sum", "", LeetCode, 0, None, None, None, None);
      var event := EventDoc("e1", "Two Sum", 0, None, None, Some("Pending"), Some(LeetCode), None);
      var r := SubmitEdit(Store([note], [event]), "n1", NoteForm("Two Sum II", "", LeetCode), noteTime, eventTime);
      && r.Success?
      && r.value.events == [event.(title := "Two Sum II", status := Some(InProgress), updatedAt := Some(eventTime))]
      && r.value.notes[0].title == "Two Sum II"
  {
    var note := NoteDoc("n1", "Two Sum", "", LeetCode, 0, None, None, None, None);
    var event := EventDoc("e1", "Two Sum", 0, None, None, Some("Pending"), Some(LeetCode), None);
    assert Seqs.FindFirst([note], (n: NoteDoc) => n.id == "n1") == Some(0);
    assert Seqs.FindFirst([event], (e: EventDoc) => e.title == "Two Sum") == Some(0);
  }

  /** The match looks at titles only: for a LeetCode note with a non-empty title, the first event
      carrying that title is the one renamed, whatever its own category, and it keeps that
      category. */
  lemma MatchIgnoresCategory(store: Store, k: nat, e: nat, form: NoteForm, noteTime: int, eventTime: int)
    requires k < |store.notes|
    requires forall j :: 0 <= j < k ==> store.notes[j].id != store.notes[k].id
    requires form.category == LeetCode && store.notes[k].title != ""
    requires e < |store.events| && store.events[e].title == store.notes[k].title
    requires forall j :: 0 <= j < e ==> store.events[j].title != store.notes[k].title
    ensures var r := SubmitEdit(store, store.notes[k].id, form, noteTime, eventTime);
      && r.Success?
      && r.value.events[e] == store.events[e].(title := form.title, status := Some(InProgress), updatedAt := Some(eventTime))
      && r.value.events[e].category == store.events[e].category
  {
    var f := Seqs.FindFirst(store.notes, (n: NoteDoc) => n.id == store.notes[k].id);
    assert f == Some(k);
    var g := Seqs.FindFirst(store.events, (ev: EventDoc) => ev.title == store.notes[k].title);
    assert g == Some(e);
  }

  /** Saving a note of another category leaves every event alone. */
  lemma OtherCategoryLeavesEvents(store: Store, noteId: string, form: NoteForm, noteTime: int, eventTime: int)
    requires form.category != LeetCode
    requires SubmitEdit(store, noteId, form, noteTime, eventTime).Success?
    ensures SubmitEdit(store, noteId, form, noteTime, eventTime).value.events == store.events
  {
  }
}
