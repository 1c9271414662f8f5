/** The event-list logic of the calendar view: reading stored event documents (with the date
    normaliser and the default fields), the public-holiday pipeline, drag/resize, save, delete, the
    note lookup for a LeetCode event and the end the calendar displays. Instants are integers;
    parsing a date string and the start and end of a calendar day are passed in as functions. */
module Calendar {
  import opened Wrappers
  import Seqs

  /** A date field as it can arrive from the store: a Date object, an ISO string, a store timestamp
      (an object with `toDate`), or anything else, which JavaScript sees as truthy or falsy. */
  datatype RawDate =
    | DateValue(instant: int)
    | DateString(text: string)
    | StoreTimestamp(instant: int)
    | Unrecognised(truthy: bool)

  const InvalidDateFormat := "Invalid date format"

  /** `convertToDate`: a Date is kept, a string is parsed, a timestamp is converted, and any other
      value raises "Invalid date format". */
  function ConvertToDate(raw: RawDate, parse: string -> int): (r: Result<int>)
    ensures r.Failure? <==> raw.Unrecognised?
    ensures r.Failure? ==> r.error == InvalidDateFormat
    ensures raw.DateValue? || raw.StoreTimestamp? ==> r == Success(raw.instant)
    ensures raw.DateString? ==> r == Success(parse(raw.text))
  {
    match raw
    case DateValue(t) => Success(t)
    case DateString(s) => Success(parse(s))
    case StoreTimestamp(t) => Success(t)
    case Unrecognised(_) => Failure(InvalidDateFormat)
  }

  /** Normalising is idempotent: a converted instant, stored back as a Date, converts to itself. */
  lemma ConvertToDateIdempotent(raw: RawDate, parse: string -> int)
    requires ConvertToDate(raw, parse).Success?
    ensures ConvertToDate(DateValue(ConvertToDate(raw, parse).value), parse) == ConvertToDate(raw, parse)
  {
  }

  /** JavaScript truthiness of a date field. */
  predicate Truthy(raw: RawDate)
  {
    match raw
    case DateValue(_) => true
    case DateString(s) => s != ""
    case StoreTimestamp(_) => true
    case Unrecognised(t) => t
  }

  /** `value || fallback` on an optional string: absent and empty both give the fallback. */
  function OrDefault(value: Option<string>, fallback: string): (r: string)
    ensures value.Some? && value.value != "" ==> r == value.value
    ensures value.None? || value.value == "" ==> r == fallback
  {
    if value.Some? && value.value != "" then value.value else fallback
  }

  /** An event as the calendar holds it; every field but the title and start is optional. */
  datatype Event = Event(
    id: Option<string>,
    title: string,
    start: int,
    end: Option<int>,
    priority: Option<string>,
    status: Option<string>,
    category: Option<string>,
    allDay: Option<bool>,
    description: Option<string>)

  /** A stored event document, field by field as the store returns it. */
  datatype EventDoc = EventDoc(
    title: string,
    start: RawDate,
    end: RawDate,
    priority: Option<string>,
    status: Option<string>,
    category: Option<string>,
    allDay: Option<bool>)

  /** True when the defaults the view fills in are all present: what reading a document yields. */
  predicate HasDefaults(e: Event)
  {
    && e.priority.Some? && e.priority.value != ""
    && e.status.Some? && e.status.value != ""
    && e.category.Some? && e.category.value != ""
    && e.allDay.Some?
  }

  /** Reading one stored document: the start is normalised (an unknown form raises), a falsy end
      becomes none and a truthy one is normalised, and priority "Normal", status "Pending",
      category "General" and all-day false fill the missing fields. */
  function ReadEventDoc(id: string, doc: EventDoc, parse: string -> int): (r: Result<Event>)
    ensures r.Failure? <==> doc.start.Unrecognised? || (Truthy(doc.end) && doc.end.Unrecognised?)
    ensures r.Success? ==>
      var e := r.value;
      && e.id == Some(id) && e.title == doc.title
      && e.start == ConvertToDate(doc.start, parse).value
      && (e.end.None? <==> !Truthy(doc.end))
      && (e.end.Some? ==> e.end.value == ConvertToDate(doc.end, parse).value)
      && e.priority == Some(OrDefault(doc.priority, "Normal"))
      && e.status == Some(OrDefault(doc.status, "Pending"))
      && e.category == Some(OrDefault(doc.category, "General"))
      && e.allDay == Some(doc.allDay.GetOr(false))
      && e.description.None?
      && HasDefaults(e)
  {
    var start :- ConvertToDate(doc.start, parse);
    var end: Option<int> :-
      if !Truthy(doc.end) then Success(None)
      else var t :- ConvertToDate(doc.end, parse); Success(Some(t));
    Success(Event(Some(id), doc.title, start, end,
                  Some(OrDefault(doc.priority, "Normal")), Some(OrDefault(doc.status, "Pending")),
                  Some(OrDefault(doc.category, "General")), Some(doc.allDay.GetOr(false)), None))
  }

  /** The document an event is stored as, with its instants as Date values. */
  function ToDoc(e: Event): EventDoc
  {
    EventDoc(e.title, DateValue(e.start),
             if e.end.Some? then DateValue(e.end.value) else Unrecognised(false),
             e.priority, e.status, e.category, e.allDay)
  }

  /** Reading is idempotent: an event read from the store, written back, reads as itself. */
  lemma ReadAfterWrite(id: string, doc: EventDoc, parse: string -> int)
    requires ReadEventDoc(id, doc, parse).Success?
    ensures ReadEventDoc(id, ToDoc(ReadEventDoc(id, doc, parse).value), parse) == ReadEventDoc(id, doc, parse)
  {
  }

  /** Reading every document of the collection, in store order; one unreadable date fails the whole
      load. */
  function ReadEventDocs(docs: seq<(string, EventDoc)>, parse: string -> int): (r: Result<seq<Event>>)
    ensures r.Failure? <==> exists i :: 0 <= i < |docs| && ReadEventDoc(docs[i].0, docs[i].1, parse).Failure?
    ensures r.Success? ==> |r.value| == |docs|
    ensures r.Success? ==> forall i :: 0 <= i < |docs| ==> ReadEventDoc(docs[i].0, docs[i].1, parse) == Success(r.value[i])
    decreases |docs|
  {
    if |docs| == 0 then Success([])
    else
      var first := ReadEventDoc(docs[0].0, docs[0].1, parse);
      if first.Failure? then Failure(first.error)
      else
        var rest := ReadEventDocs(docs[1..], parse);
        assert forall i :: 1 <= i < |docs| ==> docs[1..][i - 1] == docs[i];
        if rest.Failure? then
          var i :| 0 <= i < |docs[1..]| && ReadEventDoc(docs[1..][i].0, docs[1..][i].1, parse).Failure?;
          assert docs[i + 1] == docs[1..][i];
          Failure(rest.error)
        else
          assert forall i :: 0 <= i < |docs| ==> ReadEventDoc(docs[i].0, docs[i].1, parse).Success? by {
            forall i | 0 <= i < |docs| ensures ReadEventDoc(docs[i].0, docs[i].1, parse).Success? {
              if i > 0 { assert docs[i] == docs[1..][i - 1]; }
            }
          }
          Success([first.value] + rest.value)
  }

  // ---------------------------------------------------------------- public holidays

  /** A public holiday as the holiday feed returns it. */
  datatype Holiday = Holiday(localName: string, date: string)

  /** The holiday names the calendar shows. */
  const MainHolidays: seq<string> := [
    "New Year's Day", "New Year's Eve", "Martin Luther King Jr. Day", "Presidents' Day",
    "Memorial Day", "Independence Day", "Labour Day", "Columbus Day", "Veterans Day",
    "Thanksgiving Day", "Christmas Day"]

  /** The test "its name is on the list". */
  function IsMainHoliday(): Holiday -> bool
  {
    (h: Holiday) => h.localName in MainHolidays
  }

  /** The de-duplication key `${localName}-${date}`. */
  function HolidayKey(): Holiday -> string
  {
    (h: Holiday) => h.localName + "-" + h.date
  }

  /** No listed name contains a dash. */
  lemma MainHolidaysHaveNoDash()
    ensures forall n :: n in MainHolidays ==> '-' !in n
  {
  }

  /** In the key of a holiday whose name has no dash, the first dash comes right after the name. */
  lemma KeyDash(h: Holiday)
    requires '-' !in h.localName
    ensures var k := HolidayKey()(h);
      |k| > |h.localName| && k[|h.localName|] == '-'
      && forall i :: 0 <= i < |h.localName| ==> k[i] != '-'
  {
    var k := HolidayKey()(h);
    forall i | 0 <= i < |h.localName| ensures k[i] != '-' {
      assert k[i] == h.localName[i];
    }
  }

  /** For names without a dash the string key identifies the pair. */
  lemma HolidayKeyInjective(a: Holiday, b: Holiday)
    requires '-' !in a.localName && '-' !in b.localName
    requires HolidayKey()(a) == HolidayKey()(b)
    ensures a == b
  {
    var k := HolidayKey()(a);
    KeyDash(a);
    KeyDash(b);
    var n := |a.localName|;
    assert n == |b.localName|;
    assert a.localName == k[..n] == b.localName;
    assert a.date == k[n + 1..] == b.date;
  }

  /** The holidays the pipeline keeps: listed names only, first occurrence of each key. */
  function KeptHolidays(fetched: seq<Holiday>): seq<Holiday>
  {
    Seqs.DedupBy(Seqs.Filter(fetched, IsMainHoliday()), HolidayKey())
  }

  /** The all-day "Holiday" event shown for a holiday; it has no id. */
  function HolidayEvent(h: Holiday, startOfDay: string -> int, endOfDay: string -> int): Event
  {
    Event(None, h.localName, startOfDay(h.date), Some(endOfDay(h.date)), None, None,
          Some("Holiday"), Some(true), None)
  }

  /** The post-fetch pipeline of `fetchHolidays`: keep the listed names, drop a holiday whose key
      was already seen, and shape each survivor into an event, in one pass with a set of seen keys
      as the source does. */
  method HolidayEvents(fetched: seq<Holiday>, startOfDay: string -> int, endOfDay: string -> int)
    returns (r: seq<Event>)
    ensures |r| == |KeptHolidays(fetched)|
    ensures forall i :: 0 <= i < |r| ==> r[i] == HolidayEvent(KeptHolidays(fetched)[i], startOfDay, endOfDay)
  {
    r := Seqs.FilterDedupMap(fetched, IsMainHoliday(), HolidayKey(),
                             (h: Holiday) => HolidayEvent(h, startOfDay, endOfDay));
  }

  /** The holiday pipeline keeps only listed names, and no two kept holidays share a name and a
      date. */
  lemma KeptHolidaysListedAndDistinct(fetched: seq<Holiday>)
    ensures var kept := KeptHolidays(fetched);
      && (forall i :: 0 <= i < |kept| ==> kept[i].localName in MainHolidays)
      && (forall i, j :: 0 <= i < j < |kept| ==> kept[i] != kept[j])
  {
    var allowed := Seqs.Filter(fetched, IsMainHoliday());
    var kept := KeptHolidays(fetched);
    forall i | 0 <= i < |kept| ensures kept[i].localName in MainHolidays {
      assert kept[i] in kept;
      var a :| Seqs.FirstWithKey(allowed, a, HolidayKey()) && allowed[a] == kept[i];
      assert allowed[a] in allowed;
    }
    forall i, j | 0 <= i < j < |kept| ensures kept[i] != kept[j] {
      assert HolidayKey()(kept[i]) != HolidayKey()(kept[j]);
    }
  }

  /** Every listed holiday of the feed is represented: the key joins name and date with a dash that
      no listed name contains, so two different holidays never share a key. */
  lemma KeptHolidaysComplete(fetched: seq<Holiday>, h: Holiday)
    requires h in fetched && h.localName in MainHolidays
    ensures h in KeptHolidays(fetched)
  {
    var allowed := Seqs.Filter(fetched, IsMainHoliday());
    var kept := KeptHolidays(fetched);
    MainHolidaysHaveNoDash();
    assert h in allowed;
    var a :| 0 <= a < |allowed| && allowed[a] == h;
    assert HolidayKey()(h) in Seqs.KeySet(allowed, HolidayKey());
    assert HolidayKey()(h) in Seqs.KeySet(kept, HolidayKey());
    var k :| 0 <= k < |kept| && HolidayKey()(kept[k]) == HolidayKey()(h);
    assert kept[k] in kept;
    var a2 :| Seqs.FirstWithKey(allowed, a2, HolidayKey()) && allowed[a2] == kept[k];
    assert allowed[a2] in allowed;
    HolidayKeyInjective(kept[k], h);
  }

  /** Every kept holiday is the first occurrence of its value in the feed. */
  lemma KeptHolidaysFirst(fetched: seq<Holiday>, h: Holiday)
    requires h in KeptHolidays(fetched)
    ensures exists i :: FirstOccurrence(fetched, i) && fetched[i] == h
  {
    var allowed := Seqs.Filter(fetched, IsMainHoliday());
    var a :| Seqs.FirstWithKey(allowed, a, HolidayKey()) && allowed[a] == h;
    FirstInFiltered(fetched, IsMainHoliday(), HolidayKey(), a);
  }

  /** True when `s[i]` is the first occurrence of its value in `s`. */
  ghost predicate FirstOccurrence<T>(s: seq<T>, i: int)
  {
    0 <= i < |s| && forall j :: 0 <= j < i ==> s[j] != s[i]
  }

  /** The first holiday with a key in the filtered list is also the first of its value in the
      unfiltered list. */
  lemma {:induction false} FirstInFiltered(s: seq<Holiday>, p: Holiday -> bool, key: Holiday -> string, a: int)
    requires Seqs.FirstWithKey(Seqs.Filter(s, p), a, key)
    ensures exists i :: FirstOccurrence(s, i) && s[i] == Seqs.Filter(s, p)[a]
    decreases |s|
  {
    var f := Seqs.Filter(s, p);
    var h := f[a];
    assert s == [s[0]] + s[1..];
    if p(s[0]) && a == 0 {
      assert s[0] == h;
    } else {
      var f1 := Seqs.Filter(s[1..], p);
      var a1 := if p(s[0]) then a - 1 else a;
      assert f == (if p(s[0]) then [s[0]] + f1 else f1);
      assert f1[a1] == h;
      assert Seqs.FirstWithKey(f1, a1, key) by {
        forall j | 0 <= j < a1 ensures key(f1[j]) != key(f1[a1]) {
          if p(s[0]) { assert f1[j] == f[j + 1]; } else { assert f1[j] == f[j]; }
        }
      }
      FirstInFiltered(s[1..], p, key, a1);
      var i :| FirstOccurrence(s[1..], i) && s[1..][i] == h;
      assert s[0] != h by {
        if p(s[0]) {
          assert f[0] == s[0];
          assert key(f[0]) != key(f[a]);
        } else {
          assert h in f;
        }
      }
      assert s[i + 1] == h;
      assert FirstOccurrence(s, i + 1) by {
        forall j | 0 <= j < i + 1 ensures s[j] != s[i + 1] {
          if j > 0 { assert s[j] == s[1..][j - 1]; }
        }
      }
    }
  }

  /** `combineEventsAndHolidays`: the stored events, read in store order, followed by the holiday
      events; an unreadable stored date fails the whole load. */
  method CombineEventsAndHolidays(docs: seq<(string, EventDoc)>, fetched: seq<Holiday>,
                                  parse: string -> int, startOfDay: string -> int, endOfDay: string -> int)
    returns (r: Result<seq<Event>>)
    ensures r.Failure? <==> ReadEventDocs(docs, parse).Failure?
    ensures r.Success? ==> |r.value| == |docs| + |KeptHolidays(fetched)|
    ensures r.Success? ==> r.value[..|docs|] == ReadEventDocs(docs, parse).value
    ensures r.Success? ==> forall i :: |docs| <= i < |r.value| ==>
      r.value[i] == HolidayEvent(KeptHolidays(fetched)[i - |docs|], startOfDay, endOfDay)
  {
    var userEvents := ReadEventDocs(docs, parse);
    if userEvents.Failure? {
      return Failure(userEvents.error);
    }
    var holidays := HolidayEvents(fetched, startOfDay, endOfDay);
    var all := userEvents.value + holidays;
    assert all[..|docs|] == userEvents.value;
    assert forall i :: |docs| <= i < |all| ==> all[i] == holidays[i - |docs|];
    r := Success(all);
  }

  // ---------------------------------------------------------------- drag and resize

  /** `moveEvent` / `resizeEvent` as written: every event whose (optional) id equals the dragged
      event's id is replaced by the dragged event with the new start and end. */
  function MoveEvent(events: seq<Event>, moved: Event, start: int, end: int): (r: seq<Event>)
    ensures |r| == |events|
    ensures forall i :: 0 <= i < |events| && events[i].id != moved.id ==> r[i] == events[i]
    ensures forall i :: 0 <= i < |events| && events[i].id == moved.id ==>
      r[i] == moved.(start := start, end := Some(end))
  {
    seq(|events|, i requires 0 <= i < |events| =>
      if events[i].id == moved.id then moved.(start := start, end := Some(end)) else events[i])
  }

  /** The evident intent: the dragged event, at position `k`, gets the new start and end, and no
      other event changes. */
  function MoveEventAt(events: seq<Event>, k: nat, start: int, end: int): (r: seq<Event>)
    requires k < |events|
    ensures |r| == |events|
    ensures r[k].start == start && r[k].end == Some(end)
    ensures r[k].(start := events[k].start, end := events[k].end) == events[k]
    ensures forall i :: 0 <= i < |events| && i != k ==> r[i] == events[i]
  {
    events[k := events[k].(start := start, end := Some(end))]
  }

  /** True when no two events share a present id. */
  predicate UniqueIds(events: seq<Event>)
  {
    forall i, j :: 0 <= i < j < |events| && events[i].id.Some? ==> events[i].id != events[j].id
  }

  /** For an event with an id, in a list whose ids are unique, the source's update is the intended
      one. */
  lemma MoveEventWithIdIsMoveAt(events: seq<Event>, k: nat, start: int, end: int)
    requires k < |events| && events[k].id.Some? && UniqueIds(events)
    ensures MoveEvent(events, events[k], start, end) == MoveEventAt(events, k, start, end)
  {
    var a := MoveEvent(events, events[k], start, end);
    var b := MoveEventAt(events, k, start, end);
    forall i | 0 <= i < |events| ensures a[i] == b[i] {
      if i < k { assert events[i].id != events[k].id; }
      if i > k { assert events[k].id != events[i].id; }
    }
  }

  /** Holidays have no id, so dragging one holiday overwrites every other holiday with a copy of
      the dragged one: the second holiday is lost from the view. */
  lemma MoveIdlessHolidayOverwritesOthers(startOfDay: string -> int, endOfDay: string -> int)
    ensures var h1 := HolidayEvent(Holiday("Memorial Day", "2024-05-27"), startOfDay, endOfDay);
      var h2 := HolidayEvent(Holiday("Labour Day", "2024-09-02"), startOfDay, endOfDay);
      var moved := MoveEvent([h1, h2], h1, 0, 1);
      && moved[1] == moved[0]
      && moved[1] != h2
      && MoveEventAt([h1, h2], 0, 0, 1)[1] == h2
  {
    var h1 := HolidayEvent(Holiday("Memorial Day", "2024-05-27"), startOfDay, endOfDay);
    var h2 := HolidayEvent(Holiday("Labour Day", "2024-09-02"), startOfDay, endOfDay);
    assert h1.title != h2.title;
  }

  // ---------------------------------------------------------------- save and delete

  /** The record `handleSaveEvent` writes: the same defaults as reading, plus an empty description. */
  function EventToSave(e: Event): (r: Event)
    ensures r.title == e.title && r.start == e.start && r.end == e.end
    ensures HasDefaults(r)
    ensures r.priority == Some(OrDefault(e.priority, "Normal"))
    ensures r.status == Some(OrDefault(e.status, "Pending"))
    ensures r.category == Some(OrDefault(e.category, "General"))
    ensures r.allDay == Some(e.allDay.GetOr(false))
    ensures r.description == Some(OrDefault(e.description, ""))
  {
    Event(None, e.title, e.start, e.end,
          Some(OrDefault(e.priority, "Normal")), Some(OrDefault(e.status, "Pending")),
          Some(OrDefault(e.category, "General")), Some(e.allDay.GetOr(false)),
          Some(OrDefault(e.description, "")))
  }

  /** Saving and reading apply the same defaults: an event saved and read back carries what saving
      put in the list, except the description, which reading does not load. */
  lemma SaveThenReadSameDefaults(id: string, e: Event, parse: string -> int)
    ensures var saved := EventToSave(e).(id := Some(id));
      ReadEventDoc(id, ToDoc(saved), parse) == Success(saved.(description := None))
  {
  }

  /** `handleSaveEvent`: an event with a (non-empty) id replaces, in place, every event with that
      id, so the list keeps its length; an event without one is appended once under the id the
      store gives it. A failed write leaves the list as it was. */
  function SaveEvent(events: seq<Event>, e: Event, newId: string, writeSucceeds: bool): (r: seq<Event>)
    ensures !writeSucceeds ==> r == events
    ensures writeSucceeds && e.id.Some? && e.id.value != "" ==>
      && |r| == |events|
      && (forall i :: 0 <= i < |events| && events[i].id != e.id ==> r[i] == events[i])
      && (forall i :: 0 <= i < |events| && events[i].id == e.id ==> r[i] == EventToSave(e).(id := e.id))
    ensures writeSucceeds && (e.id.None? || e.id.value == "") ==>
      r == events + [EventToSave(e).(id := Some(newId))]
  {
    if !writeSucceeds then events
    else if e.id.Some? && e.id.value != "" then
      seq(|events|, i requires 0 <= i < |events| =>
        if events[i].id == e.id then EventToSave(e).(id := e.id) else events[i])
    else events + [EventToSave(e).(id := Some(newId))]
  }

  /** `handleDeleteEvent`: with a selected event that has an id, and a successful store delete,
      exactly the events with that id leave the list, every other one stays, in order. */
  function DeleteEvent(events: seq<Event>, selected: Option<Event>, writeSucceeds: bool): (r: seq<Event>)
    ensures selected.None? || selected.value.id.None? || selected.value.id.value == "" || !writeSucceeds ==>
      r == events
    ensures selected.Some? && selected.value.id.Some? && selected.value.id.value != "" && writeSucceeds ==>
      && (forall e :: e in r <==> e in events && e.id != selected.value.id)
      && (forall e: Event :: e.id != selected.value.id ==> multiset(r)[e] == multiset(events)[e])
    ensures selected.Some? && selected.value.id.Some? && selected.value.id.value != "" && writeSucceeds ==>
      r == Seqs.Filter(events, (e: Event) => e.id != selected.value.id)
  {
    if selected.Some? && selected.value.id.Some? && selected.value.id.value != "" && writeSucceeds then
      var p := (e: Event) => e.id != selected.value.id;
      var r := Seqs.Filter(events, p);
      assert forall e: Event :: e.id != selected.value.id ==> multiset(r)[e] == multiset(events)[e] by {
        forall e: Event | e.id != selected.value.id ensures multiset(r)[e] == multiset(events)[e] {
          Seqs.FilterCounts(events, p, e);
        }
      }
      r
    else events
  }

  // ---------------------------------------------------------------- selection and display

  /** A note as the lookup sees it. */
  datatype NoteRef = NoteRef(id: string, title: string)

  /** True when `notes[k]` is the first note titled `title`. */
  ghost predicate FirstTitled(notes: seq<NoteRef>, k: int, title: string)
  {
    0 <= k < |notes| && notes[k].title == title && forall j :: 0 <= j < k ==> notes[j].title != title
  }

  /** The note `handleSelectEvent` links to: for a LeetCode event, the first note (in store order)
      whose title equals the event's title; for any other event, none. */
  function ConnectedNoteId(e: Event, notes: seq<NoteRef>): (r: Option<string>)
    ensures e.category != Some("LeetCode") ==> r.None?
    ensures e.category == Some("LeetCode") ==>
      (r.None? <==> forall i :: 0 <= i < |notes| ==> notes[i].title != e.title)
    ensures r.Some? ==> exists k :: FirstTitled(notes, k, e.title) && notes[k].id == r.value
  {
    if e.category == Some("LeetCode") then
      match Seqs.FindFirst(notes, (n: NoteRef) => n.title == e.title)
      case None => None
      case Some(k) => Some(notes[k].id)
    else None
  }

  /** The end the calendar draws: the event's end, or its start when it has none. */
  function DisplayedEnd(e: Event): (r: int)
    ensures e.end.Some? ==> r == e.end.value
    ensures e.end.None? ==> r == e.start
  {
    if e.end.Some? then e.end.value else e.start
  }

  /** An event read from a document with a falsy end is drawn as an instant at its start, and a
      holiday is drawn to the end of its day. */
  lemma DisplayedEndOfReadAndHoliday(id: string, doc: EventDoc, parse: string -> int,
                                     h: Holiday, startOfDay: string -> int, endOfDay: string -> int)
    requires ReadEventDoc(id, doc, parse).Success? && !Truthy(doc.end)
    ensures DisplayedEnd(ReadEventDoc(id, doc, parse).value) == ReadEventDoc(id, doc, parse).value.start
    ensures DisplayedEnd(HolidayEvent(h, startOfDay, endOfDay)) == endOfDay(h.date)
  {
  }
}
