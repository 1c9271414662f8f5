/** The add/edit event form: its initial state, the change handler (the all-day checkbox against an
    ordinary field) and the start and end it submits. Formatting an instant as a date or a time,
    parsing a local date-time and the start and end of a day are passed in as functions. */
module EventForm {
  import opened Wrappers
  import Calendar

  /** What the calendar hands the form: the event with its instants as ISO strings. */
  datatype InitialData = InitialData(
    id: Option<string>,
    title: string,
    start: string,
    end: string,
    priority: string,
    status: string,
    category: Option<string>,
    allDay: Option<bool>)

  /** The form's state: the initial data plus the four date and time inputs. */
  datatype FormData = FormData(
    id: Option<string>,
    title: string,
    start: string,
    end: string,
    priority: string,
    status: string,
    category: Option<string>,
    allDay: bool,
    startDate: string,
    startTime: string,
    endDate: string,
    endTime: string)

  /** The state before the mount effect runs: empty date and time inputs. */
  function InitialState(init: InitialData): (f: FormData)
    ensures f.allDay == (init.allDay.Some? && init.allDay.value)
    ensures f.startDate == f.startTime == f.endDate == f.endTime == ""
    ensures f.title == init.title && f.id == init.id && f.category == init.category
    ensures f.start == init.start && f.end == init.end
    ensures f.priority == init.priority && f.status == init.status
  {
    FormData(init.id, init.title, init.start, init.end, init.priority, init.status, init.category,
             init.allDay.GetOr(false), "", "", "", "")
  }

  /** The state the mount effect sets: the date and time inputs read off the initial start and end. */
  function LoadInitialData(init: InitialData, formatDate: string -> string, formatTime: string -> string): (f: FormData)
    ensures f.allDay == (init.allDay.Some? && init.allDay.value)
    ensures f.startDate == formatDate(init.start) && f.startTime == formatTime(init.start)
    ensures f.endDate == formatDate(init.end) && f.endTime == formatTime(init.end)
    ensures f.(startDate := "", startTime := "", endDate := "", endTime := "") == InitialState(init)
  {
    InitialState(init).(startDate := formatDate(init.start), startTime := formatTime(init.start),
                        endDate := formatDate(init.end), endTime := formatTime(init.end))
  }

  /** An input event: the all-day checkbox, or a named text or select input. */
  datatype Change = CheckboxChange(checked: bool) | FieldChange(name: string, value: string)

  /** The value of the text or select input called `name`, if the form has one. */
  function Field(f: FormData, name: string): Option<string>
  {
    match name
    case "title" => Some(f.title)
    case "start" => Some(f.start)
    case "end" => Some(f.end)
    case "priority" => Some(f.priority)
    case "status" => Some(f.status)
    case "category" => f.category
    case "startDate" => Some(f.startDate)
    case "startTime" => Some(f.startTime)
    case "endDate" => Some(f.endDate)
    case "endTime" => Some(f.endTime)
    case _ => None
  }

  /** The names of the form's text and select inputs, and of the initial-data strings. */
  const FieldNames: set<string> :=
    {"title", "start", "end", "priority", "status", "category", "startDate", "startTime", "endDate", "endTime"}

  /** `{ ...formData, [name]: value }` on the fields the form reads; another name adds a property
      nothing reads. */
  function SetField(f: FormData, name: string, value: string): FormData
  {
    match name
    case "title" => f.(title := value)
    case "start" => f.(start := value)
    case "end" => f.(end := value)
    case "priority" => f.(priority := value)
    case "status" => f.(status := value)
    case "category" => f.(category := Some(value))
    case "startDate" => f.(startDate := value)
    case "startTime" => f.(startTime := value)
    case "endDate" => f.(endDate := value)
    case "endTime" => f.(endTime := value)
    case _ => f
  }

  const AllDayStart := "00:00"
  const AllDayEnd := "23:59"
  const DefaultStart := "08:00"
  const DefaultEnd := "17:00"

  /** `handleChange`: ticking all-day sets the times to 00:00-23:59 and unticking sets them to
      08:00-17:00, touching nothing else; any other input changes only its own field. */
  function HandleChange(f: FormData, c: Change): (r: FormData)
    ensures c.CheckboxChange? ==> r.allDay == c.checked
    ensures c.CheckboxChange? && c.checked ==> r.startTime == AllDayStart && r.endTime == AllDayEnd
    ensures c.CheckboxChange? && !c.checked ==> r.startTime == DefaultStart && r.endTime == DefaultEnd
    ensures c.CheckboxChange? ==> r.(allDay := f.allDay, startTime := f.startTime, endTime := f.endTime) == f
    ensures c.FieldChange? ==> r.allDay == f.allDay && r.id == f.id
    ensures c.FieldChange? && c.name in FieldNames ==> Field(r, c.name) == Some(c.value)
    ensures c.FieldChange? && c.name !in FieldNames ==> r == f
    ensures c.FieldChange? ==> forall n :: n != c.name ==> Field(r, n) == Field(f, n)
  {
    match c
    case CheckboxChange(checked) =>
      if checked then f.(allDay := true, startTime := AllDayStart, endTime := AllDayEnd)
      else f.(allDay := false, startTime := DefaultStart, endTime := DefaultEnd)
    case FieldChange(name, value) => SetField(f, name, value)
  }

  /** `handleSubmit`: an all-day event runs from the start to the end of its start day, whatever the
      end date; any other event runs from the start date and time to the end date and time. The
      rest of the form is handed on as it is. */
  function Submit(f: FormData, startOfDay: string -> int, endOfDay: string -> int,
                  parseLocal: string -> int): (e: Calendar.Event)
    ensures f.allDay ==> e.start == startOfDay(f.startDate) && e.end == Some(endOfDay(f.startDate))
    ensures !f.allDay ==> e.start == parseLocal(f.startDate + " " + f.startTime)
    ensures !f.allDay ==> e.end == Some(parseLocal(f.endDate + " " + f.endTime))
    ensures e.allDay == Some(f.allDay) && e.id == f.id && e.title == f.title && e.category == f.category
    ensures e.priority == Some(f.priority) && e.status == Some(f.status) && e.description.None?
  {
    var start := if f.allDay then startOfDay(f.startDate) else parseLocal(f.startDate + " " + f.startTime);
    var end := if f.allDay then endOfDay(f.startDate) else parseLocal(f.endDate + " " + f.endTime);
    Calendar.Event(f.id, f.title, start, Some(end), Some(f.priority), Some(f.status), f.category,
                   Some(f.allDay), None)
  }

  /** An all-day submission depends on the start date only: the end date and both times are ignored. */
  lemma AllDaySubmitIgnoresEndAndTimes(f: FormData, endDate: string, startTime: string, endTime: string,
                                      startOfDay: string -> int, endOfDay: string -> int, parseLocal: string -> int)
    requires f.allDay
    ensures Submit(f.(endDate := endDate, startTime := startTime, endTime := endTime), startOfDay, endOfDay, parseLocal)
         == Submit(f, startOfDay, endOfDay, parseLocal)
  {
  }

  /** Ticking all-day and submitting gives the day of the start date, whatever the form held before;
      unticking restores the 08:00-17:00 times. */
  lemma TickThenSubmit(f: FormData, startOfDay: string -> int, endOfDay: string -> int, parseLocal: string -> int)
    ensures var e := Submit(HandleChange(f, CheckboxChange(true)), startOfDay, endOfDay, parseLocal);
      e.start == startOfDay(f.startDate) && e.end == Some(endOfDay(f.startDate)) && e.allDay == Some(true)
    ensures var g := HandleChange(HandleChange(f, CheckboxChange(true)), CheckboxChange(false));
      !g.allDay && g.startTime == DefaultStart && g.endTime == DefaultEnd && g.startDate == f.startDate
  {
  }

  /** Editing an event through the form and saving it replaces it in place: the list keeps its
      length and the edited event carries the submitted start and end. */
  lemma EditThenSave(events: seq<Calendar.Event>, f: FormData, startOfDay: string -> int,
                     endOfDay: string -> int, parseLocal: string -> int, newId: string, k: nat)
    requires f.id.Some? && f.id.value != ""
    requires k < |events| && events[k].id == f.id
    ensures var e := Submit(f, startOfDay, endOfDay, parseLocal);
      var after := Calendar.SaveEvent(events, e, newId, true);
      |after| == |events| && after[k].start == e.start && after[k].end == e.end && after[k].id == f.id
  {
  }
}
