/**
 * One to-do item (class `Task`, task_scheduler.py lines 3-26).
 *
 * `TaskRecord` is the value of a task's five attributes; the registry keeps
 * these values. The class `Task` is the object a caller builds and updates in
 * place, and its methods are specified through the record's functions.
 */
module Tasks {
  import opened Wrappers
  import opened Dates

  /**
   * What the `due_date` attribute can hold: `None`, the raw argument the
   * constructor stored without parsing it, or a `datetime` from `set_due_date`.
   */
  datatype DueDate = NoDate | Raw(text: string) | Parsed(date: CalendarDate)

  /**
   * What an operation reports in place of its `print`: the informational
   * messages, and the two exceptions the code can raise (`AttributeError` when
   * a raw due-date string is rendered, `TypeError` when `sorted` compares
   * keys of different types).
   */
  datatype Status =
    | Ok
    | DuplicateId
    | NotFound
    | NoMatches
    | InvalidSortOption
    | InvalidDateFormat
    | AttributeError
    | TypeError

  /** Python truthiness of an optional text argument: `None` and `""` are false. */
  predicate Supplied(s: Option<string>) {
    s.Some? && s.value != ""
  }

  /** A task after an update, and what the update reported. */
  datatype Updated = Updated(task: TaskRecord, status: Status)

  datatype TaskRecord = TaskRecord(
    id: string,
    name: string,
    description: string,
    dueDate: DueDate,
    isCompleted: bool)
  {
    /**
     * `set_due_date(text)`: store the parsed date, or report the format error
     * and keep the old value. Only the due date ever changes, and a stored
     * date always displays.
     */
    function SetDueDate(text: string): (r: Updated)
      ensures r.status == Ok <==> Parse(text).Some?
      ensures r.status != Ok ==> r == Updated(this, InvalidDateFormat)
      ensures r.task.(dueDate := dueDate) == this
      ensures r.status == Ok ==> r.task.dueDate == Parsed(Parse(text).value) && DueDisplay(r.task.dueDate).Some?
    {
      match Parse(text)
      case Some(d) => Updated(this.(dueDate := Parsed(d)), Ok)
      case None => Updated(this, InvalidDateFormat)
    }

    /** `mark_completed()`: the flag is set and nothing else changes. */
    function MarkCompleted(): (r: TaskRecord)
      ensures r.isCompleted && r.(isCompleted := isCompleted) == this
    {
      this.(isCompleted := true)
    }

    /** `mark_incomplete()`: the flag is cleared and nothing else changes. */
    function MarkIncomplete(): (r: TaskRecord)
      ensures !r.isCompleted && r.(isCompleted := isCompleted) == this
    {
      this.(isCompleted := false)
    }

    /**
     * `str(task)`; `None` where `__str__` raises `AttributeError`, which
     * happens exactly when the task holds a non-empty unparsed due-date string.
     * The text starts with the id and ends with the status word.
     */
    function Render(): (r: Option<string>)
      ensures r.None? <==> dueDate.Raw? && dueDate.text != ""
      ensures r.Some? ==> id + ": " <= r.value
      ensures r.Some? ==>
        DueDisplay(dueDate).Some? && r.value == id + ": " + name + " - " + DueDisplay(dueDate).value + " (" + StatusWord(isCompleted) + ")"
    {
      match DueDisplay(dueDate)
      case None => None
      case Some(shown) => Some(id + ": " + name + " - " + shown + " (" + StatusWord(isCompleted) + ")")
    }
  }

  /**
   * The due-date part of `__str__`: a false value (`None`, `""`) shows as
   * "No due date", a `datetime` is formatted, and a non-empty string has no
   * `strftime`.
   */
  function DueDisplay(due: DueDate): (r: Option<string>)
    ensures r.None? <==> due.Raw? && due.text != ""
    ensures due.Parsed? ==> r.Some? && Canonical(r.value) && Parse(r.value) == Some(due.date)
    ensures !due.Parsed? && r.Some? ==> r.value == "No due date"
  {
    match due
    case NoDate => Some("No due date")
    case Raw(text) => if text == "" then Some("No due date") else None
    case Parsed(d) => FormatThenParse(d); Some(Format(d))
  }

  function StatusWord(completed: bool): string {
    if completed then "Completed" else "Pending"
  }

  /**
   * Setting a canonical `YYYY-MM-DD` date makes the task display exactly that
   * text; the other fields and the flag are kept.
   */
  lemma SetDueDateRoundTrip(t: TaskRecord, text: string)
    requires Parse(text).Some? && Canonical(text)
    ensures t.SetDueDate(text).status == Ok
    ensures DueDisplay(t.SetDueDate(text).task.dueDate) == Some(text)
    ensures t.SetDueDate(text).task.Render()
         == Some(t.id + ": " + t.name + " - " + text + " (" + StatusWord(t.isCompleted) + ")")
  {
    ParseThenFormat(text);
  }

  /**
   * The constructor keeps a due-date string unparsed, so such a task cannot be
   * displayed: the two tasks the program starts with are built this way.
   */
  lemma RawDueDateCannotRender()
    ensures TaskRecord("1", "Buy groceries", "Buy milk, bread, eggs", Raw("2024-12-01"), false).Render() == None
  {
  }

  /**
   * A task created from text the way the rest of the program expects: the
   * text goes through `set_due_date`, so the task always renders and a
   * canonical date displays as given.
   */
  function Created(id: string, name: string, description: string, dueText: Option<string>): (r: Updated)
    ensures r.task.id == id && r.task.name == name && r.task.description == description && !r.task.isCompleted
    ensures r.task.Render().Some?
    ensures !Supplied(dueText) ==> r == Updated(r.task, Ok) && r.task.dueDate == NoDate
    ensures Supplied(dueText) && Parse(dueText.value).Some?
            ==> r.status == Ok && r.task.dueDate == Parsed(Parse(dueText.value).value)
    ensures Supplied(dueText) && Parse(dueText.value).Some? && Canonical(dueText.value)
            ==> r.status == Ok && DueDisplay(r.task.dueDate) == Some(dueText.value)
    ensures Supplied(dueText) && Parse(dueText.value).None?
            ==> r.status == InvalidDateFormat && r.task.dueDate == NoDate
  {
    var blank := TaskRecord(id, name, description, NoDate, false);
    if !Supplied(dueText) then Updated(blank, Ok)
    else if Parse(dueText.value).Some? && Canonical(dueText.value) then
      SetDueDateRoundTrip(blank, dueText.value);
      blank.SetDueDate(dueText.value)
    else blank.SetDueDate(dueText.value)
  }

  class Task {
    var id: string
    var name: string
    var description: string
    var dueDate: DueDate
    var isCompleted: bool

    /** The attributes as a value. */
    function Value(): TaskRecord
      reads this
    {
      TaskRecord(id, name, description, dueDate, isCompleted)
    }

    /** `Task(id, name, description, due_date=None)`: the due date is stored as given. */
    constructor (id: string, name: string, description: string, dueDate: DueDate := NoDate)
      ensures Value() == TaskRecord(id, name, description, dueDate, false)
    {
      this.id := id;
      this.name := name;
      this.description := description;
      this.dueDate := dueDate;
      this.isCompleted := false;
    }

    method SetDueDate(text: string) returns (status: Status)
      modifies this
      ensures Updated(Value(), status) == old(Value()).SetDueDate(text)
      ensures status == Ok <==> Parse(text).Some?
      ensures status == Ok ==> dueDate == Parsed(Parse(text).value)
      ensures status != Ok ==> status == InvalidDateFormat && dueDate == old(dueDate)
      ensures id == old(id) && name == old(name) && description == old(description)
      ensures isCompleted == old(isCompleted)
    {
      match Parse(text)
      case Some(d) =>
        dueDate := Parsed(d);
        status := Ok;
      case None =>
        status := InvalidDateFormat;
    }

    /** Pending to Completed; a completed task stays completed. */
    method MarkCompleted()
      modifies this
      ensures isCompleted
      ensures Value() == old(Value()).MarkCompleted()
    {
      isCompleted := true;
    }

    /** Completed to Pending; a pending task stays pending. */
    method MarkIncomplete()
      modifies this
      ensures !isCompleted
      ensures Value() == old(Value()).MarkIncomplete()
    {
      isCompleted := false;
    }
  }
}
