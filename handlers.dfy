/** The task handlers of handlers/handlers.go that decide dates: the date
    normalisation of create and update, the delete-or-advance decision of
    completion, and the classification of the search parameter. The SQLite
    store behind them is a map from row id to row. */
module Handlers {
  import opened Calendar
  import opened Decimal
  import opened DateText
  import opened Recurrence
  import opened RecurrenceLaws

  /** The request body of create and update (`Task` in the source). */
  datatype Task = Task(id: string, date: string, title: string, comment: string, repeat: string)

  /** What the store keeps for one task; its id is the map key. */
  datatype Row = Row(date: string, title: string, comment: string, repeat: string)

  datatype TaskError =
    | BadNow                     // the `now` parameter is not `YYYYMMDD`
    | MissingTitle
    | MissingId
    | BadDate                    // the date is not `YYYYMMDD`
    | BadId                      // the id parameter is not an integer
    | NotFound                   // no task has that id
    | ResolveFailed(error: RuleError) // NextDate failed
    | NoResponse                 // NextDate's loop does not return before the 64-bit wrap-around

  datatype Result<T> = Ok(value: T) | Err(error: TaskError)

  /** `NextDateHandler` (lines 23-42): `now` is read as `YYYYMMDD` at
      midnight and handed to the resolver. Such a `now` always survives the
      resolver's own reformatting, so an answer is the `YYYYMMDD` form of a
      date after that day, and the resolver never rejects `now`. */
  function NextDateRequest(nowText: string, date: string, repeat: string): (r: Result<string>)
    ensures r == Err(BadNow) <==> ParseDate(nowText).None?
    ensures r.Ok? ==> ParseDate(nowText).Some? && DateTextAfter(r.value, ParseDate(nowText).value)
    ensures r != Err(ResolveFailed(UnreadableNow))
  {
    match ParseDate(nowText)
    case None => Err(BadNow)
    case Some(day) =>
      match Resolve(Instant(day, 0), date, repeat)
      case Next(s) => Ok(s)
      case Failed(e) => Err(ResolveFailed(e))
      case NeverReturns => Err(NoResponse)
  }

  /** `parsedDate.Before(now)`: the date, read as midnight, is an earlier
      instant than `now`, counting seconds from a common epoch. */
  function MidnightBefore(c: Civil, now: Instant): (b: bool)
    requires ValidDate(c) && ValidInstant(now)
    ensures b <==> DayNumber(c) * 86400 < DayNumber(now.date) * 86400 + now.second
  {
    BeforeIffSmallerDayNumber(c, now.date);
    BeforeIffSmallerDayNumber(now.date, c);
    Before(c, now.date) || (c == now.date && 0 < now.second)
  }

  /** `s` is the `YYYYMMDD` form of `day` or of a later date. */
  ghost predicate DateTextNotBefore(s: string, day: Civil) {
    exists c :: ValidDate(c) && s == FormatDate(c) && !Before(c, day)
  }

  /** The date a created or updated task is stored with (lines 90-116 and
      160-186, the same code twice): empty means today; a malformed date
      is an error; today or later is kept; an earlier date becomes today
      for a one-shot task and the next occurrence for a recurring one.
      Whatever it stores is never before today. */
  function NormalizeDate(date: string, repeat: string, now: Instant): (r: Result<string>)
    requires ValidInstant(now)
    ensures r.Ok? ==> DateTextNotBefore(r.value, now.date)
    ensures r == Err(BadDate) <==> date != "" && ParseDate(date).None?
  {
    var nowStr := FormatDate(now.date);
    if date == "" then Ok(nowStr)
    else match ParseDate(date)
      case None => Err(BadDate)
      case Some(parsed) =>
        FormatParseDate(date);
        if date == nowStr then Ok(date)
        else if MidnightBefore(parsed, now) then
          if repeat == "" then Ok(nowStr)
          else match Resolve(now, date, repeat)
            case Next(s) => Ok(s)
            case Failed(e) => Err(ResolveFailed(e))
            case NeverReturns => Err(NoResponse)
        else Ok(date)
  }

  /** The normalisation as the handlers run it, rewriting the task's date
      in place. */
  method NormalizeTaskDate(task: Task, now: Instant) returns (r: Result<string>)
    requires ValidInstant(now)
    ensures r == NormalizeDate(task.date, task.repeat, now)
    ensures r.Ok? ==> r.value != ""
  {
    var nowStr := FormatDate(now.date);
    var date := task.date;
    if date == "" {
      date := nowStr;
    } else {
      var parsed := ParseDate(date);
      if parsed.None? {
        return Err(BadDate);
      }
      if date == nowStr {
      } else if MidnightBefore(parsed.value, now) {
        if task.repeat == "" {
          date := nowStr;
        } else {
          var next := NextDate(now, date, task.repeat);
          match next {
            case Failed(e) => return Err(ResolveFailed(e));
            case NeverReturns => return Err(NoResponse);
            case Next(s) =>
              ResultAfterNowAndBase(now, date, task.repeat);
              date := s;
          }
        }
      }
    }
    return Ok(date);
  }

  /** The five cases of the normalisation, by the calendar position of the
      supplied date relative to today. */
  lemma NormalizeDateCases(date: string, repeat: string, now: Instant)
    requires ValidInstant(now)
    ensures date == "" ==> NormalizeDate(date, repeat, now) == Ok(FormatDate(now.date))
    ensures date != "" && ParseDate(date).None? ==> NormalizeDate(date, repeat, now) == Err(BadDate)
    ensures ParseDate(date).Some? && !Before(ParseDate(date).value, now.date) ==>
      NormalizeDate(date, repeat, now) == Ok(date)
    ensures ParseDate(date).Some? && Before(ParseDate(date).value, now.date) && repeat == "" ==>
      NormalizeDate(date, repeat, now) == Ok(FormatDate(now.date))
    ensures ParseDate(date).Some? && Before(ParseDate(date).value, now.date) && repeat != "" ==>
      NormalizeDate(date, repeat, now) == match Resolve(now, date, repeat)
        case Next(s) => Ok(s)
        case Failed(e) => Err(ResolveFailed(e))
        case NeverReturns => Err(NoResponse)
  {
    ParseFormatDate(now.date);
    if ParseDate(date).Some? {
      FormatParseDate(date);
    }
  }

  /** The query `GetTasksHandler` sends to the store. */
  datatype Query = AllTasks | OnDate(date: string) | Containing(text: string)

  /** Lines 297-305: a `DD.MM.YYYY` search is a date search on its
      `YYYYMMDD` form, any other non-empty text a text search, and no text
      lists everything. */
  function Classify(search: string): (q: Query)
    ensures q == AllTasks <==> search == ""
    ensures q.OnDate? <==> IsDottedDate(search)
    ensures q.OnDate? ==> ParseDate(q.date) == ParseDotted(search)
    ensures q.Containing? ==> q.text == search
  {
    if search != "" then
      if IsDottedDate(search) then OnDate(ConvertToDate(search))
      else Containing(search)
    else AllTasks
  }

  /** The task table. Row ids are the positive integers handed out so far. */
  class TaskStore {
    var rows: map<int, Row>
    var lastId: int

    ghost predicate Valid()
      reads this
    {
      lastId >= 0 && forall id :: id in rows ==> 1 <= id <= lastId
    }

    constructor ()
      ensures Valid() && rows == map[] && lastId == 0
    {
      rows := map[];
      lastId := 0;
    }

    /** `db.AddTask`: a new row under a fresh id. */
    method AddTask(row: Row) returns (id: int)
      requires Valid()
      modifies this
      ensures Valid()
      ensures id == old(lastId) + 1 && id !in old(rows)
      ensures rows == old(rows)[id := row] && lastId == id
    {
      id := lastId + 1;
      rows := rows[id := row];
      lastId := id;
    }

    /** `handleCreateTask` after decoding the body. */
    method CreateTask(task: Task, now: Instant) returns (r: Result<int>)
      requires Valid() && ValidInstant(now)
      modifies this
      ensures Valid()
      ensures task.title == "" ==> r == Err(MissingTitle)
      ensures task.title != "" ==> match NormalizeDate(task.date, task.repeat, now)
        case Err(e) => r == Err(e)
        case Ok(d) => (r.Ok? && r.value !in old(rows) &&
          rows == old(rows)[r.value := Row(d, task.title, task.comment, task.repeat)])
      ensures r.Err? ==> rows == old(rows) && lastId == old(lastId)
    {
      if task.title == "" {
        return Err(MissingTitle);
      }
      var date := NormalizeTaskDate(task, now);
      if date.Err? {
        return Err(date.error);
      }
      var id := AddTask(Row(date.value, task.title, task.comment, task.repeat));
      return Ok(id);
    }

    /** `db.UpdateTask`: the id text is matched as SQLite matches it against
      an integer key, by its integer value; no such row is an error. */
    method UpdateRow(idText: string, row: Row) returns (r: Result<()>)
      requires Valid()
      modifies this
      ensures Valid() && lastId == old(lastId)
      ensures match Atoi(idText)
        case Some(id) => if id in old(rows) then r == Ok(()) && rows == old(rows)[id := row]
                         else r == Err(NotFound) && rows == old(rows)
        case None => r == Err(NotFound) && rows == old(rows)
    {
      var key := Atoi(idText);
      if key.None? || key.value !in rows {
        return Err(NotFound);
      }
      rows := rows[key.value := row];
      return Ok(());
    }

    /** `handleUpdateTask` after decoding the body. */
    method UpdateTask(task: Task, now: Instant) returns (r: Result<()>)
      requires Valid() && ValidInstant(now)
      modifies this
      ensures Valid() && lastId == old(lastId)
      ensures task.id == "" ==> r == Err(MissingId)
      ensures task.id != "" && task.title == "" ==> r == Err(MissingTitle)
      ensures task.id != "" && task.title != "" ==> match NormalizeDate(task.date, task.repeat, now)
        case Err(e) => r == Err(e)
        case Ok(d) =>
          if Atoi(task.id).Some? && Atoi(task.id).value in old(rows) then
            r == Ok(()) && rows == old(rows)[Atoi(task.id).value := Row(d, task.title, task.comment, task.repeat)]
          else r == Err(NotFound)
      ensures r.Err? ==> rows == old(rows)
    {
      if task.id == "" {
        return Err(MissingId);
      }
      if task.title == "" {
        return Err(MissingTitle);
      }
      var date := NormalizeTaskDate(task, now);
      if date.Err? {
        return Err(date.error);
      }
      r := UpdateRow(task.id, Row(date.value, task.title, task.comment, task.repeat));
    }

    /** `HandleCompleteTask`: a one-shot task is deleted; a recurring one
      keeps everything but its date, which moves to the next occurrence
      after `now`. */
    method CompleteTask(idParam: string, now: Instant) returns (r: Result<()>)
      requires Valid() && ValidInstant(now)
      modifies this
      ensures Valid() && lastId == old(lastId)
      ensures idParam == "" ==> r == Err(MissingId)
      ensures idParam != "" && Atoi(idParam).None? ==> r == Err(BadId)
      ensures idParam != "" && Atoi(idParam).Some? ==>
        var id := Atoi(idParam).value;
        if id !in old(rows) then r == Err(NotFound)
        else
          var row := old(rows)[id];
          if row.repeat == "" then r == Ok(()) && rows == old(rows) - {id}
          else match Resolve(now, row.date, row.repeat)
            case Next(s) => r == Ok(()) && rows == old(rows)[id := row.(date := s)]
            case Failed(e) => r == Err(ResolveFailed(e))
            case NeverReturns => r == Err(NoResponse)
      ensures r.Err? ==> rows == old(rows)
      ensures r.Ok? && Atoi(idParam).value in rows ==> DateTextAfter(rows[Atoi(idParam).value].date, now.date)
    {
      if idParam == "" {
        return Err(MissingId);
      }
      var parsedId := Atoi(idParam);
      if parsedId.None? {
        return Err(BadId);
      }
      var id := parsedId.value;
      if id !in rows {
        return Err(NotFound);
      }
      var task := rows[id];
      if task.repeat == "" {
        rows := rows - {id};
        return Ok(());
      }
      var next := NextDate(now, task.date, task.repeat);
      match next {
        case Failed(e) => return Err(ResolveFailed(e));
        case NeverReturns => return Err(NoResponse);
        case Next(s) =>
          rows := rows[id := task.(date := s)];
          return Ok(());
      }
    }
  }
}
