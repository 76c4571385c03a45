/** The event form: the conversion of a date-ish value to the text of a
    `datetime-local` input, and the form record built when the form opens,
    from the event being edited or from nothing. */
module EventModal {
  import opened JsValue
  import opened JsDate
  import opened CalendarPage

  /** The engine's date services the form calls and this model does not
      define. `parse` is what `new Date(value)` makes of a string or an
      object (through Date.parse of its text), `None` for an invalid date;
      `timezoneOffset` is getTimezoneOffset: the local zone's offset from UTC
      in minutes, positive west of Greenwich, at a given time value. */
  datatype DateEnv = DateEnv(parse: Value -> Option<int>, timezoneOffset: int -> int)

  /** The time value of `value instanceof Date ? value : new Date(value)`,
      `None` when it is NaN. */
  function TimeOf(v: Value, env: DateEnv): (r: Option<int>)
    ensures r.Some? ==> ValidTime(r.value)
    ensures v.Date? && v.time.Some? && ValidTime(v.time.value) ==> r == v.time
    ensures v.Date? && v.time.None? ==> r.None?
    ensures v.Num? ==> r == TimeClip(v.n)
    ensures v.Bool? ==> r == Some(if v.b then 1 else 0)
    ensures v.Null? ==> r == Some(0)
    ensures v.Undefined? ==> r.None?
    ensures v.Str? || v.Arr? || v.Obj? ==>
      r == (if env.parse(v).Some? then TimeClip(env.parse(v).value) else None)
  {
    match v
    case Date(time) => if time.Some? then TimeClip(time.value) else None
    case Num(n) => TimeClip(n)
    case Bool(b) => TimeClip(if b then 1 else 0)
    case Undefined => None
    case Null => TimeClip(0)
    case _ => if env.parse(v).Some? then TimeClip(env.parse(v).value) else None
  }

  /** The time value whose UTC fields are the local fields of `t`. The
      offset is a whole number of minutes, so the shift keeps seconds and
      milliseconds and moves the minute count by the offset. */
  function LocalTime(t: int, env: DateEnv): (r: int)
    ensures r % MsPerMinute == t % MsPerMinute
    ensures r / MsPerMinute == t / MsPerMinute - env.timezoneOffset(t)
    ensures env.timezoneOffset(t) == 0 ==> r == t
  {
    t - env.timezoneOffset(t) * MsPerMinute
  }

  /** `toDateTimeLocal`: '' for a falsy or invalid value, else the first 16
      characters of the ISO text of the shifted date. When the shift leaves
      the time-value range the shifted date is invalid and toISOString
      throws a RangeError. */
  function ToDateTimeLocal(v: Value, env: DateEnv): (r: Result<string, Exception>)
    ensures r == Ok("") <==> !Truthy(v) || TimeOf(v, env).None?
    ensures r.Err? <==> Truthy(v) && TimeOf(v, env).Some? && !ValidTime(LocalTime(TimeOf(v, env).value, env))
    ensures r.Err? ==> r.error == RangeError
    ensures r.Ok? && r.value != "" ==>
      TimeOf(v, env).Some? && ValidTime(LocalTime(TimeOf(v, env).value, env)) &&
      r.value == IsoMinutePrefix(LocalTime(TimeOf(v, env).value, env)) && |r.value| == 16
    ensures r.Ok? && r.value != "" && 0 <= UtcFields(LocalTime(TimeOf(v, env).value, env)).date.year <= 9999 ==>
      IsDateTimeLocal(r.value)
  {
    if !Truthy(v) then Ok("")
    else match TimeOf(v, env)
      case None => Ok("")
      case Some(t) =>
        match TimeClip(LocalTime(t, env))
        case None => Err(RangeError)
        case Some(shifted) => Ok(Slice(ToIsoString(shifted), 0, 16))
  }

  /** The text of a valid date in a four-digit year spells out its local
      year, month, day, hour and minute. */
  lemma DateTimeLocalDenotes(v: Value, env: DateEnv)
    requires ToDateTimeLocal(v, env).Ok? && ToDateTimeLocal(v, env).value != ""
    requires 0 <= UtcFields(LocalTime(TimeOf(v, env).value, env)).date.year <= 9999
    ensures var s, f := ToDateTimeLocal(v, env).value, UtcFields(LocalTime(TimeOf(v, env).value, env));
      DigitsValue(s[0..4]) == f.date.year && DigitsValue(s[5..7]) == f.date.month &&
      DigitsValue(s[8..10]) == f.date.day && DigitsValue(s[11..13]) == f.hour &&
      DigitsValue(s[14..16]) == f.minute
  {
    IsoMinutePrefixDenotes(LocalTime(TimeOf(v, env).value, env));
  }

  /** Two values show the same text exactly when they fall in the same local
      minute (four-digit years). */
  lemma SameTextSameLocalMinute(v1: Value, v2: Value, env: DateEnv)
    requires ToDateTimeLocal(v1, env).Ok? && ToDateTimeLocal(v1, env).value != ""
    requires ToDateTimeLocal(v2, env).Ok? && ToDateTimeLocal(v2, env).value != ""
    requires 0 <= UtcFields(LocalTime(TimeOf(v1, env).value, env)).date.year <= 9999
    requires 0 <= UtcFields(LocalTime(TimeOf(v2, env).value, env)).date.year <= 9999
    ensures ToDateTimeLocal(v1, env) == ToDateTimeLocal(v2, env) <==>
      LocalTime(TimeOf(v1, env).value, env) / MsPerMinute == LocalTime(TimeOf(v2, env).value, env) / MsPerMinute
  {
    IsoMinutePrefixIsMinute(LocalTime(TimeOf(v1, env).value, env), LocalTime(TimeOf(v2, env).value, env));
  }

  /** The form record. Title, description and calendar id keep whatever
      truthy value the event carries. */
  datatype Form = Form(title: Value, description: Value, start: string, end: string, calendarId: Value, completed: bool)

  /** `(calendars[0] && calendars[0].id) || ''` */
  function FallbackCalendarId(cals: seq<Calendar>): (r: Value)
    ensures r == Str(if |cals| > 0 then cals[0].id else "")
  {
    var first := if |cals| > 0 then Obj(map["id" := Str(cals[0].id)]) else Undefined;
    Or(And(first, if |cals| > 0 then Str(cals[0].id) else Undefined), Str(""))
  }

  /** The form the effect sets when the form opens on `initial`. The
      calendar id is `initial.calendarId || (calendars[0] && calendars[0].id)
      || ''`, which groups the same either way. */
  function Hydrate(initial: Value, cals: seq<Calendar>, env: DateEnv): (r: Result<Form, Exception>)
    ensures !Truthy(initial) ==> r == Ok(Form(Str(""), Str(""), "", "", FallbackCalendarId(cals), false))
    ensures r.Err? ==> Truthy(initial) && r.error == RangeError
    ensures Truthy(initial) ==>
      (r.Ok? <==> ToDateTimeLocal(Get(initial, "start"), env).Ok? && ToDateTimeLocal(Get(initial, "end"), env).Ok?)
    ensures r.Ok? && Truthy(initial) ==>
      var f, start, end := r.value, ToDateTimeLocal(Get(initial, "start"), env), ToDateTimeLocal(Get(initial, "end"), env);
      f.start == start.value &&
      f.end == (if end.value == "" then start.value else end.value) &&
      f.title == (if Truthy(Get(initial, "title")) then Get(initial, "title") else Str("")) &&
      f.description == (if Truthy(Get(initial, "description")) then Get(initial, "description") else Str("")) &&
      f.calendarId == (if Truthy(Get(initial, "calendarId")) then Get(initial, "calendarId") else FallbackCalendarId(cals)) &&
      f.completed == Truthy(Get(initial, "completed"))
    ensures r.Ok? ==> (r.value.end == "" ==> r.value.start == "")
    ensures r.Ok? ==> ((Truthy(r.value.title) || r.value.title == Str("")) &&
      (Truthy(r.value.description) || r.value.description == Str("")) &&
      (Truthy(r.value.calendarId) || r.value.calendarId == Str("")))
  {
    if Truthy(initial) then
      match ToDateTimeLocal(Get(initial, "start"), env)
      case Err(e) => Err(e)
      case Ok(start) =>
        match ToDateTimeLocal(Get(initial, "end"), env)
        case Err(e) => Err(e)
        case Ok(end) =>
          Ok(Form(Or(Get(initial, "title"), Str("")), Or(Get(initial, "description"), Str("")),
            start, if end != "" then end else start,
            Or(Get(initial, "calendarId"), FallbackCalendarId(cals)), Truthy(Get(initial, "completed"))))
    else
      Ok(Form(Str(""), Str(""), "", "", FallbackCalendarId(cals), false))
  }

  /** An event object with no fields (a clicked event without its raw
      record) fills the form exactly as no event does. */
  lemma EmptyEventIsNoEvent(cals: seq<Calendar>, env: DateEnv)
    ensures Hydrate(Obj(map[]), cals, env) == Hydrate(Null, cals, env)
  {
  }

  /** The draft of a new event opens a form with an empty title and
      description, the end equal to the start, the first calendar selected and
      completion off. */
  lemma NewEventForm(dateStr: string, cals: seq<Calendar>, env: DateEnv)
    requires NewDraft(dateStr, cals).Ok?
    ensures var r := Hydrate(DraftValue(NewDraft(dateStr, cals).value), cals, env);
      (r.Err? <==> ToDateTimeLocal(Str(dateStr), env).Err?) &&
      (r.Ok? ==> (r.value.title == Str("") && r.value.description == Str("") &&
        r.value.start == r.value.end && r.value.start == ToDateTimeLocal(Str(dateStr), env).value &&
        r.value.calendarId == Str(cals[0].id) && !r.value.completed))
  {
    var d := NewDraft(dateStr, cals).value;
    var v := DraftValue(d);
    assert Get(v, "start") == Str(dateStr) && Get(v, "end") == Str(dateStr);
    assert Get(v, "title") == Str("") && Get(v, "description") == Undefined;
    assert Get(v, "calendarId") == Str(cals[0].id) && Get(v, "completed") == Bool(false);
  }
}
