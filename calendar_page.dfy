/** The calendar page: the catalog of calendars the user keeps in the
    browser, the mapping of server events to what the calendar view shows,
    the draft of a new event and the choice between creating and updating an
    event on save. */
module CalendarPage {
  import opened JsValue

  datatype Calendar = Calendar(id: string, name: string, color: string)

  const DefaultColor: string := "#2563eb"

  const DefaultCalendars: seq<Calendar> :=
    [Calendar("cal-personal", "Personal", "#2563eb"), Calendar("cal-work", "Work", "#10b981")]

  // ---------------------------------------------------------------------
  // Joining an event to its calendar

  /** `calendars.find(c => c.id === key)`, as the position of the entry found:
      the first entry whose id is the string `key`. */
  function FindIndex(cals: seq<Calendar>, key: Value): (r: Option<nat>)
    ensures r.Some? ==> (r.value < |cals| && Str(cals[r.value].id) == key &&
      forall j :: 0 <= j < r.value ==> Str(cals[j].id) != key)
    ensures r.None? ==> forall j :: 0 <= j < |cals| ==> Str(cals[j].id) != key
  {
    if |cals| == 0 then None
    else if Str(cals[0].id) == key then Some(0)
    else match FindIndex(cals[1..], key)
      case None => None
      case Some(i) => Some(i + 1)
  }

  /** `calendars.find(c => c.id === key) || calendars[0]`; `None` when the
      catalog is empty, where reading `.color` of the result throws. */
  function DisplayCalendar(cals: seq<Calendar>, key: Value): (r: Option<Calendar>)
    ensures r.None? <==> |cals| == 0
    ensures r.Some? && Str(r.value.id) != key ==>
      r.value == cals[0] && forall j :: 0 <= j < |cals| ==> Str(cals[j].id) != key
    ensures (exists j :: 0 <= j < |cals| && Str(cals[j].id) == key) ==>
      r.Some? && Str(r.value.id) == key
    ensures FindIndex(cals, key).Some? ==> r == Some(cals[FindIndex(cals, key).value])
  {
    match FindIndex(cals, key)
    case Some(i) => Some(cals[i])
    case None => if |cals| > 0 then Some(cals[0]) else None
  }

  datatype ExtendedProps = ExtendedProps(raw: Value)

  /** What the calendar view is given for one event. */
  datatype EventItem = EventItem(
    id: Value, title: Value, start: Value, end: Value,
    backgroundColor: string, borderColor: string, extendedProps: ExtendedProps)

  /** The item of one event: its own id, title, start and end, the
      calendar's color for background and border, and the event as `raw`. */
  function ToItem(e: Value, cal: Calendar): (r: EventItem)
    requires !IsNullish(e)
    ensures r.id == Get(e, "id") && r.title == Get(e, "title")
    ensures r.start == Get(e, "start") && r.end == Get(e, "end")
    ensures r.backgroundColor == cal.color && r.borderColor == cal.color
    ensures r.extendedProps.raw == e
  {
    EventItem(Get(e, "id"), Get(e, "title"), Get(e, "start"), Get(e, "end"),
      cal.color, cal.color, ExtendedProps(e))
  }

  function Raws(items: seq<EventItem>): (r: seq<Value>)
    ensures |r| == |items| && forall i :: 0 <= i < |items| ==> r[i] == items[i].extendedProps.raw
  {
    if items == [] then [] else [items[0].extendedProps.raw] + Raws(items[1..])
  }

  /** The body of `res.data.map(...)` over the server's events: one item per
      event, in order. A null or undefined event, or any event when the
      catalog is empty, makes the mapping throw a TypeError. */
  function MapEvents(es: seq<Value>, cals: seq<Calendar>): (r: Result<seq<EventItem>, Exception>)
    ensures r.Ok? <==> (forall i :: 0 <= i < |es| ==> !IsNullish(es[i])) && (|es| == 0 || |cals| > 0)
    ensures r.Err? ==> r.error == TypeError
    ensures r.Ok? ==> |r.value| == |es| && Raws(r.value) == es
    ensures r.Ok? ==> forall i :: 0 <= i < |es| ==>
      !IsNullish(es[i]) &&
      r.value[i].id == Get(es[i], "id") && r.value[i].title == Get(es[i], "title") &&
      r.value[i].start == Get(es[i], "start") && r.value[i].end == Get(es[i], "end") &&
      DisplayCalendar(cals, Get(es[i], "calendarId")).Some? &&
      r.value[i].backgroundColor == DisplayCalendar(cals, Get(es[i], "calendarId")).value.color &&
      r.value[i].borderColor == r.value[i].backgroundColor
  {
    if es == [] then Ok([])
    else if IsNullish(es[0]) then Err(TypeError)
    else match DisplayCalendar(cals, Get(es[0], "calendarId"))
      case None => Err(TypeError)
      case Some(cal) =>
        match MapEvents(es[1..], cals)
        case Err(e) => Err(e)
        case Ok(rest) => Ok([ToItem(es[0], cal)] + rest)
  }

  /** `fetchEvents`: `response` is the resolved `res.data` of the events
      request, `None` when the request failed. Every failure, of the request
      or of the mapping, reports the empty list. */
  function FetchEvents(response: Option<Value>, cals: seq<Calendar>): (r: seq<EventItem>)
    ensures response.None? || !response.value.Arr? ==> r == []
    ensures r != [] ==> (response.Some? && response.value.Arr? &&
      MapEvents(response.value.elems, cals) == Ok(r))
    ensures response.Some? && response.value.Arr? && |response.value.elems| > 0 && |cals| == 0 ==> r == []
    ensures (response.Some? && response.value.Arr? && |cals| > 0 &&
      forall i :: 0 <= i < |response.value.elems| ==> !IsNullish(response.value.elems[i])) ==>
      |r| == |response.value.elems| && Raws(r) == response.value.elems
  {
    match response
    case None => []
    case Some(data) =>
      if !data.Arr? then []
      else match MapEvents(data.elems, cals)
        case Ok(items) => items
        case Err(_) => []
  }

  // ---------------------------------------------------------------------
  // Catalog operations, as functions of the old catalog

  /** `calendars.filter(c => c.id !== id)` */
  function Without(cals: seq<Calendar>, id: string): (r: seq<Calendar>)
    ensures |r| <= |cals|
    ensures forall j :: 0 <= j < |r| ==> r[j].id != id && r[j] in cals
    ensures forall j :: 0 <= j < |cals| && cals[j].id != id ==> cals[j] in r
  {
    if cals == [] then []
    else (if cals[0].id == id then [] else [cals[0]]) + Without(cals[1..], id)
  }

  /** Removal keeps the relative order: it works piece by piece. */
  lemma {:induction false} WithoutConcat(a: seq<Calendar>, b: seq<Calendar>, id: string)
    ensures Without(a + b, id) == Without(a, id) + Without(b, id)
  {
    if a != [] {
      var head: seq<Calendar> := if a[0].id == id then [] else [a[0]];
      assert (a + b)[0] == a[0] && (a + b)[1..] == a[1..] + b;
      calc {
        Without(a + b, id);
        head + Without(a[1..] + b, id);
        { WithoutConcat(a[1..], b, id); }
        head + (Without(a[1..], id) + Without(b, id));
        (head + Without(a[1..], id)) + Without(b, id);
        Without(a, id) + Without(b, id);
      }
    } else {
      assert a + b == b;
    }
  }

  /** Removing an id no entry has leaves the catalog as it is. */
  lemma {:induction false} WithoutAbsent(cals: seq<Calendar>, id: string)
    requires forall j :: 0 <= j < |cals| ==> cals[j].id != id
    ensures Without(cals, id) == cals
  {
    if cals != [] {
      WithoutAbsent(cals[1..], id);
    }
  }

  /** `calendars.map(x => x.id === id ? {...x, color} : x)` */
  function Recolored(cals: seq<Calendar>, id: string, color: string): (r: seq<Calendar>)
    ensures |r| == |cals|
    ensures forall j :: 0 <= j < |cals| ==>
      r[j].id == cals[j].id && r[j].name == cals[j].name &&
      r[j].color == (if cals[j].id == id then color else cals[j].color)
  {
    if cals == [] then []
    else [if cals[0].id == id then cals[0].(color := color) else cals[0]] + Recolored(cals[1..], id, color)
  }

  /** `'cal-' + random.slice(2, 9)`, where `random` is the text of
      `Math.random().toString(36)`. Nothing makes the id unique. */
  function NewCalendarId(random: string): (id: string)
    ensures 4 <= |id| <= 11 && id[..4] == "cal-"
    ensures |random| >= 9 ==> id[4..] == random[2..9]
    ensures |random| <= 2 ==> id == "cal-"
  {
    "cal-" + Slice(random, 2, 9)
  }

  /** `color || '#2563eb'` for the answer to the color prompt. */
  function ColorOrDefault(color: Option<string>): (r: string)
    ensures r != ""
    ensures color.Some? && color.value != "" ==> r == color.value
    ensures color.None? || color.value == "" ==> r == DefaultColor
  {
    if color.Some? && color.value != "" then color.value else DefaultColor
  }

  /** The catalog state of the page. The answers to `prompt` and `confirm`
      and the random text are parameters; `None` is a cancelled prompt. */
  class Catalog {
    var calendars: seq<Calendar>

    /** The stored catalog when there is a non-empty stored value that
        parses, the default catalog otherwise. */
    constructor (stored: Option<string>, parse: string -> Option<seq<Calendar>>)
      ensures calendars ==
        if stored.Some? && stored.value != "" && parse(stored.value).Some? then parse(stored.value).value
        else DefaultCalendars
    {
      if stored.Some? && stored.value != "" {
        match parse(stored.value)
        case Some(cals) => calendars := cals;
        case None => calendars := DefaultCalendars;
      } else {
        calendars := DefaultCalendars;
      }
    }

    method AddCalendar(name: Option<string>, color: Option<string>, random: string)
      modifies this
      ensures name.None? || name.value == "" ==> calendars == old(calendars)
      ensures name.Some? && name.value != "" ==>
        calendars == old(calendars) + [Calendar(NewCalendarId(random), name.value, ColorOrDefault(color))]
    {
      if name.None? || name.value == "" {
        return;
      }
      var newCal := Calendar(NewCalendarId(random), name.value, ColorOrDefault(color));
      calendars := calendars + [newCal];
    }

    method RemoveCalendar(id: string, confirmed: bool)
      modifies this
      ensures calendars == if confirmed then Without(old(calendars), id) else old(calendars)
    {
      if !confirmed {
        return;
      }
      calendars := Without(calendars, id);
    }

    /** The color button of entry `c`; `newColor` is the prompt's answer. */
    method Recolor(c: Calendar, newColor: Option<string>)
      modifies this
      ensures calendars ==
        if newColor.Some? && newColor.value != "" then Recolored(old(calendars), c.id, newColor.value)
        else old(calendars)
    {
      if newColor.Some? && newColor.value != "" {
        calendars := Recolored(calendars, c.id, newColor.value);
      }
    }
  }

  // ---------------------------------------------------------------------
  // How the catalog operations change what events show

  /** Recoloring changes no join, and an event shows the new color exactly
      when the calendar it is shown in has the recolored id. */
  lemma {:induction false} RecolorDisplay(cals: seq<Calendar>, id: string, color: string, key: Value)
    ensures FindIndex(Recolored(cals, id, color), key) == FindIndex(cals, key)
    ensures var after, before := DisplayCalendar(Recolored(cals, id, color), key), DisplayCalendar(cals, key);
      after.Some? == before.Some? &&
      (after.Some? ==> (after.value.id == before.value.id && after.value.name == before.value.name &&
        after.value.color == if before.value.id == id then color else before.value.color))
  {
    if cals != [] {
      assert Recolored(cals, id, color)[1..] == Recolored(cals[1..], id, color);
      RecolorDisplay(cals[1..], id, color, key);
    }
  }

  /** After a removal no event joins the removed id. */
  lemma RemovedIdJoinsNothing(cals: seq<Calendar>, id: string)
    ensures FindIndex(Without(cals, id), Str(id)) == None
  {
  }

  /** Removing `id` changes the entry no other key joins. */
  lemma {:induction false} RemoveKeepsOtherJoins(cals: seq<Calendar>, id: string, key: Value)
    requires key != Str(id)
    ensures var after, before := FindIndex(Without(cals, id), key), FindIndex(cals, key);
      after.Some? == before.Some? &&
      (after.Some? ==> Without(cals, id)[after.value] == cals[before.value])
  {
    if cals != [] {
      RemoveKeepsOtherJoins(cals[1..], id, key);
      var rest := Without(cals[1..], id);
      if cals[0].id == id {
        assert Without(cals, id) == rest;
      } else {
        assert Without(cals, id) == [cals[0]] + rest;
        assert Without(cals, id)[1..] == rest;
      }
    }
  }

  /** Adding a calendar changes no existing join; an event joins the new
      entry only when it has the new id and no older entry does. */
  lemma {:induction false} AddDisplay(cals: seq<Calendar>, c: Calendar, key: Value)
    ensures FindIndex(cals, key).Some? ==> FindIndex(cals + [c], key) == FindIndex(cals, key)
    ensures FindIndex(cals, key).None? ==>
      FindIndex(cals + [c], key) == if Str(c.id) == key then Some(|cals|) else None
  {
    if cals != [] {
      assert (cals + [c])[1..] == cals[1..] + [c];
      AddDisplay(cals[1..], c, key);
    }
  }

  // ---------------------------------------------------------------------
  // The event being edited

  /** The draft `openNew(dateStr)` selects. */
  datatype Draft = Draft(title: string, start: string, end: string, calendarId: string, completed: bool)

  /** `openNew`: reading `calendars[0].id` throws when the catalog is empty. */
  function NewDraft(dateStr: string, cals: seq<Calendar>): (r: Result<Draft, Exception>)
    ensures r.Err? <==> |cals| == 0
    ensures r.Ok? ==> (r.value.title == "" && r.value.start == dateStr && r.value.end == dateStr &&
      r.value.calendarId == cals[0].id && !r.value.completed)
  {
    if |cals| == 0 then Err(TypeError) else Ok(Draft("", dateStr, dateStr, cals[0].id, false))
  }

  /** The draft as the object the event form receives. */
  function DraftValue(d: Draft): Value {
    Obj(map["title" := Str(d.title), "start" := Str(d.start), "end" := Str(d.end),
      "calendarId" := Str(d.calendarId), "completed" := Bool(d.completed)])
  }

  /** `clickInfo.event.extendedProps.raw || {}` */
  function ClickedSelection(raw: Value): (r: Value)
    ensures Truthy(r)
    ensures Truthy(raw) ==> r == raw
    ensures !Truthy(raw) ==> r == Obj(map[])
  {
    Or(raw, Obj(map[]))
  }

  datatype SaveRequest = Update(id: Value) | Create

  /** `handleSave`: update the selected event when it has an id, else create. */
  function SaveTarget(selected: Value): (r: SaveRequest)
    ensures r.Update? <==> Truthy(selected) && Truthy(Get(selected, "id"))
    ensures r.Update? ==> r.id == Get(selected, "id")
  {
    if Truthy(selected) && Truthy(Get(selected, "id")) then Update(Get(selected, "id")) else Create
  }

  /** A new event's draft is always created, never updated. */
  lemma DraftSavesAsCreate(d: Draft)
    ensures SaveTarget(DraftValue(d)) == Create
  {
  }

  /** Clicking a shown event and saving updates that event exactly when the
      server gave it a truthy id. */
  lemma ClickedEventSave(es: seq<Value>, cals: seq<Calendar>, i: nat)
    requires MapEvents(es, cals).Ok? && i < |es|
    ensures SaveTarget(ClickedSelection(MapEvents(es, cals).value[i].extendedProps.raw)) ==
      if Truthy(Get(es[i], "id")) then Update(Get(es[i], "id")) else Create
  {
    var items := MapEvents(es, cals).value;
    assert Raws(items) == es;
    assert items[i].extendedProps.raw == es[i];
  }
}
