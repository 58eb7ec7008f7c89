/**
  Event projection (`getEvents`): one event per row that has a name, a start and
  an end, in row order; every other row is dropped silently.
 */
module Events {
  import opened Options
  import opened Dataset
  import opened Resources

  /** A calendar event. Id, title, start, end and colour are the cells as read (the
      source's `as string` casts convert nothing, and `new Date` is given the start and
      end cells); `filterType` is the classification tag the filters match on, and the
      projection never sets it. */
  datatype Event = Event(
    id: Value,
    title: Value,
    start: Value,
    end: Value,
    color: Option<Value>,
    resource: Option<string>,
    filterType: Option<string>)

  /** `!(!name || !start || !end)`: the name, start and end cells are all present. */
  predicate Renderable(keys: FieldKeys, row: Row)
  {
    && Present(GetValue(row, keys.name))
    && Present(GetValue(row, keys.start))
    && Present(GetValue(row, keys.end))
  }

  /** The event a renderable row becomes. The id is the configured id column's cell when
      that column is configured and the cell is present, else the record id; a colour
      is attached only when the colour cell is present; a resource only when a resource
      list exists (even an empty one) and the row's resource cell is a lookup (model app)
      or non-empty text (canvas app). */
  function EventOf(modelApp: bool, hasResources: bool, keys: FieldKeys, row: Row): (e: Event)
    requires Renderable(keys, row)
    ensures keys.id != "" && Present(GetValue(row, keys.id)) ==> e.id == GetValue(row, keys.id)
    ensures keys.id == "" || !Present(GetValue(row, keys.id)) ==> e.id == Text(row.recordId)
    ensures e.title == GetValue(row, keys.name) && Present(e.title)
    ensures e.start == GetValue(row, keys.start) && Present(e.start)
    ensures e.end == GetValue(row, keys.end) && Present(e.end)
    ensures e.color.Some? <==> Present(GetValue(row, keys.eventColor))
    ensures e.color.Some? ==> e.color.value == GetValue(row, keys.eventColor)
    ensures e.resource.Some? ==> hasResources
    ensures !modelApp ==> (e.resource.Some? <==> hasResources && AsText(GetValue(row, keys.resource)) != "")
    ensures modelApp ==> (e.resource.Some? <==> hasResources && GetValue(row, keys.resource).Lookup?)
    ensures e.resource.Some? ==> e.resource.value == ResolvedId(modelApp, keys, row)
    ensures e.filterType.None?
  {
    var idCell := GetValue(row, keys.id);
    var colorCell := GetValue(row, keys.eventColor);
    var cell := GetValue(row, keys.resource);
    Event(
      id := if keys.id != "" && Present(idCell) then idCell else Text(row.recordId),
      title := GetValue(row, keys.name),
      start := GetValue(row, keys.start),
      end := GetValue(row, keys.end),
      color := if Present(colorCell) then Some(colorCell) else None,
      resource :=
        if !hasResources then None
        else if modelApp then (if cell.Lookup? then Some(cell.ref.id) else None)
        else if AsText(cell) != "" then Some(AsText(cell)) else None,
      filterType := None)
  }

  /** The events of the rows, in row order. */
  function EventsOf(modelApp: bool, hasResources: bool, keys: FieldKeys, rows: seq<Row>): (events: seq<Event>)
    ensures |events| <= |rows|
    ensures forall k :: 0 <= k < |events| ==> events[k].filterType.None?
  {
    if |rows| == 0 then []
    else
      var prefix := EventsOf(modelApp, hasResources, keys, rows[..|rows| - 1]);
      var row := rows[|rows| - 1];
      if Renderable(keys, row) then prefix + [EventOf(modelApp, hasResources, keys, row)] else prefix
  }

  /** The number of rows dropped for a missing name, start or end. */
  function Dropped(keys: FieldKeys, rows: seq<Row>): nat
  {
    if |rows| == 0 then 0
    else Dropped(keys, rows[..|rows| - 1]) + (if Renderable(keys, rows[|rows| - 1]) then 0 else 1)
  }

  /** The output has one event per kept row: its length is the row count minus the dropped rows. */
  lemma {:induction false} EventsCount(modelApp: bool, hasResources: bool, keys: FieldKeys, rows: seq<Row>)
    ensures |EventsOf(modelApp, hasResources, keys, rows)| == |rows| - Dropped(keys, rows)
    ensures Dropped(keys, rows) <= |rows|
  {
    if |rows| > 0 {
      EventsCount(modelApp, hasResources, keys, rows[..|rows| - 1]);
    }
  }

  /** Projection commutes with concatenation: the events of a row list are the events of
      its first part followed by those of the rest, so row order is kept. */
  lemma {:induction false} EventsAppend(modelApp: bool, hasResources: bool, keys: FieldKeys, a: seq<Row>, b: seq<Row>)
    ensures EventsOf(modelApp, hasResources, keys, a + b)
            == EventsOf(modelApp, hasResources, keys, a) + EventsOf(modelApp, hasResources, keys, b)
  {
    if |b| == 0 {
      assert a + b == a;
    } else {
      var b' := b[..|b| - 1];
      assert (a + b)[..|a + b| - 1] == a + b';
      assert (a + b)[|a + b| - 1] == b[|b| - 1];
      EventsAppend(modelApp, hasResources, keys, a, b');
    }
  }

  /** Every emitted event is the projection of some renderable row. */
  lemma {:induction false} EventsSound(modelApp: bool, hasResources: bool, keys: FieldKeys, rows: seq<Row>, e: Event)
    requires e in EventsOf(modelApp, hasResources, keys, rows)
    ensures exists i :: 0 <= i < |rows| && Renderable(keys, rows[i]) && e == EventOf(modelApp, hasResources, keys, rows[i])
  {
    var init := rows[..|rows| - 1];
    var last := rows[|rows| - 1];
    if e in EventsOf(modelApp, hasResources, keys, init) {
      EventsSound(modelApp, hasResources, keys, init, e);
      var i :| 0 <= i < |init| && Renderable(keys, init[i]) && e == EventOf(modelApp, hasResources, keys, init[i]);
      assert rows[i] == init[i];
    } else {
      assert Renderable(keys, last) && e == EventOf(modelApp, hasResources, keys, last);
    }
  }

  /** Every renderable row's projection is emitted. */
  lemma {:induction false} EventsComplete(modelApp: bool, hasResources: bool, keys: FieldKeys, rows: seq<Row>, i: int)
    requires 0 <= i < |rows| && Renderable(keys, rows[i])
    ensures EventOf(modelApp, hasResources, keys, rows[i]) in EventsOf(modelApp, hasResources, keys, rows)
  {
    var init := rows[..|rows| - 1];
    if i < |init| {
      assert init[i] == rows[i];
      EventsComplete(modelApp, hasResources, keys, init, i);
    }
  }

  /** An event is emitted exactly when some renderable row projects to it. */
  lemma {:induction false} EventsExact(modelApp: bool, hasResources: bool, keys: FieldKeys, rows: seq<Row>, e: Event)
    ensures e in EventsOf(modelApp, hasResources, keys, rows) <==>
      exists i :: 0 <= i < |rows| && Renderable(keys, rows[i]) && e == EventOf(modelApp, hasResources, keys, rows[i])
  {
    if e in EventsOf(modelApp, hasResources, keys, rows) {
      EventsSound(modelApp, hasResources, keys, rows, e);
    }
    if exists i :: 0 <= i < |rows| && Renderable(keys, rows[i]) && e == EventOf(modelApp, hasResources, keys, rows[i]) {
      var i :| 0 <= i < |rows| && Renderable(keys, rows[i]) && e == EventOf(modelApp, hasResources, keys, rows[i]);
      EventsComplete(modelApp, hasResources, keys, rows, i);
    }
  }

  /** The event loop of `getEvents`. */
  method GetEvents(modelApp: bool, resources: Option<seq<Resource>>, keys: FieldKeys, rows: seq<Row>)
    returns (newEvents: seq<Event>)
    ensures newEvents == EventsOf(modelApp, resources.Some?, keys, rows)
  {
    newEvents := [];
    var i := 0;
    while i < |rows|
      invariant 0 <= i <= |rows|
      invariant newEvents == EventsOf(modelApp, resources.Some?, keys, rows[..i])
    {
      var row := rows[i];
      assert rows[..i + 1][..i] == rows[..i];
      i := i + 1;
      var name := GetValue(row, keys.name);
      var start := GetValue(row, keys.start);
      var end := GetValue(row, keys.end);
      if !Present(name) || !Present(start) || !Present(end) {
        continue;
      }
      var idCell := GetValue(row, keys.id);
      var newEvent := Event(if keys.id != "" && Present(idCell) then idCell else Text(row.recordId),
                            name, start, end, None, None, None);
      var color := GetValue(row, keys.eventColor);
      if Present(color) {
        newEvent := newEvent.(color := Some(color));
      }
      if resources.Some? {
        var resourceId := GetValue(row, keys.resource);
        if modelApp && resourceId.Lookup? {
          newEvent := newEvent.(resource := Some(resourceId.ref.id));
        } else if !modelApp && AsText(resourceId) != "" {
          newEvent := newEvent.(resource := Some(AsText(resourceId)));
        }
      }
      newEvents := newEvents + [newEvent];
    }
    assert rows[..|rows|] == rows;
  }

  /** Every non-empty resource id an event carries names a resource of the list projected
      from the same rows. */
  lemma EventResourcesAreListed(modelApp: bool, keys: FieldKeys, rows: seq<Row>, entities: seq<map<string, string>>, e: Event)
    requires e in EventsOf(modelApp, true, keys, rows)
    requires e.resource.Some? && e.resource.value != ""
    ensures e.resource.value in Ids(Distinct(Candidates(modelApp, keys, rows, entities)))
  {
    EventsExact(modelApp, true, keys, rows, e);
    var i :| 0 <= i < |rows| && Renderable(keys, rows[i]) && e == EventOf(modelApp, true, keys, rows[i]);
    ResourcesOfRows(modelApp, keys, rows, entities);
  }
}
