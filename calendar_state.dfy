/**
  The control's data state: the live data the calendar shows (`calendarData`),
  the saved snapshot the filters start from (`calendarDataSave`) and the
  displayed date. Filtering never edits the live list in place: it re-derives
  it from the saved snapshot, which only a data refresh replaces.
 */
module CalendarState {
  import opened Options
  import opened Dataset
  import opened Resources
  import opened Events

  /** `{resources, events, keys}`; resources None is `undefined` (no resource grouping),
      keys None is `undefined` (not yet resolved). */
  datatype CalendarData = CalendarData(resources: Option<seq<Resource>>, events: seq<Event>, keys: Option<FieldKeys>)

  /** One selected entry of the filter widget. */
  datatype FilterOption = FilterOption(caption: string, value: string)

  /** `filter.map(a => a.value)`. */
  function Values(options: seq<FilterOption>): (vs: seq<string>)
    ensures |vs| == |options|
    ensures forall i :: 0 <= i < |vs| ==> vs[i] == options[i].value
  {
    if |options| == 0 then [] else [options[0].value] + Values(options[1..])
  }

  /** `filters.indexOf(e.filterType) >= 0`: the event's tag is one of the selected values. */
  predicate Matches(e: Event, values: seq<string>)
  {
    e.filterType.Some? && e.filterType.value in values
  }

  /** `events.filter(e => filters.indexOf(e.filterType) >= 0)`. */
  function Selected(events: seq<Event>, values: seq<string>): (shown: seq<Event>)
    ensures |shown| <= |events|
    ensures forall k :: 0 <= k < |shown| ==> Matches(shown[k], values)
  {
    if |events| == 0 then []
    else
      var rest := Selected(events[1..], values);
      if Matches(events[0], values) then [events[0]] + rest else rest
  }

  /** `events.filter(e => e.filterType === action)`. */
  function Tagged(events: seq<Event>, action: string): (shown: seq<Event>)
    ensures |shown| <= |events|
    ensures forall k :: 0 <= k < |shown| ==> shown[k].filterType == Some(action)
  {
    if |events| == 0 then []
    else
      var rest := Tagged(events[1..], action);
      if events[0].filterType == Some(action) then [events[0]] + rest else rest
  }

  /** `xs` is `ys` with some elements left out, the rest in their order. */
  predicate IsSubsequence(xs: seq<Event>, ys: seq<Event>)
  {
    || |xs| == 0
    || (&& |ys| > 0
        && (|| IsSubsequence(xs, ys[1..])
            || (xs[0] == ys[0] && IsSubsequence(xs[1..], ys[1..]))))
  }

  /** The selected events are exactly the saved events whose tag is selected. */
  lemma {:induction false} SelectedExact(events: seq<Event>, values: seq<string>, e: Event)
    ensures e in Selected(events, values) <==> e in events && Matches(e, values)
  {
    if |events| > 0 {
      SelectedExact(events[1..], values, e);
      assert events == [events[0]] + events[1..];
    }
  }

  /** Filtering keeps the saved order: the result is a subsequence of the saved events. */
  lemma {:induction false} SelectedIsSubsequence(events: seq<Event>, values: seq<string>)
    ensures IsSubsequence(Selected(events, values), events)
  {
    if |events| > 0 {
      SelectedIsSubsequence(events[1..], values);
      var rest := Selected(events[1..], values);
      if Matches(events[0], values) {
        assert ([events[0]] + rest)[1..] == rest;
      }
    }
  }

  /** An empty selection shows no events. */
  lemma {:induction false} SelectedNothing(events: seq<Event>)
    ensures Selected(events, []) == []
  {
    if |events| > 0 {
      SelectedNothing(events[1..]);
    }
  }

  /** Filtering by a selection keeps the order: it distributes over concatenation. */
  lemma {:induction false} SelectedAppend(a: seq<Event>, b: seq<Event>, values: seq<string>)
    ensures Selected(a + b, values) == Selected(a, values) + Selected(b, values)
  {
    if |a| > 0 {
      assert (a + b)[1..] == a[1..] + b;
      assert (a + b)[0] == a[0];
      SelectedAppend(a[1..], b, values);
    } else {
      assert a + b == b;
    }
  }

  /** The navigation filter is the selection filter with the action as the only value. */
  lemma {:induction false} TaggedIsSelected(events: seq<Event>, action: string)
    ensures Tagged(events, action) == Selected(events, [action])
  {
    if |events| > 0 {
      TaggedIsSelected(events[1..], action);
    }
  }

  /** Filtering twice with one selection is filtering once. */
  lemma {:induction false} SelectedIdempotent(events: seq<Event>, values: seq<string>)
    ensures Selected(Selected(events, values), values) == Selected(events, values)
  {
    if |events| > 0 {
      SelectedIdempotent(events[1..], values);
      var rest := Selected(events[1..], values);
      if Matches(events[0], values) {
        assert ([events[0]] + rest)[1..] == rest;
      }
    }
  }

  /** The navigation actions that filter instead of moving the date. */
  const NavigationFilters: set<string> := {"coach", "frontdesk", "all"}

  class Calendar {
    var data: CalendarData
    var saved: CalendarData
    var date: int

    /** The live data always derives from the saved snapshot: same resources and keys, and
        events that are the saved ones with some left out. */
    ghost predicate Valid()
      reads this
    {
      && data.resources == saved.resources
      && data.keys == saved.keys
      && IsSubsequence(data.events, saved.events)
    }

    /** The initial state: both copies `{resources: [], events: [], keys: undefined}`. */
    constructor (date: int)
      ensures Valid()
      ensures data == CalendarData(Some([]), [], None) && saved == data && this.date == date
    {
      data := CalendarData(Some([]), [], None);
      saved := CalendarData(Some([]), [], None);
      this.date := date;
    }

    /** A data refresh: the live data and the saved snapshot are set together. */
    method Load(snapshot: CalendarData)
      modifies this
      ensures Valid()
      ensures data == snapshot && saved == snapshot && date == old(date)
    {
      data := snapshot;
      saved := snapshot;
      ReflexiveSubsequence(snapshot.events);
    }

    /** `_handleFilter`: the live events become the saved events whose tag is among the
        selected values; resources and keys are the saved ones. */
    method Filter(options: seq<FilterOption>)
      requires Valid()
      modifies this`data
      ensures Valid()
      ensures data == CalendarData(saved.resources, Selected(saved.events, Values(options)), saved.keys)
      ensures saved == old(saved) && date == old(date)
    {
      var filters := Values(options);
      data := CalendarData(saved.resources, Selected(saved.events, filters), saved.keys);
      SelectedIsSubsequence(saved.events, filters);
    }

    /** `_handleNavigate`: the actions coach, frontdesk and all filter the saved events by
        equality with the action and keep the date; any other action moves to `newDate`
        and keeps the data. The view argument is not used. */
    method Navigate(newDate: int, view: string, action: string)
      requires Valid()
      modifies this`data, this`date
      ensures Valid()
      ensures action in NavigationFilters ==>
        data == CalendarData(saved.resources, Tagged(saved.events, action), saved.keys) && date == old(date)
      ensures action !in NavigationFilters ==> data == old(data) && date == newDate
      ensures saved == old(saved)
    {
      if action == "coach" || action == "frontdesk" || action == "all" {
        data := CalendarData(saved.resources, Tagged(saved.events, action), saved.keys);
        TaggedIsSelected(saved.events, action);
        SelectedIsSubsequence(saved.events, [action]);
        return;
      }
      date := newDate;
    }
  }

  /** Every list is a subsequence of itself. */
  lemma {:induction false} ReflexiveSubsequence(events: seq<Event>)
    ensures IsSubsequence(events, events)
  {
    if |events| > 0 {
      ReflexiveSubsequence(events[1..]);
    }
  }
}
