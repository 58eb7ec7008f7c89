/**
  View configuration: which calendar views are offered (`getCalendarViews`),
  which one is shown (`getCalendarView`), the work-week day list
  (`getWorkWeekExcludedDays`) and the week-start override of the localizer.
  A view set is modelled as the list of its keys in insertion order, which is
  the order `Object.keys` reports.
 */
module Views {
  import opened Options
  import opened Text

  /** The views the control allows. */
  const AllViews: seq<string> := ["month", "week", "agenda"]

  /** `calendarAvailableViews.raw || "month"` ("" stands for an absent parameter). */
  function ViewList(availableViews: string): string
  {
    if availableViews == "" then "month" else availableViews
  }

  /** `viewList.split(',').filter(x => allViews.indexOf(x.trim()) !== -1)`: the segments
      whose trimmed form is allowed, themselves left untrimmed. */
  function ValidSegments(segments: seq<string>): (valid: seq<string>)
    ensures forall x :: x in valid <==> x in segments && Trim(x) in AllViews
    ensures !NoneAllowed(segments) ==> |valid| >= 1 && valid[0] == segments[FirstAllowed(segments)]
  {
    if |segments| == 0 then []
    else
      var rest := ValidSegments(segments[1..]);
      assert segments == [segments[0]] + segments[1..];
      if Trim(segments[0]) in AllViews then [segments[0]] + rest
      else
        RestAllowed(segments);
        rest
  }

  /** The allowed segments trimmed, in order. */
  function TrimmedValidSegments(segments: seq<string>): (valid: seq<string>)
    ensures forall i :: 0 <= i < |valid| ==> valid[i] in AllViews
    ensures forall x :: x in valid <==> exists i :: 0 <= i < |segments| && Trim(segments[i]) == x && x in AllViews
    ensures !NoneAllowed(segments) ==> |valid| >= 1 && valid[0] == Trim(segments[FirstAllowed(segments)])
  {
    if |segments| == 0 then []
    else
      var rest := TrimmedValidSegments(segments[1..]);
      assert forall i :: 0 < i < |segments| ==> segments[i] == segments[1..][i - 1];
      if Trim(segments[0]) in AllViews then [Trim(segments[0])] + rest
      else
        RestAllowed(segments);
        rest
  }

  /** The keys of an object after `obj[name] = ...` for each name in turn: each name once,
      at its first insertion. */
  function InsertionOrder(names: seq<string>): (keys: seq<string>)
    ensures forall x :: x in keys <==> x in names
    ensures forall i, j :: 0 <= i < j < |keys| ==> keys[i] != keys[j]
    ensures |names| >= 1 ==> |keys| >= 1 && keys[0] == names[0]
  {
    if |names| == 0 then []
    else
      var keys := InsertionOrder(names[..|names| - 1]);
      assert |names| > 1 ==> names[..|names| - 1][0] == names[0];
      var name := names[|names| - 1];
      assert names == names[..|names| - 1] + [name];
      if name in keys then keys else keys + [name]
  }

  /** Some segment trims to the allowed view `v`. */
  predicate Configured(segments: seq<string>, v: string)
  {
    v in AllViews && exists i :: 0 <= i < |segments| && Trim(segments[i]) == v
  }

  /** No segment trims to an allowed view. */
  predicate NoneAllowed(segments: seq<string>)
  {
    forall i :: 0 <= i < |segments| ==> Trim(segments[i]) !in AllViews
  }

  /** The position of the first segment that trims to an allowed view. */
  function FirstAllowed(segments: seq<string>): (k: nat)
    requires !NoneAllowed(segments)
    ensures k < |segments| && Trim(segments[k]) in AllViews
    ensures forall j :: 0 <= j < k ==> Trim(segments[j]) !in AllViews
  {
    if Trim(segments[0]) in AllViews then 0
    else
      RestAllowed(segments);
      var k := FirstAllowed(segments[1..]);
      assert forall j :: 1 <= j <= k + 1 ==> segments[j] == segments[1..][j - 1];
      1 + k
  }

  /** Past a first segment that is not allowed, the rest holds an allowed segment exactly
      when the whole list does. */
  lemma RestAllowed(segments: seq<string>)
    requires |segments| >= 1 && Trim(segments[0]) !in AllViews
    ensures NoneAllowed(segments) <==> NoneAllowed(segments[1..])
  {
    assert forall i :: 0 <= i < |segments| - 1 ==> segments[1..][i] == segments[i + 1];
    if !NoneAllowed(segments) {
      var i :| 0 <= i < |segments| && Trim(segments[i]) in AllViews;
      assert segments[1..][i - 1] == segments[i];
    }
  }

  /** The view set of a list of segments as written: `{week: true}` when no segment trims
      to an allowed view; otherwise each segment that does, untrimmed, once. */
  function UntrimmedViewsOf(segments: seq<string>): (keys: seq<string>)
    ensures |keys| >= 1
    ensures forall i, j :: 0 <= i < j < |keys| ==> keys[i] != keys[j]
    ensures NoneAllowed(segments) ==> keys == ["week"]
    ensures !NoneAllowed(segments) ==> forall x :: x in keys <==> x in segments && Trim(x) in AllViews
    ensures !NoneAllowed(segments) ==> keys[0] == segments[FirstAllowed(segments)]
  {
    var valid := ValidSegments(segments);
    if |valid| < 1 then
      assert NoneAllowed(segments) by {
        forall i | 0 <= i < |segments| ensures Trim(segments[i]) !in AllViews {
          assert segments[i] !in valid;
        }
      }
      ["week"]
    else
      assert valid[0] in valid;
      assert !NoneAllowed(segments);
      InsertionOrder(valid)
  }

  /** `getCalendarViews` as written: a segment is admitted on its trimmed form but used
      untrimmed as the key; `{week: true}` when no segment is admitted. */
  function ViewsAsWritten(availableViews: string): (keys: seq<string>)
    ensures |keys| >= 1
    ensures forall i, j :: 0 <= i < j < |keys| ==> keys[i] != keys[j]
    ensures var segments := Split(ViewList(availableViews), ',');
      NoneAllowed(segments) ==> keys == ["week"]
    ensures var segments := Split(ViewList(availableViews), ',');
      !NoneAllowed(segments) ==> forall x :: x in keys <==> x in segments && Trim(x) in AllViews
    ensures var segments := Split(ViewList(availableViews), ',');
      !NoneAllowed(segments) ==> keys[0] == segments[FirstAllowed(segments)]
  {
    UntrimmedViewsOf(Split(ViewList(availableViews), ','))
  }

  /** The view set of a list of segments, each admitted segment trimmed: never empty,
      only allowed views, each once; a view is present exactly when some segment trims to
      it, or the set is `week` alone when none does. */
  function ViewsOf(segments: seq<string>): (keys: seq<string>)
    ensures |keys| >= 1
    ensures forall i :: 0 <= i < |keys| ==> keys[i] in AllViews
    ensures forall i, j :: 0 <= i < j < |keys| ==> keys[i] != keys[j]
    ensures forall v :: v in keys <==> Configured(segments, v) || (v == "week" && NoneAllowed(segments))
    ensures NoneAllowed(segments) ==> keys == ["week"]
    ensures !NoneAllowed(segments) ==> keys[0] == Trim(segments[FirstAllowed(segments)])
  {
    var valid := TrimmedValidSegments(segments);
    if |valid| < 1 then
      assert NoneAllowed(segments);
      ["week"]
    else
      assert valid[0] in valid;
      assert !NoneAllowed(segments);
      InsertionOrder(valid)
  }

  /** `getCalendarViews` with each admitted segment trimmed before it becomes a key. */
  function CalendarViews(availableViews: string): (keys: seq<string>)
    ensures |keys| >= 1
    ensures forall i :: 0 <= i < |keys| ==> keys[i] in AllViews
    ensures forall i, j :: 0 <= i < j < |keys| ==> keys[i] != keys[j]
    ensures var segments := Split(ViewList(availableViews), ',');
      forall v :: v in keys <==> Configured(segments, v) || (v == "week" && NoneAllowed(segments))
    ensures var segments := Split(ViewList(availableViews), ',');
      NoneAllowed(segments) ==> keys == ["week"]
    ensures var segments := Split(ViewList(availableViews), ',');
      !NoneAllowed(segments) ==> keys[0] == Trim(segments[FirstAllowed(segments)])
  {
    ViewsOf(Split(ViewList(availableViews), ','))
  }

  /** No segment has blanks around it. */
  predicate NoBlanks(segments: seq<string>)
  {
    forall i :: 0 <= i < |segments| ==> Trim(segments[i]) == segments[i]
  }

  /** Both filters admit the same segments when no segment has blanks around it. */
  lemma {:induction false} SegmentsAgree(segments: seq<string>)
    requires NoBlanks(segments)
    ensures ValidSegments(segments) == TrimmedValidSegments(segments)
  {
    if |segments| > 0 {
      assert forall i :: 0 <= i < |segments| - 1 ==> segments[1..][i] == segments[i + 1];
      SegmentsAgree(segments[1..]);
    }
  }

  /** Without blanks around the configured names, the view set as written is the
      corrected one. */
  lemma ViewsAgreeWithoutBlanks(availableViews: string)
    requires NoBlanks(Split(ViewList(availableViews), ','))
    ensures ViewsAsWritten(availableViews) == CalendarViews(availableViews)
  {
    SegmentsAgree(Split(ViewList(availableViews), ','));
  }

  lemma SplitMonthWeek()
    ensures Split("month, week", ',') == ["month", " week"]
  {
    assert "month, week" == "month" + [','] + " week";
    SplitAround("month", " week", ',');
  }

  lemma TrimMonthWeek()
    ensures Trim("month") == "month" && Trim(" week") == "week"
  {
    assert TrimStart(" week") == TrimStart("week");
  }

  lemma BlankWeekIsNoView()
    ensures " week" !in AllViews
  {
  }

  lemma WrittenMonthWeek()
    ensures ViewsAsWritten("month, week") == ["month", " week"]
  {
    SplitMonthWeek();
    TrimMonthWeek();
    UntrimmedPair("month", " week");
  }

  lemma CorrectedMonthWeek()
    ensures "week" in CalendarViews("month, week")
  {
    SplitMonthWeek();
    TrimMonthWeek();
    var segments := Split(ViewList("month, week"), ',');
    assert Trim(segments[1]) == "week";
    assert Configured(segments, "week");
  }

  /** A configuration with a blank after a comma gives a view key that is not a view. */
  lemma ViewsAsWrittenKeepsBlanks()
    ensures " week" in ViewsAsWritten("month, week")
    ensures " week" !in AllViews
    ensures "week" in CalendarViews("month, week")
  {
    WrittenMonthWeek();
    CorrectedMonthWeek();
    BlankWeekIsNoView();
  }


  /** `getCalendarView`: the lower-cased requested name when it is a key, else the first key. */
  function CalendarView(views: seq<string>, viewName: string): (view: string)
    requires |views| >= 1
    ensures view in views
    ensures ToLower(viewName) in views && ToLower(viewName) != "" ==> view == ToLower(viewName)
    ensures !(ToLower(viewName) in views && ToLower(viewName) != "") ==> view == views[0]
  {
    var name := ToLower(viewName);
    if name in views && name != "" then name else views[0]
  }

  /** Two distinct admitted segments become the keys, in order. */
  lemma UntrimmedPair(a: string, b: string)
    requires Trim(a) in AllViews && Trim(b) in AllViews && a != b
    ensures UntrimmedViewsOf([a, b]) == [a, b]
  {
    var segments := [a, b];
    assert segments[1..] == [b];
    assert [b][1..] == [];
    assert ValidSegments([b]) == [b];
    assert ValidSegments(segments) == [a, b];
    assert [a, b][..1] == [a];
    assert [a][..0] == [];
    assert InsertionOrder([a]) == [a];
  }

  /** With a blank before the first name, the view shown when none is requested is the
      key " week", which is not a view. */
  lemma ShownViewAsWritten()
    ensures CalendarView(ViewsAsWritten(" week,month"), "") == " week"
    ensures " week" !in AllViews
  {
    assert " week,month" == " week" + [','] + "month";
    SplitAround(" week", "month", ',');
    TrimMonthWeek();
    UntrimmedPair(" week", "month");
    BlankWeekIsNoView();
    assert ToLower("") == "";
  }

  /** With the corrected view set, a request that names no allowed view (none, or an
      unknown one) shows the first configured view, or week when none is configured. */
  lemma ShownByDefault(availableViews: string, viewName: string)
    requires ToLower(viewName) !in AllViews
    ensures var segments := Split(ViewList(availableViews), ',');
      CalendarView(CalendarViews(availableViews), viewName)
        == if NoneAllowed(segments) then "week" else Trim(segments[FirstAllowed(segments)])
  {
  }

  /** For the corrected view set, whatever is configured and requested, the view shown is
      an allowed one. */
  lemma ShownViewIsAllowed(availableViews: string, viewName: string)
    ensures CalendarView(CalendarViews(availableViews), viewName) in AllViews
  {
    var views := CalendarViews(availableViews);
    var v := CalendarView(views, viewName);
    var i :| 0 <= i < |views| && views[i] == v;
  }

  /** Each segment of the work-week list as a number minus one (None for NaN). */
  function ShiftedDays(segments: seq<string>): (days: seq<Option<int>>)
    ensures |days| == |segments|
    ensures forall i :: 0 <= i < |days| ==>
      days[i] == (if ToNumber(segments[i]).Some? then Some(ToNumber(segments[i]).value - 1) else None)
  {
    if |segments| == 0 then []
    else
      var n := ToNumber(segments[0]);
      [if n.Some? then Some(n.value - 1) else None] + ShiftedDays(segments[1..])
  }

  /** `getWorkWeekExcludedDays`: the configured 1-based days, comma-separated, shifted to
      0-based day indexes; Monday to Friday (1..5) when nothing is configured. */
  function WorkWeekDays(calendarWorkWeekDays: string): (days: seq<Option<int>>)
    ensures |days| >= 1
    ensures calendarWorkWeekDays != "" ==> |days| == |Split(calendarWorkWeekDays, ',')|
    ensures calendarWorkWeekDays == "" ==> |days| == 5 && forall k :: 0 <= k < 5 ==> days[k] == Some(k + 1)
  {
    if calendarWorkWeekDays != "" then ShiftedDays(Split(calendarWorkWeekDays, ','))
    else [Some(1), Some(2), Some(3), Some(4), Some(5)]
  }

  function Numerals(days: seq<int>): (ss: seq<string>)
    ensures |ss| == |days|
    ensures forall i :: 0 <= i < |ss| ==> ss[i] == IntToString(days[i])
  {
    if |days| == 0 then []
    else
      var rest := Numerals(days[1..]);
      assert forall i :: 1 <= i < |days| ==> days[i] == days[1..][i - 1];
      [IntToString(days[0])] + rest
  }

  /** A comma-separated list of day numbers reads back as those days, each one lower. */
  lemma WorkWeekDaysRoundTrip(days: seq<int>)
    requires |days| >= 1
    ensures var r := WorkWeekDays(Join(Numerals(days), ','));
      |r| == |days| && forall i :: 0 <= i < |days| ==> r[i] == Some(days[i] - 1)
  {
    var ss := Numerals(days);
    forall i | 0 <= i < |ss| ensures ',' !in ss[i] && ToNumber(ss[i]) == Some(days[i]) {
      ToNumberIntToString(days[i]);
      NumeralLacks(days[i], ',');
    }
    SplitJoin(ss, ',');
    assert Join(ss, ',') != "" by {
      JoinStartsWithFirst(ss, ',');
    }
  }

  /** The week-start override of the localizer: a configured day 1..7 (Sunday = 1) gives
      the 0-based first weekday; otherwise the locale's, or Sunday without locale data.
      The result is a weekday index whenever the override and the locale's day are. */
  function WeekStartDay(weekStartDay: int, localeFirstDay: Option<int>): (firstDay: int)
    ensures weekStartDay > 0 ==> firstDay == weekStartDay - 1
    ensures weekStartDay <= 0 && localeFirstDay.None? ==> firstDay == 0
    ensures weekStartDay <= 0 && localeFirstDay.Some? ==> firstDay == localeFirstDay.value
    ensures (1 <= weekStartDay <= 7 || (weekStartDay <= 0 && (localeFirstDay.Some? ==> 0 <= localeFirstDay.value < 7)))
            ==> 0 <= firstDay < 7
  {
    if weekStartDay > 0 then weekStartDay - 1
    else if localeFirstDay.Some? then localeFirstDay.value
    else 0
  }
}
