/**
  `formatDateAsParameterString`: the local date and time of a `Date` as the
  text a form parameter carries, `M/D/YYYY h:m:s`, numbers without padding and
  the month counted from 1. The reader beside it is the inverse the format is
  designed for.
 */
module DateFormat {
  import opened Options
  import opened Text

  /** The local calendar fields of a `Date` that the formatter reads; `month` is 0-based
      as `getMonth` reports it. */
  datatype LocalDateTime = LocalDateTime(year: int, month: int, date: int, hours: int, minutes: int, seconds: int)

  /** The date part: month (1-based), day and year, separated by '/'. */
  function DatePart(d: LocalDateTime): seq<string>
  {
    [IntToString(d.month + 1), IntToString(d.date), IntToString(d.year)]
  }

  /** The time part: hours, minutes and seconds, separated by ':'. */
  function TimePart(d: LocalDateTime): seq<string>
  {
    [IntToString(d.hours), IntToString(d.minutes), IntToString(d.seconds)]
  }

  /** `formatDateAsParameterString`: the date part, a blank and the time part. Every field
      has at least one digit, so the text is at least eleven characters long. */
  function FormatDateAsParameterString(d: LocalDateTime): (s: string)
    ensures |s| >= 11
  {
    JoinThree(DatePart(d), '/');
    JoinThree(TimePart(d), ':');
    Join(DatePart(d), '/') + [' '] + Join(TimePart(d), ':')
  }

  /** Reads `M/D/YYYY h:m:s` back; None when the shape is wrong or a field is not a number. */
  function ParseParameterString(s: string): (d: Option<LocalDateTime>)
  {
    var halves := Split(s, ' ');
    if |halves| != 2 then None
    else
      var ds := Split(halves[0], '/');
      var ts := Split(halves[1], ':');
      if |ds| != 3 || |ts| != 3 then None else ReadFields(ds, ts)
  }

  /** The six fields read with unary `+`, the month shifted back to 0-based. */
  function ReadFields(ds: seq<string>, ts: seq<string>): Option<LocalDateTime>
    requires |ds| == 3 && |ts| == 3
  {
    var month, date, year := ToNumber(ds[0]), ToNumber(ds[1]), ToNumber(ds[2]);
    var hours, minutes, seconds := ToNumber(ts[0]), ToNumber(ts[1]), ToNumber(ts[2]);
    if month.Some? && date.Some? && year.Some? && hours.Some? && minutes.Some? && seconds.Some? then
      Some(LocalDateTime(year.value, month.value - 1, date.value, hours.value, minutes.value, seconds.value))
    else None
  }

  /** A field free of all three separators. */
  predicate Plain(x: string)
  {
    ' ' !in x && '/' !in x && ':' !in x
  }

  /** A plain field that unary `+` reads as `n`. */
  predicate ReadsAs(x: string, n: int)
  {
    Plain(x) && ToNumber(x) == Some(n)
  }

  /** A numeral is free of the three separators and reads back as its number. */
  lemma NumeralReadsAs(i: int)
    ensures ReadsAs(IntToString(i), i)
  {
    ToNumberIntToString(i);
    NumeralLacks(i, ' ');
    NumeralLacks(i, '/');
    NumeralLacks(i, ':');
  }

  /** Three plain fields joined by '/', a blank, and three more joined by ':' split back
      into the two parts and the six fields. */
  lemma PlainFieldsSplitBack(date: seq<string>, time: seq<string>)
    requires |date| == 3 && |time| == 3
    requires forall i :: 0 <= i < 3 ==> Plain(date[i]) && Plain(time[i])
    ensures Split(Join(date, '/') + [' '] + Join(time, ':'), ' ') == [Join(date, '/'), Join(time, ':')]
    ensures Split(Join(date, '/'), '/') == date
    ensures Split(Join(time, ':'), ':') == time
  {
    SplitJoin(date, '/');
    SplitJoin(time, ':');
    JoinLacks(date, '/', ' ');
    JoinLacks(time, ':', ' ');
    SplitAround(Join(date, '/'), Join(time, ':'), ' ');
  }

  /** Six fields that read as the numbers of a date and time read as it. */
  lemma FieldsRead(date: seq<string>, time: seq<string>, d: LocalDateTime)
    requires |date| == 3 && |time| == 3
    requires ReadsAs(date[0], d.month + 1) && ReadsAs(date[1], d.date) && ReadsAs(date[2], d.year)
    requires ReadsAs(time[0], d.hours) && ReadsAs(time[1], d.minutes) && ReadsAs(time[2], d.seconds)
    ensures ReadFields(date, time) == Some(d)
  {
  }

  /** Six plain fields joined as the format joins them parse as their reading. */
  lemma FieldsParse(date: seq<string>, time: seq<string>)
    requires |date| == 3 && |time| == 3
    requires forall i :: 0 <= i < 3 ==> Plain(date[i]) && Plain(time[i])
    ensures ParseParameterString(Join(date, '/') + [' '] + Join(time, ':')) == ReadFields(date, time)
  {
    PlainFieldsSplitBack(date, time);
  }

  /** Six fields that read as the numbers of a date and time, joined as the format joins
      them, parse back as that date and time. */
  lemma FieldsRoundTrip(date: seq<string>, time: seq<string>, d: LocalDateTime)
    requires |date| == 3 && |time| == 3
    requires ReadsAs(date[0], d.month + 1) && ReadsAs(date[1], d.date) && ReadsAs(date[2], d.year)
    requires ReadsAs(time[0], d.hours) && ReadsAs(time[1], d.minutes) && ReadsAs(time[2], d.seconds)
    ensures ParseParameterString(Join(date, '/') + [' '] + Join(time, ':')) == Some(d)
  {
    FieldsRead(date, time, d);
    assert forall i :: 0 <= i < 3 ==> Plain(date[i]) && Plain(time[i]);
    FieldsParse(date, time);
  }

  /** The parameter string carries the whole date and time: reading it back gives every
      field, the month again 0-based. */
  lemma FormatRoundTrip(d: LocalDateTime)
    ensures ParseParameterString(FormatDateAsParameterString(d)) == Some(d)
  {
    NumeralReadsAs(d.month + 1);
    NumeralReadsAs(d.date);
    NumeralReadsAs(d.year);
    NumeralReadsAs(d.hours);
    NumeralReadsAs(d.minutes);
    NumeralReadsAs(d.seconds);
    FieldsRoundTrip(DatePart(d), TimePart(d), d);
  }

  lemma ExampleNumerals()
    ensures IntToString(2024) == "2024" && IntToString(15) == "15"
    ensures IntToString(3) == "3" && IntToString(9) == "9"
    ensures IntToString(5) == "5" && IntToString(0) == "0"
  {
    assert NatToString(20) == "20" by {
      assert NatToString(2) == "2";
    }
    assert NatToString(202) == "202";
    assert NatToString(15) == "15" by {
      assert NatToString(1) == "1";
    }
  }

  /** Friday 15 March 2024, 09:05:00 (March is month 2): no zero padding, month from 1. */
  lemma FormatExample()
    ensures FormatDateAsParameterString(LocalDateTime(2024, 2, 15, 9, 5, 0)) == "3/15/2024 9:5:0"
  {
    ExampleNumerals();
    var d := LocalDateTime(2024, 2, 15, 9, 5, 0);
    assert DatePart(d) == ["3", "15", "2024"];
    assert TimePart(d) == ["9", "5", "0"];
    assert Join(["3", "15", "2024"], '/') == "3/15/2024";
    assert Join(["9", "5", "0"], ':') == "9:5:0";
  }

}
