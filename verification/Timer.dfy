/**
 * Clock-time value type of the planner (src/utils/helper/Timer.py): a frozen record of
 * hour, minute and second whose arithmetic goes through a total in minutes, plus the
 * distance/duration conversions and the "h:m:s" text form.
 */
module Timer {
  import opened Wrappers

  /** A clock time. The fields are never range-checked: the record accepts any integers. */
  datatype TimeImpl = TimeImpl(hour: int, minute: int, second: int)

  /** Python's round() on a float: the nearest integer, ties going to the even neighbour. */
  function RoundHalfEven(x: real): (r: int)
    ensures x - 0.5 <= r as real <= x + 0.5
    ensures (r as real == x - 0.5 || r as real == x + 0.5) ==> r % 2 == 0
  {
    var f := x.Floor;
    var frac := x - f as real;
    if frac < 0.5 then f
    else if frac > 0.5 then f + 1
    else if f % 2 == 0 then f else f + 1
  }

  /** On whole numbers, rounding is the identity. */
  lemma RoundWhole(n: int)
    ensures RoundHalfEven(n as real) == n
  {
    assert (n as real).Floor == n;
  }

  /** The floor of d / 60 is the Euclidean quotient of the floor of d by 60. */
  lemma FloorDivSixty(d: real)
    ensures (d / 60.0).Floor == d.Floor / 60
  {
    var f := d.Floor;
    var q, r := f / 60, f % 60;
    assert f == 60 * q + r && 0 <= r < 60;
    assert q as real <= d / 60.0 by {
      assert f as real <= d;
      assert 60.0 * q as real <= f as real;
    }
    assert d / 60.0 < (q + 1) as real by {
      assert d < (f + 1) as real;
      assert f + 1 <= 60 * q + 60;
    }
  }

  /**
   * convert_2_time: a duration in minutes as a clock time. The minutes are the floor of the
   * duration, plus one (carrying 59 into the hour) when Python's round lies above the floor.
   * An hour above 23 is not rejected: the error is constructed and discarded.
   */
  function ConvertToTime(durationMin: real): (t: TimeImpl)
    ensures 0 <= t.minute <= 59 && t.second == 0
    ensures 60 * t.hour + t.minute == RoundHalfEven(durationMin)
  {
    FloorDivSixty(durationMin);
    var hours := (durationMin / 60.0).Floor;
    var minutes := durationMin.Floor % 60;
    if RoundHalfEven(durationMin) > durationMin.Floor then
      if minutes == 59 then TimeImpl(hours + 1, 0, 0) else TimeImpl(hours, minutes + 1, 0)
    else
      TimeImpl(hours, minutes, 0)
  }

  /** get_in_minutes: the time as a (possibly fractional) total of minutes. */
  function GetInMinutes(t: TimeImpl): (m: real)
    ensures 0 <= t.second < 60 ==>
      (60 * t.hour + t.minute) as real <= m < (60 * t.hour + t.minute + 1) as real
    ensures t.second == 0 ==> m == (60 * t.hour + t.minute) as real
  {
    60.0 * t.hour as real + t.minute as real + t.second as real / 60.0
  }

  /** A whole number of minutes converts to (n div 60, n mod 60, 0) and back to n. */
  lemma WholeMinutesRoundTrip(n: int)
    ensures ConvertToTime(n as real) == TimeImpl(n / 60, n % 60, 0)
    ensures GetInMinutes(ConvertToTime(n as real)) == n as real
  {
    RoundWhole(n);
    var t := ConvertToTime(n as real);
    assert 60 * t.hour + t.minute == n;
  }

  /** The out-of-range check of convert_2_time and of the record never fires. */
  lemma HourOverflowIsAccepted()
    ensures ConvertToTime(1440.0) == TimeImpl(24, 0, 0)
    ensures ConvertToTime(-1.0) == TimeImpl(-1, 59, 0)
  {
    WholeMinutesRoundTrip(1440);
    WholeMinutesRoundTrip(-1);
  }

  // The six comparisons of TimeImpl, each decided by the minute totals alone.

  predicate Lt(a: TimeImpl, b: TimeImpl) { GetInMinutes(a) < GetInMinutes(b) }
  predicate Gt(a: TimeImpl, b: TimeImpl) { GetInMinutes(a) > GetInMinutes(b) }
  predicate Eq(a: TimeImpl, b: TimeImpl) { GetInMinutes(a) == GetInMinutes(b) }
  predicate Le(a: TimeImpl, b: TimeImpl) { GetInMinutes(a) <= GetInMinutes(b) }
  predicate Ge(a: TimeImpl, b: TimeImpl) { GetInMinutes(a) >= GetInMinutes(b) }

  /** The comparisons form a total preorder and are each other's complements. */
  lemma ComparisonsAreTotalPreorder(a: TimeImpl, b: TimeImpl, c: TimeImpl)
    ensures Le(a, a)
    ensures Le(a, b) && Le(b, c) ==> Le(a, c)
    ensures Le(a, b) || Le(b, a)
    ensures Lt(a, b) <==> !Ge(a, b)
    ensures Gt(a, b) <==> !Le(a, b)
    ensures Eq(a, b) <==> Le(a, b) && Ge(a, b)
    ensures Lt(a, b) <==> Gt(b, a)
  {
  }

  /** Equality is by minute total, not by fields: 0:60:0 equals 1:0:0. */
  lemma EqualityIgnoresFields()
    ensures Eq(TimeImpl(0, 60, 0), TimeImpl(1, 0, 0)) && TimeImpl(0, 60, 0) != TimeImpl(1, 0, 0)
  {
  }

  /** __add__ */
  function Add(a: TimeImpl, b: TimeImpl): (t: TimeImpl)
    ensures t.second == 0 && 0 <= t.minute <= 59
    ensures 60 * t.hour + t.minute == RoundHalfEven(GetInMinutes(a) + GetInMinutes(b))
  {
    ConvertToTime(GetInMinutes(a) + GetInMinutes(b))
  }

  /** __sub__ */
  function Sub(a: TimeImpl, b: TimeImpl): (t: TimeImpl)
    ensures t.second == 0 && 0 <= t.minute <= 59
    ensures 60 * t.hour + t.minute == RoundHalfEven(GetInMinutes(a) - GetInMinutes(b))
  {
    ConvertToTime(GetInMinutes(a) - GetInMinutes(b))
  }

  /** add_minutes */
  function AddMinutes(a: TimeImpl, minutes: real): (t: TimeImpl)
    ensures t.second == 0 && 0 <= t.minute <= 59
    ensures 60 * t.hour + t.minute == RoundHalfEven(GetInMinutes(a) + minutes)
  {
    ConvertToTime(GetInMinutes(a) + minutes)
  }

  /** sub_minutes */
  function SubMinutes(a: TimeImpl, minutes: real): (t: TimeImpl)
    ensures t.second == 0 && 0 <= t.minute <= 59
    ensures 60 * t.hour + t.minute == RoundHalfEven(GetInMinutes(a) - minutes)
  {
    ConvertToTime(GetInMinutes(a) - minutes)
  }

  /** Adding zero minutes gives back a normalised time; seconds are rounded away otherwise. */
  lemma AddZeroMinutes(a: TimeImpl)
    requires a.second == 0 && 0 <= a.minute <= 59
    ensures AddMinutes(a, 0.0) == a
  {
    var n := 60 * a.hour + a.minute;
    assert GetInMinutes(a) + 0.0 == n as real;
    WholeMinutesRoundTrip(n);
    assert n / 60 == a.hour && n % 60 == a.minute;
  }

  /** Adding then subtracting the same whole number of minutes is the identity. */
  lemma AddThenSubMinutes(a: TimeImpl, k: int)
    requires a.second == 0 && 0 <= a.minute <= 59
    ensures SubMinutes(AddMinutes(a, k as real), k as real) == a
  {
    var n := 60 * a.hour + a.minute;
    assert GetInMinutes(a) + k as real == (n + k) as real;
    WholeMinutesRoundTrip(n + k);
    var b := AddMinutes(a, k as real);
    assert GetInMinutes(b) - k as real == n as real;
    WholeMinutesRoundTrip(n);
    assert n / 60 == a.hour && n % 60 == a.minute;
  }

  /** calc_time: minutes needed for a distance in km at the average speed. */
  function CalcTime(distance: real, averageKmh: real): real
    requires averageKmh != 0.0
  {
    (distance * 60.0) / averageKmh
  }

  /** conv_time_to_dist: km covered in a duration at the average speed. */
  function ConvTimeToDist(duration: real, averageKmh: real): real
  {
    (duration * averageKmh) / 60.0
  }

  /** The two conversions are inverse to each other (exact real arithmetic). */
  lemma TimeDistanceRoundTrip(d: real, averageKmh: real)
    requires averageKmh != 0.0
    ensures ConvTimeToDist(CalcTime(d, averageKmh), averageKmh) == d
    ensures CalcTime(ConvTimeToDist(d, averageKmh), averageKmh) == d
  {
    var t := d * 60.0 / averageKmh;
    assert t * averageKmh == d * 60.0;
    var e := d * averageKmh / 60.0;
    assert e * 60.0 == d * averageKmh;
  }

  // ----- The "h:m:s" text form: __str__ and conv_string_2_Time -----

  /** str.split with one separator character: the fields between separators, empty ones kept. */
  function Split(s: string, sep: char): (fields: seq<string>)
    ensures |fields| >= 1
    ensures forall i :: 0 <= i < |fields| ==> sep !in fields[i]
  {
    if |s| == 0 then [""]
    else if s[0] == sep then [""] + Split(s[1..], sep)
    else
      var rest := Split(s[1..], sep);
      [[s[0]] + rest[0]] + rest[1..]
  }

  lemma {:induction false} SplitNoSeparator(a: string, sep: char)
    requires sep !in a
    ensures Split(a, sep) == [a]
  {
    if |a| > 0 {
      SplitNoSeparator(a[1..], sep);
      assert [a[0]] + a[1..] == a;
    }
  }

  lemma {:induction false} SplitField(a: string, sep: char, b: string)
    requires sep !in a
    ensures Split(a + [sep] + b, sep) == [a] + Split(b, sep)
  {
    if |a| == 0 {
      assert a + [sep] + b == [sep] + b;
      assert ([sep] + b)[1..] == b;
    } else {
      var s := a + [sep] + b;
      assert s[1..] == a[1..] + [sep] + b;
      SplitField(a[1..], sep, b);
      assert [a[0]] + a[1..] == a;
    }
  }

  predicate IsDigit(c: char) { '0' <= c <= '9' }

  function DigitValue(c: char): int requires IsDigit(c) { c as int - '0' as int }

  function DigitChar(d: int): (c: char)
    requires 0 <= d < 10
    ensures IsDigit(c) && DigitValue(c) == d
  {
    ('0' as int + d) as char
  }

  /** Value of a nonempty string of decimal digits. */
  function DigitsValue(s: string): (n: nat)
    requires |s| > 0 && forall i :: 0 <= i < |s| ==> IsDigit(s[i])
  {
    if |s| == 1 then DigitValue(s[0])
    else 10 * DigitsValue(s[..|s| - 1]) + DigitValue(s[|s| - 1])
  }

  /** str() of a natural number: its decimal digits, without leading zeros. */
  function NatToString(n: nat): (s: string)
    ensures |s| > 0 && forall i :: 0 <= i < |s| ==> IsDigit(s[i])
    decreases n
  {
    if n < 10 then [DigitChar(n)] else NatToString(n / 10) + [DigitChar(n % 10)]
  }

  lemma {:induction false} NatToStringValue(n: nat)
    ensures DigitsValue(NatToString(n)) == n
    decreases n
  {
    var s := NatToString(n);
    if n >= 10 {
      NatToStringValue(n / 10);
      assert s[..|s| - 1] == NatToString(n / 10);
    }
  }

  /** str() of an integer. */
  function IntToString(i: int): (s: string)
    ensures ':' !in s
  {
    if i < 0 then "-" + NatToString(-i) else NatToString(i)
  }

  /**
   * int() of a string: an optional sign followed by decimal digits; anything else fails,
   * as int() raises ValueError. Surrounding whitespace and digit underscores are not modelled.
   */
  function ParseInt(s: string): (r: Option<int>)
  {
    if |s| > 0 && (s[0] == '-' || s[0] == '+') then
      var digits := s[1..];
      if |digits| > 0 && forall i :: 0 <= i < |digits| ==> IsDigit(digits[i]) then
        var v: int := DigitsValue(digits);
        Some(if s[0] == '-' then -v else v)
      else None
    else if |s| > 0 && forall i :: 0 <= i < |s| ==> IsDigit(s[i]) then Some(DigitsValue(s))
    else None
  }

  lemma IntToStringParses(i: int)
    ensures ParseInt(IntToString(i)) == Some(i)
  {
    if i < 0 {
      NatToStringValue(-i);
      assert IntToString(i)[1..] == NatToString(-i);
    } else {
      NatToStringValue(i);
    }
  }

  /** __str__: "hour:minute:second". */
  function TimeToString(t: TimeImpl): string
  {
    IntToString(t.hour) + ":" + IntToString(t.minute) + ":" + IntToString(t.second)
  }

  /**
   * conv_string_2_Time: exactly three ':'-separated fields (the assertion), each parsed
   * with int() as hour, minute and second.
   */
  function ConvStringToTime(timeString: string): (r: Result<TimeImpl>)
    ensures r.Success? ==> |Split(timeString, ':')| == 3
  {
    var attr := Split(timeString, ':');
    if |attr| != 3 then Failure("AssertionError: expected three fields")
    else
      match (ParseInt(attr[0]), ParseInt(attr[1]), ParseInt(attr[2]))
      case (Some(h), Some(m), Some(s)) => Success(TimeImpl(h, m, s))
      case _ => Failure("ValueError: invalid literal for int()")
  }

  /** Reading back the text form of any time gives the same fields. */
  lemma StringRoundTrip(t: TimeImpl)
    ensures ConvStringToTime(TimeToString(t)) == Success(t)
  {
    var h, m, s := IntToString(t.hour), IntToString(t.minute), IntToString(t.second);
    assert TimeToString(t) == h + [':'] + (m + [':'] + s);
    SplitField(h, ':', m + [':'] + s);
    SplitField(m, ':', s);
    SplitNoSeparator(s, ':');
    IntToStringParses(t.hour);
    IntToStringParses(t.minute);
    IntToStringParses(t.second);
  }

  /**
   * Three ':'-free fields are read field by field: the result is the time of the three numbers
   * int() reads from them, and it fails exactly when one of them is not an integer.
   */
  lemma ConvStringToTimeFields(a: string, b: string, c: string)
    requires ':' !in a && ':' !in b && ':' !in c
    ensures ConvStringToTime(a + ":" + b + ":" + c).Failure? <==>
              ParseInt(a).None? || ParseInt(b).None? || ParseInt(c).None?
    ensures ParseInt(a).Some? && ParseInt(b).Some? && ParseInt(c).Some? ==>
              ConvStringToTime(a + ":" + b + ":" + c) ==
              Success(TimeImpl(ParseInt(a).value, ParseInt(b).value, ParseInt(c).value))
  {
    assert a + ":" + b + ":" + c == a + [':'] + (b + [':'] + c);
    SplitField(a, ':', b + [':'] + c);
    SplitField(b, ':', c);
    SplitNoSeparator(c, ':');
  }

  /** A string without exactly two separators is refused. */
  lemma TwoFieldsRefused()
    ensures ConvStringToTime("12:30").Failure?
  {
    SplitField("12", ':', "30");
    SplitNoSeparator("30", ':');
  }
}
