/** The naive calendar date-time a timestamp line denotes, its validity as
    Python's `datetime` judges it, and `strptime` with the format
    `%Y/%m/%d %H:%M:%S` applied to the text the timestamp pattern captures. */
module Calendar {
  import opened Wrappers
  import opened Text

  /** The characters that follow the month, day, hour and minute fields. */
  const FieldSeparators: string := "/ ::"

  /** A date-time with second precision and no time zone. */
  datatype DateTime = DateTime(year: nat, month: nat, day: nat, hour: nat, minute: nat, second: nat)

  /** The error `strptime` raises (a `ValueError`), carrying the text it was given. */
  datatype ParseError = InvalidTimestamp(text: string)

  /** Gregorian leap years, as the proleptic calendar of `datetime` defines them. */
  predicate IsLeapYear(y: nat) {
    y % 4 == 0 && (y % 100 != 0 || y % 400 == 0)
  }

  function DaysInMonth(y: nat, m: nat): (d: nat)
    requires 1 <= m <= 12
    ensures 28 <= d <= 31
    ensures d == 29 <==> m == 2 && IsLeapYear(y)
    ensures d == 28 <==> m == 2 && !IsLeapYear(y)
    ensures d == 30 <==> m in {4, 6, 9, 11}
  {
    if m == 2 then (if IsLeapYear(y) then 29 else 28)
    else if m == 4 || m == 6 || m == 9 || m == 11 then 30
    else 31
  }

  /** The date-times `datetime` can represent: years 1..9999, a real day of
      the month, and no leap second. */
  predicate ValidDateTime(dt: DateTime) {
    && 1 <= dt.year <= 9999
    && 1 <= dt.month <= 12
    && 1 <= dt.day <= DaysInMonth(dt.year, dt.month)
    && dt.hour <= 23
    && dt.minute <= 59
    && dt.second <= 59
  }

  /** The six digit groups captured by the timestamp pattern. */
  datatype StampText = StampText(year: string, month: string, day: string, hour: string, minute: string, second: string) {

    /** The shape `\d{4}/\d{1,2}/\d{1,2} \d{1,2}:\d{1,2}:\d{1,2}` admits. */
    predicate WellFormed() {
      && |year| == 4 && AllDigits(year)
      && 1 <= |month| <= 2 && AllDigits(month)
      && 1 <= |day| <= 2 && AllDigits(day)
      && 1 <= |hour| <= 2 && AllDigits(hour)
      && 1 <= |minute| <= 2 && AllDigits(minute)
      && 1 <= |second| <= 2 && AllDigits(second)
    }

    /** The captured group as one string: the year, a slash, and the other
        fields joined by the separators `/`, ` `, `:` and `:`, as in
        `2024/3/5 9:7:2`. */
    function Text(): string {
      year + "/" + Joined([month, day, hour, minute, second], FieldSeparators)
    }

    /** The numbers the digit groups spell. */
    function Fields(): DateTime
      requires WellFormed()
    {
      DateTime(DigitsValue(year), DigitsValue(month), DigitsValue(day),
               DigitsValue(hour), DigitsValue(minute), DigitsValue(second))
    }
  }

  /** `datetime.strptime(text, '%Y/%m/%d %H:%M:%S')` on a captured group.
      The directive patterns accept every 1-2 digit field whose value is in
      range (seconds 60 and 61 included). A day beyond the month's length or
      year 0 is then rejected while the date is built for the day-of-year
      computation, and seconds 60 and 61 by the final `datetime` constructor.
      Each of these raises `ValueError`, so the call succeeds exactly on
      valid fields. */
  function Strptime(t: StampText): (r: Result<DateTime, ParseError>)
    requires t.WellFormed()
    ensures r.Success? <==> ValidDateTime(t.Fields())
    ensures r.Success? ==> r.value == t.Fields()
    ensures r.Failure? ==> r.error == InvalidTimestamp(t.Text())
  {
    var dt := t.Fields();
    if ValidDateTime(dt) then Success(dt) else Failure(InvalidTimestamp(t.Text()))
  }

  /** Two-digit zero-padded rendering of a number below 100. */
  function Pad2(n: nat): (s: string)
    requires n < 100
    ensures |s| == 2 && AllDigits(s)
  {
    [DigitChar(n / 10), DigitChar(n % 10)]
  }

  /** Four-digit zero-padded rendering of a number below 10000. */
  function Pad4(n: nat): (s: string)
    requires n < 10000
    ensures |s| == 4 && AllDigits(s)
  {
    Pad2(n / 100) + Pad2(n % 100)
  }

  lemma Pad2Value(n: nat)
    requires n < 100
    ensures DigitsValue(Pad2(n)) == n
  {
    var a, b := DigitChar(n / 10), DigitChar(n % 10);
    DigitsValueSnoc([], a);
    assert [] + [a] == [a];
    DigitsValueSnoc([a], b);
  }

  lemma Pad4Value(n: nat)
    requires n < 10000
    ensures DigitsValue(Pad4(n)) == n
  {
    var hi, lo := n / 100, n % 100;
    Pad2Value(hi);
    var c, d := DigitChar(lo / 10), DigitChar(lo % 10);
    DigitsValueSnoc(Pad2(hi), c);
    DigitsValueSnoc(Pad2(hi) + [c], d);
    assert Pad4(n) == Pad2(hi) + [c] + [d];
  }

  /** `strftime('%Y/%m/%d %H:%M:%S')`: the zero-padded text of a valid date-time. */
  function Strftime(dt: DateTime): (t: StampText)
    requires ValidDateTime(dt)
    ensures t.WellFormed()
  {
    StampText(Pad4(dt.year), Pad2(dt.month), Pad2(dt.day), Pad2(dt.hour), Pad2(dt.minute), Pad2(dt.second))
  }

  /** Parsing the rendering of a valid date-time gives it back. */
  lemma StrptimeOfStrftime(dt: DateTime)
    requires ValidDateTime(dt)
    ensures Strptime(Strftime(dt)) == Success(dt)
  {
    Pad4Value(dt.year);
    Pad2Value(dt.month);
    Pad2Value(dt.day);
    Pad2Value(dt.hour);
    Pad2Value(dt.minute);
    Pad2Value(dt.second);
  }

  /** Pads a one-digit field with a leading zero. */
  function ZeroPad(s: string): (p: string)
    requires 1 <= |s| <= 2 && AllDigits(s)
    ensures |p| == 2 && AllDigits(p)
  {
    LeadingZeroIgnored(s);
    if |s| == 1 then "0" + s else s
  }

  /** The same group with every 1-2 digit field zero-padded to two digits. */
  function Padded(t: StampText): (u: StampText)
    requires t.WellFormed()
    ensures u.WellFormed()
  {
    StampText(t.year, ZeroPad(t.month), ZeroPad(t.day), ZeroPad(t.hour), ZeroPad(t.minute), ZeroPad(t.second))
  }

  /** Non-padded fields parse exactly as their zero-padded equivalents:
      `2024/3/5 9:7:2` succeeds or fails with `2024/03/05 09:07:02`, and
      denotes the same instant. */
  lemma PaddingIrrelevant(t: StampText)
    requires t.WellFormed()
    ensures Strptime(t).Success? <==> Strptime(Padded(t)).Success?
    ensures Strptime(t).Success? ==> Strptime(t).value == Strptime(Padded(t)).value
  {
    LeadingZeroIgnored(t.month);
    LeadingZeroIgnored(t.day);
    LeadingZeroIgnored(t.hour);
    LeadingZeroIgnored(t.minute);
    LeadingZeroIgnored(t.second);
    assert Padded(t).Fields() == t.Fields();
  }
}
