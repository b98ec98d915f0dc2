/** The log parser: the fixed-window grouping of `Grouping.Groups` with one group of
    lines turned into at most one measurement. A group in which all three
    patterns match gives a measurement; any other group is dropped without a
    trace; converting the timestamp can raise, and then the whole parse
    fails. */
module LogParser {
  import opened Wrappers
  import opened Text
  import opened Calendar
  import opened Matchers
  import opened Grouping

  /** One reading of the soil sensor, as `parse_log` appends it. Both numbers
      are what `float()` makes of the captured text, kept exact. */
  datatype Measurement = Measurement(timestamp: DateTime, temperature: real, capacitive: real)

  type Outcome = Result<seq<Measurement>, ParseError>

  /** What one group contributes: nothing unless all three patterns match,
      each at its own leftmost position; otherwise one measurement, or the
      error `strptime` raises on a calendar-invalid timestamp. */
  function Step(t: Triplet): Result<Option<Measurement>, ParseError> {
    match (MatchTimestamp(t.stamp), MatchTemperature(t.temp), MatchCapacitive(t.cap))
    case (Some(st), Some(tt), Some(ct)) =>
      var temperature := TemperatureValue(tt);
      var capacitive := DigitsValue(ct) as real;
      var timestamp :- Strptime(st);
      Success(Some(Measurement(timestamp, temperature, capacitive)))
    case _ => Success(None)
  }

  /** All three patterns match their lines of the group. */
  predicate AllMatch(t: Triplet) {
    MatchTimestamp(t.stamp).Some? && MatchTemperature(t.temp).Some? && MatchCapacitive(t.cap).Some?
  }

  /** A group contributes nothing exactly when one of the three patterns
      does not match its line; it raises exactly when all three match and the
      timestamp is not a valid calendar time, with the captured text in the
      error; otherwise its one measurement holds the values read from the
      three lines. */
  lemma StepSpec(t: Triplet)
    ensures Step(t) == Success(None) <==> !AllMatch(t)
    ensures Step(t).Failure? <==>
      AllMatch(t) && !ValidDateTime(MatchTimestamp(t.stamp).value.Fields())
    ensures Step(t).Failure? ==> Step(t).error == InvalidTimestamp(MatchTimestamp(t.stamp).value.Text())
    ensures Step(t).Success? && Step(t).value.Some? ==>
      var m := Step(t).value.value;
      && AllMatch(t)
      && ValidDateTime(m.timestamp)
      && m.timestamp == MatchTimestamp(t.stamp).value.Fields()
      && m.temperature == TemperatureValue(MatchTemperature(t.temp).value)
      && m.capacitive == DigitsValue(MatchCapacitive(t.cap).value) as real
  {
  }

  /** `parse_log` on the lines of the file. */
  function ParseLog(lines: seq<string>): (r: Outcome)
    ensures |lines| < 3 ==> r == Success([])
    ensures r.Success? ==> |r.value| <= |lines| / 3
  {
    Groups(Step, lines)
  }

  /** The loop of `parse_log` as written: a cursor that advances by three
      while a full group remains, appending a measurement when all three
      patterns match and returning early when `strptime` raises. */
  method ParseLogLoop(lines: seq<string>) returns (r: Outcome)
    ensures r == ParseLog(lines)
  {
    var data: seq<Measurement> := [];
    var i := 0;
    assert lines[i..] == lines;
    ThenUnit(ParseLog(lines));
    while i < |lines|
      invariant i <= |lines|
      invariant ParseLog(lines) == Then(Success(data), ParseLog(lines[i..]))
      decreases |lines| - i
    {
      if i + 2 < |lines| {
        var stampMatch := MatchTimestamp(lines[i]);
        var tempMatch := MatchTemperature(lines[i + 1]);
        var capMatch := MatchCapacitive(lines[i + 2]);
        var t := Triplet(lines[i], lines[i + 1], lines[i + 2]);
        assert lines[i..] == [t.stamp, t.temp, t.cap] + lines[i + 3..];
        GroupsCons(Step, t, lines[i + 3..]);
        ghost var tail := ParseLog(lines[i + 3..]);
        if stampMatch.Some? && tempMatch.Some? && capMatch.Some? {
          var temperature := TemperatureValue(tempMatch.value);
          var capacitive := DigitsValue(capMatch.value) as real;
          var timestamp :- Strptime(stampMatch.value);
          var m := Measurement(timestamp, temperature, capacitive);
          assert Step(t) == Success(Some(m));
          ThenAssoc(Success(data), Success([m]), tail);
          data := data + [m];
        } else {
          assert Step(t) == Success(None);
          ThenUnit(tail);
        }
        i := i + 3;
      } else {
        break;
      }
    }
    assert |lines[i..]| < 3;
    ThenUnit<Measurement, ParseError>(Success(data));
    return Success(data);
  }

  /** A group in which some pattern fails to match contributes nothing and
      does not disturb the groups after it. */
  lemma MalformedGroupDropped(t: Triplet, rest: seq<string>)
    requires !AllMatch(t)
    ensures ParseLog([t.stamp, t.temp, t.cap] + rest) == ParseLog(rest)
  {
    StepSpec(t);
    GroupsCons(Step, t, rest);
    ThenUnit(ParseLog(rest));
  }

  /** Aligned group `j` matches all three patterns but carries a timestamp
      that is not a valid calendar time. */
  predicate BadStampAt(lines: seq<string>, j: nat) {
    && 3 * j + 2 < |lines|
    && AllMatch(Window(lines, j))
    && !ValidDateTime(MatchTimestamp(Window(lines, j).stamp).value.Fields())
  }

  /** The parse raises exactly when some aligned group matches all three
      patterns with a calendar-invalid timestamp; a bad timestamp in a group
      that does not match as a whole, or in a line off the grid of groups,
      is harmless. The error carries the text of the first such group. */
  lemma ParseLogRaises(lines: seq<string>)
    ensures ParseLog(lines).Failure? <==> exists j: nat :: BadStampAt(lines, j)
    ensures ParseLog(lines).Failure? ==>
      exists j: nat :: BadStampAt(lines, j)
        && ParseLog(lines).error == InvalidTimestamp(MatchTimestamp(Window(lines, j).stamp).value.Text())
        && forall i: nat :: i < j ==> !BadStampAt(lines, i)
  {
    forall j: nat | 3 * j + 2 < |lines|
      ensures Rejects(Step, lines, j) <==> BadStampAt(lines, j)
      ensures Rejects(Step, lines, j) ==>
        Step(Window(lines, j)).error == InvalidTimestamp(MatchTimestamp(Window(lines, j).stamp).value.Text())
    {
      StepSpec(Window(lines, j));
    }
    GroupsByWindows(Step, lines);
  }

  /** All three patterns match the lines of `w`, and `m` holds the values
      they capture. */
  predicate ReadFrom(m: Measurement, w: Triplet) {
    && AllMatch(w)
    && m.timestamp == MatchTimestamp(w.stamp).value.Fields()
    && m.temperature == TemperatureValue(MatchTemperature(w.temp).value)
    && m.capacitive == DigitsValue(MatchCapacitive(w.cap).value) as real
  }

  /** On success, the `k`-th measurement comes from the `k`-th aligned group
      in which all three patterns match, with the values read from its lines. */
  lemma ParseLogMeasurements(lines: seq<string>)
    requires ParseLog(lines).Success?
    ensures |ParseLog(lines).value| == |AcceptedWindows(Step, lines, 0)|
    ensures var idx := AcceptedWindows(Step, lines, 0);
      forall k, m :: 0 <= k < m < |idx| ==> idx[k] < idx[m]
    ensures var ms := ParseLog(lines).value; var idx := AcceptedWindows(Step, lines, 0);
      forall k :: 0 <= k < |ms| ==> 3 * idx[k] + 2 < |lines| && ReadFrom(ms[k], Window(lines, idx[k]))
    ensures forall j: nat :: 3 * j + 2 < |lines| && AllMatch(Window(lines, j)) ==> j in AcceptedWindows(Step, lines, 0)
  {
    var ms := ParseLog(lines).value;
    var idx := AcceptedWindows(Step, lines, 0);
    GroupsByWindows(Step, lines);
    AcceptedWindowsIncreasing(Step, lines, 0);
    AcceptedWindowsComplete(Step, lines, 0);
    forall k | 0 <= k < |ms|
      ensures 3 * idx[k] + 2 < |lines| && ReadFrom(ms[k], Window(lines, idx[k]))
    {
      StepSpec(Window(lines, idx[k]));
    }
    forall j: nat | 3 * j + 2 < |lines| && AllMatch(Window(lines, j))
      ensures j in idx
    {
      StepSpec(Window(lines, j));
      assert !Rejects(Step, lines, j);
      assert Accepts(Step, lines, j);
    }
  }

  // ---------------------------------------------------------------------------
  // The loop against the single-line helpers
  // ---------------------------------------------------------------------------

  /** A measurement of the parse agrees with what the single-line helpers
      make of its three lines; only the capacitive value differs in kind:
      the loop converts it with `float()`, the helper with `int()`. */
  lemma StepMatchesHelpers(t: Triplet)
    requires Step(t).Success? && Step(t).value.Some?
    ensures ParseTimestamp(t.stamp) == Success(Some(Step(t).value.value.timestamp))
    ensures ParseTemperature(t.temp) == Some(Step(t).value.value.temperature)
    ensures ParseCapacitive(t.cap).Some? && ParseCapacitive(t.cap).value as real == Step(t).value.value.capacitive
  {
    StepSpec(t);
  }

  /** The loop checks all three patterns before converting the timestamp, so
      a group whose timestamp line alone would make `parse_timestamp` raise is
      silently dropped when another of its lines does not match. */
  lemma HelperRaisesWhereLoopDrops(t: Triplet)
    requires MatchTimestamp(t.stamp).Some? && !ValidDateTime(MatchTimestamp(t.stamp).value.Fields())
    requires MatchTemperature(t.temp).None?
    ensures ParseTimestamp(t.stamp).Failure?
    ensures Step(t) == Success(None)
  {
  }

  // ---------------------------------------------------------------------------
  // Writing a log and reading it back
  // ---------------------------------------------------------------------------

  /** What the sensor prints for one reading: the timestamp fields as
      written (padded or not, as in `2024/3/5 9:7:2`), the temperature
      digits and the capacitive digits. */
  datatype Reading = Reading(stamp: StampText, temp: TempText, cap: string) {
    predicate Valid() {
      && stamp.WellFormed() && ValidDateTime(stamp.Fields())
      && temp.WellFormed() && 1 <= |cap| && AllDigits(cap)
    }
  }

  /** The three lines of one reading, each ended by a newline as
      `readlines` keeps it. */
  function RenderReading(r: Reading): seq<string>
    requires r.Valid()
  {
    [StampPrefix + r.stamp.Text() + "\n",
     TemperaturePrefix + r.temp.Text() + "*C" + "\n",
     CapacitivePrefix + r.cap + "\n"]
  }

  /** A whole log of readings. */
  function Render(rs: seq<Reading>): seq<string>
    requires forall i :: 0 <= i < |rs| ==> rs[i].Valid()
  {
    if rs == [] then [] else RenderReading(rs[0]) + Render(rs[1..])
  }

  /** The measurement a reading should give back. */
  function Expected(r: Reading): Measurement
    requires r.Valid()
  {
    Measurement(r.stamp.Fields(), TemperatureValue(r.temp), DigitsValue(r.cap) as real)
  }

  /** A reading whose time is printed zero-padded by `strftime` is valid and
      its expected measurement carries exactly that time. */
  lemma PaddedReading(dt: DateTime, temp: TempText, cap: string)
    requires ValidDateTime(dt) && temp.WellFormed() && 1 <= |cap| && AllDigits(cap)
    ensures Reading(Strftime(dt), temp, cap).Valid()
    ensures Expected(Reading(Strftime(dt), temp, cap)).timestamp == dt
  {
    StrptimeOfStrftime(dt);
  }

  /** One rendered reading is read back as its measurement. */
  lemma StepOfRendered(r: Reading)
    requires r.Valid()
    ensures var ls := RenderReading(r); Step(Triplet(ls[0], ls[1], ls[2])) == Success(Some(Expected(r)))
  {
    var ls := RenderReading(r);
    MatchTimestampOfRendered(r.stamp, "\n");
    MatchTemperatureOfRendered(r.temp, "\n");
    MatchCapacitiveOfRendered(r.cap, "\n");
    StepSpec(Triplet(ls[0], ls[1], ls[2]));
  }

  /** A rendered reading in front of a log adds its measurement in front. */
  lemma ParseLogConsRendered(r: Reading, rest: seq<string>)
    requires r.Valid()
    ensures ParseLog(RenderReading(r) + rest) == Then(Success([Expected(r)]), ParseLog(rest))
  {
    var ls := RenderReading(r);
    var t := Triplet(ls[0], ls[1], ls[2]);
    assert ls == [t.stamp, t.temp, t.cap];
    StepOfRendered(r);
    GroupsCons(Step, t, rest);
  }

  /** The measurements of a sequence of readings, in order. */
  function ExpectedAll(rs: seq<Reading>): (ms: seq<Measurement>)
    requires forall i :: 0 <= i < |rs| ==> rs[i].Valid()
    ensures |ms| == |rs|
    ensures forall k :: 0 <= k < |rs| ==> ms[k] == Expected(rs[k])
  {
    if rs == [] then [] else [Expected(rs[0])] + ExpectedAll(rs[1..])
  }

  /** The round trip, one reading at a time. */
  lemma {:induction false} ParseLogOfRenderAll(rs: seq<Reading>)
    requires forall i :: 0 <= i < |rs| ==> rs[i].Valid()
    ensures ParseLog(Render(rs)) == Success(ExpectedAll(rs))
  {
    if rs != [] {
      ParseLogConsRendered(rs[0], Render(rs[1..]));
      ParseLogOfRenderAll(rs[1..]);
    }
  }

  /** Round trip: a log written from valid readings parses without error to
      exactly their measurements, in order. */
  lemma ParseLogOfRender(rs: seq<Reading>)
    requires forall i :: 0 <= i < |rs| ==> rs[i].Valid()
    ensures ParseLog(Render(rs)).Success?
    ensures |ParseLog(Render(rs)).value| == |rs|
    ensures forall k :: 0 <= k < |rs| ==> ParseLog(Render(rs)).value[k] == Expected(rs[k])
  {
    ParseLogOfRenderAll(rs);
  }
}
