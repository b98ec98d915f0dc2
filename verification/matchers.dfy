/** The three line patterns of the log, each as Python's `re.search` applies
    it: unanchored, so the match that starts leftmost wins, and with the
    capture group returned as text. Every pattern begins with a literal label,
    so a match can only start where that label occurs.

    Also the three single-line helpers that pair a pattern with its
    conversion (`parse_timestamp`, `parse_temperature`, `parse_capacitive`). */
module Matchers {
  import opened Wrappers
  import opened Text
  import opened Calendar

  const StampPrefix: string := "Date and Time (PST): "
  const TemperaturePrefix: string := "Temperature: "
  const CapacitivePrefix: string := "Capacitive: "

  // ---------------------------------------------------------------------------
  // Timestamp: Date and Time \(PST\): (\d{4}/\d{1,2}/\d{1,2} \d{1,2}:\d{1,2}:\d{1,2})
  // ---------------------------------------------------------------------------

  /** `\d{1,2}` followed by the separator `sep`, matched at `p`, giving the
      number of digits: greedily two, else backtracking to one. */
  function ShortFieldThen(s: string, p: nat, sep: char): (n: Option<nat>)
    ensures n.Some? ==> 1 <= n.value <= 2 && p + n.value < |s| && s[p + n.value] == sep
    ensures n.Some? ==> AllDigits(s[p..p + n.value])
  {
    if p + 2 < |s| && IsDigit(s[p]) && IsDigit(s[p + 1]) && s[p + 2] == sep then Some(2)
    else if p + 1 < |s| && IsDigit(s[p]) && s[p + 1] == sep then Some(1)
    else None
  }

  /** Since the separator is not a digit, backtracking never helps: the field
      is exactly the maximal digit run at `p`, which must have one or two
      digits and be followed by the separator. */
  lemma ShortFieldThenIsDigitRun(s: string, p: nat, sep: char)
    requires p <= |s| && !IsDigit(sep)
    ensures ShortFieldThen(s, p, sep).Some? <==>
      1 <= DigitRun(s, p) <= 2 && p + DigitRun(s, p) < |s| && s[p + DigitRun(s, p)] == sep
    ensures ShortFieldThen(s, p, sep).Some? ==> ShortFieldThen(s, p, sep).value == DigitRun(s, p)
  {
    var n := DigitRun(s, p);
    if n >= 1 {
      assert DigitRun(s, p) == 1 + DigitRun(s, p + 1);
      if n >= 2 {
        assert DigitRun(s, p + 1) == 1 + DigitRun(s, p + 2);
      }
    }
  }

  /** `\d{1,2}` at the end of the pattern, matched at `p`: greedily two
      digits, else one; whatever follows is not looked at. */
  function ShortFieldLast(s: string, p: nat): (n: Option<nat>)
    ensures n.Some? ==> 1 <= n.value <= 2 && p + n.value <= |s|
    ensures n.Some? ==> AllDigits(s[p..p + n.value])
  {
    if p + 1 < |s| && IsDigit(s[p]) && IsDigit(s[p + 1]) then Some(2)
    else if p < |s| && IsDigit(s[p]) then Some(1)
    else None
  }

  /** The last field matches exactly when a digit follows, and takes the
      first two digits of a longer run. */
  lemma ShortFieldLastIsDigitRun(s: string, p: nat)
    requires p <= |s|
    ensures ShortFieldLast(s, p).Some? <==> DigitRun(s, p) >= 1
    ensures ShortFieldLast(s, p).Some? ==> ShortFieldLast(s, p).value == if DigitRun(s, p) >= 2 then 2 else 1
  {
    var n := DigitRun(s, p);
    if n >= 1 {
      assert DigitRun(s, p) == 1 + DigitRun(s, p + 1);
    }
  }

  /** A field and its separator, followed by the joined remaining fields, is
      the joined whole. */
  lemma JoinedAt(s: string, p: nat, field: string, rest: seq<string>, seps: string)
    requires |seps| >= 1 && |rest| == |seps|
    requires p + |field| < |s| && s[p..p + |field|] == field && s[p + |field|] == seps[0]
    requires LiteralAt(s, p + |field| + 1, Joined(rest, seps[1..]))
    ensures LiteralAt(s, p, Joined([field] + rest, seps))
  {
    var whole := [field] + rest;
    assert Joined(whole, seps) == field + [seps[0]] + Joined(rest, seps[1..]) by {
      assert whole[1..] == rest;
    }
    assert LiteralAt(s, p, field + [seps[0]] + Joined(rest, seps[1..])) by {
      assert s[p..p + |field| + 1] == field + [seps[0]];
      LiteralAtConcat(s, p, field + [seps[0]], Joined(rest, seps[1..]));
    }
  }

  /** A run of `\d{1,2}` fields matched at `p`, with `seps[i]` required after
      field `i` and nothing after the last one. */
  function ShortFieldsAt(s: string, p: nat, seps: string): (r: Option<seq<string>>)
    ensures r.Some? ==> |r.value| == |seps| + 1
    ensures r.Some? ==> forall i :: 0 <= i < |r.value| ==> 1 <= |r.value[i]| <= 2 && AllDigits(r.value[i])
    decreases |seps|
  {
    if |seps| == 0 then
      var n :- ShortFieldLast(s, p);
      Some([s[p..p + n]])
    else
      var n :- ShortFieldThen(s, p, seps[0]);
      var rest :- ShortFieldsAt(s, p + n + 1, seps[1..]);
      Some([s[p..p + n]] + rest)
  }

  /** The fields read are the text that stands in the line from `p` on. */
  lemma {:induction false} ShortFieldsAtSpans(s: string, p: nat, seps: string)
    requires ShortFieldsAt(s, p, seps).Some?
    ensures LiteralAt(s, p, Joined(ShortFieldsAt(s, p, seps).value, seps))
    decreases |seps|
  {
    var fs := ShortFieldsAt(s, p, seps).value;
    if |seps| == 0 {
      assert Joined(fs, seps) == fs[0];
    } else {
      var n := ShortFieldThen(s, p, seps[0]).value;
      ShortFieldsAtSpans(s, p + n + 1, seps[1..]);
      assert fs == [s[p..p + n]] + fs[1..];
      JoinedAt(s, p, s[p..p + n], fs[1..], seps);
    }
  }

  /** The capture group of the timestamp pattern, matched at position `y`:
      exactly four year digits, a slash, then the five short fields. */
  function StampGroupAt(s: string, y: nat): (r: Option<StampText>)
    ensures r.Some? ==> y < |s| && r.value.WellFormed()
  {
    if !(y + 4 < |s| && AllDigits(s[y..y + 4]) && s[y + 4] == '/') then None
    else
      var fs :- ShortFieldsAt(s, y + 5, FieldSeparators);
      Some(StampText(s[y..y + 4], fs[0], fs[1], fs[2], fs[3], fs[4]))
  }

  /** A sequence of five elements is the display of its elements. */
  lemma FiveElements<T>(xs: seq<T>)
    requires |xs| == 5
    ensures xs == [xs[0], xs[1], xs[2], xs[3], xs[4]]
  {
  }

  /** The year and its slash standing in the line. */
  lemma YearAt(s: string, y: nat)
    requires y + 4 < |s| && s[y + 4] == '/'
    ensures LiteralAt(s, y, s[y..y + 4] + "/")
  {
    assert s[y..y + 5] == s[y..y + 4] + [s[y + 4]];
  }

  /** A group matched at `y` is the text that stands in the line there. */
  lemma StampGroupAtSpans(s: string, y: nat)
    requires StampGroupAt(s, y).Some?
    ensures LiteralAt(s, y, StampGroupAt(s, y).value.Text())
  {
    var t := StampGroupAt(s, y).value;
    var fs := ShortFieldsAt(s, y + 5, FieldSeparators).value;
    var year := s[y..y + 4];
    assert t.year == year && s[y + 4] == '/';
    assert t.month == fs[0] && t.day == fs[1] && t.hour == fs[2] && t.minute == fs[3] && t.second == fs[4];
    FiveElements(fs);
    YearAt(s, y);
    ShortFieldsAtSpans(s, y + 5, FieldSeparators);
    LiteralAtConcat(s, y, year + "/", Joined(fs, FieldSeparators));
  }

  /** The timestamp pattern anchored at position `k`, giving its captured
      digit groups. */
  function TimestampAt(s: string, k: nat): (r: Option<StampText>)
    ensures r.Some? ==> k < |s| && r.value.WellFormed()
  {
    if !LiteralAt(s, k, StampPrefix) then None
    else StampGroupAt(s, k + |StampPrefix|)
  }

  /** `re.search` with the timestamp pattern: the leftmost anchored match. */
  function MatchTimestamp(s: string): (r: Option<StampText>)
    ensures r.Some? <==> exists k: nat :: TimestampAt(s, k).Some?
    ensures r.Some? ==> exists k: nat :: TimestampAt(s, k) == r && forall j :: 0 <= j < k ==> TimestampAt(s, j).None?
    ensures r.Some? ==> r.value.WellFormed()
  {
    var at := k => TimestampAt(s, k);
    assert forall k: nat :: at(k) == TimestampAt(s, k);
    match Leftmost(at, 0, |s|)
    case None => None
    case Some(k) =>
      assert forall j :: 0 <= j < k ==> TimestampAt(s, j).None?;
      TimestampAt(s, k)
  }

  /** A timestamp match at `k` is the label immediately followed by the
      captured text. */
  lemma TimestampAtSpans(s: string, k: nat)
    requires TimestampAt(s, k).Some?
    ensures LiteralAt(s, k, StampPrefix)
    ensures LiteralAt(s, k + |StampPrefix|, TimestampAt(s, k).value.Text())
  {
    StampGroupAtSpans(s, k + |StampPrefix|);
  }

  /** A last field written out is read back, provided a one-digit field is
      not followed by a further digit. */
  lemma ShortFieldLastReads(s: string, p: nat, f: string)
    requires 1 <= |f| <= 2 && AllDigits(f)
    requires LiteralAt(s, p, f)
    requires |f| == 2 || p + |f| == |s| || !IsDigit(s[p + |f|])
    ensures ShortFieldLast(s, p) == Some(|f|)
    ensures s[p..p + |f|] == f
  {
    assert s[p] == f[0];
    assert |f| == 2 ==> s[p + 1] == f[1];
  }

  /** A field written out with its separator is read back. */
  lemma ShortFieldThenReads(s: string, p: nat, f: string, sep: char)
    requires 1 <= |f| <= 2 && AllDigits(f) && !IsDigit(sep)
    requires LiteralAt(s, p, f) && p + |f| < |s| && s[p + |f|] == sep
    ensures ShortFieldThen(s, p, sep) == Some(|f|)
    ensures s[p..p + |f|] == f
  {
    assert s[p] == f[0];
    assert |f| == 2 ==> s[p + 1] == f[1];
  }

  /** `fields` stand in `s` from `p` on, each of 1-2 digits, separated by
      the non-digit characters of `seps`, and a one-digit last field is not
      followed by a further digit. */
  predicate FieldsWritten(s: string, p: nat, fields: seq<string>, seps: string)
    requires |fields| == |seps| + 1
    decreases |seps|
  {
    var f := fields[0];
    && 1 <= |f| <= 2 && AllDigits(f) && LiteralAt(s, p, f)
    && (if |seps| == 0 then |f| == 2 || p + |f| == |s| || !IsDigit(s[p + |f|])
        else
          && !IsDigit(seps[0]) && p + |f| < |s| && s[p + |f|] == seps[0]
          && FieldsWritten(s, p + |f| + 1, fields[1..], seps[1..]))
  }

  /** The first field and its separator, then the rest written after it. */
  lemma FieldsWrittenCons(s: string, p: nat, fields: seq<string>, seps: string)
    requires |fields| == |seps| + 1 && |seps| >= 1
    requires 1 <= |fields[0]| <= 2 && AllDigits(fields[0]) && !IsDigit(seps[0])
    requires LiteralAt(s, p, fields[0] + [seps[0]])
    requires FieldsWritten(s, p + |fields[0]| + 1, fields[1..], seps[1..])
    ensures FieldsWritten(s, p, fields, seps)
  {
    var f := fields[0];
    LiteralAtConcat(s, p, f, [seps[0]]);
  }

  /** Joined fields standing in `s` are the first field and its separator,
      then the rest joined. */
  lemma JoinedAtHead(s: string, p: nat, fields: seq<string>, seps: string)
    requires |fields| == |seps| + 1 && |seps| >= 1
    requires LiteralAt(s, p, Joined(fields, seps))
    ensures LiteralAt(s, p, fields[0] + [seps[0]])
    ensures LiteralAt(s, p + |fields[0]| + 1, Joined(fields[1..], seps[1..]))
    ensures p + |fields[0]| + 1 + |Joined(fields[1..], seps[1..])| == p + |Joined(fields, seps)|
  {
    LiteralAtConcat(s, p, fields[0] + [seps[0]], Joined(fields[1..], seps[1..]));
  }

  /** Fields joined by their separators and written in `s` satisfy
      `FieldsWritten`. */
  lemma {:induction false} FieldsWrittenOfJoined(s: string, p: nat, fields: seq<string>, seps: string)
    requires |fields| == |seps| + 1
    requires forall i :: 0 <= i < |fields| ==> 1 <= |fields[i]| <= 2 && AllDigits(fields[i])
    requires forall i :: 0 <= i < |seps| ==> !IsDigit(seps[i])
    requires LiteralAt(s, p, Joined(fields, seps))
    requires var e := p + |Joined(fields, seps)|; |fields[|seps|]| == 2 || e == |s| || !IsDigit(s[e])
    ensures FieldsWritten(s, p, fields, seps)
    decreases |seps|
  {
    var f := fields[0];
    if |seps| == 0 {
      assert Joined(fields, seps) == f;
    } else {
      var rest := fields[1..];
      JoinedAtHead(s, p, fields, seps);
      assert forall i :: 0 <= i < |rest| ==> rest[i] == fields[i + 1];
      FieldsWrittenOfJoined(s, p + |f| + 1, rest, seps[1..]);
      FieldsWrittenCons(s, p, fields, seps);
    }
  }

  /** Short fields written out with their separators are read back. */
  lemma {:induction false} ShortFieldsAtReads(s: string, p: nat, fields: seq<string>, seps: string)
    requires |fields| == |seps| + 1
    requires FieldsWritten(s, p, fields, seps)
    ensures ShortFieldsAt(s, p, seps) == Some(fields)
    decreases |seps|
  {
    var f := fields[0];
    if |seps| == 0 {
      ShortFieldLastReads(s, p, f);
      assert [f] == fields;
    } else {
      ShortFieldThenReads(s, p, f, seps[0]);
      ShortFieldsAtReads(s, p + |f| + 1, fields[1..], seps[1..]);
      assert [f] + fields[1..] == fields;
    }
  }

  /** The group pattern anchored at `y` reads a well-formed group's text back. */
  lemma StampGroupAtOfRendered(s: string, y: nat, t: StampText)
    requires t.WellFormed()
    requires LiteralAt(s, y, t.Text())
    requires var e := y + |t.Text()|; |t.second| == 2 || e == |s| || !IsDigit(s[e])
    ensures StampGroupAt(s, y) == Some(t)
  {
    var fs := [t.month, t.day, t.hour, t.minute, t.second];
    var j := Joined(fs, FieldSeparators);
    assert LiteralAt(s, y, t.year + "/") && LiteralAt(s, y + 5, j) by {
      LiteralAtConcat(s, y, t.year + "/", j);
    }
    assert s[y..y + 4] == t.year && s[y + 4] == '/' by {
      assert s[y..y + 5] == t.year + "/";
      assert s[y..y + 4] == s[y..y + 5][..4];
      assert s[y + 4] == s[y..y + 5][4];
    }
    assert ShortFieldsAt(s, y + 5, FieldSeparators) == Some(fs) by {
      assert forall i :: 0 <= i < |FieldSeparators| ==> !IsDigit(FieldSeparators[i]);
      assert forall i :: 0 <= i < |fs| ==> 1 <= |fs[i]| <= 2 && AllDigits(fs[i]);
      FieldsWrittenOfJoined(s, y + 5, fs, FieldSeparators);
      ShortFieldsAtReads(s, y + 5, fs, FieldSeparators);
    }
  }

  /** A timestamp line written from a well-formed group is read back to that
      group, whatever follows it, as long as a one-digit seconds field is not
      followed by a further digit (which the greedy last field would take). */
  lemma MatchTimestampOfRendered(t: StampText, rest: string)
    requires t.WellFormed()
    requires |t.second| == 2 || rest == [] || !IsDigit(rest[0])
    ensures MatchTimestamp(StampPrefix + t.Text() + rest) == Some(t)
  {
    var line := StampPrefix + t.Text();
    var s := line + rest;
    assert LiteralAt(s, 0, StampPrefix) && LiteralAt(s, |StampPrefix|, t.Text()) by {
      assert s[..|line|] == line;
      LiteralAtConcat(s, 0, StampPrefix, t.Text());
    }
    assert |line| < |s| ==> s[|line|] == rest[0];
    StampGroupAtOfRendered(s, |StampPrefix|, t);
    assert TimestampAt(s, 0) == Some(t);
  }

  // ---------------------------------------------------------------------------
  // Temperature: Temperature: (\d+\.\d+)\*C
  // ---------------------------------------------------------------------------

  /** The capture group of the temperature pattern: integer and fraction digits. */
  datatype TempText = TempText(whole: string, frac: string) {

    predicate WellFormed() {
      1 <= |whole| && AllDigits(whole) && 1 <= |frac| && AllDigits(frac)
    }

    function Text(): string {
      whole + "." + frac
    }
  }

  /** A greedy `\d+` at `w` followed by the literal `lit`, where `lit` starts
      with a non-digit: backtracking into a shorter run never lets `lit`
      match, so the run is the maximal digit run there. */
  function DigitsThen(s: string, w: nat, lit: string): (r: Option<string>)
    ensures r.Some? ==> 1 <= |r.value| && AllDigits(r.value)
  {
    if w > |s| then None
    else
      var n := DigitRun(s, w);
      if n == 0 || !LiteralAt(s, w + n, lit) then None
      else Some(s[w..w + n])
  }

  /** The run read stands in the line, with `lit` after it. */
  lemma DigitsThenSpans(s: string, w: nat, lit: string)
    requires DigitsThen(s, w, lit).Some?
    ensures LiteralAt(s, w, DigitsThen(s, w, lit).value)
    ensures LiteralAt(s, w + |DigitsThen(s, w, lit).value|, lit)
  {
  }

  /** Digits written before `lit` are read back. */
  lemma DigitsThenReads(s: string, w: nat, d: string, lit: string)
    requires 1 <= |d| && AllDigits(d) && 1 <= |lit| && !IsDigit(lit[0])
    requires LiteralAt(s, w, d) && LiteralAt(s, w + |d|, lit)
    ensures DigitsThen(s, w, lit) == Some(d)
  {
    assert s[w + |d|] == lit[0];
    DigitRunOfLiteral(s, w, d);
  }

  /** The temperature pattern after its label, matched at position `w`:
      `\d+\.\d+\*C`. */
  function TempBodyAt(s: string, w: nat): (r: Option<TempText>)
    ensures r.Some? ==> r.value.WellFormed()
  {
    match DigitsThen(s, w, ".")
    case None => None
    case Some(whole) =>
      match DigitsThen(s, w + |whole| + 1, "*C")
      case None => None
      case Some(frac) => Some(TempText(whole, frac))
  }

  /** The temperature pattern anchored at position `k`. */
  function TemperatureAt(s: string, k: nat): (r: Option<TempText>)
    ensures r.Some? ==> k < |s| && r.value.WellFormed()
  {
    if !LiteralAt(s, k, TemperaturePrefix) then None
    else TempBodyAt(s, k + |TemperaturePrefix|)
  }

  /** `re.search` with the temperature pattern: the leftmost anchored match. */
  function MatchTemperature(s: string): (r: Option<TempText>)
    ensures r.Some? <==> exists k: nat :: TemperatureAt(s, k).Some?
    ensures r.Some? ==> exists k: nat :: TemperatureAt(s, k) == r && forall j :: 0 <= j < k ==> TemperatureAt(s, j).None?
    ensures r.Some? ==> r.value.WellFormed()
  {
    var at := k => TemperatureAt(s, k);
    assert forall k: nat :: at(k) == TemperatureAt(s, k);
    match Leftmost(at, 0, |s|)
    case None => None
    case Some(k) =>
      assert forall j :: 0 <= j < k ==> TemperatureAt(s, j).None?;
      TemperatureAt(s, k)
  }

  /** The part after the label is the captured text followed by `*C`. */
  lemma TempBodyAtSpans(s: string, w: nat)
    requires TempBodyAt(s, w).Some?
    ensures LiteralAt(s, w, TempBodyAt(s, w).value.Text())
    ensures LiteralAt(s, w + |TempBodyAt(s, w).value.Text()|, "*C")
  {
    var whole := DigitsThen(s, w, ".").value;
    var f := w + |whole| + 1;
    var frac := DigitsThen(s, f, "*C").value;
    assert TempBodyAt(s, w).value.Text() == whole + "." + frac;
    DigitsThenSpans(s, w, ".");
    DigitsThenSpans(s, f, "*C");
    LiteralAt3(s, w, whole, ".", frac);
  }

  /** A temperature match at `k` is the label, the captured text and `*C`. */
  lemma TemperatureAtSpans(s: string, k: nat)
    requires TemperatureAt(s, k).Some?
    ensures LiteralAt(s, k, TemperaturePrefix)
    ensures var w := k + |TemperaturePrefix|; var t := TemperatureAt(s, k).value;
      LiteralAt(s, w, t.Text()) && LiteralAt(s, w + |t.Text()|, "*C")
  {
    TempBodyAtSpans(s, k + |TemperaturePrefix|);
  }

  /** The part after the label reads a rendered text back. */
  lemma TempBodyAtOfRendered(s: string, w: nat, t: TempText)
    requires t.WellFormed()
    requires LiteralAt(s, w, t.whole) && LiteralAt(s, w + |t.whole|, ".")
    requires LiteralAt(s, w + |t.whole| + 1, t.frac) && LiteralAt(s, w + |t.whole| + 1 + |t.frac|, "*C")
    ensures TempBodyAt(s, w) == Some(t)
  {
    DigitsThenReads(s, w, t.whole, ".");
    DigitsThenReads(s, w + |t.whole| + 1, t.frac, "*C");
    TempBodyAtOfParts(s, w, t);
  }

  lemma TempBodyAtOfParts(s: string, w: nat, t: TempText)
    requires DigitsThen(s, w, ".") == Some(t.whole)
    requires DigitsThen(s, w + |t.whole| + 1, "*C") == Some(t.frac)
    ensures TempBodyAt(s, w) == Some(t)
  {
  }

  /** The temperature pattern anchored at `k` reads a rendered text back. */
  lemma TemperatureAtOfRendered(s: string, k: nat, t: TempText)
    requires t.WellFormed()
    requires LiteralAt(s, k, TemperaturePrefix + t.Text() + "*C")
    ensures TemperatureAt(s, k) == Some(t)
  {
    var w := k + |TemperaturePrefix|;
    LiteralAt3(s, k, TemperaturePrefix, t.Text(), "*C");
    LiteralAt3(s, w, t.whole, ".", t.frac);
    TempBodyAtOfRendered(s, w, t);
  }

  /** A temperature line written from a well-formed group is read back to
      that group, whatever follows the `*C`. */
  lemma MatchTemperatureOfRendered(t: TempText, rest: string)
    requires t.WellFormed()
    ensures MatchTemperature(TemperaturePrefix + t.Text() + "*C" + rest) == Some(t)
  {
    var line := TemperaturePrefix + t.Text() + "*C";
    var s := line + rest;
    assert s[..|line|] == line;
    TemperatureAtOfRendered(s, 0, t);
  }

  /** `float()` of the captured text, kept exact: the integer digits plus the
      fraction digits scaled by a power of ten. */
  function TemperatureValue(t: TempText): real
    requires t.WellFormed()
  {
    DigitsValue(t.whole) as real + DigitsValue(t.frac) as real / Pow10(|t.frac|) as real
  }

  /** Real-number steps behind the value lemmas below. */
  lemma FractionBelowOne(f: real, p: real)
    requires 0.0 <= f < p
    ensures 0.0 <= f / p < 1.0
  {
    assert (f / p) * p == f;
  }

  lemma ShiftedSum(w: real, f: real, p: real)
    requires p > 0.0
    ensures (w * p + f) / p == w + f / p
  {
    assert (w * p) / p == w;
  }

  lemma RatioOfShifted(w: nat, f: nat, p: nat)
    requires p > 0
    ensures (w * p + f) as real / p as real == w as real + f as real / p as real
  {
    assert (w * p) as real == w as real * p as real;
    ShiftedSum(w as real, f as real, p as real);
  }

  lemma ScaledRatio(f: real, p: real)
    requires p > 0.0
    ensures (10.0 * f) / (10.0 * p) == f / p
  {
  }

  /** The integer digits give the whole part: the value lies in
      `[whole, whole + 1)`. */
  lemma TemperatureValueBounds(t: TempText)
    requires t.WellFormed()
    ensures DigitsValue(t.whole) as real <= TemperatureValue(t) < DigitsValue(t.whole) as real + 1.0
  {
    DigitsValueBound(t.frac);
    FractionBelowOne(DigitsValue(t.frac) as real, Pow10(|t.frac|) as real);
  }

  /** The value is the decimal number written without its point, divided by
      ten to the number of fraction digits: `21.50` is `2150 / 100`. */
  lemma TemperatureValueOfDigits(t: TempText)
    requires t.WellFormed()
    ensures AllDigits(t.whole + t.frac)
    ensures TemperatureValue(t) == DigitsValue(t.whole + t.frac) as real / Pow10(|t.frac|) as real
  {
    DigitsValueConcat(t.whole, t.frac);
    RatioOfShifted(DigitsValue(t.whole), DigitsValue(t.frac), Pow10(|t.frac|));
  }

  /** A trailing zero in the fraction does not change the value: `21.50`
      and `21.5` denote the same temperature. */
  lemma TrailingZeroIgnored(whole: string, frac: string)
    requires TempText(whole, frac).WellFormed()
    ensures TempText(whole, frac + "0").WellFormed()
    ensures TemperatureValue(TempText(whole, frac + "0")) == TemperatureValue(TempText(whole, frac))
  {
    DigitsValueSnoc(frac, '0');
    assert Pow10(|frac + "0"|) == 10 * Pow10(|frac|);
    ScaledRatio(DigitsValue(frac) as real, Pow10(|frac|) as real);
  }

  // ---------------------------------------------------------------------------
  // Capacitive: Capacitive: (\d+)
  // ---------------------------------------------------------------------------

  /** The capacitive pattern anchored at position `k`: the label and the
      greedy digit run after it. */
  function CapacitiveAt(s: string, k: nat): (r: Option<string>)
    ensures r.Some? ==> k < |s| && 1 <= |r.value| && AllDigits(r.value)
  {
    if !LiteralAt(s, k, CapacitivePrefix) then None
    else
      var p := k + |CapacitivePrefix|;
      var n := DigitRun(s, p);
      if n == 0 then None else Some(s[p..p + n])
  }

  /** `re.search` with the capacitive pattern: the leftmost anchored match. */
  function MatchCapacitive(s: string): (r: Option<string>)
    ensures r.Some? <==> exists k: nat :: CapacitiveAt(s, k).Some?
    ensures r.Some? ==> exists k: nat :: CapacitiveAt(s, k) == r && forall j :: 0 <= j < k ==> CapacitiveAt(s, j).None?
    ensures r.Some? ==> 1 <= |r.value| && AllDigits(r.value)
  {
    var at := k => CapacitiveAt(s, k);
    assert forall k: nat :: at(k) == CapacitiveAt(s, k);
    match Leftmost(at, 0, |s|)
    case None => None
    case Some(k) =>
      assert forall j :: 0 <= j < k ==> CapacitiveAt(s, j).None?;
      CapacitiveAt(s, k)
  }

  /** A capacitive match at `k` is the label followed by the captured digits,
      and the digits are not followed by another digit. */
  lemma CapacitiveAtSpans(s: string, k: nat)
    requires CapacitiveAt(s, k).Some?
    ensures LiteralAt(s, k, CapacitivePrefix + CapacitiveAt(s, k).value)
    ensures var e := k + |CapacitivePrefix| + |CapacitiveAt(s, k).value|; e == |s| || !IsDigit(s[e])
  {
    LiteralAtConcat(s, k, CapacitivePrefix, CapacitiveAt(s, k).value);
  }

  /** A capacitive line written from a digit string is read back to it,
      provided no further digit follows. */
  lemma MatchCapacitiveOfRendered(d: string, rest: string)
    requires 1 <= |d| && AllDigits(d)
    requires rest == [] || !IsDigit(rest[0])
    ensures MatchCapacitive(CapacitivePrefix + d + rest) == Some(d)
  {
    var s := CapacitivePrefix + d + rest;
    var p := |CapacitivePrefix|;
    assert s[..p] == CapacitivePrefix;
    assert s[p..p + |d|] == d;
    assert p + |d| < |s| ==> s[p + |d|] == rest[0];
    DigitRunOfLiteral(s, p, d);
    assert CapacitiveAt(s, 0) == Some(d);
  }

  // ---------------------------------------------------------------------------
  // The single-line helpers
  // ---------------------------------------------------------------------------

  /** `parse_timestamp`: the match converted by `strptime`, which raises on a
      calendar-invalid group; `None` when the line does not match. */
  function ParseTimestamp(line: string): (r: Result<Option<DateTime>, ParseError>)
    ensures r == Success(None) <==> MatchTimestamp(line).None?
    ensures r.Failure? <==> MatchTimestamp(line).Some? && !ValidDateTime(MatchTimestamp(line).value.Fields())
    ensures r.Success? && r.value.Some? ==> ValidDateTime(r.value.value)
    ensures r.Success? && r.value.Some? ==> r.value.value == MatchTimestamp(line).value.Fields()
  {
    match MatchTimestamp(line)
    case None => Success(None)
    case Some(t) =>
      var dt :- Strptime(t);
      Success(Some(dt))
  }

  /** `parse_temperature`: the matched number, or `None`. */
  function ParseTemperature(line: string): (r: Option<real>)
    ensures r.Some? <==> MatchTemperature(line).Some?
    ensures r.Some? ==> 0.0 <= r.value
    ensures r.Some? ==> r.value == TemperatureValue(MatchTemperature(line).value)
  {
    match MatchTemperature(line)
    case None => None
    case Some(t) =>
      TemperatureValueBounds(t);
      Some(TemperatureValue(t))
  }

  /** `parse_capacitive`: the matched digits read as an integer, or `None`. */
  function ParseCapacitive(line: string): (r: Option<nat>)
    ensures r.Some? <==> MatchCapacitive(line).Some?
    ensures r.Some? ==> r.value < Pow10(|MatchCapacitive(line).value|)
    ensures r.Some? ==> r.value == DigitsValue(MatchCapacitive(line).value)
  {
    match MatchCapacitive(line)
    case None => None
    case Some(d) =>
      DigitsValueBound(d);
      Some(DigitsValue(d))
  }
}
