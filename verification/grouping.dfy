/** The fixed-window skeleton of the log parser, independent of what one
    group of lines is turned into: lines are taken in non-overlapping groups
    of three from the first line on, each group contributes at most one value
    or raises, the first raise ends the parse, and one or two lines left over
    at the end are ignored. */
module Grouping {
  import opened Wrappers

  /** Three consecutive lines, in the roles timestamp, temperature, capacitive. */
  datatype Triplet = Triplet(stamp: string, temp: string, cap: string)

  /** The outcome of parsing two consecutive parts of a log: the first
      failure wins, otherwise the values are concatenated. */
  function Then<T, E>(a: Result<seq<T>, E>, b: Result<seq<T>, E>): (r: Result<seq<T>, E>)
    ensures a.Failure? ==> r == a
    ensures a.Success? && b.Failure? ==> r == b
    ensures a.Success? && b.Success? ==> r == Success(a.value + b.value)
  {
    match a
    case Failure(e) => Failure(e)
    case Success(x) =>
      match b
      case Failure(e) => Failure(e)
      case Success(y) => Success(x + y)
  }

  /** `Success([])` is a unit of `Then` on both sides. */
  lemma ThenUnit<T, E>(a: Result<seq<T>, E>)
    ensures Then(Success([]), a) == a
    ensures Then(a, Success([])) == a
  {
    if a.Success? {
      assert [] + a.value == a.value;
      assert a.value + [] == a.value;
    }
  }

  /** `Then` is associative. */
  lemma ThenAssoc<T, E>(a: Result<seq<T>, E>, b: Result<seq<T>, E>, c: Result<seq<T>, E>)
    ensures Then(a, Then(b, c)) == Then(Then(a, b), c)
  {
    if a.Success? && b.Success? && c.Success? {
      assert a.value + (b.value + c.value) == (a.value + b.value) + c.value;
    }
  }

  /** Reads the lines group by group with `step`: the values of the groups
      that give one, in order, or the error of the first group that raises. */
  function Groups<T, E>(step: Triplet -> Result<Option<T>, E>, lines: seq<string>): (r: Result<seq<T>, E>)
    ensures |lines| < 3 ==> r == Success([])
    ensures r.Success? ==> |r.value| <= |lines| / 3
    decreases |lines|
  {
    if |lines| < 3 then Success([])
    else
      var head :- step(Triplet(lines[0], lines[1], lines[2]));
      var tail :- Groups(step, lines[3..]);
      Success(OptionToSeq(head) + tail)
  }

  /** One group followed by the rest: exactly the first step of `Groups`. */
  lemma GroupsCons<T, E>(step: Triplet -> Result<Option<T>, E>, t: Triplet, rest: seq<string>)
    ensures step(t).Failure? ==> Groups(step, [t.stamp, t.temp, t.cap] + rest) == Failure(step(t).error)
    ensures step(t).Success? ==>
      Groups(step, [t.stamp, t.temp, t.cap] + rest) == Then(Success(OptionToSeq(step(t).value)), Groups(step, rest))
  {
    var lines := [t.stamp, t.temp, t.cap] + rest;
    assert lines[3..] == rest;
    assert Triplet(lines[0], lines[1], lines[2]) == t;
  }

  /** Fixed-window decomposition: a log whose first part has a whole number
      of groups parses as that part followed by the rest parsed on its own,
      so whatever the groups of the first part contain, the later groups keep
      their alignment. */
  lemma {:induction false} GroupsAppend<T, E>(step: Triplet -> Result<Option<T>, E>, a: seq<string>, b: seq<string>)
    requires |a| % 3 == 0
    ensures Groups(step, a + b) == Then(Groups(step, a), Groups(step, b))
    decreases |a|
  {
    if |a| == 0 {
      assert a + b == b;
      ThenUnit(Groups(step, b));
    } else {
      var t := Triplet(a[0], a[1], a[2]);
      assert a == [t.stamp, t.temp, t.cap] + a[3..];
      assert a + b == [t.stamp, t.temp, t.cap] + (a[3..] + b);
      GroupsCons(step, t, a[3..]);
      GroupsCons(step, t, a[3..] + b);
      GroupsAppend(step, a[3..], b);
      var x, y := Groups(step, a[3..]), Groups(step, b);
      match step(t)
      case Failure(e) =>
      case Success(head) =>
        ThenAssoc(Success(OptionToSeq(head)), x, y);
    }
  }

  /** One or two lines after the last full group are ignored. */
  lemma TrailingLinesIgnored<T, E>(step: Triplet -> Result<Option<T>, E>, a: seq<string>, b: seq<string>)
    requires |a| % 3 == 0 && |b| < 3
    ensures Groups(step, a + b) == Groups(step, a)
  {
    GroupsAppend(step, a, b);
    ThenUnit(Groups(step, a));
  }

  /** The same, stated on the cut point: only the first `3 * (|lines| / 3)`
      lines are ever read. */
  lemma TrailingLinesCut<T, E>(step: Triplet -> Result<Option<T>, E>, lines: seq<string>)
    ensures Groups(step, lines) == Groups(step, lines[..3 * (|lines| / 3)])
  {
    var n := 3 * (|lines| / 3);
    assert n % 3 == 0 && |lines| - n < 3 by {
      var q, m := |lines| / 3, |lines| % 3;
      assert |lines| == 3 * q + m && m < 3;
      assert (3 * q) % 3 == 0;
    }
    assert lines == lines[..n] + lines[n..];
    TrailingLinesIgnored(step, lines[..n], lines[n..]);
  }

  // ---------------------------------------------------------------------------
  // The log as a sequence of aligned windows
  // ---------------------------------------------------------------------------

  /** The `j`-th group of the log: lines `3j`, `3j + 1` and `3j + 2`. */
  function Window(lines: seq<string>, j: nat): Triplet
    requires 3 * j + 2 < |lines|
  {
    Triplet(lines[3 * j], lines[3 * j + 1], lines[3 * j + 2])
  }

  /** Group `j` exists and gives a value. */
  predicate Accepts<T, E>(step: Triplet -> Result<Option<T>, E>, lines: seq<string>, j: nat) {
    3 * j + 2 < |lines| && step(Window(lines, j)).Success? && step(Window(lines, j)).value.Some?
  }

  /** Group `j` exists and raises. */
  predicate Rejects<T, E>(step: Triplet -> Result<Option<T>, E>, lines: seq<string>, j: nat) {
    3 * j + 2 < |lines| && step(Window(lines, j)).Failure?
  }

  /** The indices, from group `from` on, of the groups that give a value, in
      increasing order. */
  function AcceptedWindows<T, E>(step: Triplet -> Result<Option<T>, E>, lines: seq<string>, from: nat): seq<nat>
    decreases |lines| - 3 * from
  {
    if 3 * from + 2 >= |lines| then []
    else (if Accepts(step, lines, from) then [from] else []) + AcceptedWindows(step, lines, from + 1)
  }

  /** Every index `AcceptedWindows` lists is an accepted group from `from` on. */
  lemma {:induction false} AcceptedWindowsSound<T, E>(step: Triplet -> Result<Option<T>, E>, lines: seq<string>, from: nat)
    ensures forall k :: 0 <= k < |AcceptedWindows(step, lines, from)| ==> from <= AcceptedWindows(step, lines, from)[k]
    ensures forall k :: 0 <= k < |AcceptedWindows(step, lines, from)| ==> Accepts(step, lines, AcceptedWindows(step, lines, from)[k])
    decreases |lines| - 3 * from
  {
    if 3 * from + 2 < |lines| {
      AcceptedWindowsSound(step, lines, from + 1);
      var rest := AcceptedWindows(step, lines, from + 1);
      if Accepts(step, lines, from) {
        var idx := [from] + rest;
        assert AcceptedWindows(step, lines, from) == idx;
        assert forall k :: 0 < k < |idx| ==> idx[k] == rest[k - 1];
      } else {
        var idx := AcceptedWindows(step, lines, from);
        assert idx == [] + rest;
        assert forall k :: 0 <= k < |idx| ==> idx[k] == rest[k];
      }
    }
  }

  /** `AcceptedWindows` lists its indices in strictly increasing order. */
  lemma {:induction false} AcceptedWindowsIncreasing<T, E>(step: Triplet -> Result<Option<T>, E>, lines: seq<string>, from: nat)
    ensures forall k, m :: 0 <= k < m < |AcceptedWindows(step, lines, from)| ==>
      AcceptedWindows(step, lines, from)[k] < AcceptedWindows(step, lines, from)[m]
    decreases |lines| - 3 * from
  {
    if 3 * from + 2 < |lines| {
      AcceptedWindowsSound(step, lines, from + 1);
      AcceptedWindowsIncreasing(step, lines, from + 1);
      var rest := AcceptedWindows(step, lines, from + 1);
      if Accepts(step, lines, from) {
        var idx := [from] + rest;
        assert AcceptedWindows(step, lines, from) == idx;
        forall k, m | 0 <= k < m < |idx|
          ensures idx[k] < idx[m]
        {
          assert idx[m] == rest[m - 1];
          if k > 0 {
            assert idx[k] == rest[k - 1];
          }
        }
      } else {
        assert AcceptedWindows(step, lines, from) == [] + rest;
      }
    }
  }

  /** Every accepted group from `from` on is listed by `AcceptedWindows`. */
  lemma {:induction false} AcceptedWindowsComplete<T, E>(step: Triplet -> Result<Option<T>, E>, lines: seq<string>, from: nat)
    ensures forall j: nat :: from <= j && Accepts(step, lines, j) ==> j in AcceptedWindows(step, lines, from)
    decreases |lines| - 3 * from
  {
    if 3 * from + 2 < |lines| {
      AcceptedWindowsComplete(step, lines, from + 1);
      var rest := AcceptedWindows(step, lines, from + 1);
      var idx := AcceptedWindows(step, lines, from);
      assert idx == (if Accepts(step, lines, from) then [from] else []) + rest;
      forall j: nat | from <= j && Accepts(step, lines, j)
        ensures j in idx
      {
        if j > from {
          assert j in rest;
        }
      }
    }
  }

  /** Group `from` followed by the groups after it. */
  lemma GroupsFromUnfold<T, E>(step: Triplet -> Result<Option<T>, E>, lines: seq<string>, from: nat)
    requires 3 * from + 2 < |lines|
    ensures step(Window(lines, from)).Failure? ==>
      Groups(step, lines[3 * from..]) == Failure(step(Window(lines, from)).error)
    ensures step(Window(lines, from)).Success? ==>
      Groups(step, lines[3 * from..]) ==
        Then(Success(OptionToSeq(step(Window(lines, from)).value)), Groups(step, lines[3 * (from + 1)..]))
  {
    var w := Window(lines, from);
    assert lines[3 * from..] == [w.stamp, w.temp, w.cap] + lines[3 * (from + 1)..];
    GroupsCons(step, w, lines[3 * (from + 1)..]);
  }

  /** Parsing from group `from` on fails exactly when some group from there
      on raises. */
  lemma {:induction false} GroupsFromFails<T, E>(step: Triplet -> Result<Option<T>, E>, lines: seq<string>, from: nat)
    requires 3 * from <= |lines|
    ensures Groups(step, lines[3 * from..]).Failure? <==> exists j: nat :: from <= j && Rejects(step, lines, j)
    decreases |lines| - 3 * from
  {
    if 3 * from + 2 >= |lines| {
      assert Groups(step, lines[3 * from..]) == Success([]);
      assert forall j: nat :: from <= j ==> !Rejects(step, lines, j);
    } else {
      GroupsFromUnfold(step, lines, from);
      GroupsFromFails(step, lines, from + 1);
      if step(Window(lines, from)).Failure? {
        assert Rejects(step, lines, from);
      } else {
        assert !Rejects(step, lines, from);
        assert forall j: nat :: from <= j && Rejects(step, lines, j) ==> from + 1 <= j;
      }
    }
  }

  /** When parsing from group `from` on fails, the error is that of the
      first group from there on that raises. */
  lemma {:induction false} GroupsFromError<T, E>(step: Triplet -> Result<Option<T>, E>, lines: seq<string>, from: nat)
    requires 3 * from <= |lines|
    ensures Groups(step, lines[3 * from..]).Failure? ==>
      exists j: nat :: from <= j && Rejects(step, lines, j)
        && step(Window(lines, j)).error == Groups(step, lines[3 * from..]).error
        && forall i: nat :: from <= i < j ==> !Rejects(step, lines, i)
    decreases |lines| - 3 * from
  {
    if 3 * from + 2 >= |lines| {
      assert Groups(step, lines[3 * from..]) == Success([]);
    } else {
      GroupsFromUnfold(step, lines, from);
      GroupsFromError(step, lines, from + 1);
      var tail := Groups(step, lines[3 * (from + 1)..]);
      if step(Window(lines, from)).Failure? {
        assert Rejects(step, lines, from);
      } else if tail.Failure? {
        assert !Rejects(step, lines, from);
        var j: nat :| from + 1 <= j && Rejects(step, lines, j) && step(Window(lines, j)).error == tail.error
          && forall i: nat :: from + 1 <= i < j ==> !Rejects(step, lines, i);
        assert forall i: nat :: from <= i < j ==> !Rejects(step, lines, i);
      }
    }
  }

  /** `vs` are, in order, the values that the windows numbered `idx` give. */
  ghost predicate Explains<T, E>(step: Triplet -> Result<Option<T>, E>, lines: seq<string>, idx: seq<nat>, vs: seq<T>) {
    && |vs| == |idx|
    && forall k :: 0 <= k < |vs| ==> 3 * idx[k] + 2 < |lines| && step(Window(lines, idx[k])) == Success(Some(vs[k]))
  }

  /** One more explained value in front. */
  lemma ExplainsCons<T, E>(step: Triplet -> Result<Option<T>, E>, lines: seq<string>, j: nat, v: T, idx: seq<nat>, vs: seq<T>)
    requires 3 * j + 2 < |lines| && step(Window(lines, j)) == Success(Some(v))
    requires Explains(step, lines, idx, vs)
    ensures Explains(step, lines, [j] + idx, [v] + vs)
  {
    var idx', vs' := [j] + idx, [v] + vs;
    forall k | 0 <= k < |vs'|
      ensures 3 * idx'[k] + 2 < |lines| && step(Window(lines, idx'[k])) == Success(Some(vs'[k]))
    {
      if k > 0 {
        assert idx'[k] == idx[k - 1] && vs'[k] == vs[k - 1];
      }
    }
  }

  /** When parsing from group `from` on succeeds, its `k`-th value is the one
      the `k`-th accepted group from there on gives. */
  lemma {:induction false} GroupsFromValues<T, E>(step: Triplet -> Result<Option<T>, E>, lines: seq<string>, from: nat)
    requires 3 * from <= |lines|
    ensures Groups(step, lines[3 * from..]).Success? ==>
      Explains(step, lines, AcceptedWindows(step, lines, from), Groups(step, lines[3 * from..]).value)
    decreases |lines| - 3 * from
  {
    if 3 * from + 2 >= |lines| {
      assert Groups(step, lines[3 * from..]) == Success([]);
    } else {
      GroupsFromUnfold(step, lines, from);
      GroupsFromValues(step, lines, from + 1);
      var tail := Groups(step, lines[3 * (from + 1)..]);
      if step(Window(lines, from)).Success? && tail.Success? {
        var head := step(Window(lines, from)).value;
        var idx' := AcceptedWindows(step, lines, from + 1);
        if head.Some? {
          assert Accepts(step, lines, from);
          assert AcceptedWindows(step, lines, from) == [from] + idx';
          assert Groups(step, lines[3 * from..]).value == [head.value] + tail.value;
          ExplainsCons(step, lines, from, head.value, idx', tail.value);
        } else {
          assert !Accepts(step, lines, from);
          assert AcceptedWindows(step, lines, from) == idx';
          assert Groups(step, lines[3 * from..]).value == tail.value;
        }
      }
    }
  }

  /** The whole log, characterised group by group: the parse raises exactly
      when some aligned group raises, and otherwise yields, in file order, one
      value per accepted group, the `k`-th from the `k`-th such group. */
  lemma GroupsByWindows<T, E>(step: Triplet -> Result<Option<T>, E>, lines: seq<string>)
    ensures Groups(step, lines).Failure? <==> exists j: nat :: Rejects(step, lines, j)
    ensures Groups(step, lines).Failure? ==>
      exists j: nat :: Rejects(step, lines, j) && step(Window(lines, j)).error == Groups(step, lines).error
        && forall i: nat :: i < j ==> !Rejects(step, lines, i)
    ensures Groups(step, lines).Success? ==>
      Explains(step, lines, AcceptedWindows(step, lines, 0), Groups(step, lines).value)
  {
    assert lines[3 * 0..] == lines;
    GroupsFromFails(step, lines, 0);
    GroupsFromError(step, lines, 0);
    GroupsFromValues(step, lines, 0);
  }
}
