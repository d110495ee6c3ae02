/** The cron poll loop that pushes metrics (agent/app/metrics/scheduler.py). Time is counted in seconds from a local
    midnight; the calendar, Python's `int` and the wake-ups themselves are parameters. */
module CronLoop {
  import opened Text
  import opened Wrappers

  // ---------------------------------------------------------------- cron expressions

  datatype Date = Date(day: nat, month: nat, weekday: nat)

  /** Outcome of a match: a step of zero makes the division raise. */
  datatype Verdict = Yes | No | Raises

  /** What the loop takes from its surroundings. */
  datatype Setup = Setup(cron: string, toInt: string -> Option<int>, calendar: nat -> Date) {
    function Values(minute: nat): seq<nat> {
      var d := calendar(minute / 1440);
      [minute % 60, minute / 60 % 24, d.day, d.month, d.weekday % 7]
    }

    predicate Lists(parts: seq<string>, value: nat) { exists i :: 0 <= i < |parts| && toInt(parts[i]) == Some(value) }

    function Field(field: string, value: nat): Verdict {
      if field == "*" then Yes
      else if "*/" <= field then
        match toInt(field[2..])
        case None => No
        case Some(step) => if step == 0 then Raises else if value % step == 0 then Yes else No
      else if Lists(SplitOn(field, ','), value) then Yes else No
    }

    /** The fields are looked at from left to right, up to the first that does not match. */
    function Fields(fields: seq<string>, values: seq<nat>): Verdict
      requires |fields| <= |values|
    {
      if fields == [] then Yes
      else if Field(fields[0], values[0]) == Yes then Fields(fields[1..], values[1..])
      else Field(fields[0], values[0])
    }

    function Matches(minute: nat): Verdict {
      var fields := Words(Strip(cron));
      if |fields| != 5 then No else Fields(fields, Values(minute))
    }

    method FieldMatches(field: string, value: nat) returns (v: Verdict)
      ensures v == Field(field, value)
    {
      if field == "*" { return Yes; }
      if "*/" <= field {
        var step := toInt(field[2..]);
        if step.None? { return No; }
        if step.value == 0 { return Raises; }
        return if value % step.value == 0 then Yes else No;
      }
      var parts := SplitOn(field, ',');
      for i := 0 to |parts|
        invariant forall j | 0 <= j < i :: toInt(parts[j]) != Some(value)
      {
        if toInt(parts[i]) == Some(value) { return Yes; }
      }
      return No;
    }

    method CronMatches(minute: nat) returns (v: Verdict)
      ensures v == Matches(minute)
    {
      hide Field, Words, Strip;
      var fields, values := Words(Strip(cron)), Values(minute);
      if |fields| != 5 { return No; }
      for i := 0 to |fields|
        invariant Fields(fields[i..], values[i..]) == Matches(minute)
      {
        assert fields[i..][1..] == fields[i + 1..] && values[i..][1..] == values[i + 1..];
        v := FieldMatches(fields[i], values[i]);
        if v != Yes { return; }
      }
      return Yes;
    }
  }

  function AllDigits(nums: seq<nat>): (out: seq<string>)
    ensures |out| == |nums| && forall i | 0 <= i < |nums| :: out[i] == Digits(nums[i])
  {
    seq(|nums|, i requires 0 <= i < |nums| => Digits(nums[i]))
  }

  /** What well-formed fields mean: a list matches its members, a step its multiples, and step zero raises. */
  lemma FieldMeaning(s: Setup, nums: seq<nat>, step: nat, value: nat)
    requires nums != [] && forall n: nat :: s.toInt(Digits(n)) == Some(n)
    ensures s.Field(Join(",", AllDigits(nums)), value) == if value in nums then Yes else No
    ensures s.Field("*/" + Digits(step), value) == if step == 0 then Raises else if value % step == 0 then Yes else No
  {
    hide Digits;
    var parts := AllDigits(nums);
    SplitJoined(parts);
    var f := Join(",", parts);
    assert f[0] == parts[0][0] && parts[0][0] in parts[0];
    assert ("*/" + Digits(step))[2..] == Digits(step);
    if value in nums {
      var i :| 0 <= i < |nums| && nums[i] == value;
      assert s.toInt(parts[i]) == Some(value);
    }
  }

  /** An expression matches when its five fields match minute, hour, day, month and weekday, Sunday being zero. */
  lemma MatchesMeaning(s: Setup, a: string, b: string, c: string, d: string, e: string, minute: nat)
    requires Words(Strip(s.cron)) == [a, b, c, d, e]
    ensures var date := s.calendar(minute / 1440);
            s.Matches(minute).Yes? <==>
              && s.Field(a, minute % 60).Yes? && s.Field(b, minute / 60 % 24).Yes?
              && s.Field(c, date.day).Yes? && s.Field(d, date.month).Yes? && s.Field(e, date.weekday % 7).Yes?
  {
    var fields, values := [a, b, c, d, e], s.Values(minute);
    hide Words, Strip, Setup.Field, Setup.Fields;
    FieldsAreAll(s, fields, values);
    var date := s.calendar(minute / 1440);
    assert fields[0] == a && fields[1] == b && fields[2] == c && fields[3] == d && fields[4] == e;
    assert values[0] == minute % 60 && values[1] == minute / 60 % 24;
    assert values[2] == date.day && values[3] == date.month && values[4] == date.weekday % 7;
  }

  lemma {:induction false} FieldsAreAll(s: Setup, fields: seq<string>, values: seq<nat>)
    requires |fields| <= |values|
    ensures s.Fields(fields, values).Yes? <==> forall i | 0 <= i < |fields| :: s.Field(fields[i], values[i]).Yes?
  {
    hide Setup.Field;
    if fields != [] {
      FieldsAreAll(s, fields[1..], values[1..]);
      assert forall i | 0 < i < |fields| :: fields[i] == fields[1..][i - 1] && values[i] == values[1..][i - 1];
    }
  }

  /** Any other number of fields matches nothing. */
  lemma FiveFieldsOnly(s: Setup, minute: nat)
    ensures |Words(Strip(s.cron))| != 5 ==> s.Matches(minute) == No
    ensures s.Field("*", minute) == Yes
  {}

  // ---------------------------------------------------------------- the loop

  function Minute(now: nat): nat { now / 60 }

  class Scheduler {
    const setup: Setup
    var lastRunMinute: int

    constructor (setup: Setup)
      ensures this.setup == setup && lastRunMinute == -1
    {
      this.setup, lastRunMinute := setup, -1;
    }

    /** One turn of the loop; an exception is logged and leaves no trace. */
    method Poll(now: nat) returns (pushed: bool)
      modifies this
      ensures pushed <==> setup.Matches(Minute(now)).Yes? && Minute(now) % 1440 != old(lastRunMinute)
      ensures lastRunMinute == if pushed then Minute(now) % 1440 else old(lastRunMinute)
    {
      var minute, hour := now / 60 % 60, now / 3600 % 24;
      var currentMinute := minute + hour * 60;
      MinuteOfDay(now);
      if currentMinute == lastRunMinute { return false; }
      var v := setup.CronMatches(Minute(now));
      if v != Yes { return false; }
      lastRunMinute := currentMinute;
      return true;
    }

    /** `_run`, over the wake-ups of one run. */
    method Run(wakes: seq<nat>) returns (pushed: seq<bool>)
      requires lastRunMinute == -1
      modifies this
      ensures |pushed| == |wakes|
      ensures forall k: nat | k < |wakes| :: pushed[k] <==> Pushed(setup, wakes, k)
    {
      hide Setup.Matches;
      pushed := [];
      for i := 0 to |wakes|
        invariant |pushed| == i && lastRunMinute == Last(setup, wakes, i)
        invariant forall k: nat | k < i :: pushed[k] <==> Pushed(setup, wakes, k)
      {
        var p := Poll(wakes[i]);
        pushed := pushed + [p];
      }
    }
  }

  lemma MinuteOfDay(now: nat)
    ensures now / 60 % 60 + now / 3600 % 24 * 60 == Minute(now) % 1440
  {
    var m := now / 60;
    HourOf(now, m / 60, 60 * (m % 60) + now % 60);
    OfDay(m, m / 60 / 24, 60 * (m / 60 % 24) + m % 60);
  }

  lemma HourOf(now: nat, hour: nat, rest: nat)
    requires now == 3600 * hour + rest && rest < 3600
    ensures now / 3600 == hour
  {}

  lemma OfDay(minute: nat, day: nat, rest: nat)
    requires minute == 1440 * day + rest && rest < 1440
    ensures minute % 1440 == rest
  {}

  /** What the loop remembers before its k-th turn. */
  function Last(s: Setup, wakes: seq<nat>, k: nat): int
    requires k <= |wakes|
    decreases k, 0
  {
    if k == 0 then -1
    else if Pushed(s, wakes, k - 1) then Minute(wakes[k - 1]) % 1440
    else Last(s, wakes, k - 1)
  }

  predicate Pushed(s: Setup, wakes: seq<nat>, k: nat)
    requires k < |wakes|
    decreases k, 1
  {
    s.Matches(Minute(wakes[k])).Yes? && Minute(wakes[k]) % 1440 != Last(s, wakes, k)
  }

  // ---------------------------------------------------------------- what a run pushes

  ghost predicate Ordered(wakes: seq<nat>) { forall i, j | 0 <= i <= j < |wakes| :: wakes[i] <= wakes[j] }

  /** Some wake-up falls in a matching minute. */
  ghost predicate Due(s: Setup, wakes: seq<nat>, m: nat) {
    s.Matches(m).Yes? && exists k: nat | k < |wakes| :: Minute(wakes[k]) == m
  }

  ghost predicate Served(s: Setup, wakes: seq<nat>, m: nat) {
    exists k: nat | k < |wakes| :: Minute(wakes[k]) == m && Pushed(s, wakes, k)
  }

  /** The latest push before turn `f`. */
  ghost predicate LatestBefore(s: Setup, wakes: seq<nat>, p: nat, f: nat)
    requires f <= |wakes|
  {
    p < f && Pushed(s, wakes, p) && forall q: nat | p < q < f :: !Pushed(s, wakes, q)
  }

  lemma {:induction false} LastIsLatest(s: Setup, wakes: seq<nat>, f: nat)
    requires f <= |wakes|
    ensures Last(s, wakes, f) == -1 ==> forall q: nat | q < f :: !Pushed(s, wakes, q)
    ensures Last(s, wakes, f) != -1 ==>
              exists p: nat :: LatestBefore(s, wakes, p, f) && Last(s, wakes, f) == Minute(wakes[p]) % 1440
    ensures Last(s, wakes, f) == -1 || 0 <= Last(s, wakes, f)
  {
    hide Setup.Matches;
    if f != 0 {
      LastIsLatest(s, wakes, f - 1);
      if Pushed(s, wakes, f - 1) {
        assert LatestBefore(s, wakes, f - 1, f);
      } else if Last(s, wakes, f - 1) != -1 {
        var p: nat :| LatestBefore(s, wakes, p, f - 1) && Last(s, wakes, f - 1) == Minute(wakes[p]) % 1440;
        assert LatestBefore(s, wakes, p, f);
      }
    }
  }

  /** Within one minute the memory stays what the first turn made it, and later turns push nothing. */
  lemma {:induction false} SameMinute(s: Setup, wakes: seq<nat>, i: nat, j: nat)
    requires i < j < |wakes| && s.Matches(Minute(wakes[i])).Yes?
    requires forall k | i <= k <= j :: Minute(wakes[k]) == Minute(wakes[i])
    ensures Last(s, wakes, j) == Minute(wakes[i]) % 1440 && !Pushed(s, wakes, j)
  {
    hide Setup.Matches;
    if i + 1 < j { SameMinute(s, wakes, i, j - 1); }
  }

  lemma BetweenIsSameMinute(wakes: seq<nat>, i: nat, j: nat)
    requires Ordered(wakes) && i <= j < |wakes| && Minute(wakes[i]) == Minute(wakes[j])
    ensures forall k | i <= k <= j :: Minute(wakes[k]) == Minute(wakes[i])
  {}

  /** No calendar minute sees two pushes. */
  lemma AtMostOncePerMinute(s: Setup, wakes: seq<nat>, i: nat, j: nat)
    requires Ordered(wakes) && i < j < |wakes| && Pushed(s, wakes, i) && Pushed(s, wakes, j)
    ensures Minute(wakes[i]) < Minute(wakes[j])
  {
    assert wakes[i] <= wakes[j];
    if Minute(wakes[i]) == Minute(wakes[j]) { NotAgain(s, wakes, i, j); }
  }

  /** The first wake-up in its minute. */
  ghost predicate First(wakes: seq<nat>, f: nat) {
    f < |wakes| && (f != 0 ==> Minute(wakes[f - 1]) < Minute(wakes[f]))
  }

  lemma FirstIsFirst(wakes: seq<nat>, f: nat, k: nat)
    requires Ordered(wakes) && First(wakes, f) && k < f
    ensures Minute(wakes[k]) < Minute(wakes[f])
  {
    assert wakes[k] <= wakes[f - 1];
  }

  lemma NotAgain(s: Setup, wakes: seq<nat>, i: nat, j: nat)
    requires Ordered(wakes) && i < j < |wakes| && Minute(wakes[i]) == Minute(wakes[j])
    requires s.Matches(Minute(wakes[i])).Yes?
    ensures !Pushed(s, wakes, j)
  {
    hide Setup.Matches;
    BetweenIsSameMinute(wakes, i, j);
    SameMinute(s, wakes, i, j);
  }

  lemma EarlierMinute(wakes: seq<nat>, i: nat, j: nat)
    requires Ordered(wakes) && i < |wakes| && j < |wakes|
    ensures Minute(wakes[i]) < Minute(wakes[j]) ==> i < j
  {
    if j <= i { assert wakes[j] <= wakes[i]; }
  }

  /** If a due minute is served at all, its first turn does it. */
  lemma ServedByFirst(s: Setup, wakes: seq<nat>, f: nat)
    requires Ordered(wakes) && First(wakes, f) && s.Matches(Minute(wakes[f])).Yes?
    ensures Served(s, wakes, Minute(wakes[f])) <==> Pushed(s, wakes, f)
  {
    hide Setup.Matches, Pushed;
    if Served(s, wakes, Minute(wakes[f])) {
      var k: nat :| k < |wakes| && Minute(wakes[k]) == Minute(wakes[f]) && Pushed(s, wakes, k);
      if k < f { FirstIsFirst(wakes, f, k); }
      if f < k { NotAgain(s, wakes, f, k); }
    }
  }

  /** A due minute is left out exactly when the latest push was at the same minute of an earlier day. */
  lemma SkippedExactly(s: Setup, wakes: seq<nat>, f: nat)
    requires Ordered(wakes) && First(wakes, f) && s.Matches(Minute(wakes[f])).Yes?
    ensures !Served(s, wakes, Minute(wakes[f]))
       <==> exists p: nat :: LatestBefore(s, wakes, p, f) && Minute(wakes[p]) % 1440 == Minute(wakes[f]) % 1440
                             && Minute(wakes[p]) + 1440 <= Minute(wakes[f])
  {
    hide Setup.Matches;
    ServedByFirst(s, wakes, f);
    LastIsLatest(s, wakes, f);
    forall p: nat | LatestBefore(s, wakes, p, f)
      ensures Last(s, wakes, f) == Minute(wakes[p]) % 1440
      ensures Minute(wakes[p]) % 1440 == Minute(wakes[f]) % 1440 ==> Minute(wakes[p]) + 1440 <= Minute(wakes[f])
    {
      LatestIsLast(s, wakes, p, f);
      assert wakes[p] <= wakes[f - 1];
    }
  }

  lemma {:induction false} LatestIsLast(s: Setup, wakes: seq<nat>, p: nat, f: nat)
    requires f <= |wakes| && LatestBefore(s, wakes, p, f)
    ensures Last(s, wakes, f) == Minute(wakes[p]) % 1440
  {
    hide Setup.Matches;
    if p + 1 < f {
      assert !Pushed(s, wakes, f - 1);
      LatestIsLast(s, wakes, p, f - 1);
    }
  }

  lemma {:induction false} FirstOfMinute(wakes: seq<nat>, k: nat) returns (f: nat)
    requires Ordered(wakes) && k < |wakes|
    ensures f <= k && First(wakes, f) && Minute(wakes[f]) == Minute(wakes[k])
  {
    if First(wakes, k) {
      f := k;
    } else {
      assert wakes[k - 1] <= wakes[k];
      f := FirstOfMinute(wakes, k - 1);
    }
  }

  /** Of two due minutes, the second comes next after the first. */
  ghost predicate Neighbours(s: Setup, wakes: seq<nat>, a: nat, b: nat) {
    a < b && Due(s, wakes, a) && Due(s, wakes, b) && forall c: nat | a < c < b :: !Due(s, wakes, c)
  }

  /** Every due minute is served exactly when no two due minutes in a row share the time of day. */
  lemma AllServed(s: Setup, wakes: seq<nat>)
    requires Ordered(wakes)
    ensures (forall m: nat | Due(s, wakes, m) :: Served(s, wakes, m))
       <==> (forall a: nat, b: nat | Neighbours(s, wakes, a, b) :: a % 1440 != b % 1440)
  {
    hide Setup.Matches, Pushed, Served, Due, Minute;
    if forall a: nat, b: nat | Neighbours(s, wakes, a, b) :: a % 1440 != b % 1440 {
      forall m: nat | Due(s, wakes, m) ensures Served(s, wakes, m) { ServedIfAlternating(s, wakes, m); }
    } else {
      var a: nat, b: nat :| Neighbours(s, wakes, a, b) && a % 1440 == b % 1440;
      if Served(s, wakes, a) { SecondNeighbourSkipped(s, wakes, a, b); }
    }
  }

  lemma SecondNeighbourSkipped(s: Setup, wakes: seq<nat>, a: nat, b: nat)
    requires Ordered(wakes) && Neighbours(s, wakes, a, b) && a % 1440 == b % 1440 && Served(s, wakes, a)
    ensures !Served(s, wakes, b)
  {
    hide Setup.Matches, Pushed;
    var k: nat :| k < |wakes| && Minute(wakes[k]) == b;
    var f := FirstOfMinute(wakes, k);
    var p: nat :| p < |wakes| && Minute(wakes[p]) == a && Pushed(s, wakes, p);
    EarlierMinute(wakes, p, f);
    forall q: nat | p < q < f ensures !Pushed(s, wakes, q) {
      assert wakes[p] <= wakes[q] <= wakes[f - 1];
      if Minute(wakes[q]) == a {
        PushedIsDue(s, wakes, p);
        NotAgain(s, wakes, p, q);
      } else {
        PushedIsDue(s, wakes, q);
      }
    }
    assert LatestBefore(s, wakes, p, f);
    SameDayTime(a, b);
    SkippedExactly(s, wakes, f);
  }

  lemma SameDayTime(a: nat, b: nat)
    requires a < b && a % 1440 == b % 1440
    ensures a + 1440 <= b
  {}

  lemma PushedIsDue(s: Setup, wakes: seq<nat>, q: nat)
    requires q < |wakes|
    ensures Pushed(s, wakes, q) ==> s.Matches(Minute(wakes[q])).Yes? && Due(s, wakes, Minute(wakes[q]))
  {
    hide Setup.Matches;
  }

  lemma NoneServedBetween(s: Setup, wakes: seq<nat>, p: nat, f: nat, c: nat)
    requires Ordered(wakes) && f < |wakes| && LatestBefore(s, wakes, p, f) && Minute(wakes[p]) < c < Minute(wakes[f])
    ensures !Served(s, wakes, c)
  {
    hide Setup.Matches, Pushed;
    forall q: nat | q < |wakes| && Minute(wakes[q]) == c ensures !Pushed(s, wakes, q) {
      EarlierMinute(wakes, p, q);
      EarlierMinute(wakes, q, f);
    }
  }

  lemma SkippedHasNeighbour(s: Setup, wakes: seq<nat>, m: nat) returns (a: nat)
    requires Ordered(wakes) && Due(s, wakes, m) && !Served(s, wakes, m)
    requires forall c: nat | c < m && Due(s, wakes, c) :: Served(s, wakes, c)
    ensures Neighbours(s, wakes, a, m) && a % 1440 == m % 1440
  {
    hide Setup.Matches, Pushed;
    var k: nat :| k < |wakes| && Minute(wakes[k]) == m;
    var f := FirstOfMinute(wakes, k);
    SkippedExactly(s, wakes, f);
    var p: nat :| LatestBefore(s, wakes, p, f) && Minute(wakes[p]) % 1440 == m % 1440 && Minute(wakes[p]) + 1440 <= m;
    a := Minute(wakes[p]);
    PushedIsDue(s, wakes, p);
    forall c: nat | a < c < m ensures !Due(s, wakes, c) { NoneServedBetween(s, wakes, p, f, c); }
  }

  lemma {:induction false} ServedIfAlternating(s: Setup, wakes: seq<nat>, m: nat)
    requires Ordered(wakes) && Due(s, wakes, m)
    requires forall a: nat, b: nat | Neighbours(s, wakes, a, b) :: a % 1440 != b % 1440
    ensures Served(s, wakes, m)
    decreases m
  {
    hide Setup.Matches, Pushed, Due, Served, Neighbours;
    forall c: nat | c < m && Due(s, wakes, c) ensures Served(s, wakes, c) { ServedIfAlternating(s, wakes, c); }
    if !Served(s, wakes, m) {
      var _ := SkippedHasNeighbour(s, wakes, m);
    }
  }

  /** A schedule that names one minute of the day pushes once in the whole run, however many days it lasts. */
  lemma OnceForGood(s: Setup, wakes: seq<nat>, d: nat, i: nat, j: nat)
    requires Ordered(wakes) && forall m: nat | s.Matches(m).Yes? :: m % 1440 == d
    requires i < |wakes| && j < |wakes| && Pushed(s, wakes, i) && Pushed(s, wakes, j)
    ensures i == j
  {
    hide Setup.Matches;
    if i < j {
      NoSecondPush(s, wakes, d, i, j);
    } else if j < i {
      NoSecondPush(s, wakes, d, j, i);
    }
  }

  /** Nine o'clock every day: the push of the second day is left out. */
  lemma SecondDayIsSkipped(s: Setup)
    requires s.cron == "0 9 * * *" && forall n: nat :: s.toInt(Digits(n)) == Some(n)
    ensures var wakes := [540 * 60, 1980 * 60];
            Pushed(s, wakes, 0) && Due(s, wakes, 1980) && !Served(s, wakes, 1980)
  {
    var wakes := [540 * 60, 1980 * 60];
    NineIsDue(s, 540);
    NineIsDue(s, 1980);
    hide Setup.Matches;
    assert Pushed(s, wakes, 0);
    assert Minute(wakes[1]) == 1980;
  }

  lemma NineIsDue(s: Setup, minute: nat)
    requires s.cron == "0 9 * * *" && forall n: nat :: s.toInt(Digits(n)) == Some(n)
    requires minute % 1440 == 540
    ensures s.Matches(minute).Yes?
  {
    hide Words, Strip, Setup.Field, Setup.Fields;
    FiveFields();
    NineFields(s, minute);
    AllYes(s, ["0", "9", "*", "*", "*"], s.Values(minute));
  }

  lemma NineFields(s: Setup, minute: nat)
    requires (forall n: nat :: s.toInt(Digits(n)) == Some(n)) && minute % 1440 == 540
    ensures var fields := ["0", "9", "*", "*", "*"];
            forall i | 0 <= i < 5 :: s.Field(fields[i], s.Values(minute)[i]).Yes?
  {
    hide Setup.Field, Digits;
    DigitField(s, 0);
    DigitField(s, 9);
    DigitTexts();
    HourAndMinute(minute);
    StarMatches(s);
  }

  lemma DigitTexts()
    ensures Digits(0) == "0" && Digits(9) == "9"
  {}

  lemma StarMatches(s: Setup)
    ensures forall v: nat :: s.Field("*", v).Yes?
  {}

  lemma {:induction false} AllYes(s: Setup, fields: seq<string>, values: seq<nat>)
    requires |fields| <= |values| && forall i | 0 <= i < |fields| :: s.Field(fields[i], values[i]).Yes?
    ensures s.Fields(fields, values).Yes?
  {
    hide Setup.Field;
    if fields != [] { AllYes(s, fields[1..], values[1..]); }
  }

  lemma DigitField(s: Setup, n: nat)
    requires forall n: nat :: s.toInt(Digits(n)) == Some(n)
    ensures s.Field(Digits(n), n).Yes?
  {
    hide Digits, Setup.Field;
    FieldMeaning(s, [n], 1, n);
    assert AllDigits([n]) == [Digits(n)];
  }

  lemma HourAndMinute(minute: nat)
    requires minute % 1440 == 540
    ensures minute % 60 == 0 && minute / 60 % 24 == 9
  {
    var d := minute / 1440;
    assert minute == 1440 * d + 540;
    assert minute / 60 == 24 * d + 9;
  }

  lemma FiveFields()
    ensures Words(Strip("0 9 * * *")) == ["0", "9", "*", "*", "*"]
  {
    hide Words, Strip, IsSpace;
    NineOClock();
    Characters();
    WordsOfToken("*");
    Spaced("*", "*", ["*"]);
    Spaced("*", "* *", ["*", "*"]);
    Spaced("9", "* * *", ["*", "*", "*"]);
    Spaced("0", "9 * * *", ["9", "*", "*", "*"]);
    StripKeepsTrimmed("0 9 * * *");
  }

  lemma NineOClock()
    ensures "* *" == "*" + [' '] + "*" && "* * *" == "*" + [' '] + "* *"
    ensures "9 * * *" == "9" + [' '] + "* * *" && "0 9 * * *" == "0" + [' '] + "9 * * *"
  {}

  lemma Characters()
    ensures !IsSpace('*') && !IsSpace('0') && !IsSpace('9') && IsSpace(' ')
  {}

  /** One more word in front of a text. */
  lemma Spaced(word: string, rest: string, words: seq<string>)
    requires |word| == 1 && !IsSpace(word[0]) && IsSpace(' ')
    ensures Words(rest) == words ==> Words(word + [' '] + rest) == [word] + words
  {
    hide Words, IsSpace;
    WordsCons(word, ' ', rest);
  }

  lemma {:induction false} NoSecondPush(s: Setup, wakes: seq<nat>, d: nat, i: nat, j: nat)
    requires forall m: nat | s.Matches(m).Yes? :: m % 1440 == d
    requires i < j < |wakes| && Pushed(s, wakes, i)
    ensures Last(s, wakes, j) == d && !Pushed(s, wakes, j)
  {
    hide Setup.Matches;
    if i + 1 < j { NoSecondPush(s, wakes, d, i, j - 1); }
  }

  // ---------------------------------------------------------------- sampling

  /** If no two wake-ups are more than a minute apart, every minute from the first to the last has one. */
  lemma {:induction false} EveryMinuteSampled(wakes: seq<nat>, m: nat)
    requires Ordered(wakes) && wakes != [] && forall k | 0 <= k < |wakes| - 1 :: wakes[k + 1] <= wakes[k] + 60
    requires Minute(wakes[0]) <= m <= Minute(wakes[|wakes| - 1])
    ensures exists k: nat | k < |wakes| :: Minute(wakes[k]) == m
    decreases |wakes|
  {
    var n := |wakes| - 1;
    if Minute(wakes[n]) != m {
      var init := wakes[..n];
      assert wakes[n - 1 + 1] <= wakes[n - 1] + 60;
      EveryMinuteSampled(init, m);
      var k: nat :| k < |init| && Minute(init[k]) == m;
      assert wakes[k] == init[k];
    }
  }
}
