/** The sprint scheduler: reads a start date `MM/DD/YYYY`, a cadence in days
    and a seed document, and lays out sprints "Sprint 1" .. "Sprint n" that
    start on the first Wednesday on or after the start date and follow each
    other every `cadence` days, where `n` is the largest positive `sprint`
    value among the seed's issues. */
module ComputeSprints {
  import opened Wrappers
  import opened PyText
  import opened JsonValue
  import opened Calendar

  const ExitPrinted := 0
  const ExitCrash := 1
  const ExitUsage := 2

  // ------------------------------------------------------- next Wednesday

  /** `next_wednesday`: the day itself when it is a Wednesday, otherwise the
      following Wednesday. Day numbers past 9999-12-31 are allowed here; the
      caller treats them as an overflow. */
  function NextWednesday(d: int): (r: int)
    ensures Weekday(r) == Wednesday
    ensures d <= r < d + 7
    ensures Weekday(d) == Wednesday ==> r == d
    ensures forall e :: d <= e < r ==> Weekday(e) != Wednesday
  {
    d + (Wednesday - Weekday(d)) % 7
  }

  /** Shifting a Wednesday by whole weeks keeps it a Wednesday, and by nothing
      else: every start of a weekly-multiple cadence falls on a Wednesday. */
  lemma WeeklyCadenceKeepsWednesday(first: int, cadence: int, i: nat)
    requires Weekday(first) == Wednesday
    ensures cadence % 7 == 0 ==> Weekday(first + i * cadence) == Wednesday
    ensures i == 1 ==> (Weekday(first + i * cadence) == Wednesday <==> cadence % 7 == 0)
  {
    if cadence % 7 == 0 {
      var q := cadence / 7;
      assert first + i * cadence == first + 7 * (i * q);
    }
  }

  // ------------------------------------------------------- the seed's sprints

  /** What one issue contributes to the sprint count. */
  datatype SprintTag = Counted(value: nat) | Ignored

  /** One turn of `load_max_sprint`'s loop: a non-object issue is skipped (its
      `AttributeError` is caught); a digit string is read as an integer; an
      integer, or `true` (Python's `True` is the integer 1), counts when
      positive; anything else is ignored. */
  function SprintOf(it: Json): (t: SprintTag)
    ensures t.Counted? ==> t.value > 0
    ensures t.Counted? ==> it.JObj?
    ensures it.JObj? && Get(it, "sprint").JInt? && Get(it, "sprint").n > 0 ==> t == Counted(Get(it, "sprint").n)
    ensures it.JObj? && Get(it, "sprint") == JBool(true) ==> t == Counted(1)
    ensures it.JObj? && Get(it, "sprint").JStr? && IsDigits(Get(it, "sprint").s) && DecimalValue(Get(it, "sprint").s) > 0
        ==> t == Counted(DecimalValue(Get(it, "sprint").s))
    ensures t.Counted? ==> var v := Get(it, "sprint");
      || v == JInt(t.value)
      || (v == JBool(true) && t.value == 1)
      || (v.JStr? && IsDigits(v.s) && DecimalValue(v.s) == t.value)
  {
    if !it.JObj? then Ignored
    else match Get(it, "sprint")
      case JStr(s) => if IsDigits(s) && DecimalValue(s) > 0 then Counted(DecimalValue(s)) else Ignored
      case JInt(n) => if n > 0 then Counted(n) else Ignored
      case JBool(b) => if b then Counted(1) else Ignored
      case _ => Ignored
  }

  /** The largest sprint counted among `items`, 0 when none counts. */
  function MaxSprint(items: seq<Json>): (m: nat)
    ensures forall i :: 0 <= i < |items| && SprintOf(items[i]).Counted? ==> SprintOf(items[i]).value <= m
    ensures m == 0 || exists i :: 0 <= i < |items| && SprintOf(items[i]) == Counted(m)
  {
    if items == [] then 0
    else
      var pre := MaxSprint(items[..|items| - 1]);
      var last := items[|items| - 1];
      assert forall i :: 0 <= i < |items| - 1 ==> items[..|items| - 1][i] == items[i];
      match SprintOf(last)
      case Counted(v) => if v > pre then v else pre
      case Ignored => pre
  }

  /** The count does not depend on how the issues are split up: the maximum of a
      concatenation is the larger of the two maxima. */
  lemma MaxSprintConcat(a: seq<Json>, b: seq<Json>)
    ensures MaxSprint(a + b) == if MaxSprint(a) >= MaxSprint(b) then MaxSprint(a) else MaxSprint(b)
  {
    var m := MaxSprint(a + b);
    if m != 0 {
      var i :| 0 <= i < |a + b| && SprintOf((a + b)[i]) == Counted(m);
      if i < |a| {
        assert (a + b)[i] == a[i];
      } else {
        assert (a + b)[i] == b[i - |a|];
      }
    }
    if MaxSprint(a) != 0 {
      var i :| 0 <= i < |a| && SprintOf(a[i]) == Counted(MaxSprint(a));
      assert (a + b)[i] == a[i];
    }
    if MaxSprint(b) != 0 {
      var i :| 0 <= i < |b| && SprintOf(b[i]) == Counted(MaxSprint(b));
      assert (a + b)[|a| + i] == b[i];
    }
  }

  /** The outcome of `load_max_sprint`. */
  datatype Load = Count(n: nat) | SeedNotObject

  /** `load_max_sprint` on the outcome of reading the seed (`None` when the file
      could not be read or parsed, which the program reports and reads as 0).
      A missing `issues` reads as empty and a non-list one as no sprints; a
      document whose top level is not an object makes `data.get` raise. */
  function LoadMaxSprint(seed: Option<Json>): (r: Load)
    ensures seed.None? ==> r == Count(0)
    ensures r.SeedNotObject? <==> seed.Some? && !seed.value.JObj?
    ensures r.Count? && r.n > 0 ==>
      var issues := Get(seed.value, "issues");
      issues.JArr? && exists i :: 0 <= i < |issues.elems| && SprintOf(issues.elems[i]) == Counted(r.n)
    ensures seed.Some? && seed.value.JObj? && GetOr(seed.value, "issues", JArr([])).JArr? ==>
      r == Count(MaxSprint(GetOr(seed.value, "issues", JArr([])).elems))
  {
    match seed
    case None => Count(0)
    case Some(doc) =>
      if !doc.JObj? then SeedNotObject
      else match GetOr(doc, "issues", JArr([]))
        case JArr(items) => Count(MaxSprint(items))
        case _ => Count(0)
  }

  // ------------------------------------------------------- the start date

  /** The position of the first `c` in `s` at or after `from`, or `|s|` when there is none. */
  function IndexOf(s: string, c: char, from: nat): (k: nat)
    requires from <= |s|
    ensures from <= k <= |s|
    ensures k < |s| ==> s[k] == c
    ensures forall j :: from <= j < k ==> s[j] != c
    decreases |s| - from
  {
    if from == |s| || s[from] == c then from else IndexOf(s, c, from + 1)
  }

  /** `%m` as strptime reads it: `1`..`9`, `01`..`09`, `10`..`12`. */
  predicate MonthText(s: string) {
    || (|s| == 1 && '1' <= s[0] <= '9')
    || (|s| == 2 && s[0] == '0' && '1' <= s[1] <= '9')
    || (|s| == 2 && s[0] == '1' && '0' <= s[1] <= '2')
  }

  /** `%d` as strptime reads it: `1`..`9`, `01`..`09`, `10`..`31`, and a
      space-padded ` 1`..` 9`. */
  predicate DayText(s: string) {
    || (|s| == 1 && '1' <= s[0] <= '9')
    || (|s| == 2 && s[0] == '0' && '1' <= s[1] <= '9')
    || (|s| == 2 && (s[0] == '1' || s[0] == '2') && IsDigit(s[1]))
    || (|s| == 2 && s[0] == '3' && (s[1] == '0' || s[1] == '1'))
    || (|s| == 2 && s[0] == ' ' && '1' <= s[1] <= '9')
  }

  /** `%Y` as strptime reads it: exactly four digits. */
  predicate YearText(s: string) {
    |s| == 4 && IsDigits(s)
  }

  /** The number a month or day field spells, a leading space read as nothing. */
  function FieldValue(s: string): (v: nat)
    requires MonthText(s) || DayText(s)
    ensures 1 <= v <= 31
    ensures MonthText(s) ==> v <= 12
  {
    if |s| == 1 then DigitValue(s[0])
    else if s[0] == ' ' then DigitValue(s[1])
    else 10 * DigitValue(s[0]) + DigitValue(s[1])
  }

  /** `datetime.strptime(text, "%m/%d/%Y")` as a day number; `None` for the
      `ValueError` the program turns into a usage error: the wrong shape,
      text left over, year 0, or a day the month does not have. */
  function ParseStartDate(text: string): (r: Option<int>)
    ensures r.Some? ==> 1 <= r.value <= MaxOrdinal
    ensures r.Some? ==> 8 <= |text| <= 10
  {
    var i := IndexOf(text, '/', 0);
    if i == |text| then None
    else
      var j := IndexOf(text, '/', i + 1);
      if j == |text| then None
      else
        var m, d, y := text[..i], text[i + 1..j], text[j + 1..];
        if MonthText(m) && DayText(d) && YearText(y) then
          var c := Civil(DecimalValue(y), FieldValue(m), FieldValue(d));
          if ValidCivil(c) then CivilRoundTrip(c); Some(ToOrdinal(c)) else None
        else None
  }

  /** The two slashes of `m/d/y` are found right after `m` and right after `d`. */
  lemma FieldsSplit(m: string, d: string, y: string)
    requires '/' !in m && '/' !in d
    ensures var t := m + "/" + d + "/" + y;
      var i, j := |m|, |m| + 1 + |d|;
      && IndexOf(t, '/', 0) == i && IndexOf(t, '/', i + 1) == j
      && t[..i] == m && t[i + 1..j] == d && t[j + 1..] == y
  {
    var t := m + "/" + d + "/" + y;
    var i, j := |m|, |m| + 1 + |d|;
    assert t[i] == '/' && t[j] == '/';
    assert forall k :: 0 <= k < i ==> t[k] == m[k];
    assert forall k :: i < k < j ==> t[k] == d[k - i - 1];
    assert t[..i] == m && t[i + 1..j] == d && t[j + 1..] == y;
  }

  /** A start date spelled in fields reads as the date they name, or fails,
      exactly as the fields dictate. */
  lemma ParseStartDateFields(m: string, d: string, y: string)
    requires '/' !in m && '/' !in d
    ensures ParseStartDate(m + "/" + d + "/" + y)
        == if MonthText(m) && DayText(d) && YearText(y) && ValidCivil(Civil(DecimalValue(y), FieldValue(m), FieldValue(d)))
           then Some(ToOrdinal(Civil(DecimalValue(y), FieldValue(m), FieldValue(d))))
           else None
  {
    FieldsSplit(m, d, y);
  }

  /** `MM/DD/YYYY`, zero-padded. */
  function FormatMDY(c: Civil): (r: string)
    requires ValidCivil(c)
    ensures |r| == 10 && r[2] == '/' && r[5] == '/'
  {
    Pad2(c.month) + "/" + Pad2(c.day) + "/" + Pad4(c.year)
  }

  /** A zero-padded day reads back as a `%d` field, and as a `%m` field when
      it is at most 12. */
  lemma PaddedField(v: int)
    requires 1 <= v <= 31
    ensures var s := Pad2(v);
      && '/' !in s && DayText(s) && FieldValue(s) == v
      && (v <= 12 ==> MonthText(s))
  {
    var s := Pad2(v);
    assert s[..1][..0] == [];
    assert DecimalValue(s) == 10 * DigitValue(s[0]) + DigitValue(s[1]) by {
      assert s[..|s| - 1] == s[..1];
      assert DecimalValue(s[..1]) == DigitValue(s[0]);
    }
  }

  /** Every date written as `MM/DD/YYYY` reads back to itself. */
  lemma StartDateRoundTrip(c: Civil)
    requires ValidCivil(c)
    ensures ParseStartDate(FormatMDY(c)) == Some(ToOrdinal(c))
  {
    PaddedField(c.month);
    PaddedField(c.day);
    ReadsAs(Pad2(c.month), Pad2(c.day), Pad4(c.year), c);
  }

  // ------------------------------------------------------- the schedule

  /** One sprint of the output, its start kept as a day number; `Render` turns
      it into the printed object. */
  datatype Sprint = Sprint(title: string, start: int, duration: int)

  /** The generation loop for sprints 1..n, appending one sprint per turn:
      sprint `i` is titled `Sprint i` and starts `(i - 1) * cadence` days after
      `first`. */
  function Schedule(first: int, cadence: int, n: nat): (r: seq<Sprint>)
    ensures |r| == n
    ensures forall i :: 0 <= i < n ==>
      r[i] == Sprint("Sprint " + NatToDecimal(i + 1), first + i * cadence, cadence)
  {
    if n == 0 then []
    else Schedule(first, cadence, n - 1) + [Sprint("Sprint " + NatToDecimal(n), first + (n - 1) * cadence, cadence)]
  }

  /** Later sprints start `cadence` days apart per step, so strictly later for
      a positive cadence; their titles are all different. */
  lemma ScheduleSpacing(first: int, cadence: int, n: nat, i: nat, j: nat)
    requires i < j < n
    ensures var r := Schedule(first, cadence, n);
      && r[j].start == r[i].start + (j - i) * cadence
      && (cadence > 0 ==> r[i].start < r[j].start)
      && r[j].title != r[i].title
  {
    assert first + j * cadence == first + i * cadence + (j - i) * cadence;
    if cadence > 0 {
      MulAtLeast(j - i, cadence);
    }
    var a, b := NatToDecimal(i + 1), NatToDecimal(j + 1);
    DecimalRoundTrip(i + 1);
    DecimalRoundTrip(j + 1);
    assert ("Sprint " + a)[7..] == a && ("Sprint " + b)[7..] == b;
  }

  /** Every start in a schedule lies between the first and the last start. */
  lemma ScheduleInRange(first: int, cadence: nat, n: nat)
    requires n > 0
    ensures forall i :: 0 <= i < n ==>
      first <= Schedule(first, cadence, n)[i].start <= first + (n - 1) * cadence
  {
    forall i | 0 <= i < n
      ensures first <= Schedule(first, cadence, n)[i].start <= first + (n - 1) * cadence
    {
      var start := Schedule(first, cadence, n)[i].start;
      assert start == first + i * cadence;
      MulMonotone(0, i, cadence);
      MulMonotone(i, n - 1, cadence);
    }
  }

  lemma MulMonotone(i: nat, k: nat, c: nat)
    requires i <= k
    ensures i * c <= k * c
  {
    assert k * c == i * c + (k - i) * c;
  }

  /** The object printed for a sprint: `title`, `startDate` as
      `strftime("%Y-%m-%d")`, and `duration`. */
  function Render(s: Sprint): (j: Json)
    requires 1 <= s.start <= MaxOrdinal
    ensures j.JObj? && |j.members| == 3
    ensures Get(j, "title") == JStr(s.title)
    ensures Get(j, "duration") == JInt(s.duration)
    ensures Get(j, "startDate").JStr? && ParseIsoDate(Get(j, "startDate").s) == Some(s.start)
  {
    IsoDateRoundTrip(s.start);
    var date := IsoDate(s.start);
    var m1, m2, m3 := Member("title", JStr(s.title)), Member("startDate", JStr(date)), Member("duration", JInt(s.duration));
    var ms := [m1, m2, m3];
    assert ms[..2] == [m1, m2] && [m1, m2][..1] == [m1];
    assert "duration" != "startDate" by { assert "duration"[0] != "startDate"[0]; }
    assert "duration" != "title" by { assert "duration"[0] != "title"[0]; }
    assert "startDate" != "title" by { assert "startDate"[0] != "title"[0]; }
    assert Lookup([m1], "title") == Some(JStr(s.title));
    assert Lookup([m1, m2], "title") == Some(JStr(s.title));
    assert Lookup([m1, m2], "startDate") == Some(JStr(date));
    JObj(ms)
  }

  // ------------------------------------------------------- the program

  datatype Usage = BadStartDate | BadCadence

  /** How the program ends: printed sprints (possibly none), a usage error, or
      an uncaught exception (a non-object seed, or a date past 9999-12-31). */
  datatype Outcome = Printed(sprints: seq<Sprint>) | UsageError(usage: Usage) | SeedCrash | DateOverflow

  function ExitCode(o: Outcome): (code: int)
    ensures code == ExitPrinted <==> o.Printed?
    ensures code == ExitUsage <==> o.UsageError?
  {
    match o
    case Printed(_) => ExitPrinted
    case UsageError(_) => ExitUsage
    case _ => ExitCrash
  }

  /** `main` after argument parsing: the start date is checked before the
      cadence, the seed is read only after both pass, no sprint means `[]`, and
      the first sprint falls on the next Wednesday. A start past 9999-12-31
      makes the date arithmetic raise `OverflowError`. */
  function Generate(startText: string, cadence: int, seed: Option<Json>): (o: Outcome)
    ensures ParseStartDate(startText).None? <==> o == UsageError(BadStartDate)
    ensures ParseStartDate(startText).Some? && cadence <= 0 <==> o == UsageError(BadCadence)
    ensures o == SeedCrash <==> ParseStartDate(startText).Some? && cadence > 0 && LoadMaxSprint(seed).SeedNotObject?
    ensures o.Printed? ==> forall i :: 0 <= i < |o.sprints| ==> 1 <= o.sprints[i].start <= MaxOrdinal
  {
    match ParseStartDate(startText)
    case None => UsageError(BadStartDate)
    case Some(start) =>
      if cadence <= 0 then UsageError(BadCadence)
      else match LoadMaxSprint(seed)
        case SeedNotObject => SeedCrash
        case Count(n) =>
          if n == 0 then Printed([])
          else
            var first := NextWednesday(start);
            if first + (n - 1) * cadence > MaxOrdinal then DateOverflow
            else ScheduleInRange(first, cadence, n); Printed(Schedule(first, cadence, n))
  }

  /** The printed JSON array of a successful run. */
  function Output(o: Outcome): (j: Json)
    requires o.Printed? && forall i :: 0 <= i < |o.sprints| ==> 1 <= o.sprints[i].start <= MaxOrdinal
    ensures j.JArr? && |j.elems| == |o.sprints|
    ensures forall i :: 0 <= i < |o.sprints| ==> RendersSprint(j.elems[i], o.sprints[i])
  {
    JArr(seq(|o.sprints|, i requires 0 <= i < |o.sprints| => Render(o.sprints[i])))
  }

  /** A printed array entry for sprint `s`: an object whose `title` and
      `duration` are the sprint's and whose `startDate` reads back to its start. */
  predicate RendersSprint(e: Json, s: Sprint)
  {
    && e.JObj?
    && Get(e, "title") == JStr(s.title)
    && Get(e, "duration") == JInt(s.duration)
    && Get(e, "startDate").JStr?
    && ParseIsoDate(Get(e, "startDate").s) == Some(s.start)
  }

  /** Entry `i` (from 0) of the printed array for a schedule whose first sprint
      starts on day `first`: titled `Sprint i+1`, lasting `cadence` days, and
      starting `i * cadence` days after `first`. */
  predicate PrintedEntry(e: Json, i: nat, first: int, cadence: int)
  {
    RendersSprint(e, Sprint("Sprint " + NatToDecimal(i + 1), first + i * cadence, cadence))
  }

  /** The printed array entry by entry: entry `i` is titled `Sprint i+1`, lasts
      `cadence` days, and its `startDate` reads back to the day `i * cadence`
      days after the Wednesday on or after the start date. */
  lemma OutputEntries(startText: string, cadence: int, seed: Option<Json>)
    requires Generate(startText, cadence, seed).Printed?
    ensures ParseStartDate(startText).Some? && cadence > 0 && LoadMaxSprint(seed).Count?
    ensures var j := Output(Generate(startText, cadence, seed));
      var first := NextWednesday(ParseStartDate(startText).value);
      && |j.elems| == LoadMaxSprint(seed).n
      && forall i :: 0 <= i < |j.elems| ==> PrintedEntry(j.elems[i], i, first, cadence)
  {
    PrintedInputs(startText, cadence, seed);
    var o := Generate(startText, cadence, seed);
    var first := NextWednesday(ParseStartDate(startText).value);
    GenerateSchedule(startText, cadence, seed);
    OutputOfSchedule(o, first, cadence);
  }

  /** Only a good start date, a positive cadence and a readable seed get as
      far as printing. */
  lemma PrintedInputs(startText: string, cadence: int, seed: Option<Json>)
    requires Generate(startText, cadence, seed).Printed?
    ensures ParseStartDate(startText).Some? && cadence > 0 && LoadMaxSprint(seed).Count?
  {
  }

  /** The entries printed for a schedule starting at `first`. */
  lemma OutputOfSchedule(o: Outcome, first: int, cadence: int)
    requires o.Printed?
    requires forall i :: 0 <= i < |o.sprints| ==> 1 <= o.sprints[i].start <= MaxOrdinal
    requires forall i :: 0 <= i < |o.sprints| ==>
      && o.sprints[i].title == "Sprint " + NatToDecimal(i + 1)
      && o.sprints[i].start == first + i * cadence
      && o.sprints[i].duration == cadence
    ensures var j := Output(o);
      && |j.elems| == |o.sprints|
      && forall i :: 0 <= i < |j.elems| ==> PrintedEntry(j.elems[i], i, first, cadence)
  {
    forall i | 0 <= i < |o.sprints|
      ensures o.sprints[i] == Sprint("Sprint " + NatToDecimal(i + 1), first + i * cadence, cadence)
    {
    }
  }

  /** What the program prints when it gets that far: as many sprints as the
      seed's largest sprint value, the first on the Wednesday on or after the
      start date, each `cadence` days after the previous and `cadence` days
      long; and it overflows exactly when the last start would fall after
      9999-12-31. */
  lemma GenerateSchedule(startText: string, cadence: int, seed: Option<Json>)
    requires ParseStartDate(startText).Some? && cadence > 0 && LoadMaxSprint(seed).Count?
    ensures var start := ParseStartDate(startText).value;
      var n := LoadMaxSprint(seed).n;
      var first := NextWednesday(start);
      var o := Generate(startText, cadence, seed);
      && (o.DateOverflow? <==> n > 0 && first + (n - 1) * cadence > MaxOrdinal)
      && (o.Printed? ==>
            && |o.sprints| == n
            && Weekday(first) == Wednesday
            && start <= first < start + 7
            && forall i :: 0 <= i < n ==>
                 && o.sprints[i].title == "Sprint " + NatToDecimal(i + 1)
                 && o.sprints[i].start == first + i * cadence
                 && o.sprints[i].duration == cadence)
  {
  }


  // ------------------------------------------------------- worked examples

  /** A seed with sprints `"3"` (a digit string) and `2`. */
  const ExampleSeed: Json := JObj([Member("issues", JArr([
      JObj([Member("key", JStr("A")), Member("sprint", JStr("3"))]),
      JObj([Member("key", JStr("B")), Member("sprint", JInt(2))])]))])

  lemma ExampleSeedCount()
    ensures LoadMaxSprint(Some(ExampleSeed)) == Count(3)
  {
    var items := GetOr(ExampleSeed, "issues", JArr([])).elems;
    assert SprintOf(items[0]) == Counted(3);
    assert SprintOf(items[1]) == Counted(2);
    assert items[..1] == [items[0]];
    assert MaxSprint(items[..1]) == 3;
  }

  /** Four digits read as their positional value. */
  lemma FourDigitValue(y: string)
    requires YearText(y)
    ensures DecimalValue(y) == 1000 * DigitValue(y[0]) + 100 * DigitValue(y[1]) + 10 * DigitValue(y[2]) + DigitValue(y[3])
  {
    var a, b, c := y[..3], y[..2], y[..1];
    assert a[..2] == b && b[..1] == c && c[..0] == [];
    assert a[2] == y[2] && b[1] == y[1] && c[0] == y[0];
    assert DecimalValue(c) == DigitValue(y[0]);
    assert DecimalValue(b) == 10 * DigitValue(y[0]) + DigitValue(y[1]);
    assert DecimalValue(a) == 100 * DigitValue(y[0]) + 10 * DigitValue(y[1]) + DigitValue(y[2]);
  }

  /** Fields that strptime accepts and that name a real date read as that date. */
  lemma ReadsAs(m: string, d: string, y: string, c: Civil)
    requires '/' !in m && '/' !in d
    requires MonthText(m) && DayText(d) && YearText(y)
    requires c == Civil(DecimalValue(y), FieldValue(m), FieldValue(d)) && ValidCivil(c)
    ensures ParseStartDate(m + "/" + d + "/" + y) == Some(ToOrdinal(c))
  {
    ParseStartDateFields(m, d, y);
  }

  /** 01/01/2024 is day 738886, a Monday, so the first sprint is two days later.
      The fields are parameters so that the verifier does not unfold the parser
      on a literal. */
  lemma ExampleFirstDay(m: string, d: string, y: string)
    requires m == "01" && d == "01" && y == "2024"
    ensures ParseStartDate(m + "/" + d + "/" + y) == Some(738886)
    ensures NextWednesday(738886) == 738888
  {
    FirstOfJanuary(m, d, y);
  }

  /** The spellings of the first of January 2024 that strptime accepts read as
      day 738886. */
  lemma FirstOfJanuary(m: string, d: string, y: string)
    requires (m == "01" && d == "01") || (m == "1" && d == "1") || (m == "01" && d == " 1")
    requires y == "2024"
    ensures ParseStartDate(m + "/" + d + "/" + y) == Some(738886)
  {
    FirstFields(m, d);
    FourDigitValue(y);
    var c := Civil(DecimalValue(y), FieldValue(m), FieldValue(d));
    NewYear2024(c);
    ReadsAs(m, d, y, c);
  }

  lemma NewYear2024(c: Civil)
    requires c == Civil(2024, 1, 1)
    ensures ValidCivil(c) && ToOrdinal(c) == 738886
  {
  }

  lemma FirstFields(m: string, d: string)
    requires (m == "01" && d == "01") || (m == "1" && d == "1") || (m == "01" && d == " 1")
    ensures '/' !in m && '/' !in d && MonthText(m) && DayText(d)
    ensures FieldValue(m) == 1 && FieldValue(d) == 1
  {
  }

  /** The worked example: `ExampleSeed`, starting `01/01/2024` every 14 days,
      gives three sprints starting on days 738888, 738902 and 738916, which the
      `ExampleDate` lemmas render as the 3rd, 17th and 31st of January 2024. */
  lemma ExampleSchedule(m: string, d: string, y: string)
    requires m == "01" && d == "01" && y == "2024"
    ensures Generate(m + "/" + d + "/" + y, 14, Some(ExampleSeed)) == Printed([
          Sprint("Sprint 1", 738888, 14),
          Sprint("Sprint 2", 738902, 14),
          Sprint("Sprint 3", 738916, 14)])
  {
    ExampleSeedCount();
    ExampleFirstDay(m, d, y);
    ExampleSprints(738888);
  }

  /** Three sprints every 14 days from day 738888. */
  lemma ExampleSprints(first: int)
    requires first == 738888
    ensures Schedule(first, 14, 3) == [
          Sprint("Sprint 1", 738888, 14),
          Sprint("Sprint 2", 738902, 14),
          Sprint("Sprint 3", 738916, 14)]
  {
    assert NatToDecimal(1) == "1" && NatToDecimal(2) == "2" && NatToDecimal(3) == "3";
    var r := Schedule(first, 14, 3);
    assert r[0] == Sprint("Sprint 1", 738888, 14);
    assert r[1] == Sprint("Sprint 2", 738902, 14);
    assert r[2] == Sprint("Sprint 3", 738916, 14);
  }

  /** Day `d` renders as the text its calendar date spells. */
  lemma RenderedAs(d: int, c: Civil, text: string)
    requires ValidCivil(c) && d == ToOrdinal(c)
    requires text == Pad4(c.year) + "-" + Pad2(c.month) + "-" + Pad2(c.day)
    ensures 1 <= d <= MaxOrdinal && IsoDate(d) == text
  {
    IsoDateOfCivil(c);
  }

  /** The first start of the worked example renders as 2024-01-03. The day is
      a parameter so that the verifier does not run the calendar search on a
      literal. */
  lemma ExampleDateFirst(d: int)
    requires d == 738888
    ensures IsoDate(d) == "2024-01-03"
  {
    RenderedAs(d, Civil(2024, 1, 3), "2024-01-03");
  }

  /** The second start renders as 2024-01-17. */
  lemma ExampleDateSecond(d: int)
    requires d == 738902
    ensures IsoDate(d) == "2024-01-17"
  {
    RenderedAs(d, Civil(2024, 1, 17), "2024-01-17");
  }

  /** The third start renders as 2024-01-31. */
  lemma ExampleDateThird(d: int)
    requires d == 738916
    ensures IsoDate(d) == "2024-01-31"
  {
    RenderedAs(d, Civil(2024, 1, 31), "2024-01-31");
  }

  /** strptime's leniency: single-digit and space-padded fields read like
      zero-padded ones, so `1/1/2024` and `01/ 1/2024` are 01/01/2024. */
  lemma ExampleLenientStart(m: string, d: string, y: string)
    requires (m == "1" && d == "1") || (m == "01" && d == " 1")
    requires y == "2024"
    ensures ParseStartDate(m + "/" + d + "/" + y) == Some(738886)
  {
    FirstOfJanuary(m, d, y);
  }

  /** A two-digit year, a 13th month, a 30th of February and year 0 are all
      rejected. */
  lemma ExampleRejectedStart(m: string, d: string, y: string)
    requires || (m == "01" && d == "01" && y == "24")
             || (m == "13" && d == "01" && y == "2024")
             || (m == "02" && d == "30" && y == "2024")
             || (m == "01" && d == "01" && y == "0000")
    ensures ParseStartDate(m + "/" + d + "/" + y).None?
  {
    ParseStartDateFields(m, d, y);
    if YearText(y) {
      FourDigitValue(y);
    }
  }

  /** A seed with no issues list, or with `null` for it, prints `[]`. */
  lemma ExampleNoSprints(startText: string, cadence: int)
    requires ParseStartDate(startText).Some? && cadence > 0
    ensures Generate(startText, cadence, None) == Printed([])
    ensures Generate(startText, cadence, Some(JObj([]))) == Printed([])
    ensures Generate(startText, cadence, Some(JObj([Member("issues", JNull)]))) == Printed([])
  {
  }

  /** A seed whose sprint values are zero, negative, `false` or a signed
      string, with an issue that is not an object, prints `[]`. */
  lemma ExampleIgnoredSprints(startText: string, cadence: int, items: seq<Json>)
    requires ParseStartDate(startText).Some? && cadence > 0
    requires items == [
        JObj([Member("sprint", JInt(0))]), JObj([Member("sprint", JInt(-4))]),
        JObj([Member("sprint", JBool(false))]), JObj([Member("sprint", JStr("+3"))]),
        JStr("sprint")]
    ensures Generate(startText, cadence, Some(JObj([Member("issues", JArr(items))]))) == Printed([])
  {
    assert "+3"[0] == '+' && !IsDigit('+');
    assert forall i :: 0 <= i < |items| ==> SprintOf(items[i]) == Ignored;
  }
}
