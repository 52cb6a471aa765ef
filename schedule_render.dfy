/**
 * The data grid of the default schedule renderer (DefaultScheduleRenderManager.java)
 * and its re-render decision. The grid is the `String[][]` the renderer fills
 * before drawing: row 0 holds the day names, column 0 the school-hour
 * labels `1.`, `2.`, ..., and cell `[j][i]` the lesson of day `i` in hour `j`.
 * A `None` cell is a Java `null`. Drawing the grid is not modelled.
 */
module ScheduleRender {
  import opened Wrappers
  import opened Text

  /** `java.time.DayOfWeek`, numbered as `DayOfWeek.of` numbers it: Monday is 1, Sunday 7. */
  type Day = d: int | 1 <= d <= 7 witness 1

  /** A lesson as the grid uses it: the subject and the nullable substitute subject. */
  datatype Lesson = Lesson(subject: string, substituteSubject: Option<string>)

  /**
   * A schedule: the nullable last-update time (a `LocalDateTime`, as a point
   * on a time line), the number of school hours (the length of the
   * `schoolHours` array), and each day's lesson array, whose entries may be null.
   */
  datatype ScheduleInfo = ScheduleInfo(lastUpdate: Option<int>, schoolHours: nat,
                                       lessons: map<Day, seq<Option<Lesson>>>)

  // ---------------------------------------------------------------------------
  // Shape

  /** The seven days. */
  const AllDays: set<Day> := {1, 2, 3, 4, 5, 6, 7}

  /** A map keyed by days has at most seven keys, so `DayOfWeek.of(i)` for a column `i` never throws. */
  lemma DaysBound<T>(m: map<Day, T>)
    ensures |m| <= 7
  {
    var ks := m.Keys;
    assert ks <= AllDays;
    SubsetCardinality(ks, AllDays);
    assert |AllDays| == 7;
  }

  lemma {:induction false} SubsetCardinality(a: set<Day>, b: set<Day>)
    requires a <= b
    ensures |a| <= |b|
    decreases |b|
  {
    if a != {} {
      var x :| x in a;
      SubsetCardinality(a - {x}, b - {x});
    }
  }

  /** `numRows`: a header row and one row per school hour. */
  function Rows(s: ScheduleInfo): (n: nat)
    ensures n >= 1
  {
    s.schoolHours + 1
  }

  /** `numCols`: a label column and one column per day in the lesson map. */
  function Columns(s: ScheduleInfo): (n: nat)
    ensures 1 <= n <= 8
  {
    DaysBound(s.lessons);
    |s.lessons| + 1
  }

  // ---------------------------------------------------------------------------
  // Cell contents

  /** The text of a lesson's cell: the subject, or `~subject` and the substitute on a second line. */
  function LessonText(l: Lesson): string
  {
    match l.substituteSubject
    case None => l.subject
    case Some(sub) => "~" + l.subject + "\n" + sub
  }

  /** The label of school hour `r` (`i + "."`). */
  function HourLabel(r: nat): string
  {
    NatToString(r) + "."
  }

  /**
   * Cell `[r][c]` of a grid built without failure: the day name in row 0
   * (localised by `dayName` in `language`), the hour label in column 0,
   * `[0][0]` never written, and lesson `r - 1` of day `c` when it is not null
   * and `r` is below the length of that day's array.
   */
  function Cell(s: ScheduleInfo, language: Option<string>, dayName: (string, Day) -> string,
                r: nat, c: nat): Option<string>
    requires c < Columns(s)
  {
    if r == 0 then
      if c == 0 || language.None? then None else Some(dayName(language.value, c as Day))
    else if c == 0 then Some(HourLabel(r))
    else if c as Day !in s.lessons then None
    else
      var ls := s.lessons[c as Day];
      if r < |ls| && ls[r - 1].Some? then Some(LessonText(ls[r - 1].value)) else None
  }

  // ---------------------------------------------------------------------------
  // Failures

  /** Day `d` places a non-null lesson below the last row: the write to `data[j]` throws. */
  predicate Overflows(s: ScheduleInfo, d: Day)
    requires d in s.lessons
  {
    exists q :: s.schoolHours <= q < |s.lessons[d]| - 1 && s.lessons[d][q].Some?
  }

  /**
   * The exception of the lesson loop from column `i` on: a day that is not in
   * the map yields a null array (NullPointerException on `.length`), an
   * overflowing day an ArrayIndexOutOfBoundsException.
   */
  function DaysFailure(s: ScheduleInfo, i: nat): Option<JavaException>
    requires 1 <= i
    decreases Columns(s) - i
  {
    if i >= Columns(s) then None
    else if i as Day !in s.lessons then Some(NullPointerException)
    else if Overflows(s, i as Day) then Some(ArrayIndexOutOfBoundsException)
    else DaysFailure(s, i + 1)
  }

  /**
   * The exception building the grid throws, if any: the header loop reads
   * the `language` option (absent: NullPointerException) as soon as there is
   * a day column; then the lesson loop.
   */
  function GridFailure(s: ScheduleInfo, language: Option<string>): Option<JavaException>
  {
    if Columns(s) > 1 && language.None? then Some(NullPointerException)
    else DaysFailure(s, 1)
  }

  // ---------------------------------------------------------------------------
  // Building the grid

  /**
   * The grid part of `render`: null for a null schedule, otherwise the filled
   * `data` array, or the exception its loops throw.
   */
  method BuildGrid(info: Option<ScheduleInfo>, language: Option<string>, dayName: (string, Day) -> string)
    returns (r: Result<Option<array2<Option<string>>>>)
    ensures info.None? ==> r == Ok(None)
    ensures info.Some? ==> (r.Err? <==> GridFailure(info.value, language).Some?)
    ensures info.Some? && r.Err? ==> r.error == GridFailure(info.value, language).value
    ensures info.Some? && r.Ok? ==>
              r.value.Some? && fresh(r.value.value)
              && r.value.value.Length0 == Rows(info.value) && r.value.value.Length1 == Columns(info.value)
              && forall i, j :: 0 <= i < Rows(info.value) && 0 <= j < Columns(info.value) ==>
                   r.value.value[i, j] == Cell(info.value, language, dayName, i, j)
  {
    if info.None? {
      return Ok(None);
    }
    var s := info.value;
    var numRows := Rows(s);
    var numCols := Columns(s);
    var data := new Option<string>[numRows, numCols]((_, _) => None);

    for i := 1 to numCols
      invariant i > 1 ==> language.Some?
      invariant forall a, b :: 0 <= a < numRows && 0 <= b < numCols ==>
                  data[a, b] == if a == 0 && b < i then Cell(s, language, dayName, a, b) else None
    {
      if language.None? {
        return Err(NullPointerException);
      }
      data[0, i] := Some(dayName(language.value, i as Day));
    }

    for i := 1 to numRows
      invariant forall a, b :: 0 <= a < numRows && 0 <= b < numCols ==>
                  data[a, b] == if a == 0 || (b == 0 && a < i) then Cell(s, language, dayName, a, b) else None
    {
      data[i, 0] := Some(HourLabel(i));
    }

    assert GridFailure(s, language) == DaysFailure(s, 1);
    for i := 1 to numCols
      invariant DaysFailure(s, i) == DaysFailure(s, 1)
      invariant forall a, b :: 0 <= a < numRows && 0 <= b < numCols ==>
                  data[a, b] == if a == 0 || b < i then Cell(s, language, dayName, a, b) else None
    {
      var day := i as Day;
      if day !in s.lessons {
        return Err(NullPointerException);
      }
      var lessons := s.lessons[day];
      var j := 1;
      while j < |lessons|
        invariant 1 <= j
        invariant j <= |lessons| || j == 1
        invariant forall q :: 0 <= q < j - 1 ==> !(s.schoolHours <= q && lessons[q].Some?)
        invariant forall a, b :: 0 <= a < numRows && 0 <= b < numCols ==>
                    data[a, b] == if a == 0 || b < i || (b == i && a < j) then Cell(s, language, dayName, a, b) else None
      {
        var lesson := lessons[j - 1];
        if lesson.None? {
          j := j + 1;
          continue;
        }
        if j >= numRows {
          assert s.schoolHours <= j - 1 < |lessons| - 1 && lessons[j - 1].Some?;
          return Err(ArrayIndexOutOfBoundsException);
        }
        data[j, i] := Some(LessonText(lesson.value));
        j := j + 1;
      }
      assert !Overflows(s, day);
    }
    r := Ok(Some(data));
  }

  // ---------------------------------------------------------------------------
  // Properties of the grid

  /** Column `k` holds a day of the lesson map. */
  predicate DayPresent(s: ScheduleInfo, k: int)
  {
    1 <= k <= 7 && k as Day in s.lessons
  }

  /** Column `k` holds a day of the map whose lessons all fit the grid. */
  predicate ColumnReads(s: ScheduleInfo, k: int)
  {
    DayPresent(s, k) && !Overflows(s, k as Day)
  }

  /** The lesson loop from column `i` on throws nothing exactly when every remaining column reads. */
  lemma {:induction false} DaysFailureMeaning(s: ScheduleInfo, i: nat)
    requires 1 <= i
    ensures DaysFailure(s, i).None? <==> forall k :: i <= k < Columns(s) ==> ColumnReads(s, k)
    decreases Columns(s) - i
  {
    if i < Columns(s) {
      DaysFailureMeaning(s, i + 1);
      assert ColumnReads(s, i) <==> i as Day in s.lessons && !Overflows(s, i as Day);
    }
  }

  /** The first `n` days of the week, Monday onwards. */
  function FirstDays(n: nat): (r: set<Day>)
    requires n <= 7
    ensures forall d: int :: d in r <==> 1 <= d <= n
    ensures |r| == n
  {
    if n == 0 then {}
    else
      var r := FirstDays(n - 1);
      assert n as Day !in r;
      r + {n as Day}
  }

  /**
   * No day column reads a null array exactly when the days in the map are
   * Monday through the `n`-th day, `n` being their number.
   */
  lemma ContiguousDays(s: ScheduleInfo)
    ensures (forall k :: 1 <= k < Columns(s) ==> DayPresent(s, k))
            <==> s.lessons.Keys == FirstDays(Columns(s) - 1)
  {
    var first := FirstDays(Columns(s) - 1);
    if forall k :: 1 <= k < Columns(s) ==> DayPresent(s, k) {
      assert forall d :: d in first ==> DayPresent(s, d);
      SubsetEqualCardinality(first, s.lessons.Keys);
    }
  }

  lemma {:induction false} SubsetEqualCardinality(a: set<Day>, b: set<Day>)
    requires a <= b && |a| == |b|
    ensures a == b
    decreases |a|
  {
    if a != {} {
      var x :| x in a;
      assert |a - {x}| == |a| - 1;
      assert |b - {x}| == |b| - 1;
      SubsetEqualCardinality(a - {x}, b - {x});
      assert a == (a - {x}) + {x};
      assert b == (b - {x}) + {x};
    } else {
      assert |b| == 0;
    }
  }

  /**
   * A schedule renders into a grid exactly when its days are Monday through
   * some day with none missing, no day has a lesson below the last school
   * hour, and the language is set whenever there is a day to name.
   */
  lemma GridBuildsExactly(s: ScheduleInfo, language: Option<string>)
    ensures GridFailure(s, language).None? <==>
              (s.lessons == map[] || language.Some?)
              && s.lessons.Keys == FirstDays(Columns(s) - 1)
              && forall d :: d in s.lessons ==> !Overflows(s, d)
  {
    DaysFailureMeaning(s, 1);
    ContiguousDays(s);
    var n := Columns(s) - 1;
    assert n == 0 <==> s.lessons == map[] by {
      if n == 0 {
        assert |s.lessons.Keys| == 0;
      }
    }
    var allRead := forall k :: 1 <= k < Columns(s) ==> ColumnReads(s, k);
    var fits := forall d :: d in s.lessons ==> !Overflows(s, d);
    assert DaysFailure(s, 1).None? <==> allRead;
    if allRead {
      forall k | 1 <= k < Columns(s)
        ensures DayPresent(s, k)
      {
        assert ColumnReads(s, k);
      }
      forall d | d in s.lessons
        ensures !Overflows(s, d)
      {
        assert ColumnReads(s, d);
      }
    }
    if s.lessons.Keys == FirstDays(n) && fits {
      forall k | 1 <= k < Columns(s)
        ensures ColumnReads(s, k)
      {
        assert k in FirstDays(n);
      }
    }
    assert allRead <==> s.lessons.Keys == FirstDays(n) && fits;
  }

  /** The last entry of a day's lesson array never reaches the grid, and cannot make it fail. */
  lemma LastLessonIgnored(s: ScheduleInfo, language: Option<string>, dayName: (string, Day) -> string,
                          d: Day, x: Option<Lesson>)
    requires d in s.lessons && s.lessons[d] != []
    ensures var ls := s.lessons[d];
            var s' := s.(lessons := s.lessons[d := ls[..|ls| - 1] + [x]]);
            Columns(s') == Columns(s)
            && GridFailure(s', language) == GridFailure(s, language)
            && forall r, c :: 0 <= r && 0 <= c < Columns(s) ==>
                 Cell(s', language, dayName, r, c) == Cell(s, language, dayName, r, c)
  {
    var ls := s.lessons[d];
    var ls' := ls[..|ls| - 1] + [x];
    var s' := s.(lessons := s.lessons[d := ls']);
    assert s'.lessons.Keys == s.lessons.Keys;
    assert Overflows(s', d) == Overflows(s, d) by {
      assert forall q :: 0 <= q < |ls| - 1 ==> ls'[q] == ls[q];
    }
    SameDaysFailure(s, s', 1);
  }

  lemma {:induction false} SameDaysFailure(s: ScheduleInfo, s': ScheduleInfo, i: nat)
    requires 1 <= i
    requires s'.schoolHours == s.schoolHours && s'.lessons.Keys == s.lessons.Keys
    requires forall d :: d in s.lessons ==> Overflows(s', d) == Overflows(s, d)
    ensures DaysFailure(s', i) == DaysFailure(s, i)
    decreases Columns(s) - i
  {
    assert |s'.lessons| == |s.lessons|;
    if i < Columns(s) {
      SameDaysFailure(s, s', i + 1);
    }
  }

  /** Row `r`'s label reads back as `r`: the digits before the final dot. */
  lemma HourLabelRoundTrip(r: nat)
    ensures var t := HourLabel(r);
            |t| >= 2 && t[|t| - 1] == '.' && IsDigits(t[..|t| - 1]) && ParseNat(t[..|t| - 1]) == r
  {
    var t := HourLabel(r);
    assert t[..|t| - 1] == NatToString(r);
    ParseNatToString(r);
  }

  /** Splits a cell's text at its first line break; `None` when it has none. */
  function SplitAtNewline(t: string): (r: Option<(string, string)>)
    ensures r.Some? ==> '\n' !in r.value.0 && t == r.value.0 + "\n" + r.value.1
    ensures r.None? <==> '\n' !in t
  {
    if t == [] then None
    else if t[0] == '\n' then Some(("", t[1..]))
    else match SplitAtNewline(t[1..])
      case None => None
      case Some((a, b)) => Some(([t[0]] + a, b))
  }

  /**
   * A cell with a substitute is told apart by its leading `~` and splits back
   * into subject and substitute, provided the subject has no line break and
   * does not itself start with `~`.
   */
  lemma LessonTextRoundTrip(l: Lesson)
    requires '\n' !in l.subject && (l.subject == [] || l.subject[0] != '~')
    ensures var t := LessonText(l);
            (t != [] && t[0] == '~') <==> l.substituteSubject.Some?
    ensures var t := LessonText(l);
            l.substituteSubject.Some? ==> SplitAtNewline(t[1..]) == Some((l.subject, l.substituteSubject.value))
  {
    if l.substituteSubject.Some? {
      var sub := l.substituteSubject.value;
      var t := LessonText(l);
      assert t[1..] == l.subject + ("\n" + sub);
      SplitFirst(l.subject, sub);
    }
  }

  lemma {:induction false} SplitFirst(a: string, b: string)
    requires '\n' !in a
    ensures SplitAtNewline(a + ("\n" + b)) == Some((a, b))
  {
    if a != [] {
      assert (a + ("\n" + b))[1..] == a[1..] + ("\n" + b);
      SplitFirst(a[1..], b);
      assert [a[0]] + a[1..] == a;
    } else {
      assert a + ("\n" + b) == "\n" + b;
    }
  }

  // ---------------------------------------------------------------------------
  // Re-rendering

  /**
   * `shouldReRender(previous, latest)`: always for a missing previous schedule, otherwise
   * when the previous update time is strictly before the new one. Comparing with
   * a null time, or reading the time of a null new schedule, throws.
   */
  function ShouldReRender(previous: Option<ScheduleInfo>, latest: Option<ScheduleInfo>): (r: Result<bool>)
    ensures previous.None? ==> r == Ok(true)
    ensures r.Err? ==> r.error == NullPointerException
  {
    if previous.None? then Ok(true)
    else if previous.value.lastUpdate.None? || latest.None? || latest.value.lastUpdate.None? then Err(NullPointerException)
    else Ok(previous.value.lastUpdate.value < latest.value.lastUpdate.value)
  }

  /**
   * A re-render is asked for exactly when there is no previous schedule or the
   * new one is strictly newer; equal times do not re-render, and a schedule
   * never asks to replace itself.
   */
  lemma ShouldReRenderMeaning(previous: Option<ScheduleInfo>, latest: Option<ScheduleInfo>)
    ensures ShouldReRender(previous, latest) == Ok(true) <==>
              previous.None? || (previous.value.lastUpdate.Some? && latest.Some? && latest.value.lastUpdate.Some?
                            && previous.value.lastUpdate.value < latest.value.lastUpdate.value)
    ensures previous.Some? && latest.Some? && previous.value.lastUpdate.Some? && previous.value.lastUpdate == latest.value.lastUpdate ==>
              ShouldReRender(previous, latest) == Ok(false)
    ensures latest.Some? && latest.value.lastUpdate.Some? ==> ShouldReRender(latest, latest) == Ok(false)
  {
  }

  /** Re-render decisions chain: a schedule newer than one that was newer than the previous is newer than the previous. */
  lemma ShouldReRenderTransitive(a: ScheduleInfo, b: ScheduleInfo, c: ScheduleInfo)
    requires ShouldReRender(Some(a), Some(b)) == Ok(true) && ShouldReRender(Some(b), Some(c)) == Ok(true)
    ensures ShouldReRender(Some(a), Some(c)) == Ok(true)
  {
  }
}
