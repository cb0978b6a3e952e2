/**
 The calendar-aware window partitioner `get_time_ranges`: it splits
 `[earliest, latest]` into windows `(unit, lo, hi)` by advancing a cursor
 `num` calendar units at a time, stepping back to 23:59:59 of the previous
 day, and clamping the end to `latest`.
 */
module Partition {
  import opened Calendar
  import opened Digits
  import opened TimeRange
  import opened Wrappers

  /** One `(unit, lo, hi)` tuple of the output list. */
  datatype Window = Window(tag: char, lo: DateTime, hi: DateTime)

  // ---------------------------------------------------------------------
  // The arithmetic of one window (what the method's loops compute)
  // ---------------------------------------------------------------------

  /**
   One pass of the inner `for` body: a month unit jumps to 23:59:59 on the
   last day of the month, a day unit adds a day, a year unit jumps to
   Dec 31 23:59:59, and every unit then adds one second. Any other tag
   only adds the second.
   */
  function StepUnit(unit: char, t: DateTime): DateTime {
    var t1 := if unit == 'm' then t.(day := DaysInMonth(t.year, t.month), hour := 23, minute := 59, second := 59) else t;
    var t2 := if unit == 'd' then AddDay(t1) else t1;
    var t3 := if unit == 'y' then DateTime(t2.year, 12, 31, 23, 59, 59) else t2;
    NextSecond(t3)
  }

  /** The cursor after `k` passes of the inner loop. */
  function Advance(unit: char, t: DateTime, k: nat): DateTime
    decreases k
  {
    if k == 0 then t else StepUnit(unit, Advance(unit, t, k - 1))
  }

  /** The end of the window that starts at `lo`, before clamping. */
  function WindowEnd(unit: char, num: nat, lo: DateTime): DateTime {
    EndOfDay(SubDay(Advance(unit, lo, num)))
  }

  /** `if hi >= latest: hi = latest`. */
  function Clamp(hi: DateTime, latest: DateTime): DateTime {
    if !Before(hi, latest) then latest else hi
  }

  // ---------------------------------------------------------------------
  // What a partition is
  // ---------------------------------------------------------------------

  predicate Tagged(ws: seq<Window>, unit: char) {
    forall i :: 0 <= i < |ws| ==> ws[i].tag == unit
  }

  /** The first window starts at `earliest`; each later one a second after the previous end. */
  predicate Contiguous(ws: seq<Window>, earliest: DateTime) {
    && (|ws| > 0 ==> ws[0].lo == earliest)
    && (forall i :: 0 < i < |ws| ==> ws[i].lo == NextSecond(ws[i - 1].hi))
  }

  /** `lo <= hi <= latest` and `lo < latest` for every window. */
  predicate Bounded(ws: seq<Window>, latest: DateTime) {
    forall i :: 0 <= i < |ws| ==>
      && ValidDateTime(ws[i].lo) && ValidDateTime(ws[i].hi)
      && !Before(ws[i].hi, ws[i].lo)
      && !Before(latest, ws[i].hi)
      && Before(ws[i].lo, latest)
  }

  /** Every end is the computed end of its window, clamped to `latest`. */
  predicate EndsAsComputed(ws: seq<Window>, unit: char, num: nat, latest: DateTime) {
    forall i :: 0 <= i < |ws| ==> ws[i].hi == Clamp(WindowEnd(unit, num, ws[i].lo), latest)
  }

  /**
   Every window but the last ends more than a second before `latest`; the
   last ends at `latest` or one second before it.
   */
  predicate ClosesAtLatest(ws: seq<Window>, latest: DateTime) {
    && (forall i :: 0 <= i < |ws| - 1 ==> Before(NextSecond(ws[i].hi), latest))
    && (|ws| > 0 ==> ws[|ws| - 1].hi == latest || NextSecond(ws[|ws| - 1].hi) == latest)
  }

  /** No output exactly when the range is empty (a non-empty output starts at `earliest < latest`). */
  predicate EmptyOnlyForEmptyRange(ws: seq<Window>, earliest: DateTime, latest: DateTime) {
    ws == [] <==> !Before(earliest, latest)
  }

  predicate IsPartition(ws: seq<Window>, unit: char, num: nat, earliest: DateTime, latest: DateTime) {
    && EmptyOnlyForEmptyRange(ws, earliest, latest)
    && Tagged(ws, unit)
    && Contiguous(ws, earliest)
    && Bounded(ws, latest)
    && EndsAsComputed(ws, unit, num, latest)
    && ClosesAtLatest(ws, latest)
  }

  /**
   The inputs on which `get_time_ranges` runs to completion without
   `OverflowError`: valid timestamps, a lowercase unit letter and a count of
   at least one, and room for `num` more years after `latest`.
   */
  predicate PartitionDomain(unit: char, num: nat, earliest: DateTime, latest: DateTime) {
    && IsUnitLetter(unit) && num >= 1
    && ValidDateTime(earliest) && ValidDateTime(latest)
    && latest.year + num <= MaxYear
  }

  // ---------------------------------------------------------------------
  // The partitioner
  // ---------------------------------------------------------------------

  /** The loop of `get_time_ranges`, for an already extracted unit tag and count. */
  method Partition(unit: char, num: nat, earliest: DateTime, latest: DateTime) returns (output: seq<Window>)
    requires PartitionDomain(unit, num, earliest, latest)
    ensures EmptyOnlyForEmptyRange(output, earliest, latest)
    ensures Tagged(output, unit)
    ensures Contiguous(output, earliest)
    ensures Bounded(output, latest)
    ensures EndsAsComputed(output, unit, num, latest)
    ensures ClosesAtLatest(output, latest)
  {
    output := [];
    var hi := earliest;
    while Before(hi, latest)
      invariant PartialPartition(output, hi, unit, num, earliest, latest)
      decreases Seconds(latest) - Seconds(hi)
    {
      var lo := hi;
      ChronologicalOrder(lo, latest);
      for i := 0 to num
        invariant hi == Advance(unit, lo, i)
      {
        if unit == 'm' {
          hi := hi.(day := DaysInMonth(hi.year, hi.month), hour := 23, minute := 59, second := 59);
        }
        if unit == 'd' {
          hi := AddDay(hi);
        }
        if unit == 'y' {
          hi := DateTime(hi.year, 12, 31, 23, 59, 59);
        }
        hi := NextSecond(hi);
      }
      hi := SubDay(hi);
      hi := hi.(hour := 23, minute := 59, second := 59);
      assert hi == WindowEnd(unit, num, lo);
      if !Before(hi, latest) {
        hi := latest;
      }
      assert hi == Clamp(WindowEnd(unit, num, lo), latest);
      ExtendPartial(output, lo, unit, num, earliest, latest);
      output := output + [Window(unit, lo, hi)];
      hi := NextSecond(hi);
    }
    FinishPartial(output, hi, unit, num, earliest, latest);
  }

  /**
   `get_time_ranges(s, earliest, latest)`: match the specifier again, take
   `int(num)` and `unit[0]` as they are, and partition.
   */
  method GetTimeRanges(s: string, earliest: DateTime, latest: DateTime) returns (output: seq<Window>)
    requires ParseTimeRange(s).Success?
    requires MatchSpec(s).Some? && IsUnitLetter(UnitTag(s))
    requires ValidDateTime(earliest) && ValidDateTime(latest)
    requires latest.year + Count(s) <= MaxYear
    ensures IsPartition(output, UnitTag(s), Count(s), earliest, latest)
  {
    AcceptedSpecHasUnitAndCount(s);
    var m := MatchSpec(s).value;
    var num := Value(m.digits);
    var unit := m.word[0];
    output := Partition(unit, num, earliest, latest);
  }

  /**
   `get_time_ranges` as its caller evidently intends it: the unit letter
   lowercased, as `parse_time_range` lowercases it before checking it, so
   that every accepted specifier is partitioned.
   */
  method GetTimeRangesIgnoringCase(s: string, earliest: DateTime, latest: DateTime) returns (output: seq<Window>)
    requires ParseTimeRange(s).Success?
    requires ValidDateTime(earliest) && ValidDateTime(latest)
    requires MatchSpec(s).Some? && latest.year + Count(s) <= MaxYear
    ensures IsPartition(output, Lower(UnitTag(s)), Count(s), earliest, latest)
  {
    AcceptedSpecHasUnitAndCount(s);
    var m := MatchSpec(s).value;
    var num := Value(m.digits);
    var unit := Lower(m.word[0]);
    output := Partition(unit, num, earliest, latest);
  }

  /**
   The loop invariant of `get_time_ranges`: the windows emitted so far
   satisfy every clause of a partition but the closing one, and the cursor
   `hi` is one second past the last emitted end.
   */
  predicate PartialPartition(ws: seq<Window>, hi: DateTime, unit: char, num: nat, earliest: DateTime, latest: DateTime) {
    && ValidDateTime(hi)
    && (ws == [] ==> hi == earliest)
    && (ws != [] ==> hi == NextSecond(ws[|ws| - 1].hi))
    && Tagged(ws, unit)
    && Contiguous(ws, earliest)
    && Bounded(ws, latest)
    && EndsAsComputed(ws, unit, num, latest)
    && (forall i :: 0 <= i < |ws| - 1 ==> Before(NextSecond(ws[i].hi), latest))
  }

  /** The window emitted from a cursor `lo < latest` is well ordered and moves the cursor forward. */
  lemma NextWindowBounded(unit: char, num: nat, lo: DateTime, latest: DateTime)
    requires IsUnitLetter(unit) && num >= 1
    requires ValidDateTime(lo) && ValidDateTime(latest) && latest.year + num <= MaxYear
    requires Before(lo, latest)
    ensures var hi := Clamp(WindowEnd(unit, num, lo), latest);
            && ValidDateTime(hi) && !Before(hi, lo) && !Before(latest, hi)
            && ValidDateTime(NextSecond(hi)) && Seconds(lo) < Seconds(NextSecond(hi))
  {
    var e := WindowEnd(unit, num, lo);
    var hi := Clamp(e, latest);
    WindowEndInRange(unit, num, lo);
    ChronologicalOrder(lo, latest);
    ChronologicalOrder(e, latest);
    ChronologicalOrder(latest, e);
    ChronologicalOrder(hi, lo);
    NextSecondIsOneSecondLater(hi);
  }

  /** Appending the next window keeps the per-window clauses. */
  lemma ExtendClauses(ws: seq<Window>, lo: DateTime, unit: char, num: nat, earliest: DateTime, latest: DateTime)
    requires PartitionDomain(unit, num, earliest, latest)
    requires PartialPartition(ws, lo, unit, num, earliest, latest)
    requires Before(lo, latest)
    ensures var w := Window(unit, lo, Clamp(WindowEnd(unit, num, lo), latest));
            && Tagged(ws + [w], unit) && Contiguous(ws + [w], earliest)
            && Bounded(ws + [w], latest) && EndsAsComputed(ws + [w], unit, num, latest)
  {
    var w := Window(unit, lo, Clamp(WindowEnd(unit, num, lo), latest));
    NextWindowBounded(unit, num, lo, latest);
    AppendTagged(ws, w, unit);
    AppendContiguous(ws, w, earliest);
    AppendBounded(ws, w, latest);
    AppendEndsAsComputed(ws, w, unit, num, latest);
  }

  lemma AppendTagged(ws: seq<Window>, w: Window, unit: char)
    requires Tagged(ws, unit) && w.tag == unit
    ensures Tagged(ws + [w], unit)
  {
    var ws' := ws + [w];
    assert forall i :: 0 <= i < |ws| ==> ws'[i] == ws[i];
  }

  lemma AppendContiguous(ws: seq<Window>, w: Window, earliest: DateTime)
    requires Contiguous(ws, earliest)
    requires ws == [] ==> w.lo == earliest
    requires ws != [] ==> w.lo == NextSecond(ws[|ws| - 1].hi)
    ensures Contiguous(ws + [w], earliest)
  {
    var ws' := ws + [w];
    assert forall i :: 0 <= i < |ws| ==> ws'[i] == ws[i];
  }

  lemma AppendBounded(ws: seq<Window>, w: Window, latest: DateTime)
    requires Bounded(ws, latest)
    requires ValidDateTime(w.lo) && ValidDateTime(w.hi)
    requires !Before(w.hi, w.lo) && !Before(latest, w.hi) && Before(w.lo, latest)
    ensures Bounded(ws + [w], latest)
  {
    var ws' := ws + [w];
    assert forall i :: 0 <= i < |ws| ==> ws'[i] == ws[i];
  }

  lemma AppendEndsAsComputed(ws: seq<Window>, w: Window, unit: char, num: nat, latest: DateTime)
    requires EndsAsComputed(ws, unit, num, latest)
    requires w.hi == Clamp(WindowEnd(unit, num, w.lo), latest)
    ensures EndsAsComputed(ws + [w], unit, num, latest)
  {
    var ws' := ws + [w];
    assert forall i :: 0 <= i < |ws| ==> ws'[i] == ws[i];
  }

  /** One iteration of the outer loop keeps the invariant and moves the cursor forward. */
  lemma ExtendPartial(ws: seq<Window>, lo: DateTime, unit: char, num: nat, earliest: DateTime, latest: DateTime)
    requires PartitionDomain(unit, num, earliest, latest)
    requires PartialPartition(ws, lo, unit, num, earliest, latest)
    requires Before(lo, latest)
    ensures var w := Window(unit, lo, Clamp(WindowEnd(unit, num, lo), latest));
            && PartialPartition(ws + [w], NextSecond(w.hi), unit, num, earliest, latest)
            && Seconds(lo) < Seconds(NextSecond(w.hi))
  {
    var w := Window(unit, lo, Clamp(WindowEnd(unit, num, lo), latest));
    NextWindowBounded(unit, num, lo, latest);
    ExtendClauses(ws, lo, unit, num, earliest, latest);
    var ws' := ws + [w];
    assert forall i :: 0 <= i < |ws| ==> ws'[i] == ws[i];
    assert forall i :: 0 <= i < |ws'| - 1 ==> Before(NextSecond(ws'[i].hi), latest);
  }

  /** When the loop stops, the windows are a partition. */
  lemma FinishPartial(ws: seq<Window>, hi: DateTime, unit: char, num: nat, earliest: DateTime, latest: DateTime)
    requires PartitionDomain(unit, num, earliest, latest)
    requires PartialPartition(ws, hi, unit, num, earliest, latest)
    requires !Before(hi, latest)
    ensures IsPartition(ws, unit, num, earliest, latest)
  {
    if ws != [] {
      var n := |ws| - 1;
      assert ValidDateTime(ws[n].hi) && !Before(latest, ws[n].hi);
      LastEndCloses(ws[n].hi, latest);
      assert Before(ws[0].lo, latest);
    }
  }

  /** An end not after `latest` whose next second is not before `latest` is `latest` or the second before it. */
  lemma LastEndCloses(last: DateTime, latest: DateTime)
    requires ValidDateTime(last) && ValidDateTime(latest)
    requires !Before(latest, last) && !Before(NextSecond(last), latest)
    ensures last == latest || NextSecond(last) == latest
  {
    if last != latest {
      var hi := NextSecond(last);
      ChronologicalOrder(last, latest);
      ChronologicalOrder(latest, last);
      NextSecondIsOneSecondLater(last);
      ChronologicalOrder(hi, latest);
      SecondsInjective(hi, latest);
    }
  }

  // ---------------------------------------------------------------------
  // Lemmas about one window
  // ---------------------------------------------------------------------

  /**
   One pass of the inner loop moves the cursor forward, by at most one
   year; for d, m and y it reaches the following day or later, and for d
   it moves by exactly a day and a second.
   */
  lemma StepUnitAdvances(unit: char, t: DateTime)
    requires ValidDateTime(t) && t.year < MaxYear
    ensures ValidDateTime(StepUnit(unit, t))
    ensures StepUnit(unit, t).year <= t.year + 1
    ensures Seconds(StepUnit(unit, t)) > Seconds(t)
    ensures IsUnitLetter(unit) ==> Seconds(StepUnit(unit, t)) >= (DayNumber(t) + 1) * SecondsPerDay
    ensures unit == 'd' ==> Seconds(StepUnit(unit, t)) == Seconds(t) + SecondsPerDay + 1
    ensures !IsUnitLetter(unit) ==> Seconds(StepUnit(unit, t)) == Seconds(t) + 1
  {
    SecondsSplit(t);
    if unit == 'm' {
      var t1 := t.(day := DaysInMonth(t.year, t.month), hour := 23, minute := 59, second := 59);
      NextSecondIsOneSecondLater(t1);
    } else if unit == 'd' {
      AddDayIsOneDayLater(t);
      NextSecondIsOneSecondLater(AddDay(t));
    } else if unit == 'y' {
      var t3 := DateTime(t.year, 12, 31, 23, 59, 59);
      if t.month < 12 {
        DaysBeforeMonthMonotone(t.year, t.month, 12);
      }
      NextSecondIsOneSecondLater(t3);
    } else {
      NextSecondIsOneSecondLater(t);
    }
  }

  /** The cursor stays a valid timestamp, within `k` years, and moves forward. */
  lemma {:induction false} AdvanceAdvances(unit: char, t: DateTime, k: nat)
    requires ValidDateTime(t) && t.year + k <= MaxYear
    ensures ValidDateTime(Advance(unit, t, k))
    ensures Advance(unit, t, k).year <= t.year + k
    ensures Seconds(Advance(unit, t, k)) >= Seconds(t) + k
    ensures IsUnitLetter(unit) && k > 0 ==> Seconds(Advance(unit, t, k)) >= (DayNumber(t) + 1) * SecondsPerDay
    ensures unit == 'd' ==> Seconds(Advance(unit, t, k)) == Seconds(t) + k * (SecondsPerDay + 1)
    ensures !IsUnitLetter(unit) ==> Seconds(Advance(unit, t, k)) == Seconds(t) + k
    decreases k
  {
    if k > 0 {
      AdvanceAdvances(unit, t, k - 1);
      StepUnitAdvances(unit, Advance(unit, t, k - 1));
    }
  }

  /**
   For d, m and y the computed end is a valid timestamp at 23:59:59, the
   last second of the day before the cursor's day, and not before `lo`.
   */
  lemma WindowEndInRange(unit: char, num: nat, lo: DateTime)
    requires IsUnitLetter(unit) && num >= 1
    requires ValidDateTime(lo) && lo.year + num <= MaxYear
    ensures ValidDateTime(WindowEnd(unit, num, lo))
    ensures AtEndOfDay(WindowEnd(unit, num, lo))
    ensures Seconds(WindowEnd(unit, num, lo)) == DayNumber(Advance(unit, lo, num)) * SecondsPerDay - 1
    ensures Seconds(WindowEnd(unit, num, lo)) >= Seconds(lo)
    ensures WindowEnd(unit, num, lo).year <= lo.year + num
  {
    var a := Advance(unit, lo, num);
    AdvanceAdvances(unit, lo, num);
    SecondsSplit(lo);
    SecondsSplit(a);
    SubDayIsOneDayEarlier(a);
    SecondsSplit(SubDay(a));
  }

  // ---------------------------------------------------------------------
  // Calendar alignment of the computed end
  // ---------------------------------------------------------------------

  /** Months counted from January of year 0. */
  function MonthIndex(t: DateTime): int {
    t.year * 12 + t.month - 1
  }

  function FirstOfMonth(i: int): DateTime {
    DateTime(i / 12, i % 12 + 1, 1, 0, 0, 0)
  }

  function LastSecondOfMonth(i: int): DateTime {
    DateTime(i / 12, i % 12 + 1, DaysInMonth(i / 12, i % 12 + 1), 23, 59, 59)
  }

  lemma MonthStep(t: DateTime)
    requires 1 <= t.month <= 12
    ensures StepUnit('m', t) == FirstOfMonth(MonthIndex(t) + 1)
  {
  }

  lemma {:induction false} AdvanceByMonths(lo: DateTime, k: nat)
    requires 1 <= lo.month <= 12 && k >= 1
    ensures Advance('m', lo, k) == FirstOfMonth(MonthIndex(lo) + k)
    decreases k
  {
    if k == 1 {
      MonthStep(lo);
    } else {
      AdvanceByMonths(lo, k - 1);
      MonthStep(FirstOfMonth(MonthIndex(lo) + k - 1));
    }
  }

  /**
   Month unit: the window from a `lo` in month M ends at 23:59:59 on the
   true last day of the month `num - 1` months after M.
   */
  lemma MonthWindowEnd(num: nat, lo: DateTime)
    requires 1 <= lo.month <= 12 && num >= 1
    ensures WindowEnd('m', num, lo) == LastSecondOfMonth(MonthIndex(lo) + num - 1)
  {
    AdvanceByMonths(lo, num);
  }

  lemma YearStep(t: DateTime)
    ensures StepUnit('y', t) == DateTime(t.year + 1, 1, 1, 0, 0, 0)
  {
  }

  lemma {:induction false} AdvanceByYears(lo: DateTime, k: nat)
    requires k >= 1
    ensures Advance('y', lo, k) == DateTime(lo.year + k, 1, 1, 0, 0, 0)
    decreases k
  {
    if k == 1 {
      YearStep(lo);
    } else {
      AdvanceByYears(lo, k - 1);
      YearStep(Advance('y', lo, k - 1));
    }
  }

  /** Year unit: the window from a `lo` in year Y ends at Dec 31 23:59:59 of year `Y + num - 1`. */
  lemma YearWindowEnd(num: nat, lo: DateTime)
    requires num >= 1
    ensures WindowEnd('y', num, lo) == DateTime(lo.year + num - 1, 12, 31, 23, 59, 59)
  {
    AdvanceByYears(lo, num);
  }

  /**
   Day unit: each pass adds a day and a second, so the window from `lo` on
   day D ends at 23:59:59 on day `D + num - 1`, plus one day for every
   86400 accumulated seconds past `lo`'s time of day.
   */
  lemma DayWindowEnd(num: nat, lo: DateTime)
    requires num >= 1 && ValidDateTime(lo) && lo.year + num <= MaxYear
    ensures AtEndOfDay(WindowEnd('d', num, lo))
    ensures DayNumber(WindowEnd('d', num, lo)) == DayNumber(lo) + num - 1 + (SecondOfDay(lo) + num) / SecondsPerDay
  {
    var a := Advance('d', lo, num);
    var e := WindowEnd('d', num, lo);
    AdvanceAdvances('d', lo, num);
    WindowEndInRange('d', num, lo);
    SecondsSplit(lo);
    SecondsSplit(a);
    SecondsSplit(e);
    var q := (SecondOfDay(lo) + num) / SecondsPerDay;
    var r := (SecondOfDay(lo) + num) % SecondsPerDay;
    assert Seconds(a) == (DayNumber(lo) + num + q) * SecondsPerDay + r;
    assert DayNumber(a) == DayNumber(lo) + num + q;
  }

  /**
   Day unit from midnight: the window covers exactly `num` calendar days
   (the year bound keeps `num` well below the 86400 passes after which the
   added seconds would make up a day).
   */
  lemma DayWindowEndFromMidnight(num: nat, lo: DateTime)
    requires 1 <= num && ValidDateTime(lo) && lo.year + num <= MaxYear
    requires AtMidnight(lo)
    ensures AtEndOfDay(WindowEnd('d', num, lo))
    ensures DayNumber(WindowEnd('d', num, lo)) == DayNumber(lo) + num - 1
  {
    DayWindowEnd(num, lo);
  }

  // ---------------------------------------------------------------------
  // Lemmas about the whole partition
  // ---------------------------------------------------------------------

  lemma NextSecondIsLater(t: DateTime)
    ensures Before(t, NextSecond(t)) && !Before(NextSecond(t), t)
  {
  }

  /** Window starts strictly increase. */
  lemma {:induction false} StartsIncrease(ws: seq<Window>, unit: char, num: nat, earliest: DateTime, latest: DateTime, i: nat, j: nat)
    requires IsPartition(ws, unit, num, earliest, latest)
    requires i < j < |ws|
    ensures Seconds(ws[i].lo) < Seconds(ws[j].lo)
    ensures Before(ws[i].lo, ws[j].lo)
    decreases j - i
  {
    var w := ws[j - 1];
    ChronologicalOrder(w.hi, w.lo);
    NextSecondIsOneSecondLater(w.hi);
    if i < j - 1 {
      StartsIncrease(ws, unit, num, earliest, latest, i, j - 1);
    }
    ChronologicalOrder(ws[i].lo, ws[j].lo);
  }

  /**
   Every window but the last was not clamped: it ends at its computed end,
   at 23:59:59, and the next window starts at midnight.
   */
  lemma InteriorWindowsUnclamped(ws: seq<Window>, unit: char, num: nat, earliest: DateTime, latest: DateTime, i: nat)
    requires IsPartition(ws, unit, num, earliest, latest)
    requires i < |ws| - 1
    ensures ws[i].hi == WindowEnd(unit, num, ws[i].lo)
    ensures Before(WindowEnd(unit, num, ws[i].lo), latest)
    ensures AtEndOfDay(ws[i].hi)
    ensures AtMidnight(ws[i + 1].lo)
  {
    NextSecondIsLater(latest);
  }

  /** After the last window the cursor is at or past `latest`. */
  lemma LastWindowCloses(ws: seq<Window>, unit: char, num: nat, earliest: DateTime, latest: DateTime)
    requires IsPartition(ws, unit, num, earliest, latest)
    requires |ws| > 0
    ensures !Before(NextSecond(ws[|ws| - 1].hi), latest)
  {
    NextSecondIsLater(latest);
  }

  /** The contract of the partitioner determines its output. */
  lemma PartitionUnique(a: seq<Window>, b: seq<Window>, unit: char, num: nat, earliest: DateTime, latest: DateTime)
    requires IsPartition(a, unit, num, earliest, latest)
    requires IsPartition(b, unit, num, earliest, latest)
    ensures a == b
  {
    var n := if |a| < |b| then |a| else |b|;
    var k := 0;
    while k < n
      invariant k <= n
      invariant forall i :: 0 <= i < k ==> a[i] == b[i]
    {
      if k > 0 {
        assert a[k - 1] == b[k - 1];
      }
      assert a[k].lo == b[k].lo;
      k := k + 1;
    }
    if |a| < |b| {
      if |a| > 0 {
        LastWindowCloses(a, unit, num, earliest, latest);
      }
    } else if |b| < |a| {
      if |b| > 0 {
        LastWindowCloses(b, unit, num, earliest, latest);
      }
    }
  }

  // ---------------------------------------------------------------------
  // Unit tags other than d, m and y (the uppercase case)
  // ---------------------------------------------------------------------

  /**
   With a tag other than d, m or y (an uppercase `M`, say) the inner loop
   only adds seconds; when `lo`'s time of day plus `num` seconds stays
   within the day, the computed end is 23:59:59 of the day before `lo`, so
   the next cursor is midnight of `lo`'s own day.
   */
  lemma OtherTagGoesBackToMidnight(unit: char, num: nat, lo: DateTime)
    requires !IsUnitLetter(unit) && num >= 1
    requires ValidDateTime(lo) && !IsFirstDay(lo) && lo.year + num <= MaxYear
    requires SecondOfDay(lo) + num < SecondsPerDay
    ensures NextSecond(WindowEnd(unit, num, lo)) == lo.(hour := 0, minute := 0, second := 0)
  {
    var a := Advance(unit, lo, num);
    AdvanceAdvances(unit, lo, num);
    assert DayNumber(a) == DayNumber(lo) by {
      SameDay(DayNumber(a), SecondOfDay(a), DayNumber(lo), SecondOfDay(lo) + num);
    }
    DayNumberPositive(lo);
    var pre := SubDay(a);
    SubDayIsOneDayEarlier(a);
    assert DayNumber(pre) == DayNumber(lo) - 1 by {
      assert SecondOfDay(pre) == SecondOfDay(a);
    }
    var e := EndOfDay(pre);
    assert Seconds(e) == DayNumber(lo) * SecondsPerDay - 1;
    var midnight := lo.(hour := 0, minute := 0, second := 0);
    assert Seconds(midnight) == DayNumber(lo) * SecondsPerDay;
    ChronologicalOrder(e, lo);
    NextSecondIsOneSecondLater(e);
    SecondsInjective(NextSecond(e), midnight);
  }

  /** Equal seconds counts with in-day remainders fall on the same day. */
  lemma SameDay(d1: int, r1: int, d2: int, r2: int)
    requires 0 <= r1 < SecondsPerDay && 0 <= r2 < SecondsPerDay
    requires d1 * SecondsPerDay + r1 == d2 * SecondsPerDay + r2
    ensures d1 == d2
  {
  }

  /**
   `parse_time_range` accepts `1M`, but `get_time_ranges` takes its tag `M`
   as it is: from a midnight cursor the loop emits a window ending a second
   before it and, whatever later `latest` clamps that end, returns the cursor
   to the same instant, so the loop never ends.
   */
  lemma UppercaseMonthNeverAdvances(latest: DateTime)
    requires ValidDateTime(latest) && Before(DateTime(2024, 1, 1, 0, 0, 0), latest)
    ensures ParseTimeRange("1M") == Success("1M")
    ensures UnitTag("1M") == 'M' && Count("1M") == 1
    ensures NextSecond(WindowEnd('M', 1, DateTime(2024, 1, 1, 0, 0, 0))) == DateTime(2024, 1, 1, 0, 0, 0)
    ensures WindowEnd('M', 1, DateTime(2024, 1, 1, 0, 0, 0)) == DateTime(2023, 12, 31, 23, 59, 59)
    ensures NextSecond(Clamp(WindowEnd('M', 1, DateTime(2024, 1, 1, 0, 0, 0)), latest)) == DateTime(2024, 1, 1, 0, 0, 0)
  {
  }

  // ---------------------------------------------------------------------
  // Examples
  // ---------------------------------------------------------------------

  /** Month ends follow the real month lengths; year windows end on Dec 31. */
  lemma CalendarExamples()
    ensures WindowEnd('m', 1, DateTime(2024, 1, 1, 0, 0, 0)) == DateTime(2024, 1, 31, 23, 59, 59)
    ensures WindowEnd('m', 1, DateTime(2024, 2, 1, 0, 0, 0)) == DateTime(2024, 2, 29, 23, 59, 59)
    ensures WindowEnd('m', 1, DateTime(2023, 2, 1, 0, 0, 0)) == DateTime(2023, 2, 28, 23, 59, 59)
    ensures WindowEnd('m', 3, DateTime(2024, 11, 5, 12, 0, 0)) == DateTime(2025, 1, 31, 23, 59, 59)
    ensures WindowEnd('y', 1, DateTime(2020, 3, 15, 0, 0, 0)) == DateTime(2020, 12, 31, 23, 59, 59)
    ensures WindowEnd('d', 2, DateTime(2024, 2, 28, 0, 0, 0)) == DateTime(2024, 2, 29, 23, 59, 59)
  {
    MonthWindowEnd(1, DateTime(2024, 1, 1, 0, 0, 0));
    MonthWindowEnd(1, DateTime(2024, 2, 1, 0, 0, 0));
    MonthWindowEnd(1, DateTime(2023, 2, 1, 0, 0, 0));
    MonthWindowEnd(3, DateTime(2024, 11, 5, 12, 0, 0));
    YearWindowEnd(1, DateTime(2020, 3, 15, 0, 0, 0));
  }

  /** A single window that starts at `earliest` and closes the range is a partition. */
  lemma OneWindowPartition(w: Window, unit: char, num: nat, earliest: DateTime, latest: DateTime)
    requires w.tag == unit && w.lo == earliest && Before(earliest, latest)
    requires ValidDateTime(w.lo) && ValidDateTime(w.hi)
    requires !Before(w.hi, w.lo) && !Before(latest, w.hi)
    requires w.hi == Clamp(WindowEnd(unit, num, earliest), latest)
    requires w.hi == latest || NextSecond(w.hi) == latest
    ensures IsPartition([w], unit, num, earliest, latest)
  {
  }

  /** A range inside one month gives one window, clamped to `latest`. */
  lemma SingleWindowExample(ws: seq<Window>)
    requires IsPartition(ws, 'm', 1, DateTime(2024, 1, 1, 0, 0, 0), DateTime(2024, 1, 10, 0, 0, 0))
    ensures ws == [Window('m', DateTime(2024, 1, 1, 0, 0, 0), DateTime(2024, 1, 10, 0, 0, 0))]
  {
    var e, l := DateTime(2024, 1, 1, 0, 0, 0), DateTime(2024, 1, 10, 0, 0, 0);
    MonthWindowEnd(1, e);
    OneWindowPartition(Window('m', e, l), 'm', 1, e, l);
    PartitionUnique(ws, [Window('m', e, l)], 'm', 1, e, l);
  }

  /**
   A range ending on a month boundary: the only window ends one second
   before `latest`, and the loop stops without a clamped window.
   */
  lemma EndsOneSecondEarlyExample(ws: seq<Window>)
    requires IsPartition(ws, 'm', 1, DateTime(2024, 1, 1, 0, 0, 0), DateTime(2024, 2, 1, 0, 0, 0))
    ensures ws == [Window('m', DateTime(2024, 1, 1, 0, 0, 0), DateTime(2024, 1, 31, 23, 59, 59))]
  {
    var e, l := DateTime(2024, 1, 1, 0, 0, 0), DateTime(2024, 2, 1, 0, 0, 0);
    var h := DateTime(2024, 1, 31, 23, 59, 59);
    MonthWindowEnd(1, e);
    OneWindowPartition(Window('m', e, h), 'm', 1, e, l);
    PartitionUnique(ws, [Window('m', e, h)], 'm', 1, e, l);
  }
}
