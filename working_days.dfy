/** The working-day counter of the leave controller (`calculateDays`).
    Calendar dates are day numbers: day 0 is 1970-01-01, a Thursday, and
    weekdays are numbered as JavaScript's Date.getDay numbers them
    (0 = Sunday, ..., 6 = Saturday). */
module WorkingDays {

  function Weekday(d: int): (w: int)
    ensures 0 <= w < 7
  {
    (d + 4) % 7
  }

  predicate IsWorkingDay(d: int) {
    Weekday(d) != 0 && Weekday(d) != 6
  }

  /** The number of working days in the inclusive range [start, end]. */
  function Count(start: int, end: int): (n: nat)
    ensures n <= if start <= end then end - start + 1 else 0
    decreases end - start
  {
    if start > end then 0
    else Count(start, end - 1) + (if IsWorkingDay(end) then 1 else 0)
  }

  /** The working days of the inclusive range [start, end]. */
  ghost function WorkingSet(start: int, end: int): set<int> {
    set d | start <= d <= end && IsWorkingDay(d)
  }

  /** Reference definition: the counter is the size of the set of working
      days in the range. */
  lemma {:induction false} CountIsCardinality(start: int, end: int)
    ensures Count(start, end) == |WorkingSet(start, end)|
    decreases end - start
  {
    if start > end {
      assert WorkingSet(start, end) == {};
    } else {
      CountIsCardinality(start, end - 1);
      var before := WorkingSet(start, end - 1);
      var extra: set<int> := if IsWorkingDay(end) then {end} else {};
      assert WorkingSet(start, end) == before + extra by {
        forall d ensures d in WorkingSet(start, end) <==> d in before + extra {
        }
      }
      assert before !! extra;
    }
  }

  /** The counter is zero exactly when no day of the range is a working day:
      an empty range, or one of Saturdays and Sundays only. */
  lemma {:induction false} CountZeroIffWeekend(start: int, end: int)
    ensures Count(start, end) == 0 <==> forall d :: start <= d <= end ==> !IsWorkingDay(d)
    decreases end - start
  {
    if start <= end {
      CountZeroIffWeekend(start, end - 1);
    }
  }

  /** A Saturday-Sunday range has no working days. */
  lemma WeekendHasNoWorkingDays(saturday: int)
    requires Weekday(saturday) == 6
    ensures Count(saturday, saturday + 1) == 0
  {
    assert Weekday(saturday + 1) == 0;
  }

  /** Monday 1970-01-05 to Wednesday 1970-01-07: three working days. */
  lemma MondayToWednesday()
    ensures Count(4, 6) == 3
  {
    assert Count(4, 4) == 1;
    assert Count(4, 5) == 2;
  }

  /** Splitting the range after any day `mid` splits the count: the days
      up to `mid` and the days after it are counted separately. */
  lemma {:induction false} CountSplit(start: int, mid: int, end: int)
    requires start <= mid + 1 && mid <= end
    ensures Count(start, end) == Count(start, mid) + Count(mid + 1, end)
    decreases end - mid
  {
    if end > mid {
      CountSplit(start, mid, end - 1);
    }
  }

  /** Moving `k` days on moves the weekday `k` places round the week. */
  lemma WeekdayShift(d: int, k: int)
    requires 0 <= k < 7
    ensures Weekday(d + k) == (Weekday(d) + k) % 7
  {
    var q := (d + 4) / 7;
    assert d + 4 == 7 * q + Weekday(d);
    assert d + k + 4 == 7 * q + (Weekday(d) + k);
  }

  /** Every seven consecutive days hold exactly five working days. */
  lemma FullWeek(start: int)
    ensures Count(start, start + 6) == 5
  {
    WeekdayShift(start, 1); WeekdayShift(start, 2); WeekdayShift(start, 3);
    WeekdayShift(start, 4); WeekdayShift(start, 5); WeekdayShift(start, 6);
    // the seven days are a rotation of Sunday..Saturday, five of them working days
    var c := seq(7, k requires 0 <= k < 7 => if IsWorkingDay(start + k) then 1 else 0);
    assert Count(start, start + 6) == c[0] + c[1] + c[2] + c[3] + c[4] + c[5] + c[6] by {
      assert Count(start, start - 1) == 0;
      assert Count(start, start) == c[0];
      assert Count(start, start + 1) == c[0] + c[1];
      assert Count(start, start + 2) == c[0] + c[1] + c[2];
      assert Count(start, start + 3) == c[0] + c[1] + c[2] + c[3];
      assert Count(start, start + 4) == c[0] + c[1] + c[2] + c[3] + c[4];
      assert Count(start, start + 5) == c[0] + c[1] + c[2] + c[3] + c[4] + c[5];
    }
    var w := Weekday(start);
    assert c[0] == (if w % 7 != 0 && w % 7 != 6 then 1 else 0);
    assert c[1] == (if (w + 1) % 7 != 0 && (w + 1) % 7 != 6 then 1 else 0);
    assert c[2] == (if (w + 2) % 7 != 0 && (w + 2) % 7 != 6 then 1 else 0);
    assert c[3] == (if (w + 3) % 7 != 0 && (w + 3) % 7 != 6 then 1 else 0);
    assert c[4] == (if (w + 4) % 7 != 0 && (w + 4) % 7 != 6 then 1 else 0);
    assert c[5] == (if (w + 5) % 7 != 0 && (w + 5) % 7 != 6 then 1 else 0);
    assert c[6] == (if (w + 6) % 7 != 0 && (w + 6) % 7 != 6 then 1 else 0);
    assert w == 0 || w == 1 || w == 2 || w == 3 || w == 4 || w == 5 || w == 6;
  }

  /** The counting loop of `calculateDays`: walks the range one day at a
      time and counts the days that fall on Monday to Friday. */
  method CalculateDays(start: int, end: int) returns (count: nat)
    ensures count == Count(start, end)
  {
    count := 0;
    var current := start;
    while current <= end
      invariant start <= current <= end + 1 || (current == start && start > end)
      invariant count == Count(start, current - 1)
      decreases end - current
    {
      var day := Weekday(current);
      if day != 0 && day != 6 {
        count := count + 1;
      }
      current := current + 1;
    }
  }
}
