/** Calendar dates as day numbers: day 0 is 1970-01-01, which was a Thursday. */
module Calendar {

  /** Day of the week with Monday = 0 and Sunday = 6, the numbering of
      pandas' `dt.weekday`. Dafny's `%` is Euclidean, so the formula is
      also right for days before 1970. */
  function Weekday(day: int): (w: int)
    ensures 0 <= w < 7
    ensures (day - w) % 7 == 4
  {
    (day + 3) % 7
  }

  /** Saturday or Sunday. */
  predicate IsWeekend(day: int)
  {
    Weekday(day) >= 5
  }

  /** The weekday repeats every seven days. */
  lemma {:induction false} WeekdayPeriodic(day: int, weeks: int)
    ensures Weekday(day + 7 * weeks) == Weekday(day)
  {
    assert day + 7 * weeks + 3 == (day + 3) + 7 * weeks;
  }

  /** Each day's weekday is one more than the previous day's, wrapping Sunday to Monday. */
  lemma NextWeekday(day: int)
    ensures Weekday(day + 1) == if Weekday(day) == 6 then 0 else Weekday(day) + 1
  {
  }

  /** Exactly two days of every run of seven consecutive days are weekend days. */
  lemma {:induction false} TwoWeekendDaysPerWeek(first: int)
    ensures |set d | first <= d < first + 7 && IsWeekend(d)| == 2
  {
    var w := Weekday(first);
    var sat := first + (if w <= 5 then 5 - w else 6);
    var sun := first + (6 - w);
    forall d | first <= d < first + 7
      ensures IsWeekend(d) <==> d == sat || d == sun
    {
      assert Weekday(d) == (w + (d - first)) % 7;
    }
    var s := set d | first <= d < first + 7 && IsWeekend(d);
    assert IsWeekend(sat) && IsWeekend(sun);
    assert s == {sat, sun};
    assert sat != sun;
  }
}
