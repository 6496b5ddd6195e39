/**
  Time arithmetic of the program, for one fixed-offset time zone whose days all
  last 86400 seconds. An instant is a whole number of seconds; day 0 starts at
  instant 0, so the calendar date of an instant is `Day(s)` and its wall-clock
  reading is `TimeOfDayOf(s)`. The calendar operations the program calls
  (`date(bySettingHour:minute:second:of:)`, `date(byAdding: .day, ...)` and
  `nextDate(after:matching:matchingPolicy: .nextTime)`) are modelled here.
*/
module Clock {

  const SecondsPerDay: int := 86400

  /** A wall-clock reading with hour and minute; its seconds are zero. */
  datatype TimeOfDay = TimeOfDay(hour: int, minute: int) {

    predicate Valid() {
      0 <= hour < 24 && 0 <= minute < 60
    }

    /** Minutes since midnight; orders the times of one day. */
    function Minutes(): int {
      hour * 60 + minute
    }
  }

  /** The calendar date of instant `s` (floor division: `%` and `/` are Euclidean). */
  function Day(s: int): int {
    s / SecondsPerDay
  }

  /** The hour and minute that a clock in the zone shows at instant `s`. */
  function TimeOfDayOf(s: int): (t: TimeOfDay)
    ensures t.Valid()
  {
    var r := s % SecondsPerDay;
    TimeOfDay(r / 3600, r % 3600 / 60)
  }

  /** The instant at which date `day` shows `t`, with seconds 0. */
  function At(day: int, t: TimeOfDay): int {
    day * SecondsPerDay + t.Minutes() * 60
  }

  /** Quotient and remainder are unique, for the three divisors the clock uses. */
  lemma DivModUnique(s: int, d: int, q: int, r: int)
    requires d == SecondsPerDay || d == 3600 || d == 60
    requires 0 <= r < d && s == q * d + r
    ensures s / d == q && s % d == r
  {
  }

  lemma AtDecomposes(day: int, t: TimeOfDay)
    requires t.Valid()
    ensures Day(At(day, t)) == day
    ensures TimeOfDayOf(At(day, t)) == t
    ensures At(day, t) % 60 == 0
  {
    var s := At(day, t);
    var m := t.Minutes() * 60;
    DivModUnique(s, SecondsPerDay, day, m);
    DivModUnique(m, 3600, t.hour, t.minute * 60);
    DivModUnique(t.minute * 60, 60, t.minute, 0);
    DivModUnique(s, 60, day * 1440 + t.Minutes(), 0);
  }

  /** Every instant is its date at its clock reading plus its leftover seconds. */
  lemma Recompose(s: int)
    ensures s == At(Day(s), TimeOfDayOf(s)) + s % 60
  {
    var r := s % SecondsPerDay;
    var h, rest := r / 3600, r % 3600;
    var m, x := rest / 60, rest % 60;
    assert s == Day(s) * SecondsPerDay + r;
    assert r == h * 3600 + rest;
    assert rest == m * 60 + x;
    DivModUnique(s, 60, Day(s) * 1440 + h * 60 + m, x);
  }

  /** Two instants with the same clock reading and zero seconds are whole days apart. */
  lemma SameReadingWholeDays(x: int, y: int)
    requires x % 60 == 0 && y % 60 == 0
    requires TimeOfDayOf(x) == TimeOfDayOf(y)
    ensures x - y == (Day(x) - Day(y)) * SecondsPerDay
  {
    Recompose(x);
    Recompose(y);
  }

  /**
    `calendar.date(bySettingHour: t.hour, minute: t.minute, second: 0, of: s)`:
    the same date as `s`, showing `t`, with seconds 0.
  */
  function SettingTime(s: int, t: TimeOfDay): (r: int)
    requires t.Valid()
    ensures Day(r) == Day(s) && TimeOfDayOf(r) == t && r % 60 == 0
  {
    AtDecomposes(Day(s), t);
    At(Day(s), t)
  }

  /** `calendar.date(byAdding: .day, value: 1, to: s)`: same clock reading, next date. */
  function AddingDay(s: int): (r: int)
    ensures Day(r) == Day(s) + 1
    ensures TimeOfDayOf(r) == TimeOfDayOf(s) && r % 60 == s % 60
  {
    DivModUnique(s + SecondsPerDay, SecondsPerDay, Day(s) + 1, s % SecondsPerDay);
    DivModUnique(s + SecondsPerDay, 60, s / 60 + 1440, s % 60);
    s + SecondsPerDay
  }

  /**
    `calendar.nextDate(after: now, matching: [hour, minute] of t, matchingPolicy: .nextTime)`:
    the first instant strictly after `now` that shows `t` with seconds 0.
  */
  function NextMatching(now: int, t: TimeOfDay): (r: int)
    requires t.Valid()
    ensures now < r <= now + SecondsPerDay && TimeOfDayOf(r) == t && r % 60 == 0
    ensures forall x :: now < x < r && x % 60 == 0 ==> TimeOfDayOf(x) != t
  {
    var today := SettingTime(now, t);
    var r := if today > now then today else AddingDay(today);
    assert forall x :: now < x < r && x % 60 == 0 ==> TimeOfDayOf(x) != t by {
      forall x | now < x && x % 60 == 0 && TimeOfDayOf(x) == t
        ensures r <= x
      {
        NoEarlierMatch(now, t, x);
      }
    }
    r
  }

  /** An instant after `now` showing `t` is today's `t` if that is after `now`, else a later one. */
  lemma NoEarlierMatch(now: int, t: TimeOfDay, x: int)
    requires t.Valid()
    requires now < x && x % 60 == 0 && TimeOfDayOf(x) == t
    ensures SettingTime(now, t) > now ==> SettingTime(now, t) <= x
    ensures SettingTime(now, t) <= now ==> SettingTime(now, t) + SecondsPerDay <= x
  {
    var today := SettingTime(now, t);
    SameReadingWholeDays(x, today);
    DayBounds(now);
    WholeDaysAfter(now, Day(now), today, x, Day(x) - Day(today));
  }

  /** An instant lies within its own date. */
  lemma DayBounds(s: int)
    ensures Day(s) * SecondsPerDay <= s < Day(s) * SecondsPerDay + SecondsPerDay
  {
  }

  /**
    The arithmetic behind `NoEarlierMatch`: `today` lies on date `d`, `now` too,
    and `x` is `k` whole days from `today` and after `now`.
  */
  lemma WholeDaysAfter(now: int, d: int, today: int, x: int, k: int)
    requires d * SecondsPerDay <= now < d * SecondsPerDay + SecondsPerDay
    requires d * SecondsPerDay <= today < d * SecondsPerDay + SecondsPerDay
    requires x == today + k * SecondsPerDay && now < x
    ensures today > now ==> today <= x
    ensures today <= now ==> today + SecondsPerDay <= x
  {
    if k == 0 {
      assert x == today;
    } else if k >= 1 {
      assert x >= today + SecondsPerDay;
    }
  }

  /**
    Uniqueness of the next matching instant: an instant after `now` that shows
    `t` and lies less than a day after `now` is the one `NextMatching` finds.
  */
  lemma NextMatchingUnique(now: int, t: TimeOfDay, x: int)
    requires t.Valid()
    requires now < x <= now + SecondsPerDay
    requires TimeOfDayOf(x) == t && x % 60 == 0
    ensures NextMatching(now, t) == x
  {
    var r := NextMatching(now, t);
    SameReadingWholeDays(x, r);
  }
}
