/**
  The next-prayer resolver of `NextPrayerTimeView` (`getNextPrayerInfo`) and the
  state update that shows its answer (`updatePrayerTime`).
*/
module NextPrayer {

  import opened Wrappers
  import opened Clock
  import opened TimeFormat

  datatype Prayer = Fajr | Sunrise | Dhuhr | Asr | Maghrib | Isha

  /** The name the program displays for a prayer. */
  function Name(p: Prayer): string {
    match p
    case Fajr => "Fajr"
    case Sunrise => "Sunrise"
    case Dhuhr => "Dhuhr"
    case Asr => "Asr"
    case Maghrib => "Maghrib"
    case Isha => "Isha"
  }

  /** One day's table as the loader supplies it: one `HH:mm` string per prayer. */
  datatype PrayerTimes = PrayerTimes(fajr: string, sunrise: string, dhuhr: string,
                                     asr: string, maghrib: string, isha: string)

  function TimeOf(pt: PrayerTimes, p: Prayer): string {
    match p
    case Fajr => pt.fajr
    case Sunrise => pt.sunrise
    case Dhuhr => pt.dhuhr
    case Asr => pt.asr
    case Maghrib => pt.maghrib
    case Isha => pt.isha
  }

  /** The order in which the resolver visits the table. */
  const Order: seq<Prayer> := [Fajr, Sunrise, Dhuhr, Asr, Maghrib, Isha]

  /** The scan visits every prayer exactly once, starting with Fajr and ending with Isha. */
  lemma OrderVisitsEachPrayerOnce()
    ensures |Order| == 6 && Order[0] == Fajr && Order[|Order| - 1] == Isha
    ensures forall p: Prayer :: p in Order
    ensures forall i, j :: 0 <= i < j < |Order| ==> Order[i] != Order[j]
  {
    forall p: Prayer
      ensures p in Order
    {
      match p
      case Fajr => assert Order[0] == p;
      case Sunrise => assert Order[1] == p;
      case Dhuhr => assert Order[2] == p;
      case Asr => assert Order[3] == p;
      case Maghrib => assert Order[4] == p;
      case Isha => assert Order[5] == p;
    }
  }

  /** The `(name, time)` pair the resolver returns. */
  datatype Info = Info(name: string, time: string)

  /** A resolved prayer: which one, and the instant it is due. */
  datatype Resolved = Resolved(prayer: Prayer, at: int)

  /**
    `timeToComponents` followed by `createDate`: the instant on `now`'s date at
    the hour and minute that `time` reads as, seconds 0; None when `time` does
    not read as a time.
  */
  function Candidate(now: int, time: string): (r: Option<int>)
    ensures r.Some? <==> Parse(time).Some?
    ensures r.Some? ==> Day(r.value) == Day(now) && r.value % 60 == 0
    ensures r.Some? ==> TimeOfDayOf(r.value) == Parse(time).value
  {
    match Parse(time)
    case None => None
    case Some(t) => Some(SettingTime(now, t))
  }

  /** The test of the scan: the entry reads as a time and that instant is strictly after `now`. */
  predicate Upcoming(now: int, time: string) {
    var c := Candidate(now, time);
    c.Some? && c.value > now
  }

  /**
    The scan over `ps` in order: the index of the first entry that is upcoming,
    or `|ps|` when none is. Entries that do not read as a time, and entries due
    at or before `now`, are passed over.
  */
  function FirstUpcoming(now: int, pt: PrayerTimes, ps: seq<Prayer>): (k: nat)
    ensures k <= |ps|
    ensures k < |ps| ==> Upcoming(now, TimeOf(pt, ps[k]))
    ensures forall j :: 0 <= j < k ==> !Upcoming(now, TimeOf(pt, ps[j]))
  {
    if ps == [] then 0
    else if Upcoming(now, TimeOf(pt, ps[0])) then 0
    else 1 + FirstUpcoming(now, pt, ps[1..])
  }

  /**
    `getNextPrayerInfo` on instants: the first upcoming entry of the table in
    order, else Fajr of the next day, else nothing when Fajr does not read as a
    time.
  */
  function Resolve(now: int, pt: PrayerTimes): (r: Option<Resolved>)
    ensures r.None? <==> Parse(pt.fajr).None? && forall i :: 0 <= i < |Order| ==> !Upcoming(now, TimeOf(pt, Order[i]))
    ensures r.Some? ==> now < r.value.at <= now + SecondsPerDay
    ensures r.Some? ==> r.value.at % 60 == 0 && Parse(TimeOf(pt, r.value.prayer)) == Some(TimeOfDayOf(r.value.at))
  {
    var k := FirstUpcoming(now, pt, Order);
    if k < |Order| then
      Some(Resolved(Order[k], Candidate(now, TimeOf(pt, Order[k])).value))
    else
      match Candidate(now, pt.fajr)
      case Some(fajrDate) =>
        assert !Upcoming(now, TimeOf(pt, Order[0]));
        Some(Resolved(Fajr, AddingDay(fajrDate)))
      case None => None
  }

  /** `getNextPrayerInfo`: the resolved prayer's name and its `HH:mm` rendering. */
  function GetNextPrayerInfo(now: int, pt: PrayerTimes): (info: Info)
    ensures info.name == "Error" <==> Resolve(now, pt).None?
    ensures info.time == "Error" <==> Resolve(now, pt).None?
    ensures Resolve(now, pt).Some? ==>
      var p := Resolve(now, pt).value.prayer;
      info == Info(Name(p), TimeOf(pt, p))
  {
    match Resolve(now, pt)
    case Some(r) => Info(Name(r.prayer), Format(TimeOfDayOf(r.at)))
    case None => Info("Error", "Error")
  }

  /**
    The scan returns the first upcoming entry, and the time shown is the
    table's own string for it.
  */
  lemma ScanReturnsFirst(now: int, pt: PrayerTimes, i: nat)
    requires i < |Order| && Upcoming(now, TimeOf(pt, Order[i]))
    requires forall j :: 0 <= j < i ==> !Upcoming(now, TimeOf(pt, Order[j]))
    ensures Resolve(now, pt) == Some(Resolved(Order[i], Candidate(now, TimeOf(pt, Order[i])).value))
    ensures GetNextPrayerInfo(now, pt) == Info(Name(Order[i]), TimeOf(pt, Order[i]))
  {
    assert FirstUpcoming(now, pt, Order) == i;
  }

  /** Tie-break: an entry due exactly at `now` is passed over and the scan moves on. */
  lemma TieMovesOn(now: int, pt: PrayerTimes, i: nat)
    requires i + 1 < |Order|
    requires forall j :: 0 <= j < i ==> !Upcoming(now, TimeOf(pt, Order[j]))
    requires Candidate(now, TimeOf(pt, Order[i])) == Some(now)
    requires Upcoming(now, TimeOf(pt, Order[i + 1]))
    ensures GetNextPrayerInfo(now, pt) == Info(Name(Order[i + 1]), TimeOf(pt, Order[i + 1]))
  {
    ScanReturnsFirst(now, pt, i + 1);
  }

  /** An entry that does not read as a time is skipped and later entries are still examined. */
  lemma UnreadableSkipped(now: int, pt: PrayerTimes, i: nat)
    requires i + 1 < |Order|
    requires forall j :: 0 <= j < i ==> !Upcoming(now, TimeOf(pt, Order[j]))
    requires Parse(TimeOf(pt, Order[i])) == None
    requires Upcoming(now, TimeOf(pt, Order[i + 1]))
    ensures GetNextPrayerInfo(now, pt) == Info(Name(Order[i + 1]), TimeOf(pt, Order[i + 1]))
  {
    ScanReturnsFirst(now, pt, i + 1);
  }

  /** Before today's Fajr, the answer is today's Fajr at its exact instant. */
  lemma BeforeFajr(now: int, pt: PrayerTimes)
    requires Candidate(now, pt.fajr).Some? && now < Candidate(now, pt.fajr).value
    ensures Resolve(now, pt) == Some(Resolved(Fajr, Candidate(now, pt.fajr).value))
    ensures GetNextPrayerInfo(now, pt) == Info("Fajr", pt.fajr)
  {
    ScanReturnsFirst(now, pt, 0);
  }

  /**
    When no entry is upcoming and Fajr reads as a time, the answer is Fajr,
    exactly one day after today's Fajr instant, shown as the table's Fajr string.
  */
  lemma FallbackToNextDayFajr(now: int, pt: PrayerTimes)
    requires forall i :: 0 <= i < |Order| ==> !Upcoming(now, TimeOf(pt, Order[i]))
    requires Parse(pt.fajr).Some?
    ensures Resolve(now, pt) == Some(Resolved(Fajr, Candidate(now, pt.fajr).value + SecondsPerDay))
    ensures Day(Resolve(now, pt).value.at) == Day(now) + 1
    ensures GetNextPrayerInfo(now, pt) == Info("Fajr", pt.fajr)
  {
    assert FirstUpcoming(now, pt, Order) == |Order|;
  }

  /** When no entry is upcoming and Fajr does not read as a time, both fields are "Error". */
  lemma ErrorWhenFajrUnreadable(now: int, pt: PrayerTimes)
    requires forall i :: 0 <= i < |Order| ==> !Upcoming(now, TimeOf(pt, Order[i]))
    requires Parse(pt.fajr) == None
    ensures GetNextPrayerInfo(now, pt) == Info("Error", "Error")
  {
  }

  /** Every entry of the table reads as a time. */
  predicate WellFormed(pt: PrayerTimes) {
    forall i :: 0 <= i < |Order| ==> Parse(TimeOf(pt, Order[i])).Some?
  }

  /** The table's times do not decrease in the order the scan visits them. */
  predicate NonDecreasing(pt: PrayerTimes)
    requires WellFormed(pt)
  {
    forall i, j :: 0 <= i <= j < |Order| ==>
      Parse(TimeOf(pt, Order[i])).value.Minutes() <= Parse(TimeOf(pt, Order[j])).value.Minutes()
  }

  /**
    The scan returns the first upcoming entry in list order, not the earliest.
    On a well-formed, non-decreasing table the two agree: no upcoming entry is
    due before the answer.
  */
  lemma EarliestUpcoming(now: int, pt: PrayerTimes)
    requires WellFormed(pt) && NonDecreasing(pt)
    ensures Resolve(now, pt).Some?
    ensures forall i :: 0 <= i < |Order| && Upcoming(now, TimeOf(pt, Order[i])) ==>
      Resolve(now, pt).value.at <= Candidate(now, TimeOf(pt, Order[i])).value
  {
    var k := FirstUpcoming(now, pt, Order);
    assert Parse(TimeOf(pt, Order[0])).Some?;
    forall i | 0 <= i < |Order| && Upcoming(now, TimeOf(pt, Order[i]))
      ensures Resolve(now, pt).value.at <= Candidate(now, TimeOf(pt, Order[i])).value
    {
      assert k <= i;
      assert Parse(TimeOf(pt, Order[k])).Some?;
    }
  }

  /**
    On a well-formed, non-decreasing table the answer lies on the next day
    exactly when `now` is at or past today's Isha instant.
  */
  lemma NextDayIffPastIsha(now: int, pt: PrayerTimes)
    requires WellFormed(pt) && NonDecreasing(pt)
    ensures Resolve(now, pt).Some? && Candidate(now, pt.isha).Some?
    ensures Day(Resolve(now, pt).value.at) == Day(now) + 1 <==> now >= Candidate(now, pt.isha).value
    ensures now >= Candidate(now, pt.isha).value ==>
      Resolve(now, pt) == Some(Resolved(Fajr, Candidate(now, pt.fajr).value + SecondsPerDay))
  {
    assert Parse(TimeOf(pt, Order[0])).Some? && Parse(TimeOf(pt, Order[5])).Some?;
    var isha := Candidate(now, pt.isha).value;
    if now >= isha {
      forall i | 0 <= i < |Order|
        ensures !Upcoming(now, TimeOf(pt, Order[i]))
      {
        assert Parse(TimeOf(pt, Order[i])).Some?;
      }
      FallbackToNextDayFajr(now, pt);
    } else {
      assert Upcoming(now, TimeOf(pt, Order[5]));
      assert FirstUpcoming(now, pt, Order) < |Order|;
    }
  }

  /**
    The answer stays the same while time advances within the day and the
    resolved instant has not been reached.
  */
  lemma StableUntilDue(now1: int, now2: int, pt: PrayerTimes)
    requires Day(now1) == Day(now2) && now1 <= now2
    requires Resolve(now1, pt).Some? && now2 < Resolve(now1, pt).value.at
    ensures Resolve(now2, pt) == Resolve(now1, pt)
  {
    forall s: string
      ensures Candidate(now1, s) == Candidate(now2, s)
    {
    }
    var k1 := FirstUpcoming(now1, pt, Order);
    var k2 := FirstUpcoming(now2, pt, Order);
    forall j | 0 <= j < k1
      ensures !Upcoming(now2, TimeOf(pt, Order[j]))
    {
      assert !Upcoming(now1, TimeOf(pt, Order[j]));
    }
    if k1 < |Order| {
      assert Upcoming(now2, TimeOf(pt, Order[k1]));
    }
    assert k2 == k1;
  }

  /** A table with 04:30, 05:50, 12:00, 15:15, 18:00 and 19:15. */
  const Example: PrayerTimes := PrayerTimes("04:30", "05:50", "12:00", "15:15", "18:00", "19:15")

  /** At 17:00 the next prayer is Maghrib at 18:00. */
  lemma ExampleAfternoon(day: int)
    ensures Resolve(At(day, TimeOfDay(17, 0)), Example) == Some(Resolved(Maghrib, At(day, TimeOfDay(18, 0))))
    ensures GetNextPrayerInfo(At(day, TimeOfDay(17, 0)), Example) == Info("Maghrib", "18:00")
  {
    var now := At(day, TimeOfDay(17, 0));
    AtDecomposes(day, TimeOfDay(17, 0));
    assert Parse("04:30") == Some(TimeOfDay(4, 30));
    assert Parse("05:50") == Some(TimeOfDay(5, 50));
    assert Parse("12:00") == Some(TimeOfDay(12, 0));
    assert Parse("15:15") == Some(TimeOfDay(15, 15));
    assert Parse("18:00") == Some(TimeOfDay(18, 0));
    ScanReturnsFirst(now, Example, 4);
  }

  /** Exactly at Isha (19:15) the next prayer is Fajr of the next day at 04:30. */
  lemma ExampleAtIsha(day: int)
    ensures Resolve(At(day, TimeOfDay(19, 15)), Example) == Some(Resolved(Fajr, At(day + 1, TimeOfDay(4, 30))))
    ensures GetNextPrayerInfo(At(day, TimeOfDay(19, 15)), Example) == Info("Fajr", "04:30")
  {
    ExampleNight(day, TimeOfDay(19, 15));
  }

  /** At 23:59 the next prayer is Fajr of the next day at 04:30. */
  lemma ExampleLateNight(day: int)
    ensures Resolve(At(day, TimeOfDay(23, 59)), Example) == Some(Resolved(Fajr, At(day + 1, TimeOfDay(4, 30))))
    ensures GetNextPrayerInfo(At(day, TimeOfDay(23, 59)), Example) == Info("Fajr", "04:30")
  {
    ExampleNight(day, TimeOfDay(23, 59));
  }

  /** From Isha to midnight the example table resolves to the next day's Fajr. */
  lemma ExampleNight(day: int, t: TimeOfDay)
    requires t.Valid() && TimeOfDay(19, 15).Minutes() <= t.Minutes()
    ensures Resolve(At(day, t), Example) == Some(Resolved(Fajr, At(day + 1, TimeOfDay(4, 30))))
    ensures GetNextPrayerInfo(At(day, t), Example) == Info("Fajr", "04:30")
  {
    var now := At(day, t);
    AtDecomposes(day, t);
    assert Parse("04:30") == Some(TimeOfDay(4, 30));
    assert Parse("05:50") == Some(TimeOfDay(5, 50));
    assert Parse("12:00") == Some(TimeOfDay(12, 0));
    assert Parse("15:15") == Some(TimeOfDay(15, 15));
    assert Parse("18:00") == Some(TimeOfDay(18, 0));
    assert Parse("19:15") == Some(TimeOfDay(19, 15));
    forall i | 0 <= i < |Order|
      ensures !Upcoming(now, TimeOf(Example, Order[i]))
    {
      var c := Candidate(now, TimeOf(Example, Order[i]));
      assert c.Some? && c.value <= At(day, TimeOfDay(19, 15));
    }
    assert Candidate(now, "04:30") == Some(At(day, TimeOfDay(4, 30)));
    FallbackToNextDayFajr(now, Example);
  }

  /** The displayed prayer time: storage owned by the enclosing view and shared through a binding. */
  class PrayerTimeCell {
    var text: string

    constructor (text: string)
      ensures this.text == text
    {
      this.text := text;
    }
  }

  /**
    The view's state: the bound `prayerTime` text and its own `nextPrayerName`.
    The location manager and the table loader are inputs of `UpdatePrayerTime`.
  */
  class NextPrayerTimeView {
    const prayerTime: PrayerTimeCell
    var nextPrayerName: string

    constructor (prayerTime: PrayerTimeCell)
      ensures this.prayerTime == prayerTime && nextPrayerName == "Loading..."
    {
      this.prayerTime := prayerTime;
      nextPrayerName := "Loading...";
    }

    /**
      `updatePrayerTime` at instant `now`. `locationAvailable` says whether the
      location manager has a location; `loaded` is what `loadPrayerTimes`
      returned for today and the manager's province and city.
    */
    method UpdatePrayerTime(now: int, locationAvailable: bool, loaded: Option<PrayerTimes>)
      modifies this`nextPrayerName, prayerTime`text
      ensures !locationAvailable ==>
        prayerTime.text == old(prayerTime.text) && nextPrayerName == old(nextPrayerName)
      ensures locationAvailable && loaded.None? ==>
        prayerTime.text == "Error loading prayer times" && nextPrayerName == "Error"
      ensures locationAvailable && loaded.Some? ==>
        prayerTime.text == GetNextPrayerInfo(now, loaded.value).time &&
        nextPrayerName == GetNextPrayerInfo(now, loaded.value).name
    {
      if !locationAvailable {
        return;
      }
      match loaded {
        case Some(prayerTimes) =>
          var nextPrayerInfo := GetNextPrayerInfo(now, prayerTimes);
          prayerTime.text := nextPrayerInfo.time;
          nextPrayerName := nextPrayerInfo.name;
        case None =>
          prayerTime.text := "Error loading prayer times";
          nextPrayerName := "Error";
      }
    }
  }
}
