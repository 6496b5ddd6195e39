/**
  The alert side of `ContentView`: reading the displayed time back, finding the
  next instant that shows it, the future check, and the store of pending
  one-shot alerts with its add and cancel-all operations.
*/
module Alerts {

  import opened Wrappers
  import opened Clock
  import opened TimeFormat
  import opened NextPrayer

  /** A pending alert: its identifier, the hour and minute it fires at, and whether it repeats. */
  datatype Request = Request(id: nat, trigger: TimeOfDay, repeats: bool)

  /**
    What `scheduleNotificationForNextPrayer` decides before it touches the store:
    the text is not a time, the computed instant is not in the future, or an
    alert is due at `at` with trigger components `trigger`.
  */
  datatype Plan = ParseFailed | NotInFuture(at: int) | Scheduled(at: int, trigger: TimeOfDay)

  /** The decision of `scheduleNotificationForNextPrayer` for the displayed text `prayerTime` at `now`. */
  function PlanNotification(now: int, prayerTime: string): (p: Plan)
    ensures p.ParseFailed? <==> Parse(prayerTime).None?
    ensures p.Scheduled? ==> Parse(prayerTime) == Some(p.trigger) && TimeOfDayOf(p.at) == p.trigger
    ensures p.Scheduled? ==> now < p.at <= now + SecondsPerDay && p.at % 60 == 0
    ensures p.Scheduled? ==> forall x :: now < x < p.at && x % 60 == 0 ==> TimeOfDayOf(x) != p.trigger
    ensures !p.NotInFuture?
  {
    match Parse(prayerTime)
    case None => ParseFailed
    case Some(t) =>
      var scheduledTime := NextMatching(now, t);
      if scheduledTime <= now then NotInFuture(scheduledTime)
      else Scheduled(scheduledTime, TimeOfDayOf(scheduledTime))
  }

  /**
    The alert registered for the displayed answer of the resolver is due at
    exactly the instant the resolver found.
  */
  lemma AlertAtResolvedInstant(now: int, pt: PrayerTimes)
    ensures Resolve(now, pt).Some? ==>
      PlanNotification(now, GetNextPrayerInfo(now, pt).time)
        == Scheduled(Resolve(now, pt).value.at, TimeOfDayOf(Resolve(now, pt).value.at))
  {
    if Resolve(now, pt).Some? {
      var r := Resolve(now, pt).value;
      var t := TimeOfDayOf(r.at);
      ParseFormat(t);
      NextMatchingUnique(now, t, r.at);
    }
  }

  /** From 19:00, the displayed text 18:00 schedules an alert for 18:00 on the next day. */
  lemma ExamplePastTimeMovesToNextDay(day: int)
    ensures PlanNotification(At(day, TimeOfDay(19, 0)), "18:00")
      == Scheduled(At(day + 1, TimeOfDay(18, 0)), TimeOfDay(18, 0))
  {
    AtDecomposes(day, TimeOfDay(19, 0));
    AtDecomposes(day + 1, TimeOfDay(18, 0));
    assert Parse("18:00") == Some(TimeOfDay(18, 0));
    NextMatchingUnique(At(day, TimeOfDay(19, 0)), TimeOfDay(18, 0), At(day + 1, TimeOfDay(18, 0)));
  }

  /**
    The notification center's pending requests. `issued` counts identifiers
    handed out so far and stands for `UUID()`: every pending identifier is
    below it, so the next one is new.
  */
  class NotificationCenter {
    var pending: set<Request>
    var issued: nat

    ghost predicate Valid()
      reads this
    {
      forall r :: r in pending ==> r.id < issued
    }

    constructor ()
      ensures Valid() && pending == {}
    {
      pending := {};
      issued := 0;
    }

    /** Registers a request under a fresh identifier; the requests already pending are kept. */
    method Add(trigger: TimeOfDay, repeats: bool) returns (id: nat)
      requires Valid()
      modifies this
      ensures Valid()
      ensures forall r :: r in old(pending) ==> r.id != id
      ensures pending == old(pending) + {Request(id, trigger, repeats)}
    {
      id := issued;
      issued := issued + 1;
      pending := pending + {Request(id, trigger, repeats)};
    }

    /** `removeAllPendingNotificationRequests`. */
    method RemoveAllPendingNotificationRequests()
      requires Valid()
      modifies this`pending
      ensures Valid() && pending == {}
    {
      pending := {};
    }
  }

  /**
    `ContentView`: the `prayerTime` state it shares with the embedded
    `NextPrayerTimeView` through a binding, and the notification center.
  */
  class ContentView {
    const prayerTime: PrayerTimeCell
    const nextPrayerView: NextPrayerTimeView
    const center: NotificationCenter

    ghost predicate Valid()
      reads center
    {
      nextPrayerView.prayerTime == prayerTime && center.Valid()
    }

    /** `center` is the system's shared store; it may already hold requests from earlier sessions. */
    constructor (center: NotificationCenter)
      requires center.Valid()
      ensures Valid() && fresh(prayerTime) && fresh(nextPrayerView) && this.center == center
      ensures prayerTime.text == "Loading..." && nextPrayerView.nextPrayerName == "Loading..."
      ensures center.pending == old(center.pending)
    {
      var cell := new PrayerTimeCell("Loading...");
      prayerTime := cell;
      nextPrayerView := new NextPrayerTimeView(cell);
      this.center := center;
    }

    /**
      `scheduleNotificationForNextPrayer` at instant `now`: on a `Scheduled`
      plan, exactly one non-repeating request is added under a fresh
      identifier, which is returned; otherwise the store is unchanged.
    */
    method ScheduleNotificationForNextPrayer(now: int) returns (plan: Plan, id: Option<nat>)
      requires Valid()
      modifies center
      ensures Valid()
      ensures plan == PlanNotification(now, prayerTime.text)
      ensures id.Some? <==> plan.Scheduled?
      ensures plan.Scheduled? ==>
        (forall r :: r in old(center.pending) ==> r.id != id.value) &&
        center.pending == old(center.pending) + {Request(id.value, plan.trigger, false)}
      ensures !plan.Scheduled? ==> unchanged(center)
    {
      plan := PlanNotification(now, prayerTime.text);
      match plan {
        case Scheduled(_, trigger) =>
          var newId := center.Add(trigger, false);
          id := Some(newId);
        case _ =>
          id := None;
      }
    }

    /** The "Cancel Notifications" button: no alert is pending afterwards. */
    method CancelNotifications()
      requires Valid()
      modifies center`pending
      ensures Valid() && center.pending == {}
    {
      center.RemoveAllPendingNotificationRequests();
    }
  }
}
