# Next prayer time and its one-shot alert

This project models the two pieces of logic in the prayer-time app. Both are in Dafny.

- **The next-prayer resolver** (`getNextPrayerInfo` in `NextPrayerTimeView`). It takes an instant
  "now" and a day's table of six `HH:mm` strings: Fajr, Sunrise, Dhuhr, Asr, Maghrib and Isha.
  It reads each string as a time and places it on now's date with seconds 0.
  It returns the first entry, in table order, whose instant is strictly after now.
  If there is none, it returns Fajr of the next day, or `("Error", "Error")` when Fajr cannot be read.
  `updatePrayerTime` shows that answer in two fields: the bound `prayerTime` text and `nextPrayerName`.
- **The alert decision** (`scheduleNotificationForNextPrayer` in `ContentView`). It reads the
  displayed `prayerTime` text back as a time and finds the next instant after now that shows
  that hour and minute. It refuses an instant that is not in the future. Otherwise it registers
  one non-repeating request, under a new identifier, with the notification center.
  The "Cancel Notifications" button removes every pending request.

Time is modelled as whole seconds in one fixed-offset zone, and every day lasts 86400 seconds.
`Day(s) = s / 86400` gives the date. `TimeOfDayOf(s)` gives the hour and minute a clock shows.
The `HH:mm` reading is strict: two digits, `:`, two digits, an hour below 24 and a minute below 60.
The rendering is zero-padded. So a string reads as time `t` exactly when it is `t`'s rendering
(`TimeFormat.ParseIsFormatInverse`).

Files, one module each:
- `wrappers.dfy`: `Option`.
- `clock.dfy`: `Clock`, the calendar operations the program calls.
- `time_format.dfy`: `TimeFormat`, reading and rendering `HH:mm`.
- `next_prayer.dfy`: `NextPrayer`, the resolver, and the `NextPrayerTimeView` class with
  `UpdatePrayerTime`.
- `alerts.dfy`: `Alerts`, the alert decision, the `NotificationCenter` store and the `ContentView` class.

The resolver is split into three layers:
- `FirstUpcoming` is the scan. It returns the index of the first upcoming entry.
- `Resolve` gives the answer as a prayer and an instant, including the next-day fallback.
- `GetNextPrayerInfo` gives the `(name, time)` strings the program returns.

The `@Binding` between the two views is a `PrayerTimeCell` object. `ContentView` and its
embedded `NextPrayerTimeView` hold the same cell, so the text that `UpdatePrayerTime` writes is
the text that `ScheduleNotificationForNextPrayer` reads.

Two behaviours of the code are worth stating:
- The guard at `ContentView.swift:50-53` never fires. The calendar is asked for the next
  matching time after now, so from 19:00 the text 18:00 is scheduled for 18:00 the next day
  (`Alerts.ExamplePastTimeMovesToNextDay`). `Alerts.PlanNotification` states that the guard
  never rejects.
- The code neither checks nor relies on the table being non-decreasing, and it returns the
  first upcoming entry in list order. The model states results for any table. The
  earliest-prayer results are proved only for well-formed, non-decreasing tables
  (`NextPrayer.EarliestUpcoming`, `NextPrayer.NextDayIffPastIsha`).

The resolver is a Dafny function, so equal inputs give equal outputs by construction. No
separate lemma states that.

## Model

| member | source | states |
|---|---|---|
| `Clock.SettingTime` | ClockInNoRepeat/NextPrayerTimeView.swift:66-68 | the created instant is on the same date as now, shows the given hour and minute, and has seconds 0 |
| `Clock.AddingDay` | ClockInNoRepeat/NextPrayerTimeView.swift:87 | adding a day moves to the next date and keeps the hour, minute and seconds |
| `Clock.NextMatching` | ClockInNoRepeat/ContentView.swift:43-45 | the next matching date is strictly after now and at most a day later; it shows the requested hour and minute with seconds 0, and no earlier instant after now does |
| `Clock.NextMatchingUnique` | ClockInNoRepeat/ContentView.swift:43-45 | any instant in the next day that shows the requested hour and minute with seconds 0 is the next matching date |
| `Clock.TimeOfDayOf` | ClockInNoRepeat/NextPrayerTimeView.swift:63 | the hour and minute read off an instant form a valid time of day |
| `TimeFormat.Format` | ClockInNoRepeat/NextPrayerTimeView.swift:81 | the rendering is five characters with a colon in the middle; with `ParseFormat` it reads back as the same time |
| `NextPrayer.OrderVisitsEachPrayerOnce` | ClockInNoRepeat/NextPrayerTimeView.swift:70-77 | the scanned list holds six entries, each prayer exactly once, from Fajr to Isha |
| `TimeFormat.Parse` | ClockInNoRepeat/NextPrayerTimeView.swift:58-63 | a string that reads as a time reads as a valid hour and minute, and it is that time's `HH:mm` rendering |
| `TimeFormat.ParseFormat` | ClockInNoRepeat/NextPrayerTimeView.swift:81 | reading the `HH:mm` rendering of a time gives the time back |
| `TimeFormat.ParseIsFormatInverse` | ClockInNoRepeat/NextPrayerTimeView.swift:58-63 | a string reads as `t` if and only if `t` is valid and the string is `t`'s rendering |
| `TimeFormat.PlaceholdersDoNotParse` | ClockInNoRepeat/ContentView.swift:36-39 | "Loading...", "Error" and "Error loading prayer times" do not read as times |
| `NextPrayer.Candidate` | ClockInNoRepeat/NextPrayerTimeView.swift:61-68 | an entry gives an instant exactly when its string reads as a time; that instant is on now's date, shows the string's hour and minute, and has seconds 0 |
| `NextPrayer.FirstUpcoming` | ClockInNoRepeat/NextPrayerTimeView.swift:79-83 | the scan stops at an entry that reads as a time strictly after now, and every entry before it is unreadable or not after now |
| `NextPrayer.Resolve` | ClockInNoRepeat/NextPrayerTimeView.swift:79-92 | there is no answer exactly when Fajr is unreadable and no entry is upcoming; any answer is strictly after now and within a day, and shows the chosen entry's hour and minute with seconds 0 |
| `NextPrayer.GetNextPrayerInfo` | ClockInNoRepeat/NextPrayerTimeView.swift:56-93 | the name, and also the time, is "Error" exactly when there is no answer; otherwise the result is the chosen prayer's name and its table string |
| `NextPrayer.ScanReturnsFirst` | ClockInNoRepeat/NextPrayerTimeView.swift:79-82 | when entry i is upcoming and no earlier entry is, entry i is returned, at its same-day instant and as its table string |
| `NextPrayer.TieMovesOn` | ClockInNoRepeat/NextPrayerTimeView.swift:80 | an entry due exactly now is not returned, and the next upcoming entry is |
| `NextPrayer.UnreadableSkipped` | ClockInNoRepeat/NextPrayerTimeView.swift:61-64 | an entry that does not read as a time is skipped, and the following upcoming entry is returned |
| `NextPrayer.BeforeFajr` | ClockInNoRepeat/NextPrayerTimeView.swift:79-82 | before today's Fajr instant, the answer is Fajr at that instant |
| `NextPrayer.FallbackToNextDayFajr` | ClockInNoRepeat/NextPrayerTimeView.swift:85-89 | when nothing is upcoming and Fajr reads as a time, the answer is Fajr exactly one day after today's Fajr instant, on the next date, shown as the Fajr string |
| `NextPrayer.ErrorWhenFajrUnreadable` | ClockInNoRepeat/NextPrayerTimeView.swift:92 | when nothing is upcoming and Fajr does not read as a time, the result is ("Error", "Error") |
| `NextPrayer.EarliestUpcoming` | ClockInNoRepeat/NextPrayerTimeView.swift:79-89 | on a well-formed non-decreasing table there is always an answer, and no upcoming entry is due before it |
| `NextPrayer.NextDayIffPastIsha` | ClockInNoRepeat/NextPrayerTimeView.swift:85-89 | on a well-formed non-decreasing table the answer is on the next date if and only if now is at or after today's Isha instant, and from Isha on it is Fajr at today's Fajr instant plus one day |
| `NextPrayer.StableUntilDue` | ClockInNoRepeat/NextPrayerTimeView.swift:79-83 | later on the same date, and before the answer's instant, the answer is unchanged |
| `NextPrayer.ExampleAfternoon` | ClockInNoRepeat/NextPrayerTimeView.swift:56-93 | with the table 04:30, 05:50, 12:00, 15:15, 18:00, 19:15 at 17:00, the answer is ("Maghrib", "18:00") at 18:00 the same day |
| `NextPrayer.ExampleAtIsha` | ClockInNoRepeat/NextPrayerTimeView.swift:80 | with the same table, exactly at 19:15, the answer is ("Fajr", "04:30") at 04:30 the next day |
| `NextPrayer.ExampleLateNight` | ClockInNoRepeat/NextPrayerTimeView.swift:85-89 | with the same table at 23:59, the answer is ("Fajr", "04:30") at 04:30 the next day |
| `NextPrayer.ExampleNight` | ClockInNoRepeat/NextPrayerTimeView.swift:85-89 | with the same table, at any time from 19:15 to midnight, the answer is Fajr at 04:30 the next day |
| `NextPrayer.NextPrayerTimeView.constructor` | ClockInNoRepeat/NextPrayerTimeView.swift:5-6 | the view is bound to the given prayer-time storage and starts with the name "Loading..." |
| `NextPrayer.NextPrayerTimeView.UpdatePrayerTime` | ClockInNoRepeat/NextPrayerTimeView.swift:40-54 | with no location both fields are unchanged; if the table fails to load they become "Error loading prayer times" and "Error"; otherwise they take the resolver's time and name |
| `Alerts.PlanNotification` | ClockInNoRepeat/ContentView.swift:32-60 | nothing is planned exactly when the text does not read as a time; a planned alert is at the next instant after now, at most a day away, with the text's hour and minute and seconds 0; the future guard never rejects |
| `Alerts.AlertAtResolvedInstant` | ClockInNoRepeat/ContentView.swift:43-60 | whenever the resolver has an answer, scheduling from its displayed time plans the alert at exactly the resolved instant |
| `Alerts.ExamplePastTimeMovesToNextDay` | ClockInNoRepeat/ContentView.swift:43-53 | the text 18:00 read at 19:00 plans an alert for 18:00 the next day, not a refusal |
| `Alerts.NotificationCenter.Add` | ClockInNoRepeat/ContentView.swift:61-63 | exactly the new request is added, under an identifier no pending request has; the pending requests are kept |
| `Alerts.NotificationCenter.RemoveAllPendingNotificationRequests` | ClockInNoRepeat/ContentView.swift:24 | no request is pending afterwards |
| `Alerts.ContentView.constructor` | ClockInNoRepeat/ContentView.swift:5 | the prayer time starts as "Loading...", the embedded view shares it, and the view uses the given shared notification store, whose pending requests are kept |
| `Alerts.ContentView.ScheduleNotificationForNextPrayer` | ClockInNoRepeat/ContentView.swift:32-70 | the decision is `PlanNotification` of the displayed text; when it plans an alert, exactly one non-repeating request with the planned hour and minute is added under a fresh identifier; otherwise nothing changes |
| `Alerts.ContentView.CancelNotifications` | ClockInNoRepeat/ContentView.swift:23-26 | no request is pending afterwards |

## Left out

- SwiftUI bodies, fonts, colours and previews are left out: they are presentation.
- The one-second `Timer`, `onAppear`/`onDisappear` and the `onReceive` subscriptions are left
  out. They only decide when `updatePrayerTime` runs; one call is modelled.
- `NextPrayerTimeLocationManager` and `loadPrayerTimes` are not part of this model. The source's
  `PrayerTimes` type is not shown either; the `PrayerTimes` datatype here has six `String`
  fields, inferred from their use at `NextPrayerTimeView.swift:71-76`. Whether a location exists and what the loader returned are parameters of `UpdatePrayerTime`.
- The two `Date()` reads at `NextPrayerTimeView.swift:46-47` are one `now` parameter.
- `Date()` at `ContentView.swift:41` is also a parameter.
- The permission request and the completion callbacks of the notification center are left out.
  They are platform I/O and asynchronous. So is the failure of `add`: the model registers the
  request.
- The notification's title, subtitle and sound, and `print` logging, are left out.
- Time zones, daylight saving and `DateFormatter` locale and leniency are left out. The zone is
  fixed, every day has 86400 seconds, and the `HH:mm` grammar is strict, so a lenient reading
  such as "4:30" is not modelled.
- The nil results of `calendar.date(byAdding:)` (the `"Error"` time at `NextPrayerTimeView.swift:88`)
  and of `calendar.nextDate` (`ContentView.swift:45-48`) are left out. They cannot occur in a fixed
  zone, so those branches are not modelled.
- `UUID()` is modelled as a counter in the notification center. Only the property the program
  needs is kept: the new identifier differs from every pending one.
- The pending alerts record the trigger's hour and minute, not an instant. This matches the
  calendar trigger, which fires at the next occurrence of those components.
