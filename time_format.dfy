/**
  The `HH:mm` text form of a time of day: the format string the program gives
  its `DateFormatter` both for reading the prayer table and the displayed time,
  and for rendering instants. Reading is strict: exactly two digits, a colon and
  two digits, hour below 24 and minute below 60.
*/
module TimeFormat {

  import opened Wrappers
  import opened Clock

  predicate IsDigit(c: char) {
    '0' <= c <= '9'
  }

  function DigitValue(c: char): (n: int)
    requires IsDigit(c)
    ensures 0 <= n < 10
  {
    c as int - '0' as int
  }

  function DigitChar(n: int): (c: char)
    requires 0 <= n < 10
    ensures IsDigit(c) && DigitValue(c) == n
  {
    (n + '0' as int) as char
  }

  /** A number below 100 as two zero-padded decimal digits. */
  function TwoDigits(n: int): (s: string)
    requires 0 <= n < 100
    ensures |s| == 2 && IsDigit(s[0]) && IsDigit(s[1])
    ensures DigitValue(s[0]) * 10 + DigitValue(s[1]) == n
  {
    [DigitChar(n / 10), DigitChar(n % 10)]
  }

  /** `dateFormatter.string(from:)` with format `HH:mm`: the zero-padded rendering. */
  function Format(t: TimeOfDay): (s: string)
    requires t.Valid()
    ensures |s| == 5 && s[2] == ':'
  {
    TwoDigits(t.hour) + ":" + TwoDigits(t.minute)
  }

  /**
    `dateFormatter.date(from:)` with format `HH:mm`, followed by taking the hour
    and minute of the parsed date. A string that is not of the form accepted
    here gives None; what is accepted is exactly one rendering of a time.
  */
  function Parse(s: string): (r: Option<TimeOfDay>)
    ensures r.Some? ==> r.value.Valid() && Format(r.value) == s
  {
    if |s| == 5 && IsDigit(s[0]) && IsDigit(s[1]) && s[2] == ':' && IsDigit(s[3]) && IsDigit(s[4]) then
      var hour := DigitValue(s[0]) * 10 + DigitValue(s[1]);
      var minute := DigitValue(s[3]) * 10 + DigitValue(s[4]);
      if hour < 24 && minute < 60 then
        var t := TimeOfDay(hour, minute);
        assert Format(t) == s by {
          TwoDigitsInjective(Format(t)[..2], s[..2]);
          TwoDigitsInjective(Format(t)[3..], s[3..]);
        }
        Some(t)
      else
        None
    else
      None
  }

  /** Two digit pairs with the same value are the same pair. */
  lemma TwoDigitsInjective(a: string, b: string)
    requires |a| == 2 && IsDigit(a[0]) && IsDigit(a[1])
    requires |b| == 2 && IsDigit(b[0]) && IsDigit(b[1])
    requires DigitValue(a[0]) * 10 + DigitValue(a[1]) == DigitValue(b[0]) * 10 + DigitValue(b[1])
    ensures a == b
  {
  }

  /** Rendering then reading gives back the time. */
  lemma ParseFormat(t: TimeOfDay)
    requires t.Valid()
    ensures Parse(Format(t)) == Some(t)
  {
    var s := Format(t);
    assert s[..2] == TwoDigits(t.hour) && s[3..] == TwoDigits(t.minute);
  }

  /** The strict grammar: a string reads as `t` exactly when it is `t`'s rendering. */
  lemma ParseIsFormatInverse(s: string, t: TimeOfDay)
    ensures Parse(s) == Some(t) <==> t.Valid() && s == Format(t)
  {
    if t.Valid() && s == Format(t) {
      ParseFormat(t);
    }
  }

  /** The placeholder texts the program displays are not times. */
  lemma PlaceholdersDoNotParse()
    ensures Parse("Loading...") == None
    ensures Parse("Error") == None
    ensures Parse("Error loading prayer times") == None
  {
  }
}
