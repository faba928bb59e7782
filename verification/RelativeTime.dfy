/** options_helper.cpp: the approximate age of an event, rounded unit by unit. */
module RelativeTime {
  import opened Sequences

  const INT32: nat := 0x8000_0000 // one past the largest int32_t

  /** static_cast<int32_t> of a 64-bit difference. */
  function ToInt32(d: int): int {
    (d + INT32) % (2 * INT32) - INT32
  }

  datatype Age =
    | Seconds(n: nat) | Minutes(n: nat) | Hours(n: nat) | Days(n: nat) | Weeks(n: nat) | Months(n: nat)
    | Years(n: nat, leftover: nat) // leftover months, 0 when none are printed

  /** The cascade on a non-negative number of seconds. */
  function Cascade(seconds: nat): Age {
    var minutes: nat := (seconds + 30) / 60;
    var hours: nat := (minutes + 30) / 60;
    var days: nat := (hours + 12) / 24;
    var weeks: nat := (days + 3) / 7;
    var months: nat := (days + 15) / 30;
    if seconds < 90 then Seconds(seconds)
    else if minutes < 90 then Minutes(minutes)
    else if hours < 90 then Hours(hours)
    else if days < 90 then Days(days)
    else if weeks < 70 then Weeks(weeks)
    else if months < 12 then Months(months)
    else
      var years := days / 365;
      Years(years, if months < 60 then (days - years * 365 + 15) / 30 else 0)
  }

  datatype Text = Text(age: Age, future: bool)

  /** None where the assertion throws or the arithmetic leaves int32_t. */
  function Describe(eventTime: int, relativeTo: int): Option<Text> {
    if relativeTo < eventTime then None
    else
      var ago := ToInt32(relativeTo - eventTime);
      var seconds := if ago < 0 then -ago else ago;
      if seconds > INT32 - 31 then None
      else Some(Text(Cascade(seconds), ago < 0))
  }

  /** How far the printed amount may be from the true age, in seconds. */
  lemma PrintedIsClose(seconds: nat)
    ensures match Cascade(seconds)
      case Seconds(n) => n == seconds
      case Minutes(n) => -30 <= seconds - 60 * n <= 30
      case Hours(n) => -1830 <= seconds - 3600 * n <= 1830
      case Days(n) => -45030 <= seconds - 86400 * n <= 45030
      case Weeks(n) => -304230 <= seconds - 604800 * n <= 304230
      case Months(_) => false
      case Years(n, leftover) => n >= 1 && leftover <= 12
  {
  }

  /** Which unit is printed, in seconds of the true age. */
  lemma UnitExactly(seconds: nat)
    ensures match Cascade(seconds)
      case Seconds(_) => seconds < 90
      case Minutes(_) => 90 <= seconds < 5370
      case Hours(_) => 5370 <= seconds < 322170
      case Days(_) => 322170 <= seconds < 7730970
      case Weeks(_) => 7730970 <= seconds < 42031770
      case Months(_) => false
      case Years(_, _) => 42031770 <= seconds
  {
  }

  const DAY := 86400

  /**
   * Years count whole years of 365 days; the months printed behind them are within 15 days of what
   * is left, and none are printed from 154178970 seconds (60 months) on.
   */
  lemma YearsAreClose(seconds: nat)
    requires Cascade(seconds).Years?
    ensures var age := Cascade(seconds);
      && 365 * DAY * age.n <= seconds + 45030 < 365 * DAY * (age.n + 1) + 2 * 45030
      && (seconds < 154178970 ==>
            -15 * DAY - 45030 <= seconds - 365 * DAY * age.n - 30 * DAY * age.leftover <= 15 * DAY + 45030)
      && (seconds >= 154178970 ==> age.leftover == 0)
  {
  }

  /** How far `d` is from the nearest multiple of 2^32. */
  function Distance(d: int): nat {
    var r := d % (2 * INT32);
    if r <= INT32 then r else 2 * INT32 - r
  }

  /**
   * The text is about that distance, and it is missing exactly when the event lies ahead or the
   * distance is too large for the arithmetic.
   */
  lemma TextIsAboutDistance(eventTime: int, relativeTo: int)
    ensures var d := relativeTo - eventTime;
      && (Describe(eventTime, relativeTo).None? <==> d < 0 || Distance(d) > INT32 - 31)
      && (Describe(eventTime, relativeTo).Some? ==> Describe(eventTime, relativeTo).value.age == Cascade(Distance(d)))
  {
    ToInt32Is(relativeTo - eventTime);
  }

  /** The text is right about the direction exactly when bit 31 of the difference is clear. */
  lemma FutureExactly(eventTime: int, relativeTo: int)
    requires Describe(eventTime, relativeTo).Some?
    ensures Describe(eventTime, relativeTo).value.future
       <==> (relativeTo - eventTime) % (2 * INT32) >= INT32
  {
    ToInt32Is(relativeTo - eventTime);
  }

  lemma ToInt32Is(d: int)
    ensures ToInt32(d) == (var r := d % (2 * INT32); if r < INT32 then r else r - 2 * INT32)
  {
    var q, r := d / (2 * INT32), d % (2 * INT32);
    assert d + INT32 == q * (2 * INT32) + (r + INT32);
    if r >= INT32 {
      assert d + INT32 == (q + 1) * (2 * INT32) + (r - INT32);
    }
  }

  /** Below 2^31 seconds the text is about the true age. */
  lemma RecentIsExact(eventTime: int, relativeTo: int)
    requires 0 <= relativeTo - eventTime <= INT32 - 31
    ensures Describe(eventTime, relativeTo) == Some(Text(Cascade(relativeTo - eventTime), false))
  {
    ToInt32Is(relativeTo - eventTime);
  }

  /** An event 2^31 + 31 seconds old is announced as lying in the future. */
  lemma OldEventInTheFuture()
    ensures Describe(0, INT32 + 31) == Some(Text(Cascade(INT32 - 31), true))
  {
  }
}
