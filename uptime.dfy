/**
 * The arithmetic of `uptime`: the seconds since boot split into whole days
 * and the hour of the current day. The boot time and the clock are inputs.
 */
module Uptime {
  import opened Wrappers
  import opened Words

  const SECONDS_PER_DAY: int := 86400
  const SECONDS_PER_HOUR: int := 3600

  datatype Span = Span(days: int, hours: int)

  /**
   * `days = (int)diff / 86400` and `hours = (int)(diff / 3600) % 24`, both
   * with C's truncating division and remainder.
   */
  function Split(seconds: int): (r: Span)
    ensures seconds >= 0 ==> 0 <= r.hours < 24 && r.days >= 0
    ensures seconds >= 0 ==> r.days * 24 + r.hours == seconds / SECONDS_PER_HOUR
    ensures seconds >= 0 ==> r.days * SECONDS_PER_DAY <= seconds < (r.days + 1) * SECONDS_PER_DAY
    ensures seconds < 0 ==> -24 < r.hours <= 0 && r.days <= 0
  {
    var days := TruncDiv(seconds, SECONDS_PER_DAY);
    var hours := TruncRem(TruncDiv(seconds, SECONDS_PER_HOUR), 24);
    DaysFromHours(seconds);
    Span(days, hours)
  }

  /** For a non-negative count of seconds, whole days are whole hours divided by 24. */
  lemma DaysFromHours(s: int)
    ensures s >= 0 ==> s / SECONDS_PER_DAY == (s / SECONDS_PER_HOUR) / 24
  {
    if s >= 0 {
      DaysFromHoursNat(s);
    }
  }

  lemma DaysFromHoursNat(s: nat)
    ensures s / SECONDS_PER_DAY == (s / SECONDS_PER_HOUR) / 24
  {
    var h := s / SECONDS_PER_HOUR;
    var d := h / 24;
    assert s == h * SECONDS_PER_HOUR + s % SECONDS_PER_HOUR;
    assert h == d * 24 + h % 24;
    assert s == d * SECONDS_PER_DAY + ((h % 24) * SECONDS_PER_HOUR + s % SECONDS_PER_HOUR);
    assert 0 <= (h % 24) * SECONDS_PER_HOUR + s % SECONDS_PER_HOUR < SECONDS_PER_DAY;
  }

  /**
   * `uptime(&days, &hours)`: it fails when the boot time cannot be read or
   * is zero; otherwise it splits `now - boot`.
   */
  function Query(bootTime: Option<int>, now: int): (r: Option<Span>)
    ensures r.None? <==> bootTime.None? || bootTime.value == 0
    ensures r.Some? ==> r.value == Split(now - bootTime.value)
  {
    match bootTime
    case None => None
    case Some(boot) => if boot == 0 then None else Some(Split(now - boot))
  }

  /** Booted 72 hours ago: 3 days, 0 hours. */
  lemma SeventyTwoHours()
    ensures Split(259200) == Span(3, 0)
  {
  }
}
