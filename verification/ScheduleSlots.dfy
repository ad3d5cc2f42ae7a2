/** Daily start times on a clock without shifts: which slot a moment belongs to, and whether a job is due. */
module ScheduleSlots {
  import opened Options

  const SECOND: int := 1_000_000_000
  const MINUTE: int := 60 * SECOND
  const DAY: int := 24 * 60 * MINUTE
  const GRACE: int := 30 * MINUTE

  /** A parsed start time, if the text was one. */
  datatype Clock = Clock(hour: int, minute: int) | Unparsable

  predicate Sane(t: Clock) {
    t.Clock? ==> 0 <= t.hour < 24 && 0 <= t.minute < 60
  }

  function MinuteOfDay(now: int): int {
    now % DAY / MINUTE
  }

  predicate ClockMatches(now: int, t: Clock) {
    t.Clock? && MinuteOfDay(now) / 60 == t.hour && MinuteOfDay(now) % 60 == t.minute
  }

  /** This start time on the day of `now`. */
  function SlotOf(now: int, t: Clock): int
    requires t.Clock?
  {
    now - now % DAY + (t.hour * 60 + t.minute) * MINUTE
  }

  predicate ClockDue(now: int, t: Clock) {
    ClockMatches(now, t) || (t.Clock? &&
      var slot := SlotOf(now, t);
      (now > slot && now - slot <= GRACE) || (now > slot - DAY && now - (slot - DAY) <= GRACE))
  }

  datatype Kind = Daily | Weekly | Startup

  datatype Schedule = Schedule(enabled: bool, kind: Kind, weekdays: seq<int>, times: seq<Clock>)

  predicate Due(s: Schedule, now: int, weekday: int) {
    && s.enabled && s.times != []
    && !(s.kind == Weekly && s.weekdays != [] && weekday !in s.weekdays) && s.kind != Startup
    && exists t <- s.times :: ClockDue(now, t)
  }

  /** The slot of a start time on any day, no later than `now` and no older than the grace period. */
  predicate Open(now: int, t: Clock, day: int, slot: int) {
    t.Clock? && slot == day * DAY + (t.hour * 60 + t.minute) * MINUTE && 0 <= now - slot <= GRACE
  }

  ghost predicate OpenSlot(now: int, times: seq<Clock>, slot: int) {
    exists t <- times, day: int :: Open(now, t, day, slot)
  }

  /** The latest of the open slots, over all days. */
  ghost predicate Latest(now: int, times: seq<Clock>, best: Option<int>) {
    && (best.Some? ==> OpenSlot(now, times, best.value))
    && forall slot | OpenSlot(now, times, slot) :: best.Some? && slot <= best.value
  }

  /** Only today and yesterday can have an open slot, and the two tests find just those. */
  lemma OnlyTwoDays(now: int, t: Clock, day: int, slot: int)
    requires Sane(t)
    ensures Open(now, t, day, slot) ==>
      || (slot == SlotOf(now, t) && (ClockMatches(now, t) || (now > slot && now - slot <= GRACE)))
      || (slot == SlotOf(now, t) - DAY && now > slot && now - slot <= GRACE)
  {
    if Open(now, t, day, slot) {
      assert now == now / DAY * DAY + now % DAY;
      var offset := (t.hour * 60 + t.minute) * MINUTE;
      assert day == now / DAY || day == now / DAY - 1;
    }
  }

  lemma TodayIsOpen(now: int, t: Clock)
    requires Sane(t) && t.Clock?
    requires ClockMatches(now, t) || (now > SlotOf(now, t) && now - SlotOf(now, t) <= GRACE)
    ensures Open(now, t, now / DAY, SlotOf(now, t))
  {
    assert now == now / DAY * DAY + now % DAY;
  }

  lemma YesterdayIsOpen(now: int, t: Clock)
    requires Sane(t) && t.Clock? && now > SlotOf(now, t) - DAY && now - (SlotOf(now, t) - DAY) <= GRACE
    ensures Open(now, t, now / DAY - 1, SlotOf(now, t) - DAY)
  {
    assert now == now / DAY * DAY + now % DAY;
  }

  method ActiveSlot(times: seq<Clock>, now: int) returns (best: Option<int>)
    requires forall t <- times :: Sane(t)
    ensures Latest(now, times, best)
  {
    hide ClockMatches, SlotOf, Open;
    best := None;
    for i := 0 to |times|
      invariant Latest(now, times[..i], best)
    {
      var t := times[i];
      ghost var before := best;
      if t.Clock? {
        var slot := SlotOf(now, t);
        if ClockMatches(now, t) || (now > slot && now - slot <= GRACE) {
          if best.None? || slot > best.value { best := Some(slot); }
          TodayIsOpen(now, t);
        }
        var prev := slot - DAY;
        if now > prev && now - prev <= GRACE {
          if best.None? || prev > best.value { best := Some(prev); }
          YesterdayIsOpen(now, t);
        }
      }
      OneMoreTime(now, times, i, before, best);
    }
    assert times[..|times|] == times;
  }

  lemma OneMoreTime(now: int, times: seq<Clock>, i: nat, before: Option<int>, best: Option<int>)
    requires i < |times| && Sane(times[i]) && Latest(now, times[..i], before)
    requires best == before || (best.Some? && exists day :: Open(now, times[i], day, best.value))
    requires before.Some? ==> best.Some? && before.value <= best.value
    requires times[i].Clock?
             && (ClockMatches(now, times[i]) || (now > SlotOf(now, times[i]) && now - SlotOf(now, times[i]) <= GRACE))
             ==> best.Some? && SlotOf(now, times[i]) <= best.value
    requires times[i].Clock? && now > SlotOf(now, times[i]) - DAY && now - (SlotOf(now, times[i]) - DAY) <= GRACE
             ==> best.Some? && SlotOf(now, times[i]) - DAY <= best.value
    ensures Latest(now, times[..i + 1], best)
  {
    hide ClockMatches, SlotOf;
    var more := times[..i + 1];
    assert more == times[..i] + [times[i]];
    forall slot | OpenSlot(now, more, slot)
      ensures best.Some? && slot <= best.value
    {
      var t, day :| t in more && Open(now, t, day, slot);
      if t == times[i] { OnlyTwoDays(now, t, day, slot); } else { assert OpenSlot(now, times[..i], slot); }
    }
    if best != before {
      var day :| Open(now, times[i], day, best.value);
      assert times[i] in more;
    }
  }

  /** A job that is due has an active slot. */
  lemma DueHasASlot(s: Schedule, now: int, weekday: int, best: Option<int>)
    requires (forall t <- s.times :: Sane(t)) && Latest(now, s.times, best) && Due(s, now, weekday)
    ensures best.Some?
  {
    hide ClockMatches, SlotOf, Open;
    var t :| t in s.times && ClockDue(now, t);
    DueIsClock(now, t);
    if ClockMatches(now, t) || (now > SlotOf(now, t) && now - SlotOf(now, t) <= GRACE) {
      TodayIsOpen(now, t);
      assert OpenSlot(now, s.times, SlotOf(now, t));
    } else {
      YesterdayIsOpen(now, t);
      assert OpenSlot(now, s.times, SlotOf(now, t) - DAY);
    }
  }

  lemma DueIsClock(now: int, t: Clock)
    requires ClockDue(now, t)
    ensures t.Clock?
  {
  }

  /** Time going on never takes the active slot back. */
  lemma SlotsNeverGoBack(times: seq<Clock>, now: int, later: int, a: Option<int>, b: Option<int>)
    requires now <= later && Latest(now, times, a) && Latest(later, times, b) && a.Some? && b.Some?
    ensures a.value <= b.value
  {
    var t, day :| t in times && Open(now, t, day, a.value);
    var u, day' :| u in times && Open(later, u, day', b.value);
    if later - a.value <= GRACE {
      assert Open(later, t, day, a.value);
      assert OpenSlot(later, times, a.value);
    }
  }
}
