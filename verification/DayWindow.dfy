// The days a relay and a client search for an address, and exactly which they find.
module DayWindow {
  import opened Protocol
  import Timestamps

  // The day of an instant changes at midnight UTC: it is the number of the calendar day, and
  // two times have the same one if and only if their dates, written out, are the same text.
  lemma DayIsCalendarDay(s: Timestamps.Civil, t: Timestamps.Civil)
    requires Timestamps.ValidCivil(s) && Timestamps.ValidCivil(t)
    ensures DayBucket(Timestamps.Instant(t)) == Timestamps.DayNumber(t)
    ensures DayBucket(Timestamps.Instant(s)) == DayBucket(Timestamps.Instant(t)) <==>
              Timestamps.DateText(s) == Timestamps.DateText(t)
  {
    hide Timestamps.DayNumber, Timestamps.DateText;
    WithinDay(s);
    WithinDay(t);
    Timestamps.DayOrder(s, t);
    Timestamps.DateOrder(s, t);
  }

  lemma WithinDay(t: Timestamps.Civil)
    requires Timestamps.ValidCivil(t)
    ensures DayBucket(Timestamps.Instant(t)) == Timestamps.DayNumber(t)
  {
    hide Timestamps.DayNumber;
    Timestamps.DayOfInstant(t);
  }

  lemma ShiftDays(now: int, offset: int)
    ensures DayBucket(now - offset * DAY) == DayBucket(now) - offset
  {
    var q, r := now / DAY, now % DAY;
    assert now - offset * DAY == (q - offset) * DAY + r;
  }

  lemma LookbackCovers(maxTtl: int)
    requires 0 < maxTtl
    ensures 0 < LookbackDays(maxTtl)
    ensures maxTtl <= (LookbackDays(maxTtl) - 1) * DAY_SECONDS < maxTtl + DAY_SECONDS
  {
  }

  // Of a key's addresses, the window holds exactly those of today and of the lookback days
  // before; it holds no address of any later day, and none of any other key.
  lemma WindowExact(key: Key, maxTtl: int, now: int, owner: Key, day: int)
    ensures Blind(owner, day) in Candidates(key, maxTtl, now) <==>
              owner == key && 0 <= DayBucket(now) - day <= LookbackDays(maxTtl)
  {
    var window := Candidates(key, maxTtl, now);
    forall i | 0 <= i < |window| ensures window[i] == Blind(key, DayBucket(now) - i) { ShiftDays(now, i); }
    var i := DayBucket(now) - day;
    if owner == key && 0 <= i <= LookbackDays(maxTtl) { assert window[i] == Blind(owner, day); }
  }

  // An address used up to the retention time and a day ago is still found.
  lemma WindowComplete(key: Key, maxTtl: int, now: int, sent: int)
    requires 0 < maxTtl && sent <= now && now - sent <= (maxTtl + DAY_SECONDS) * SECOND
    ensures Blind(key, DayBucket(sent)) in Candidates(key, maxTtl, now)
  {
    LookbackCovers(maxTtl);
    assert now - sent <= LookbackDays(maxTtl) * DAY;
    var lookback := LookbackDays(maxTtl);
    ShiftDays(now, lookback);
    assert now - lookback * DAY <= sent;
    WindowExact(key, maxTtl, now, key, DayBucket(sent));
  }

  // The window is exactly as long as a fetch may be.
  lemma WindowFitsFetch(key: Key, maxTtl: int, now: int)
    requires 0 < maxTtl
    ensures |Candidates(key, maxTtl, now)| == MaxFetchIds(maxTtl)
    ensures Candidates(key, maxTtl, now) != [] && Blank !in Candidates(key, maxTtl, now)
  {
    LookbackCovers(maxTtl);
  }
}
