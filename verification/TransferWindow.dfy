/** The daily transfer window: a local-time interval, possibly across midnight, outside of
    which transfers wait. */
module TransferWindow {

  const DAY_MINUTES: nat := 1440
  const DAY: nat := 24 * 60 * 60

  /** Minutes since midnight, as the parser produces them. */
  datatype Window = Window(start: nat, end: nat)
  {
    predicate Valid() { start < DAY_MINUTES && end < DAY_MINUTES }

    predicate ContainsMinute(m: nat) {
      if start == end then true
      else if start < end then start <= m < end
      else m >= start || m < end
    }

    /** How long the window stays open once it has opened; equal ends mean all day. */
    function Length(): nat
      requires Valid()
    {
      if start < end then end - start else end + DAY_MINUTES - start
    }
  }

  /** Whether transfers may run at second `t`, counted from some midnight. */
  predicate OpenAt(w: Window, t: nat) { w.ContainsMinute(t % DAY / 60) }

  /** The reference schedule: every day the window opens at its start and stays open for its
      length, running into the next day when it crosses midnight. */
  ghost predicate Scheduled(w: Window, t: nat)
    requires w.Valid()
  {
    exists day: int :: Opening(w, day) <= t < Opening(w, day) + 60 * w.Length()
  }

  function Opening(w: Window, day: int): int { day * DAY + 60 * w.start }

  lemma OpenMeansScheduled(w: Window, day: nat, s: nat)
    requires w.Valid() && s < DAY && w.ContainsMinute(s / 60)
    ensures Scheduled(w, day * DAY + s)
  {
    var since := if s >= 60 * w.start then day else day - 1;
    assert Opening(w, since) <= day * DAY + s < Opening(w, since) + 60 * w.Length();
  }

  lemma ScheduledMeansOpen(w: Window, day: nat, s: nat, d: int)
    requires w.Valid() && s < DAY
    requires Opening(w, d) <= day * DAY + s < Opening(w, d) + 60 * w.Length()
    ensures w.ContainsMinute(s / 60)
  {
    assert d == day || d == day - 1;
  }

  /** The minute test is that schedule. */
  lemma OpenIsScheduled(w: Window, t: nat)
    requires w.Valid()
    ensures OpenAt(w, t) <==> Scheduled(w, t)
  {
    var day, s := t / DAY, t % DAY;
    assert t == day * DAY + s;
    if OpenAt(w, t) { OpenMeansScheduled(w, day, s); }
    if Scheduled(w, t) {
      var d :| Opening(w, d) <= t < Opening(w, d) + 60 * w.Length();
      ScheduledMeansOpen(w, day, s, d);
    }
  }

  /** `seconds_until_open`: the window is open after the wait and closed at every second
      before it; the wait is shorter than a day. */
  method SecondsUntilOpen(w: Window, nowMin: nat, nowSec: nat) returns (wait: nat)
    requires w.Valid() && nowMin < DAY_MINUTES && nowSec < 60
    ensures wait < DAY
    ensures Scheduled(w, nowMin * 60 + nowSec + wait)
    ensures forall t: nat :: nowMin * 60 + nowSec <= t < nowMin * 60 + nowSec + wait ==> !Scheduled(w, t)
  {
    ghost var now := nowMin * 60 + nowSec;
    if w.ContainsMinute(nowMin) {
      OpenIsScheduled(w, now);
      return 0;
    }
    var diff: int := w.start * 60 - (nowMin * 60 + nowSec);
    if diff <= 0 { diff := diff + DAY; }
    OpenAfter(w, now, diff);
    forall t: nat | now <= t < now + diff ensures !Scheduled(w, t) {
      ClosedBefore(w, now, diff, t);
      OpenIsScheduled(w, t);
    }
    return diff;
  }

  /** `diff` is the wait that is computed when the window is closed. */
  predicate Waits(w: Window, now: nat, diff: nat) {
    && w.Valid() && now < DAY && !w.ContainsMinute(now / 60)
    && var d := w.start * 60 - now; diff == if d <= 0 then d + DAY else d
  }

  lemma OpenAfter(w: Window, now: nat, diff: nat)
    requires Waits(w, now, diff)
    ensures Scheduled(w, now + diff)
  {
    var day := if now < w.start * 60 then 0 else 1;
    assert Opening(w, day) == now + diff;
  }

  lemma ClosedBefore(w: Window, now: nat, diff: nat, t: nat)
    requires Waits(w, now, diff) && now <= t < now + diff
    ensures !OpenAt(w, t)
  {
    if t < DAY {
      assert t % DAY == t && now / 60 <= t / 60;
    } else {
      assert t % DAY == t - DAY;
    }
  }
}
