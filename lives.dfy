/**
 * Regenerating lives ("can") of a player: the pure arithmetic of autoUpdateCan
 * and of the /rewardCan cap in server.js. The clock (`Date.now()`) is the
 * parameter `now`; the user record's fields are optional integers, since the
 * source checks `typeof … === "number"` before using them.
 */
module Lives {
  import opened Wrappers

  /** The most lives a player can hold. */
  const MaxCan: int := 5
  /** Ten minutes in milliseconds: one life is regained per full interval. */
  const Interval: int := 10 * 60 * 1000

  /** The two persisted fields, `can` and `lastCanUpdate` (a millisecond timestamp). */
  datatype LivesState = LivesState(can: int, lastCanUpdate: int)

  /**
   * `Math.floor(elapsed / INTERVAL)`. Dafny's `/` with a positive divisor rounds
   * down, also for negative `elapsed`, exactly as `Math.floor` of the quotient does.
   */
  function Gained(elapsed: int): (g: int)
    ensures g * Interval <= elapsed < (g + 1) * Interval
    ensures g <= 0 <==> elapsed < Interval
  {
    elapsed / Interval
  }

  /**
   * The regeneration step once the fields are known to be numbers: a capped
   * count is normalised to the cap; otherwise every full interval since
   * `last` gives one life, up to the cap; the timestamp advances by whole
   * intervals, so partial progress is kept, unless the cap is reached, when
   * it is reset to `now`.
   */
  function Regenerate(can: int, last: int, now: int): (r: LivesState)
    ensures r.can <= MaxCan
    ensures r.can >= Min(can, MaxCan)
    ensures can >= MaxCan ==> r == LivesState(MaxCan, last)
    ensures can < MaxCan && now - last < Interval ==> r == LivesState(can, last)
    ensures can < MaxCan && now - last >= Interval && r.can < MaxCan ==>
      && r.can == can + Gained(now - last)
      && r.lastCanUpdate == last + Gained(now - last) * Interval
      && 0 <= now - r.lastCanUpdate < Interval
    ensures can < MaxCan && now - last >= Interval && r.can == MaxCan ==>
      && can + Gained(now - last) >= MaxCan
      && r.lastCanUpdate == now
  {
    if can >= MaxCan then
      LivesState(MaxCan, last)
    else
      var gained := Gained(now - last);
      if gained <= 0 then
        LivesState(can, last)
      else
        var newCan := Min(MaxCan, can + gained);
        var newLast := if newCan >= MaxCan then now else last + gained * Interval;
        LivesState(newCan, newLast)
  }

  /**
   * autoUpdateCan: a missing or non-numeric `lastCanUpdate` is taken as `now`
   * and a missing or non-numeric `can` as the cap, then `Regenerate` applies.
   */
  function AutoUpdateCan(can: Option<int>, lastCanUpdate: Option<int>, now: int): (r: LivesState)
    ensures can.None? ==> r == LivesState(MaxCan, lastCanUpdate.GetOr(now))
    ensures lastCanUpdate.None? ==> r == LivesState(Min(can.GetOr(MaxCan), MaxCan), now)
    ensures MaxCan >= r.can >= Min(can.GetOr(MaxCan), MaxCan)
  {
    Regenerate(can.GetOr(MaxCan), lastCanUpdate.GetOr(now), now)
  }

  /**
   * The count /rewardCan stores: a player at or above the cap keeps the count
   * (and the record is not written, so the timestamp stays); otherwise one
   * life is added and the timestamp becomes `now`.
   */
  function RewardCan(s: LivesState, now: int): (r: LivesState)
    ensures s.can >= MaxCan ==> r == s
    ensures s.can < MaxCan ==> r.can == s.can + 1 && r.lastCanUpdate == now
    ensures s.can <= MaxCan ==> s.can <= r.can <= MaxCan
  {
    if s.can >= MaxCan then s else LivesState(s.can + 1, now)
  }

  /** A second regeneration at the same instant changes nothing. */
  lemma RegenerateIdempotent(can: int, last: int, now: int)
    ensures var r := Regenerate(can, last, now);
      Regenerate(r.can, r.lastCanUpdate, now) == r
  {
  }

  /** Three lives and 25 minutes: capped at five, and the timestamp is `now`, not `last` + 20 minutes. */
  lemma RegenerateCappedExample(last: int)
    ensures Regenerate(3, last, last + 25 * 60 * 1000) == LivesState(5, last + 25 * 60 * 1000)
  {
  }

  /**
   * Regeneration does not depend on how often it is asked for: updating at
   * `t1` and then at a later `t2` gives the same count as updating once at
   * `t2`, and the same timestamp too unless the first update hit the cap
   * from below (it then restarts the clock at `t1`).
   */
  lemma {:induction false} RegenerateComposes(can: int, last: int, t1: int, t2: int)
    requires t1 <= t2
    ensures var r1 := Regenerate(can, last, t1);
      var r2 := Regenerate(r1.can, r1.lastCanUpdate, t2);
      && r2.can == Regenerate(can, last, t2).can
      && (can >= MaxCan || r1.can < MaxCan ==> r2 == Regenerate(can, last, t2))
  {
    var r1 := Regenerate(can, last, t1);
    var g1 := Gained(t1 - last);
    var g2 := Gained(t2 - last);
    GainedMonotone(t1 - last, t2 - last);
    if can < MaxCan && r1.can < MaxCan && g1 > 0 {
      GainedShift(t2 - last, g1);
      assert Gained(t2 - r1.lastCanUpdate) == g2 - g1;
    }
  }

  lemma GainedMonotone(a: int, b: int)
    requires a <= b
    ensures Gained(a) <= Gained(b)
  {
  }

  lemma GainedShift(e: int, g: int)
    ensures Gained(e - g * Interval) == Gained(e) - g
  {
    var q := Gained(e);
    assert (q - g) * Interval <= e - g * Interval < (q - g + 1) * Interval;
  }
}
