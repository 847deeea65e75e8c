/**
 * The countdown of components/timer-card.tsx: one tick of `updateTimer`
 * as a function of the held record and the current time, the thresholds the
 * card colours itself by, the text it shows, and the tick applied to the store.
 */
module TimerCard {
  import opened Wrappers
  import opened GameStore
  import opened TimeFormat

  const MsPerMinute: int := 60000
  /** The last five minutes, during which the card is shown as expiring. */
  const ExpiringWindowMs: int := 300000

  /** `duration * 60000 - (now - startTime)`: what is left of the rental at `now`, in milliseconds. */
  function Remaining(p: Player, now: int): (r: int)
    ensures r <= 0 <==> now >= p.startTime + p.duration * MsPerMinute
    ensures now == p.startTime ==> r == p.duration * MsPerMinute
  {
    p.duration * MsPerMinute - (now - p.startTime)
  }

  /** The progress bar as the integer pair behind `remaining / (duration * 60000) * 100`. */
  datatype Progress = Progress(left: int, total: int)

  /** What one tick sets (`timeLeft`, `progress`) and whether it asks the store to expire the record. */
  datatype Tick = Tick(timeLeft: int, progress: Progress, requestExpire: bool)

  /**
   * One run of `updateTimer` for the record `p` the card holds: clamp at
   * expiry and ask for the active-to-expired transition only while `p` is active.
   */
  function UpdateTimer(p: Player, now: int): (t: Tick)
    ensures t.timeLeft >= 0
    ensures Remaining(p, now) <= 0 ==> t.timeLeft == 0 && t.progress.left == 0
    ensures Remaining(p, now) > 0 ==> t.timeLeft == Remaining(p, now) && t.progress.left == t.timeLeft
    ensures t.progress.total == p.duration * MsPerMinute
    ensures t.requestExpire <==> Remaining(p, now) <= 0 && IsActive(p)
  {
    var remaining := Remaining(p, now);
    if remaining <= 0 then
      Tick(0, Progress(0, p.duration * MsPerMinute), IsActive(p))
    else
      Tick(remaining, Progress(remaining, p.duration * MsPerMinute), false)
  }

  /** For a fixed record, later ticks never show more time left. */
  lemma TimeLeftNonIncreasing(p: Player, now1: int, now2: int)
    requires now1 <= now2
    ensures Remaining(p, now2) <= Remaining(p, now1)
    ensures UpdateTimer(p, now2).timeLeft <= UpdateTimer(p, now1).timeLeft
  {
  }

  /** From the start of a positive-length rental on, the bar lies between 0% and 100%. */
  lemma ProgressBounds(p: Player, now: int)
    requires p.duration > 0 && p.startTime <= now
    ensures var pr := UpdateTimer(p, now).progress;
      0 <= pr.left <= pr.total && 0 < pr.total
  {
  }

  // --------------------------------------------------------------- thresholds

  predicate IsExpiring(timeLeft: int)
    ensures IsExpiring(timeLeft) ==> !IsExpired(timeLeft)
  {
    timeLeft <= ExpiringWindowMs && timeLeft > 0
  }

  predicate IsExpired(timeLeft: int) {
    timeLeft <= 0
  }

  /** The time text of the card: a fixed `00:00` once expired, otherwise `formatTime`. */
  function DisplayedTime(timeLeft: int): (s: string)
    ensures |s| >= 5
    ensures s[|s| - 3] == ':' && IsDigit(s[|s| - 2]) && IsDigit(s[|s| - 1])
  {
    if IsExpired(timeLeft) then "00:00" else FormatTime(timeLeft)
  }

  /** After a tick the card is expired exactly when the rental is over, expiring exactly in its last five minutes, never both. */
  lemma TickThresholds(p: Player, now: int)
    ensures var tl := UpdateTimer(p, now).timeLeft;
      && (IsExpired(tl) <==> Remaining(p, now) <= 0)
      && (IsExpiring(tl) <==> 0 < Remaining(p, now) <= ExpiringWindowMs)
      && !(IsExpired(tl) && IsExpiring(tl))
  {
  }

  /** The fixed `00:00` is what `formatTime` gives for zero, so the card shows the clamped time. */
  lemma DisplayedTimeIsClamped(timeLeft: int)
    ensures DisplayedTime(timeLeft) == FormatTime(if timeLeft <= 0 then 0 else timeLeft)
  {
    if timeLeft <= 0 {
      FormatTimeZero();
    }
  }

  /** Whatever the card shows reads back as the whole seconds left, clamped at zero. */
  lemma DisplayedTimeReadsBack(timeLeft: int)
    ensures var c := ParseClock(DisplayedTime(timeLeft));
      c.Some? && c.value.seconds < 60 &&
      c.value.minutes * 60 + c.value.seconds == (if timeLeft <= 0 then 0 else timeLeft / 1000)
  {
    DisplayedTimeIsClamped(timeLeft);
    FormatTimeRoundTrip(if timeLeft <= 0 then 0 else timeLeft);
  }

  // -------------------------------------------------------- tick on the store

  /**
   * One tick of the card holding `player`, with the store's
   * `updatePlayerStatus(player.id, "expired")` applied when the tick asks for it.
   */
  method TickCard(store: Store, player: Player, now: int) returns (t: Tick)
    modifies store
    ensures t == UpdateTimer(player, now)
    ensures t.requestExpire ==>
      store.players == WithStatus(old(store.players), player.id, Expired) &&
      store.broadcasts == old(store.broadcasts) + [StatusUpdated(store.players, player.id, Expired)]
    ensures !t.requestExpire ==> store.players == old(store.players) && store.broadcasts == old(store.broadcasts)
    ensures forall i :: 0 <= i < |old(store.players)| && old(store.players)[i].status == Expired ==>
      store.players[i].status == Expired
    ensures old(Find(store.players, player.id)) == Some(player) && t.requestExpire ==>
      Find(store.players, player.id) == Some(player.(status := Expired)) &&
      !UpdateTimer(Find(store.players, player.id).value, now).requestExpire
    ensures old(Find(store.players, player.id)) == Some(player) ==>
      (store.players, t.requestExpire) == StepCurrent(old(store.players), player.id, now)
  {
    t := UpdateTimer(player, now);
    if t.requestExpire {
      FindWithStatus(store.players, player.id, Expired);
      store.UpdatePlayerStatus(player.id, Expired);
    }
  }

  /**
   * The store list after one tick by a card that holds the store's current
   * record for `id`, and whether that tick asked for expiry.
   */
  function StepCurrent(ps: seq<Player>, id: string, now: int): (r: (seq<Player>, bool))
    ensures r.1 <==> Find(ps, id).Some? && IsActive(Find(ps, id).value) && Remaining(Find(ps, id).value, now) <= 0
    ensures r.0 == if r.1 then WithStatus(ps, id, Expired) else ps
  {
    match Find(ps, id)
    case None => (ps, false)
    case Some(p) =>
      var t := UpdateTimer(p, now);
      (if t.requestExpire then WithStatus(ps, id, Expired) else ps, t.requestExpire)
  }

  /** How many expiry requests a card fed the current record makes over ticks at `times`. */
  function ExpiryRequests(ps: seq<Player>, id: string, times: seq<int>): (n: nat)
    ensures n <= |times|
    ensures !HasId(ps, id) ==> n == 0
    decreases |times|
  {
    if times == [] then 0
    else
      var step := StepCurrent(ps, id, times[0]);
      (if step.1 then 1 else 0) + ExpiryRequests(step.0, id, times[1..])
  }

  /** Some tick in `times` falls at or after the end of `p`'s rental. */
  predicate SomeTickDue(p: Player, times: seq<int>) {
    exists k :: 0 <= k < |times| && Remaining(p, times[k]) <= 0
  }

  /**
   * Exactly-once expiry: a card that always holds the store's current record
   * asks for the transition once if the record is active and some tick is
   * due, and never otherwise, however many ticks follow.
   */
  lemma {:induction false} ExpiryRequestedOnce(ps: seq<Player>, id: string, times: seq<int>)
    ensures ExpiryRequests(ps, id, times) ==
      if Find(ps, id).Some? && IsActive(Find(ps, id).value) && SomeTickDue(Find(ps, id).value, times)
      then 1 else 0
    decreases |times|
  {
    if times != [] {
      var step := StepCurrent(ps, id, times[0]);
      var rest := times[1..];
      ExpiryRequestedOnce(step.0, id, rest);
      match Find(ps, id)
      case None =>
      case Some(p) =>
        if step.1 {
          FindWithStatus(ps, id, Expired);
          assert SomeTickDue(p, times) by { assert Remaining(p, times[0]) <= 0; }
        } else if IsActive(p) {
          SomeTickDueLater(p, times);
        }
    }
  }

  /** A tick that is not yet due does not change whether some tick of the run is due. */
  lemma SomeTickDueLater(p: Player, times: seq<int>)
    requires times != [] && Remaining(p, times[0]) > 0
    ensures SomeTickDue(p, times) <==> SomeTickDue(p, times[1..])
  {
    var rest := times[1..];
    if SomeTickDue(p, times) {
      var k :| 0 <= k < |times| && Remaining(p, times[k]) <= 0;
      assert k > 0 && rest[k - 1] == times[k];
    }
    if SomeTickDue(p, rest) {
      var k :| 0 <= k < |rest| && Remaining(p, rest[k]) <= 0;
      assert times[k + 1] == rest[k];
    }
  }

  /**
   * Once a tick with the current record has expired it, the next tick with
   * the refreshed record asks for nothing.
   */
  lemma RefreshedTickIsQuiet(ps: seq<Player>, p: Player, now1: int, now2: int)
    requires Find(ps, p.id) == Some(p)
    requires UpdateTimer(p, now1).requestExpire
    ensures Find(WithStatus(ps, p.id, Expired), p.id) == Some(p.(status := Expired))
    ensures !UpdateTimer(p.(status := Expired), now2).requestExpire
  {
  }

  /**
   * A card whose snapshot is never refreshed still holds `active` after the
   * store has expired the record, so every later tick asks again.
   */
  lemma StaleSnapshotAsksAgain(ps: seq<Player>, p: Player, now1: int, now2: int)
    requires Find(ps, p.id) == Some(p)
    requires UpdateTimer(p, now1).requestExpire && now1 <= now2
    ensures Find(WithStatus(ps, p.id, Expired), p.id).value.status == Expired
    ensures UpdateTimer(p, now2).requestExpire
  {
  }
}
