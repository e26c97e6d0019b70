/** Blocking reads: an attempt, a wait on the sync counter, another attempt.

    The environment is a sequence of moments, one for every access of the reader to shared
    memory or the clock: the counter, what a non-blocking attempt would return, whether the
    deadline has passed, and whether a sleep begun now ends without a wake-up. A round begun at
    moment t loads the counter at t, attempts at t + 1, and waits from t + 2 on. */
module Waiting {
  datatype Status = Ok | TooEarly | TooLate

  datatype Moment = Moment(counter: nat, attempt: Status, expired: bool, gaveUp: bool)

  type World = nat -> Moment

  /** The deadline passes at some time. */
  ghost predicate Expires(world: World, limit: nat) {
    forall t: nat :: t >= limit ==> world(t).expired
  }

  // ---- the wait ---------------------------------------------------------------------------------

  /** The outcome of a wait that begins at `now`, and the moment after it. */
  ghost function Wait(world: World, now: nat, expected: nat, limit: nat): (r: (bool, nat))
    requires Expires(world, limit)
    ensures r.1 > now
    decreases if now < limit then limit - now else 0
  {
    if world(now).counter != expected then (true, now + 1)
    else if world(now).expired || world(now).gaveUp then (false, now + 1)
    else Wait(world, now + 1, expected, limit)
  }

  /** Waits until the counter differs; false if the deadline passes first or the sleep fails. */
  method WaitUntilChanged(world: World, now: nat, expected: nat, ghost limit: nat) returns (changed: bool, later: nat)
    requires Expires(world, limit)
    ensures (changed, later) == Wait(world, now, expected, limit)
  {
    later := now;
    while world(later).counter == expected
      invariant Wait(world, later, expected, limit) == Wait(world, now, expected, limit)
      decreases if later < limit then limit - later else 0
    {
      var moment := world(later);
      later := later + 1;
      if moment.expired || moment.gaveUp {
        return false, later;
      }
    }
    return true, later + 1;
  }

  /** A wait succeeds exactly if the counter changes before time runs out. */
  lemma {:induction false} WaitExact(world: World, now: nat, expected: nat, limit: nat)
    requires Expires(world, limit)
    ensures var (changed, later) := Wait(world, now, expected, limit);
      && (forall t: nat :: now <= t < later - 1 ==> world(t).counter == expected && !world(t).expired && !world(t).gaveUp)
      && (changed <==> world(later - 1).counter != expected)
      && (!changed ==> world(later - 1).expired || world(later - 1).gaveUp)
    decreases if now < limit then limit - now else 0
  {
    if world(now).counter == expected && !world(now).expired && !world(now).gaveUp {
      WaitExact(world, now + 1, expected, limit);
    }
  }

  // ---- rounds -------------------------------------------------------------------------------------

  datatype Round = Again(later: nat) | Done(status: Status, end: nat)

  ghost function RoundAt(world: World, now: nat, limit: nat): Round
    requires Expires(world, limit)
  {
    if world(now + 1).attempt != TooEarly then Done(world(now + 1).attempt, now + 2)
    else
      var (changed, later) := Wait(world, now + 2, world(now).counter, limit);
      if changed then Again(later) else Done(TooEarly, later)
  }

  /** The read that starts at `now` is still going on after n rounds. */
  ghost predicate StillReading(world: World, now: nat, limit: nat, n: nat)
    requires Expires(world, limit)
    decreases n
  {
    n == 0 || match RoundAt(world, now, limit) case Again(later) => StillReading(world, later, limit, n - 1) case Done(_, _) => false
  }

  /** When the n-th round begins. */
  ghost function StartOf(world: World, now: nat, limit: nat, n: nat): nat
    requires Expires(world, limit) && StillReading(world, now, limit, n)
    decreases n
  {
    if n == 0 then now else StartOf(world, RoundAt(world, now, limit).later, limit, n - 1)
  }

  /** The read ends in round n with this result: all rounds before it attempted too early. */
  ghost predicate EndsWith(world: World, now: nat, limit: nat, n: nat, status: Status, end: nat)
    requires Expires(world, limit)
  {
    StillReading(world, now, limit, n) && RoundAt(world, StartOf(world, now, limit, n), limit) == Done(status, end)
  }

  lemma {:induction false} OneMoreRound(world: World, now: nat, limit: nat, n: nat)
    requires Expires(world, limit) && StillReading(world, now, limit, n)
    ensures StillReading(world, now, limit, n + 1) <==> RoundAt(world, StartOf(world, now, limit, n), limit).Again?
    ensures StillReading(world, now, limit, n + 1) ==>
      StartOf(world, now, limit, n + 1) == RoundAt(world, StartOf(world, now, limit, n), limit).later
    decreases n
  {
    if n > 0 {
      OneMoreRound(world, RoundAt(world, now, limit).later, limit, n - 1);
    }
  }

  lemma {:induction false} FewerRounds(world: World, now: nat, limit: nat, m: nat, n: nat)
    requires Expires(world, limit) && m <= n && StillReading(world, now, limit, n)
    ensures StillReading(world, now, limit, m)
    decreases m
  {
    if m > 0 {
      FewerRounds(world, RoundAt(world, now, limit).later, limit, m - 1, n - 1);
    }
  }

  /** Attempt, and wait while it is too early. A read that does not go on for `rounds` rounds ends,
      in the first round that does not start another one, with the result of that round. */
  method BlockingRead(world: World, start: nat, ghost limit: nat, ghost rounds: nat) returns (status: Status, end: nat)
    requires Expires(world, limit) && !StillReading(world, start, limit, rounds)
    ensures exists n: nat :: n < rounds && EndsWith(world, start, limit, n, status, end)
  {
    var now := start;
    ghost var taken := 0;
    while true
      invariant taken <= rounds && StillReading(world, start, limit, taken) && now == StartOf(world, start, limit, taken)
      decreases rounds - taken
    {
      OneMoreRound(world, start, limit, taken);
      var previousSyncCounter := world(now).counter;
      status := world(now + 1).attempt;
      if status != TooEarly {
        end := now + 2;
        assert EndsWith(world, start, limit, taken, status, end);
        return;
      }
      var changed, later := WaitUntilChanged(world, now + 2, previousSyncCounter, limit);
      if !changed {
        end := later;
        assert EndsWith(world, start, limit, taken, status, end);
        return;
      }
      now, taken := later, taken + 1;
    }
  }

  // ---- what a result means -------------------------------------------------------------------------

  /** The result is that of the last attempt, every earlier attempt was too early, and a read that
      is too early ran out of time while the counter had the value loaded before that attempt. */
  lemma ResultMeans(world: World, start: nat, limit: nat, n: nat, status: Status, end: nat)
    requires Expires(world, limit) && EndsWith(world, start, limit, n, status, end)
    ensures var t := StartOf(world, start, limit, n);
      && status == world(t + 1).attempt
      && (status == TooEarly ==> t + 2 < end && world(end - 1).counter == world(t).counter && (world(end - 1).expired || world(end - 1).gaveUp))
    ensures forall m: nat :: m < n ==> EarlierTooEarly(world, start, limit, m)
  {
    var t := StartOf(world, start, limit, n);
    WaitExact(world, t + 2, world(t).counter, limit);
    forall m: nat | m < n ensures EarlierTooEarly(world, start, limit, m) {
      FewerRounds(world, start, limit, m, n);
      FewerRounds(world, start, limit, m + 1, n);
      OneMoreRound(world, start, limit, m);
    }
  }

  ghost predicate EarlierTooEarly(world: World, start: nat, limit: nat, m: nat)
    requires Expires(world, limit)
  {
    StillReading(world, start, limit, m) && world(StartOf(world, start, limit, m) + 1).attempt == TooEarly
  }

  /** What a writer does for its readers: from moment m on the data is there, and the counter
      differs from every value it had before. */
  ghost predicate AnnouncedAt(world: World, m: nat) {
    && (forall t: nat :: t >= m ==> world(t).attempt != TooEarly)
    && (forall s: nat, t: nat :: s < m <= t ==> world(t).counter != world(s).counter)
  }

  /** A reader is never told that it is too early for data announced before its deadline. */
  lemma NoMissedData(world: World, start: nat, limit: nat, n: nat, status: Status, end: nat, m: nat)
    requires Expires(world, limit) && EndsWith(world, start, limit, n, status, end)
    requires AnnouncedAt(world, m)
    requires forall t: nat :: t < m ==> !world(t).expired && !world(t).gaveUp
    ensures status != TooEarly
  {
    ResultMeans(world, start, limit, n, status, end);
    if status == TooEarly {
      assert false;
    }
  }

  // ---- after the deadline ------------------------------------------------------------------------------

  /** The round begun at t finds no data, and a counter that changed between its load and the wait. */
  predicate Overtaken(world: World, t: nat) {
    world(t + 1).attempt == TooEarly && world(t + 2).counter != world(t).counter
  }

  /** Once the deadline has passed a read goes on for n rounds exactly if each of them finds no data
      and a counter that has just changed: the deadline alone does not end it. */
  lemma {:induction false} AfterTheDeadline(world: World, now: nat, limit: nat, n: nat)
    requires Expires(world, limit) && forall t: nat :: t >= now ==> world(t).expired
    ensures StillReading(world, now, limit, n) <==> forall r: nat :: r < n ==> Overtaken(world, now + 3 * r)
    decreases n
  {
    if n > 0 {
      FirstRound(world, now, limit);
      if Overtaken(world, now) {
        AfterTheDeadline(world, now + 3, limit, n - 1);
        ShiftRounds(world, now, n);
      } else {
        assert !Overtaken(world, now + 3 * 0);
      }
    }
  }

  lemma FirstRound(world: World, now: nat, limit: nat)
    requires Expires(world, limit) && forall t: nat :: t >= now ==> world(t).expired
    ensures RoundAt(world, now, limit).Again? <==> Overtaken(world, now)
    ensures Overtaken(world, now) ==> RoundAt(world, now, limit) == Again(now + 3)
  {
    assert world(now + 2).expired;
  }

  lemma ShiftRounds(world: World, now: nat, n: nat)
    requires n > 0 && Overtaken(world, now)
    ensures (forall r: nat :: r < n ==> Overtaken(world, now + 3 * r))
      <==> (forall r: nat :: r < n - 1 ==> Overtaken(world, now + 3 + 3 * r))
  {
    if forall r: nat :: r < n ==> Overtaken(world, now + 3 * r) {
      forall r: nat | r < n - 1 ensures Overtaken(world, now + 3 + 3 * r) {
        assert Overtaken(world, now + 3 * (r + 1));
      }
    }
    if forall r: nat :: r < n - 1 ==> Overtaken(world, now + 3 + 3 * r) {
      forall r: nat | r < n ensures Overtaken(world, now + 3 * r) {
        if r > 0 {
          assert Overtaken(world, now + 3 + 3 * (r - 1));
        }
      }
    }
  }

  // ---- the event reader -----------------------------------------------------------------------------------

  /** The loop of a blocking event read: after an attempt that finds nothing the deadline is looked
      at before the wait. The result, and the moment after it. */
  ghost function EventRead(world: World, now: nat, limit: nat): (r: (Status, nat))
    requires Expires(world, limit)
    ensures now < r.1
    decreases if now < limit then limit - now else 0
  {
    if world(now + 1).attempt != TooEarly then (world(now + 1).attempt, now + 2)
    else if world(now + 2).expired then (TooEarly, now + 3)
    else
      var (changed, later) := Wait(world, now + 3, world(now).counter, limit);
      if changed then EventRead(world, later, limit) else (TooEarly, later)
  }

  /** It needs no assumption on the number of rounds. */
  method BlockingEventRead(world: World, start: nat, ghost limit: nat) returns (status: Status, end: nat)
    requires Expires(world, limit)
    ensures (status, end) == EventRead(world, start, limit)
  {
    var now := start;
    while true
      invariant EventRead(world, now, limit) == EventRead(world, start, limit)
      decreases if now < limit then limit - now else 0
    {
      var previous := world(now).counter;
      status := world(now + 1).attempt;
      if status != TooEarly {
        return status, now + 2;
      }
      if world(now + 2).expired {
        return status, now + 3;
      }
      var changed, later := WaitUntilChanged(world, now + 3, previous, limit);
      if !changed {
        return status, later;
      }
      now := later;
    }
  }

  /** When the last round of the read begins. */
  ghost function LastRound(world: World, now: nat, limit: nat): (last: nat)
    requires Expires(world, limit)
    ensures now <= last
    decreases if now < limit then limit - now else 0
  {
    if world(now + 1).attempt != TooEarly || world(now + 2).expired then now
    else
      var (changed, later) := Wait(world, now + 3, world(now).counter, limit);
      if changed then LastRound(world, later, limit) else now
  }

  /** A round begun at t ends the read: with the status of its attempt, right after it; or too early,
      because the deadline had passed, or passes, or a sleep fails, while the counter has the value
      loaded before the attempt. */
  predicate EndsRound(world: World, t: nat, status: Status, end: nat) {
    && status == world(t + 1).attempt
    && (status != TooEarly ==> end == t + 2)
    && (status == TooEarly ==>
          || (end == t + 3 && world(t + 2).expired)
          || (t + 3 < end && world(end - 1).counter == world(t).counter && (world(end - 1).expired || world(end - 1).gaveUp)))
  }

  /** The result is that of the last attempt. */
  lemma {:induction false} EventReadMeans(world: World, now: nat, limit: nat)
    requires Expires(world, limit)
    ensures var (status, end) := EventRead(world, now, limit);
      EndsRound(world, LastRound(world, now, limit), status, end)
    decreases if now < limit then limit - now else 0
  {
    if world(now + 1).attempt == TooEarly && !world(now + 2).expired {
      WaitExact(world, now + 3, world(now).counter, limit);
      var (changed, later) := Wait(world, now + 3, world(now).counter, limit);
      if changed {
        EventReadMeans(world, later, limit);
        assert EventRead(world, now, limit) == EventRead(world, later, limit);
        assert LastRound(world, now, limit) == LastRound(world, later, limit);
      } else {
        assert EventRead(world, now, limit) == (TooEarly, later) && LastRound(world, now, limit) == now;
      }
    }
  }

  /** The rounds before the last one, from their beginnings: too early, before the deadline, and ended by
      a change of the counter. */
  ghost function EarlierRounds(world: World, now: nat, limit: nat): (starts: seq<nat>)
    requires Expires(world, limit)
    decreases if now < limit then limit - now else 0
  {
    if world(now + 1).attempt != TooEarly || world(now + 2).expired then []
    else
      var (changed, later) := Wait(world, now + 3, world(now).counter, limit);
      if changed then [now] + EarlierRounds(world, later, limit) else []
  }

  /** A round begun at t was too early, and the counter changed before the next one began. */
  predicate Followed(world: World, t: nat, next: nat) {
    t + 3 < next && world(t + 1).attempt == TooEarly && world(next - 1).counter != world(t).counter
  }

  ghost function RoundStart(world: World, now: nat, limit: nat, m: nat): nat
    requires Expires(world, limit) && m <= |EarlierRounds(world, now, limit)|
  {
    var starts := EarlierRounds(world, now, limit);
    if m < |starts| then starts[m] else LastRound(world, now, limit)
  }

  /** All earlier attempts were too early, from the first one on, and each was followed by a new value
      of the counter. */
  lemma {:induction false} EarlierEventAttempts(world: World, now: nat, limit: nat, m: nat)
    requires Expires(world, limit) && m < |EarlierRounds(world, now, limit)|
    ensures RoundStart(world, now, limit, 0) == now
    ensures Followed(world, RoundStart(world, now, limit, m), RoundStart(world, now, limit, m + 1))
    decreases m
  {
    var (changed, later) := Wait(world, now + 3, world(now).counter, limit);
    WaitExact(world, now + 3, world(now).counter, limit);
    FirstOfRounds(world, later, limit);
    ShiftedRound(world, now, limit, m);
    if m > 0 {
      EarlierEventAttempts(world, later, limit, m - 1);
    }
  }

  lemma ShiftedRound(world: World, now: nat, limit: nat, m: nat)
    requires Expires(world, limit) && m < |EarlierRounds(world, now, limit)|
    ensures var later := Wait(world, now + 3, world(now).counter, limit).1;
      && EarlierRounds(world, now, limit) == [now] + EarlierRounds(world, later, limit)
      && RoundStart(world, now, limit, m + 1) == RoundStart(world, later, limit, m)
      && (m > 0 ==> RoundStart(world, now, limit, m) == RoundStart(world, later, limit, m - 1))
  {}

  lemma FirstOfRounds(world: World, now: nat, limit: nat)
    requires Expires(world, limit)
    ensures RoundStart(world, now, limit, 0) == now
  {}

  /** Data announced before the deadline is never answered with too early. */
  lemma NoMissedEvent(world: World, now: nat, limit: nat, m: nat)
    requires Expires(world, limit) && AnnouncedAt(world, m)
    requires forall t: nat :: t <= m ==> !world(t).expired && !world(t).gaveUp
    ensures EventRead(world, now, limit).0 != TooEarly
  {
    EventReadMeans(world, now, limit);
  }

  /** However often the counter changes, it ends at most four moments after the deadline: the end
      of a wait that is under way, and one more attempt. */
  lemma {:induction false} EventReadEnds(world: World, now: nat, limit: nat, deadline: nat)
    requires Expires(world, limit) && forall t: nat :: t >= deadline ==> world(t).expired
    ensures EventRead(world, now, limit).1 <= (if now <= deadline + 1 then deadline + 1 else now) + 3
    decreases if now < limit then limit - now else 0
  {
    if world(now + 1).attempt == TooEarly && !world(now + 2).expired {
      WaitExact(world, now + 3, world(now).counter, limit);
      var (changed, later) := Wait(world, now + 3, world(now).counter, limit);
      assert now + 3 < later - 1 ==> !world(later - 2).expired;
      if changed {
        EventReadEnds(world, later, limit, deadline);
      }
    }
  }
}
