/** Readers that sleep until samples come, and a writer that notifies them by batches: how much
    can be there while a reader still sleeps. */
module SampleWaits {
  import opened ContinuousRing
  import Waiting
  import Modular

  /** The writer: the head it stored, the sync counter, the notifier with the last head it notified
      readers of, and whether the head is stored and the batch test still to come. */
  datatype Writer = Writer(head: nat, counter: nat, signals: Signals, signalled: nat, storing: bool)

  /** Nothing, the store of a head, or the batch test with the increment. */
  predicate Step(a: Writer, b: Writer)
    requires a.signals.size > 0
  {
    || b == a
    || (!a.storing && a.head <= b.head && b == a.(head := b.head, storing := true))
    || (a.storing &&
        var (now, g) := Signal(a.signals, a.head);
        b == a.(signals := g, signalled := if now then a.head else a.signalled,
                counter := if now then a.counter + 1 else a.counter, storing := false))
  }

  predicate WriterOk(w: Writer) {
    && SignalsOk(w.signals, w.signalled) && w.signalled <= w.head
    && (!w.storing ==> w.head < w.signalled + w.signals.size)
  }

  /** A writer over time. */
  ghost predicate Life(life: nat -> Writer) {
    WriterOk(life(0)) && forall k: nat :: StepAt(life, k)
  }

  predicate StepAt(life: nat -> Writer, k: nat) {
    life(k).signals.size == life(0).signals.size > 0 && Step(life(k), life(k + 1))
  }

  lemma {:induction false} LifeOk(life: nat -> Writer, k: nat)
    requires Life(life)
    ensures WriterOk(life(k))
    decreases k
  {
    if k > 0 {
      LifeOk(life, k - 1);
      assert StepAt(life, k - 1);
      SignalBound(life(k - 1).signals, life(k - 1).signalled, life(k - 1).head);
    }
  }

  /** While the counter stands still, so does the last notified head. */
  lemma {:induction false} LifeRises(life: nat -> Writer, j: nat, k: nat)
    requires Life(life) && j <= k
    ensures life(j).counter <= life(k).counter && life(j).head <= life(k).head
    ensures life(j).counter == life(k).counter ==> life(j).signalled == life(k).signalled
    decreases k
  {
    if j < k {
      LifeRises(life, j, k - 1);
      assert StepAt(life, k - 1);
    }
  }

  /** What a blocking read of samples meets: moment t finds the writer as it is at time at(t). */
  ghost predicate Meets(world: Waiting.World, life: nat -> Writer, at: nat -> nat, length: nat, index: nat, count: nat)
    requires length > 0
  {
    && (forall s: nat, t: nat :: s <= t ==> at(s) <= at(t))
    && (forall t: nat :: world(t).counter == life(at(t)).counter)
    && (forall t: nat :: world(t).attempt == Waiting.TooEarly <==> Window(life(at(t)).head, length, index, count) == TooEarly)
  }

  /** A reader that was too early and for which the counter has not changed since it loaded it can
      have missed less than one batch of samples after the index it asked for, unless the writer is
      on its way to the batch test. */
  lemma AsleepBehind(world: Waiting.World, life: nat -> Writer, at: nat -> nat, length: nat, index: nat, count: nat, t: nat, now: nat)
    requires length > 0 && Life(life) && Meets(world, life, at, length, index, count)
    requires t + 1 <= now && world(t + 1).attempt == Waiting.TooEarly && world(now).counter == world(t).counter
    ensures var w := life(at(now)); w.storing || w.head + 1 < index + w.signals.size
  {
    LifeOk(life, at(t));
    LifeOk(life, at(now));
    LifeRises(life, at(t), at(t + 1));
    LifeRises(life, at(t), at(now));
  }

  /** So much can be there when a blocking read of samples ends by saying that it is too early. */
  lemma MissedSamples(world: Waiting.World, life: nat -> Writer, at: nat -> nat, length: nat, index: nat, count: nat,
                      start: nat, limit: nat, n: nat, end: nat)
    requires length > 0 && Life(life) && Meets(world, life, at, length, index, count)
    requires Waiting.Expires(world, limit) && Waiting.EndsWith(world, start, limit, n, Waiting.TooEarly, end)
    ensures end > 0
    ensures var w := life(at(end - 1)); w.storing || w.head + 1 < index + w.signals.size
  {
    Waiting.ResultMeans(world, start, limit, n, Waiting.TooEarly, end);
    AsleepBehind(world, life, at, length, index, count, Waiting.StartOf(world, start, limit, n), end - 1);
  }

  /** The bound is reached for every batch of two or more samples, after any number of batches: a
      reader is told that it is too early although all samples but one of a batch are there. */
  lemma BoundReached(size: nat, batch: nat, length: nat, count: nat)
      returns (world: Waiting.World, life: nat -> Writer, at: nat -> nat, index: nat, end: nat)
    requires size >= 2 && length > 0
    ensures Life(life) && Meets(world, life, at, length, index, count)
    ensures Waiting.Expires(world, 2) && Waiting.EndsWith(world, 0, 2, 0, Waiting.TooEarly, end) && end > 0
    ensures var w := life(at(end - 1)); !w.storing && w.signals.size == size && w.head + 2 == index + size && index <= w.head
  {
    var g := Configured(1, size).(batch := batch);
    var s: nat := Base(batch, size);
    BaseIsProduct(batch, size);
    Modular.Unique(s, size, batch, 0);
    Modular.Unique(s + size - 1, size, batch, size - 1);
    var before := Writer(s, 0, g, s, false);
    life := k => if k == 0 then before else before.(head := s + size - 1, storing := k == 1);
    at := t => if t <= 1 then 0 else 2;
    index, end := s + 1, 3;
    world := t => Waiting.Moment(0, if t <= 1 then Waiting.TooEarly else Waiting.Ok, t >= 2, false);
  }
}
