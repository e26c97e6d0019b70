/** The ring of grain headers of a discrete flow: opening with gaps, committing, cancelling and
    reading, as functions of the shared memory and the writer's fields; and what every run of
    these operations keeps. Grain i lives in slot i % n. */
module DiscreteRing {
  import opened MachineWords
  import Modular

  /** A grain header; `invalid` is the INVALID flag, `rest` the fields no operation inspects. */
  datatype Grain = Grain(index: nat, invalid: bool, rest: int, totalSlices: nat, validSlices: nat) {
    predicate Complete() {
      validSlices == totalSlices
    }

    /** The writer's mark on a grain that was never written. */
    predicate Skipped(i: nat) {
      index == i && invalid && validSlices == 0
    }
  }

  datatype Status = Ok | TooEarly | TooLate | InvalidArg

  /** Shared memory, then the writer's fields. */
  datatype Flow = Flow(slots: seq<Grain>, head: nat, counter: nat, current: nat, last: nat)

  function Slot(slots: seq<Grain>, i: nat): (g: Grain)
    requires slots != []
  {
    slots[Modular.Wrap(i, |slots|)]
  }

  function Put(slots: seq<Grain>, i: nat, g: Grain): (after: seq<Grain>)
    requires slots != []
    ensures |after| == |slots|
  {
    slots[Modular.Wrap(i, |slots|) := g]
  }

  // ---- the operations -----------------------------------------------------------------------------

  /** The headers of skipped grains after invalidation. */
  function Invalidate(slots: seq<Grain>, from: nat, upto: nat): (after: seq<Grain>)
    requires slots != []
    ensures |after| == |slots|
    decreases upto
  {
    if upto <= from then slots
    else
      var before := Invalidate(slots, from, upto - 1);
      Put(before, upto - 1, Slot(before, upto - 1).(index := upto - 1, validSlices := 0, invalid := true))
  }

  function FirstInvalidated(last: nat, index: nat, n: nat): (from: nat)
    requires last == UNDEFINED || last < index
    ensures from <= index
  {
    if last == UNDEFINED then index
    else if index - last - 1 <= n then last + 1 else index - n
  }

  /** A slot that already holds the grain keeps its header. */
  function Reset(g: Grain, index: nat): (h: Grain)
    ensures h.index == index
  {
    if g.index == index then g else g.(index := index, invalid := false, validSlices := 0)
  }

  function Open(f: Flow, index: nat): (r: (Status, Flow))
    requires f.slots != []
    ensures |r.1.slots| == |f.slots|
  {
    if f.last != UNDEFINED && index <= f.last then (InvalidArg, f)
    else
      var slots := Invalidate(f.slots, FirstInvalidated(f.last, index, |f.slots|), index);
      (Ok, f.(slots := Put(slots, index, Reset(Slot(slots, index), index)), current := index))
  }

  function Commit(f: Flow, info: Grain): (r: (Status, Flow))
    requires f.slots != []
    ensures |r.1.slots| == |f.slots|
  {
    if info.index != f.current then (InvalidArg, f)
    else
      (Ok, Flow(Put(f.slots, f.current, info), f.current, (f.counter + 1) % COUNTER_LIMIT,
                if info.Complete() then UNDEFINED else f.current, if info.Complete() then info.index else f.last))
  }

  function Cancel(f: Flow): Flow {
    f.(current := UNDEFINED)
  }

  /** The oldest readable index; the sum is a 64-bit one. */
  function Least(head: nat, n: nat): (least: nat)
    requires n > 0
    ensures n <= head < UNDEFINED ==> least == head + 2 - n
    ensures head < n ==> least == 0
  {
    if head < n then 0
    else if head - n + 2 <= UNDEFINED then head - n + 2
    else head - n + 1 - UNDEFINED
  }

  /** The non-blocking read: the status, and the slot whose header and payload are returned. */
  function Read(slots: seq<Grain>, head: nat, index: nat, minValidSlices: nat): (status: Status)
    requires slots != []
  {
    if index > head then TooEarly
    else if index < Least(head, |slots|) then TooLate
    else
      var g := Slot(slots, index);
      var needed := if minValidSlices <= g.totalSlices then minValidSlices else g.totalSlices;
      if g.validSlices >= needed || g.invalid then Ok else TooEarly
  }

  // ---- what a run keeps --------------------------------------------------------------------------------

  /** What happened so far: the first complete commit, the complete commits, the largest index opened. */
  datatype History = History(first: nat, log: map<nat, Grain>, reach: nat)

  /** The slot of position j holds the committed grain, or the mark of a skipped one, unless a
      later open that was never completed has taken the slot over. */
  predicate Recorded(slots: seq<Grain>, last: nat, h: History, j: nat)
    requires slots != []
  {
    var g := Slot(slots, j);
    || (last < g.index <= h.reach && Modular.Wrap(g.index, |slots|) == Modular.Wrap(j, |slots|))
    || (g.index == j && if j in h.log then g == h.log[j] else g.Skipped(j))
  }

  /** The last n positions, but none before the first commit. */
  predicate Recent(first: nat, last: nat, n: nat, j: nat) {
    first <= j <= last < j + n
  }

  ghost predicate RecentOk(slots: seq<Grain>, last: nat, h: History)
    requires slots != []
  {
    forall j: nat :: Recent(h.first, last, |slots|, j) ==> Recorded(slots, last, h, j)
  }

  /** The opened slot, and the skipped positions before it. */
  predicate Marked(slots: seq<Grain>, j: nat)
    requires slots != []
  {
    Slot(slots, j).Skipped(j)
  }

  ghost predicate PendingOk(slots: seq<Grain>, current: nat, last: nat)
    requires slots != []
  {
    && Slot(slots, current).index == current
    && (last != UNDEFINED ==> last < current && forall j: nat :: Recent(last + 1, current - 1, |slots| - 1, j) ==> Marked(slots, j))
  }

  ghost predicate Inv(f: Flow, h: History) {
    && f.slots != []
    && (forall j :: j in h.log ==> h.log[j].index == j && h.log[j].Complete())
    && (f.current != UNDEFINED ==> f.current <= h.reach && PendingOk(f.slots, f.current, f.last))
    && if f.last == UNDEFINED then h.log == map[]
       else h.first <= f.last <= h.reach && f.last in h.log && RecentOk(f.slots, f.last, h)
  }

  // ---- invalidation -----------------------------------------------------------------------------------------

  /** Every slot is untouched or carries the mark of a skipped position. */
  lemma {:induction false} InvalidateSlot(slots: seq<Grain>, from: nat, upto: nat, s: nat)
    requires slots != [] && s < |slots|
    ensures var g := Invalidate(slots, from, upto)[s];
      g == slots[s] || (from <= g.index < upto && g.Skipped(g.index) && Modular.Wrap(g.index, |slots|) == s)
    decreases upto
  {
    if from < upto {
      InvalidateSlot(slots, from, upto - 1, s);
    }
  }

  /** The last n skipped positions carry their marks. */
  lemma {:induction false} InvalidateMarks(slots: seq<Grain>, from: nat, upto: nat, j: nat)
    requires slots != [] && from <= j < upto <= j + |slots|
    ensures Marked(Invalidate(slots, from, upto), j)
    decreases upto
  {
    if j < upto - 1 {
      InvalidateMarks(slots, from, upto - 1, j);
      Different(j, upto - 1, |slots|);
    }
  }

  lemma Different(i: nat, j: nat, n: nat)
    requires n > 0 && i < j < i + n
    ensures Modular.Wrap(i, n) != Modular.Wrap(j, n)
  {
    if Modular.Wrap(i, n) == Modular.Wrap(j, n) {
      Modular.Turn(i, j, n);
    }
  }

  // ---- opening ------------------------------------------------------------------------------------------------

  /** A slot after an open: untouched, a mark, or the opened grain. */
  lemma OpenSlot(f: Flow, index: nat, s: nat)
    requires f.slots != [] && s < |f.slots| && Open(f, index).0 == Ok
    ensures var g := Open(f, index).1.slots[s];
      || g == f.slots[s]
      || (g.index <= index && Modular.Wrap(g.index, |f.slots|) == s && (f.last != UNDEFINED ==> f.last < g.index))
  {
    InvalidateSlot(f.slots, FirstInvalidated(f.last, index, |f.slots|), index, s);
  }

  lemma OpenPending(f: Flow, index: nat)
    requires f.slots != [] && Open(f, index).0 == Ok
    ensures PendingOk(Open(f, index).1.slots, index, f.last)
  {
    var n := |f.slots|;
    var from := FirstInvalidated(f.last, index, n);
    var slots := Invalidate(f.slots, from, index);
    if f.last != UNDEFINED {
      forall j: nat | Recent(f.last + 1, index - 1, n - 1, j) ensures Marked(Open(f, index).1.slots, j) {
        InvalidateMarks(f.slots, from, index, j);
        Different(j, index, n);
      }
    }
  }

  lemma OpenRecent(f: Flow, index: nat, h: History)
    requires f.slots != [] && Open(f, index).0 == Ok && f.last != UNDEFINED && RecentOk(f.slots, f.last, h)
    ensures RecentOk(Open(f, index).1.slots, f.last, h.(reach := if index > h.reach then index else h.reach))
  {
    var k := h.(reach := if index > h.reach then index else h.reach);
    forall j: nat | Recent(k.first, f.last, |f.slots|, j) ensures Recorded(Open(f, index).1.slots, f.last, k, j) {
      OpenSlot(f, index, Modular.Wrap(j, |f.slots|));
      assert Recorded(f.slots, f.last, h, j);
    }
  }

  // ---- committing -----------------------------------------------------------------------------------------------

  /** Storing the header of the open grain disturbs neither the marks before it nor the record. */
  lemma CommitPending(slots: seq<Grain>, last: nat, info: Grain)
    requires slots != [] && PendingOk(slots, info.index, last)
    ensures PendingOk(Put(slots, info.index, info), info.index, last)
  {
    if last != UNDEFINED {
      forall j: nat | Recent(last + 1, info.index - 1, |slots| - 1, j) ensures Marked(Put(slots, info.index, info), j) {
        Different(j, info.index, |slots|);
        assert Marked(slots, j);
      }
    }
  }

  lemma CommitRecent(slots: seq<Grain>, last: nat, h: History, info: Grain)
    requires slots != [] && last < info.index <= h.reach && RecentOk(slots, last, h)
    ensures RecentOk(Put(slots, info.index, info), last, h)
  {
    forall j: nat | Recent(h.first, last, |slots|, j) ensures Recorded(Put(slots, info.index, info), last, h, j) {
      assert Recorded(slots, last, h, j);
    }
  }

  /** A complete commit moves the record: old positions, marks and the new grain. */
  lemma CompleteRecent(slots: seq<Grain>, last: nat, h: History, info: Grain)
    requires slots != [] && last != UNDEFINED
    requires PendingOk(slots, info.index, last) && RecentOk(slots, last, h)
    requires forall j :: j in h.log ==> j <= last
    ensures RecentOk(Put(slots, info.index, info), info.index, h.(log := h.log[info.index := info]))
  {
    var n, c, after, k := |slots|, info.index, Put(slots, info.index, info), h.(log := h.log[info.index := info]);
    forall j: nat | Recent(k.first, c, n, j) ensures Recorded(after, c, k, j) {
      if j < c {
        Different(j, c, n);
        if j > last {
          assert Recent(last + 1, c - 1, n - 1, j);
          assert Marked(slots, j);
        } else {
          assert Recent(h.first, last, n, j);
          OldPosition(slots, h, last, c, j);
        }
      }
    }
  }

  /** A slot taken over by a later open belongs to a position beyond the new grain. */
  lemma OldPosition(slots: seq<Grain>, h: History, last: nat, c: nat, j: nat)
    requires slots != [] && Recorded(slots, last, h, j) && j <= last < c < j + |slots|
    ensures Slot(slots, j).index > last ==> Slot(slots, j).index > c
  {
    if Slot(slots, j).index > last {
      Modular.Turn(j, Slot(slots, j).index, |slots|);
    }
  }

  // ---- runs ---------------------------------------------------------------------------------------------------------

  datatype Operation = OpenGrain(index: nat) | CommitGrain(info: Grain) | CancelGrain

  function Apply(f: Flow, op: Operation): (g: Flow)
    requires f.slots != []
    ensures |g.slots| == |f.slots|
  {
    match op
    case OpenGrain(index) => Open(f, index).1
    case CommitGrain(info) => Commit(f, info).1
    case CancelGrain => Cancel(f)
  }

  function Remember(f: Flow, h: History, op: Operation): History
    requires f.slots != []
  {
    match op
    case OpenGrain(index) => if Open(f, index).0 == Ok && index > h.reach then h.(reach := index) else h
    case CommitGrain(info) =>
      if Commit(f, info).0 == Ok && info.Complete()
      then h.(first := if f.last == UNDEFINED then info.index else h.first, log := h.log[info.index := info])
      else h
    case CancelGrain => h
  }

  /** Calls with a real index. */
  predicate Proper(op: Operation) {
    (op.OpenGrain? ==> op.index < UNDEFINED) && (op.CommitGrain? ==> op.info.index < UNDEFINED)
  }

  ghost predicate LogBounded(f: Flow, h: History) {
    && h.reach < UNDEFINED
    && (f.last != UNDEFINED ==> forall j :: j in h.log ==> h.first <= j <= f.last)
  }

  lemma StepInv(f: Flow, h: History, op: Operation)
    requires Inv(f, h) && LogBounded(f, h) && Proper(op)
    ensures Inv(Apply(f, op), Remember(f, h, op)) && LogBounded(Apply(f, op), Remember(f, h, op))
  {
    match op
    case OpenGrain(index) =>
      if Open(f, index).0 == Ok {
        OpenPending(f, index);
        if f.last != UNDEFINED {
          OpenRecent(f, index, h);
        }
      }
    case CommitGrain(info) =>
      if Commit(f, info).0 == Ok {
        CommitInv(f, h, info);
      }
    case CancelGrain =>
  }

  lemma CommitInv(f: Flow, h: History, info: Grain)
    requires Inv(f, h) && LogBounded(f, h) && info.index == f.current < UNDEFINED
    ensures var op := CommitGrain(info); Inv(Apply(f, op), Remember(f, h, op)) && LogBounded(Apply(f, op), Remember(f, h, op))
  {
    CommitPending(f.slots, f.last, info);
    if f.last != UNDEFINED {
      CommitRecent(f.slots, f.last, h, info);
      CompleteRecent(f.slots, f.last, h, info);
    } else if info.Complete() {
      FirstRecent(f.slots, info, Remember(f, h, CommitGrain(info)));
    }
  }

  lemma FirstRecent(slots: seq<Grain>, info: Grain, h: History)
    requires slots != [] && h.first == info.index && info.index in h.log && h.log[info.index] == info
    ensures RecentOk(Put(slots, info.index, info), info.index, h)
  {}

  function Run(f: Flow, h: History, ops: seq<Operation>): (r: (Flow, History))
    requires f.slots != []
    ensures |r.0.slots| == |f.slots|
  {
    if ops == [] then (f, h)
    else
      var (g, k) := Run(f, h, ops[..|ops| - 1]);
      (Apply(g, ops[|ops| - 1]), Remember(g, k, ops[|ops| - 1]))
  }

  /** A writer that has just been created, on a new flow or on one in use: nothing is open, nothing
      was committed by it, and the headers and the head are what earlier writers left. */
  predicate FreshWriter(f: Flow) {
    f.slots != [] && f.current == UNDEFINED && f.last == UNDEFINED
  }

  /** A new flow with a fresh writer. */
  function Initial(n: nat, rest: int, totalSlices: nat): (f: Flow)
    ensures n > 0 ==> FreshWriter(f)
  {
    Flow(seq(n, _ => Grain(0, false, rest, totalSlices, 0)), 0, 0, UNDEFINED, UNDEFINED)
  }

  const NOTHING: History := History(0, map[], 0)

  ghost predicate AllProper(ops: seq<Operation>) {
    forall k :: 0 <= k < |ops| ==> Proper(ops[k])
  }

  lemma {:induction false} RunInv(f0: Flow, ops: seq<Operation>)
    requires FreshWriter(f0) && AllProper(ops)
    ensures var (f, h) := Run(f0, NOTHING, ops); Inv(f, h) && LogBounded(f, h)
    decreases |ops|
  {
    if ops != [] {
      var earlier := ops[..|ops| - 1];
      RunInv(f0, earlier);
      var (f, h) := Run(f0, NOTHING, earlier);
      StepInv(f, h, ops[|ops| - 1]);
    }
  }

  /** After any run of a fresh writer that ends with a complete commit, each of the last n positions
      since its first one, if nothing a full turn beyond it was ever opened, holds its committed
      header or the mark of a skipped grain, whatever was in the ring before. */
  lemma RingAfterCommit(f0: Flow, ops: seq<Operation>, info: Grain, j: nat)
    requires FreshWriter(f0) && AllProper(ops) && info.index < UNDEFINED && info.Complete()
    requires var (f, h) := Run(f0, NOTHING, ops);
      && f.current == info.index && h.reach < j + |f.slots|
      && (if f.last == UNDEFINED then info.index else h.first) <= j <= info.index < j + |f.slots|
    ensures var (f, h) := Run(f0, NOTHING, ops + [CommitGrain(info)]);
      && f.head == info.index && Slot(f.slots, j).index == j
      && if j in h.log then Slot(f.slots, j) == h.log[j] else Slot(f.slots, j).Skipped(j)
  {
    var more := ops + [CommitGrain(info)];
    RunInv(f0, more);
    assert more[..|ops|] == ops;
    var (f, h) := Run(f0, NOTHING, more);
    assert Recent(h.first, f.last, |f.slots|, j);
    assert Recorded(f.slots, f.last, h, j);
    if f.last < Slot(f.slots, j).index && Slot(f.slots, j).index != j {
      Modular.Turn(j, Slot(f.slots, j).index, |f.slots|);
    }
  }

  // ---- which grains can be read ------------------------------------------------------------------------------------

  /** All statuses of a read: too early past the head, too late before the window; in between, a grain
      with all its slices, or an invalid one, is readable however many slices are asked for, and any
      other one exactly for as many as are there. */
  lemma ReadStatuses(slots: seq<Grain>, head: nat, i: nat, minValidSlices: nat)
    requires slots != []
    ensures var status, g := Read(slots, head, i, minValidSlices), Slot(slots, i);
      && (head < i ==> status == TooEarly)
      && (i <= head && i < Least(head, |slots|) ==> status == TooLate)
      && (Least(head, |slots|) <= i <= head ==>
            && (g.totalSlices <= g.validSlices || g.invalid ==> status == Ok)
            && (g.validSlices < g.totalSlices && !g.invalid ==> status == if minValidSlices <= g.validSlices then Ok else TooEarly))
  {}

  /** The window ends at the head and holds n - 1 positions, or all from zero on. */
  lemma WindowLength(head: nat, n: nat)
    requires n >= 2 && head < UNDEFINED
    ensures Least(head, n) <= head && head - Least(head, n) + 1 == if n <= head then n - 1 else head + 1
  {}

  /** In any run of a fresh writer, after a complete commit: every readable position since its first
      commit that was not overrun is readable however many slices are asked for. */
  lemma GrainsReadable(f0: Flow, ops: seq<Operation>, info: Grain, j: nat, minValidSlices: nat)
    requires FreshWriter(f0) && AllProper(ops) && info.index < UNDEFINED && info.Complete()
    requires var (f, h) := Run(f0, NOTHING, ops);
      && f.current == info.index && h.reach < j + |f.slots|
      && (if f.last == UNDEFINED then info.index else h.first) <= j <= info.index < j + |f.slots|
      && Least(info.index, |f.slots|) <= j
    ensures var f := Run(f0, NOTHING, ops + [CommitGrain(info)]).0;
      Read(f.slots, f.head, j, minValidSlices) == Ok && Slot(f.slots, j).index == j
  {
    RingAfterCommit(f0, ops, info, j);
    RunInv(f0, ops + [CommitGrain(info)]);
    var (f, h) := Run(f0, NOTHING, ops + [CommitGrain(info)]);
    ReadStatuses(f.slots, f.head, j, minValidSlices);
  }

  /** A committed grain, complete or not, is readable right away for exactly the slices it has. */
  lemma CommittedReadable(f: Flow, info: Grain, minValidSlices: nat)
    requires |f.slots| >= 2 && Commit(f, info).0 == Ok && info.index < UNDEFINED
    ensures var g := Commit(f, info).1;
      Read(g.slots, g.head, info.index, minValidSlices) == Ok <==>
        info.totalSlices <= info.validSlices || info.invalid || minValidSlices <= info.validSlices
  {
    WindowLength(info.index, |f.slots|);
    ReadStatuses(Commit(f, info).1.slots, info.index, info.index, minValidSlices);
  }

  /** Every accepted commit changes the counter that blocked readers sleep on; it comes back to a
      value only after 2^32 accepted commits. */
  lemma {:induction false} CommitsCounted(f: Flow, h: History, ops: seq<Operation>)
    requires f.slots != []
    ensures Run(f, h, ops).0.counter % COUNTER_LIMIT == (f.counter + Commits(f, h, ops)) % COUNTER_LIMIT
    decreases |ops|
  {
    if ops != [] {
      var n := |ops| - 1;
      CommitsCounted(f, h, ops[..n]);
      var g := Run(f, h, ops[..n]).0;
      CountOneMore(g.counter, f.counter + Commits(f, h, ops[..n]));
      assert Run(f, h, ops).0 == Apply(g, ops[n]);
      assert Apply(g, ops[n]).counter == if Accepted(g, ops[n]) then (g.counter + 1) % COUNTER_LIMIT else g.counter;
    }
  }

  lemma CountOneMore(a: nat, b: nat)
    requires a % COUNTER_LIMIT == b % COUNTER_LIMIT
    ensures ((a + 1) % COUNTER_LIMIT) % COUNTER_LIMIT == (b + 1) % COUNTER_LIMIT
  {}

  function Commits(f: Flow, h: History, ops: seq<Operation>): nat
    requires f.slots != []
  {
    if ops == [] then 0
    else
      var n := |ops| - 1;
      Commits(f, h, ops[..n]) + if Accepted(Run(f, h, ops[..n]).0, ops[n]) then 1 else 0
  }

  // ---- when a position is lost -------------------------------------------------------------------------------------

  /** An open takes a position of the last turn out of its slot exactly if it is for a grain a
      full turn later or more. */
  lemma PositionLost(f: Flow, index: nat, j: nat)
    requires f.slots != [] && Open(f, index).0 == Ok && f.last != UNDEFINED
    requires j <= f.last < j + |f.slots| && Slot(f.slots, j).index == j
    ensures Slot(Open(f, index).1.slots, j).index > j || Slot(Open(f, index).1.slots, j) == Slot(f.slots, j)
    ensures Slot(Open(f, index).1.slots, j).index != j <==> j + |f.slots| <= index
  {
    var n, after := |f.slots|, Open(f, index).1.slots;
    var s := Modular.Wrap(j, n);
    OpenSlot(f, index, s);
    if index < j + n {
      if after[s] != f.slots[s] {
        Modular.Turn(j, after[s].index, n);
      }
    } else {
      var m := Representative(index, s, n);
      if m < j + n {
        Modular.Turn(j, m, n);
      }
      if m < index {
        InvalidateMarks(f.slots, FirstInvalidated(f.last, index, n), index, m);
      }
    }
  }

  /** The last position up to `top` in slot s. */
  lemma {:induction false} Representative(top: nat, s: nat, n: nat) returns (m: nat)
    requires s < n <= top + 1
    ensures m <= top < m + n && Modular.Wrap(m, n) == s
    decreases top
  {
    if top < 2 * n {
      m := if n + s <= top then n + s else s;
    } else {
      m := Representative(top - n, s, n);
      m := m + n;
    }
  }

  /** The slot of position j holds j, and nothing a turn later is open or committed. */
  predicate Kept(f: Flow, j: nat)
    requires f.slots != []
  {
    && Slot(f.slots, j).index == j && f.last != UNDEFINED && j <= f.last < j + |f.slots|
    && (f.current == UNDEFINED || f.current < j + |f.slots|)
  }

  /** The slot of position j holds a later grain. */
  predicate Lost(f: Flow, j: nat)
    requires f.slots != []
  {
    Slot(f.slots, j).index > j && f.last != UNDEFINED && j <= f.last
  }

  /** An open a turn beyond position j. */
  predicate Overruns(op: Operation, j: nat, n: nat) {
    op.OpenGrain? && j + n <= op.index
  }

  lemma StepKept(f: Flow, h: History, op: Operation, j: nat)
    requires Inv(f, h) && LogBounded(f, h) && Proper(op) && (Kept(f, j) || Lost(f, j))
    ensures if Kept(f, j) && !Overruns(op, j, |f.slots|) then Kept(Apply(f, op), j) else Lost(Apply(f, op), j)
  {
    match op
    case OpenGrain(index) =>
      if Open(f, index).0 == Ok {
        OpenSlot(f, index, Modular.Wrap(j, |f.slots|));
        if Kept(f, j) {
          PositionLost(f, index, j);
        }
      }
    case CommitGrain(info) =>
      if Commit(f, info).0 == Ok && Kept(f, j) {
        Different(j, info.index, |f.slots|);
      }
    case CancelGrain =>
  }

  /** After a complete commit, each position of the last turn that is in its slot stays there
      over any further run exactly as long as no grain a full turn later is opened. */
  lemma {:induction false} PositionKept(f: Flow, h: History, ops: seq<Operation>, j: nat)
    requires Inv(f, h) && LogBounded(f, h) && AllProper(ops)
    requires f.current == UNDEFINED && f.last != UNDEFINED && j <= f.last < j + |f.slots| && Slot(f.slots, j).index == j
    ensures var (g, k) := Run(f, h, ops);
      && Inv(g, k) && LogBounded(g, k)
      && (Slot(g.slots, j).index == j <==> forall m :: 0 <= m < |ops| ==> !Overruns(ops[m], j, |f.slots|))
      && if Slot(g.slots, j).index == j then Kept(g, j) else Lost(g, j)
    decreases |ops|
  {
    if ops != [] {
      var earlier, op := ops[..|ops| - 1], ops[|ops| - 1];
      PositionKept(f, h, earlier, j);
      var (g, k) := Run(f, h, earlier);
      StepInv(g, k, op);
      StepKept(g, k, op, j);
      assert forall m :: 0 <= m < |earlier| ==> earlier[m] == ops[m];
    }
  }

  // ---- where the code needs care ---------------------------------------------------------------------------------

  /** The head follows the open grain, so after a partial commit it can move backwards: a writer
      commits part of grain c, then opens and completes an earlier grain b. */
  lemma PartialCommitMovesHeadBack(f: Flow, b: nat, c: nat, part: Grain, whole: Grain)
    requires f.slots != [] && f.last != UNDEFINED && f.last < b < c < UNDEFINED
    requires part.index == c && !part.Complete() && whole.index == b && whole.Complete()
    ensures var f1 := Commit(Open(f, c).1, part).1;
      var f2 := Commit(Open(f1, b).1, whole);
      f1.head == c && f2.0 == Ok && f2.1.head == b
  {
    assert Open(f, c).0 == Ok;
    var f1 := Commit(Open(f, c).1, part).1;
    assert f1.last == f.last;
    assert Open(f1, b).0 == Ok;
  }

  /** The flow and its history after the first k operations. */
  function StateAt(f: Flow, h: History, ops: seq<Operation>, k: nat): (r: (Flow, History))
    requires f.slots != [] && k <= |ops|
    ensures |r.0.slots| == |f.slots|
  {
    Run(f, h, ops[..k])
  }

  lemma StateStep(f: Flow, h: History, ops: seq<Operation>, k: nat)
    requires f.slots != [] && k < |ops|
    ensures var (g, m) := StateAt(f, h, ops, k);
      StateAt(f, h, ops, k + 1) == (Apply(g, ops[k]), Remember(g, m, ops[k]))
  {
    assert ops[..k + 1][..k] == ops[..k];
  }

  /** A commit that is accepted, and one that moves the head back. */
  predicate Accepted(f: Flow, op: Operation)
    requires f.slots != []
  {
    op.CommitGrain? && Commit(f, op.info).0 == Ok
  }

  predicate Backward(f: Flow, op: Operation)
    requires f.slots != []
  {
    Accepted(f, op) && op.info.index < f.head
  }

  /** In any run the head never decreases exactly if no accepted commit is for an index below
      the head at that moment. */
  lemma HeadsRiseIff(f: Flow, h: History, ops: seq<Operation>)
    requires f.slots != []
    ensures (forall a: nat, b: nat :: a <= b <= |ops| ==> StateAt(f, h, ops, a).0.head <= StateAt(f, h, ops, b).0.head)
      <==> forall k: nat :: k < |ops| ==> !Backward(StateAt(f, h, ops, k).0, ops[k])
  {
    if forall k: nat :: k < |ops| ==> !Backward(StateAt(f, h, ops, k).0, ops[k]) {
      forall a: nat, b: nat | a <= b <= |ops| ensures StateAt(f, h, ops, a).0.head <= StateAt(f, h, ops, b).0.head {
        HeadsRise(f, h, ops, a, b);
      }
    } else {
      var k: nat :| k < |ops| && Backward(StateAt(f, h, ops, k).0, ops[k]);
      StateStep(f, h, ops, k);
      assert StateAt(f, h, ops, k).0.head > StateAt(f, h, ops, k + 1).0.head;
    }
  }

  lemma {:induction false} HeadsRise(f: Flow, h: History, ops: seq<Operation>, a: nat, b: nat)
    requires f.slots != [] && a <= b <= |ops|
    requires forall k: nat :: a <= k < b ==> !Backward(StateAt(f, h, ops, k).0, ops[k])
    ensures StateAt(f, h, ops, a).0.head <= StateAt(f, h, ops, b).0.head
    decreases b
  {
    if a < b {
      HeadsRise(f, h, ops, a, b - 1);
      StateStep(f, h, ops, b - 1);
      assert !Backward(StateAt(f, h, ops, b - 1).0, ops[b - 1]);
    }
  }

  /** The head is the last complete commit, if there was one. */
  predicate HeadFollows(f: Flow) {
    f.last != UNDEFINED ==> f.head == f.last
  }

  lemma {:induction false} HeadFollowsLast(f0: Flow, ops: seq<Operation>, k: nat)
    requires FreshWriter(f0) && AllProper(ops) && k <= |ops|
    requires forall m: nat :: m < k && ops[m].CommitGrain? ==> ops[m].info.Complete()
    ensures var (f, h) := StateAt(f0, NOTHING, ops, k); Inv(f, h) && HeadFollows(f)
    decreases k
  {
    RunInv(f0, ops[..k]);
    if k > 0 {
      HeadFollowsLast(f0, ops, k - 1);
      StateStep(f0, NOTHING, ops, k - 1);
    }
  }

  /** In a run of complete commits of a fresh writer each accepted commit after the first raises the
      head. */
  lemma CompleteCommitsRaiseHead(f0: Flow, ops: seq<Operation>, k: nat, m: nat)
    requires FreshWriter(f0) && AllProper(ops) && k < m < |ops|
    requires forall l: nat :: l < |ops| && ops[l].CommitGrain? ==> ops[l].info.Complete()
    requires Accepted(StateAt(f0, NOTHING, ops, k).0, ops[k]) && Accepted(StateAt(f0, NOTHING, ops, m).0, ops[m])
    ensures ops[k].info.index == StateAt(f0, NOTHING, ops, k + 1).0.head <= StateAt(f0, NOTHING, ops, m).0.head < StateAt(f0, NOTHING, ops, m + 1).0.head
  {
    StateStep(f0, NOTHING, ops, k);
    StateStep(f0, NOTHING, ops, m);
    forall l: nat | k < l < |ops| ensures StateAt(f0, NOTHING, ops, l).0.last != UNDEFINED && !Backward(StateAt(f0, NOTHING, ops, l).0, ops[l]) {
      HeadFollowsLast(f0, ops, l);
      OnceCommitted(f0, NOTHING, ops, k + 1, l);
    }
    HeadsRise(f0, NOTHING, ops, k + 1, m);
    HeadFollowsLast(f0, ops, m);
  }

  lemma {:induction false} OnceCommitted(f: Flow, h: History, ops: seq<Operation>, a: nat, b: nat)
    requires f.slots != [] && a <= b <= |ops| && AllProper(ops) && StateAt(f, h, ops, a).0.last != UNDEFINED
    ensures StateAt(f, h, ops, b).0.last != UNDEFINED
    decreases b
  {
    if a < b {
      OnceCommitted(f, h, ops, a, b - 1);
      StateStep(f, h, ops, b - 1);
    }
  }

  /** A commit without an open grain is rejected exactly when the header does not carry the
      reserved index; with it, the head becomes undefined. */
  lemma CommitWithoutOpen(f: Flow, info: Grain)
    requires f.slots != [] && f.current == UNDEFINED
    ensures Commit(f, info) == (InvalidArg, f) <==> info.index != UNDEFINED
    ensures info.index == UNDEFINED ==> Commit(f, info).1.head == UNDEFINED
  {}
}
