/** The event writer and reader objects over one flow, executed without interference.
    `EventRuns.CommitCompletes` and `EventRuns.RecoveryCompletes` show that the step-by-step
    protocol, when nothing interrupts it, arrives at the very states promised here. */
module EventFlow {
  import opened MachineWords
  import opened EventWords
  import opened EventProtocol
  import opened EventLayout
  import opened EventCopy
  import opened EventRing
  import opened Wrappers
  import Modular

  /** The part of the flow header that changes; `wakeups` counts the calls that wake everybody
      who sleeps on the counter. */
  class FlowRuntime {
    var headIndex: nat
    var syncCounter: nat
    var lastWriteTime: nat
    var wakeups: nat

    constructor (headIndex: nat, syncCounter: nat)
      ensures this.headIndex == headIndex && this.syncCounter == syncCounter && wakeups == 0
    {
      this.headIndex, this.syncCounter, this.lastWriteTime, this.wakeups := headIndex, syncCounter, 0, 0;
    }

    /** Increments the counter, then wakes the readers that sleep on it. */
    method Notify()
      modifies this
      ensures syncCounter == Incremented(old(syncCounter)) && wakeups == old(wakeups) + 1
      ensures headIndex == old(headIndex) && lastWriteTime == old(lastWriteTime)
    {
      syncCounter := Incremented(syncCounter);
      wakeups := wakeups + 1;
    }
  }

  function Incremented(counter: nat): nat {
    (counter + 1) % COUNTER_LIMIT
  }

  /** The 32-bit counter goes with the unbounded one of the protocol, and changes every time. */
  lemma CounterFollows(counter: nat)
    ensures Incremented(counter % COUNTER_LIMIT) == (counter + 1) % COUNTER_LIMIT != counter % COUNTER_LIMIT
  {}

  /** The record of a newly opened event: version 1, its own size, a whole event, no index. */
  function NewRecord(): (record: seq<byte>)
    ensures IsNew(record)
  {
    seq(INFO_BYTES, k requires 0 <= k < INFO_BYTES => NewByte(k))
  }

  predicate IsNew(record: seq<byte>) {
    |record| == INFO_BYTES && forall k :: 0 <= k < INFO_BYTES ==> record[k] == NewByte(k)
  }

  function NewByte(k: nat): byte {
    if k == VERSION_AT || k == COMPLETE_AT then 1 else if k == SIZE_AT + 1 then 2 else if INDEX_AT <= k then 255 else 0
  }

  const COMPLETE_AT: nat := 288

  /** Handed back as it is, it passes for an empty event of any flow, stamped zero; its index is
      the reserved one. */
  lemma NewRecordAcceptable(record: seq<byte>, capacity: nat)
    requires IsNew(record)
    ensures AcceptableRecord(record, capacity)
    ensures EventSize(Pack(record)) == 0 && Timestamp(Pack(record)) == 0
    ensures Uint64At(record, INDEX_AT) == UNDEFINED
  {
    NewFields(record);
    RecordFields(record);
    FieldsOfWord(record, 1);
  }

  lemma NewFields(record: seq<byte>)
    requires IsNew(record)
    ensures Uint32At(record, VERSION_AT) == 1 && Uint32At(record, SIZE_AT) == INFO_BYTES
    ensures Uint32At(record, FLAGS_AT) == 0 && Uint32At(record, EVENT_SIZE_AT) == 0
    ensures Uint64At(record, TIMESTAMP_AT) == 0 && Uint64At(record, INDEX_AT) == UNDEFINED
  {
    NewUint32(record, VERSION_AT, 1, 0);
    NewUint32(record, SIZE_AT, 0, 2);
    NewUint32(record, FLAGS_AT, 0, 0);
    NewUint32(record, EVENT_SIZE_AT, 0, 0);
    Uniform(record, TIMESTAMP_AT, 0);
    Uniform(record, INDEX_AT, 255);
  }

  lemma NewUint32(record: seq<byte>, at: nat, low: byte, high: byte)
    requires at + 4 <= |record| && record[at] == low && record[at + 1] == high && record[at + 2] == 0 && record[at + 3] == 0
    ensures Uint32At(record, at) == low + 256 * high
  {
    assert record[at..at + 4] == [low, high, 0, 0];
    FourBytes(record[at..at + 4]);
  }

  /** Eight equal bytes. */
  lemma Uniform(record: seq<byte>, at: nat, b: byte)
    requires at + 8 <= |record| && forall k :: at <= k < at + 8 ==> record[k] == b
    ensures Uint64At(record, at) == 0x0101_0101_0101_0101 * b
  {
    SameBytes(record[at..at + 8], b);
  }

  lemma SameBytes(bytes: seq<byte>, b: byte)
    requires |bytes| == 8 && forall k :: 0 <= k < 8 ==> bytes[k] == b
    ensures PackWord(bytes) == 0x0101_0101_0101_0101 * b
  {
    ByteThenRest(bytes, 0);
    ByteThenRest(bytes, 1);
    ByteThenRest(bytes, 2);
    ByteThenRest(bytes, 3);
    ByteThenRest(bytes, 4);
    ByteThenRest(bytes, 5);
    ByteThenRest(bytes, 6);
    ByteThenRest(bytes, 7);
    assert bytes[0..] == bytes && bytes[8..] == [];
  }

  class EventFlowWriter {
    const flow: FlowRuntime
    const ring: EventRingBuffer
    const payload: array<byte>
    var open: bool
    var lastTimestamp: nat
    /** Registered with the domain watcher. */
    var watched: bool

    ghost predicate Valid() {
      && ring.Valid()
      && payload.Length == ring.payloadSize
      && payload as object != ring.mapping
    }

    /** The writer's part of the protocol state. */
    function View(): State
      requires Valid()
      reads this, flow, ring.mapping
    {
      State(ring.count, ring.payloadSize, ring.Slots(), flow.headIndex, flow.syncCounter,
            Idle(lastTimestamp, open), [], [], Settled)
    }

    constructor (flow: FlowRuntime, ring: EventRingBuffer)
      requires ring.Valid()
      ensures Valid() && fresh(payload)
      ensures this.flow == flow && this.ring == ring && !open && lastTimestamp == 0 && !watched
    {
      this.flow, this.ring := flow, ring;
      this.payload := new byte[ring.payloadSize](_ => 0);
      this.open, this.lastTimestamp, this.watched := false, 0, false;
    }

    /** Reads the timestamp of one entry; the copy itself is thrown away. */
    method ReadStamp(index: nat) returns (outcome: Outcome, stamp: nat)
      requires Valid()
      modifies payload
      ensures outcome == OutcomeOf(ReadSlot(SlotAt(old(ring.Slots()), index), index, ring.payloadSize))
      ensures outcome.ReadyOutcome? ==> stamp == Timestamp(SlotAt(old(ring.Slots()), index).words[..INFO_WORDS])
    {
      var info := new byte[INFO_BYTES](_ => 0);
      outcome := ring.Read(index, info, payload);
      stamp := Uint64At(info[..], TIMESTAMP_AT);
      if outcome.ReadyOutcome? {
        ghost var slot := SlotAt(old(ring.Slots()), index);
        ghost var words := ReadSlot(slot, index, ring.payloadSize).words;
        assert words[..INFO_WORDS] == slot.words[..INFO_WORDS];
        DeliveredStamp(words[..INFO_WORDS], index, info[..]);
      }
    }

    /** The constructor's recovery of an existing flow; `ok` is false where it throws. */
    method Recover(now: nat) returns (ok: bool)
      requires Valid() && !open && lastTimestamp == 0
      modifies this`lastTimestamp, this`watched, flow, payload
      ensures ring.mapping[..] == old(ring.mapping[..]) && !open
      ensures watched == (ok || old(watched))
      ensures match EventProtocol.Recover(old(View()))
        case Failed => !ok
        case Advancing(index, stamp) =>
          && ok && lastTimestamp == stamp && flow.headIndex == index && flow.lastWriteTime == now
          && flow.syncCounter == Incremented(old(flow.syncCounter)) && flow.wakeups == old(flow.wakeups) + 1
        case Notifying(stamp) =>
          && ok && lastTimestamp == stamp && flow.headIndex == old(flow.headIndex) && flow.lastWriteTime == old(flow.lastWriteTime)
          && flow.syncCounter == Incremented(old(flow.syncCounter)) && flow.wakeups == old(flow.wakeups) + 1
        case Idle(last, _) =>
          && ok && lastTimestamp == last && flow.headIndex == old(flow.headIndex) && flow.lastWriteTime == old(flow.lastWriteTime)
          && flow.syncCounter == old(flow.syncCounter) && flow.wakeups == old(flow.wakeups)
        case _ => false
    {
      var head := flow.headIndex;
      if head != UNDEFINED {
        var outcome, stamp := ReadStamp(head);
        if outcome != ReadyOutcome {
          return false;
        }
        lastTimestamp := stamp;
      }
      var next := Committed(head);
      var result, stamp := ReadStamp(next);
      if result == ReadyOutcome {
        if stamp < lastTimestamp {
          return false;
        }
        lastTimestamp := stamp;
        flow.lastWriteTime := now;
        flow.headIndex := next;
        head := next;
      } else if result != PendingOutcome {
        return false;
      }
      watched := true;
      if head != UNDEFINED {
        flow.Notify();
      }
      ok := true;
    }

    /** Hands out a record to fill in and the staging buffer, unless an event is open already. */
    method OpenEvent() returns (event: Option<(seq<byte>, array<byte>)>)
      requires Valid()
      modifies this`open
      ensures open && event == if old(open) then None else Some((NewRecord(), payload))
    {
      if open {
        return None;
      }
      open := true;
      return Some((NewRecord(), payload));
    }

    method Cancel() returns (ok: bool)
      requires Valid()
      modifies this`open
      ensures ok == old(open) && !open
    {
      ok := open;
      open := false;
    }

    /** The tests of a commit on the record, the open flag and the timestamp. */
    method CheckRecord(info: seq<byte>) returns (acceptable: bool, stamp: nat)
      requires Valid() && |info| == INFO_BYTES
      ensures stamp == Timestamp(Pack(info))
      ensures acceptable == (open && Acceptable(Pack(info), ring.payloadSize) && lastTimestamp <= stamp)
      ensures acceptable == (open && WellFormed(info, ring.payloadSize) && lastTimestamp <= Uint64At(info, 8))
    {
      FieldsOfWord(info, 1);
      AcceptableBytes(info, ring.payloadSize);
      stamp := Uint64At(info, TIMESTAMP_AT);
      acceptable := open && AcceptableRecord(info, ring.payloadSize) && stamp >= lastTimestamp;
    }

    /** Publishes the staged payload under the next index, or leaves everything as it was. */
    method Commit(info: seq<byte>, now: nat) returns (status: Status)
      requires Valid() && |info| == INFO_BYTES
      modifies this, flow, ring.mapping
      ensures payload[..] == old(payload[..])
      ensures status == CommitStatus(old(View()), Pack(info))
      ensures status == InvalidArgument <==> !old(open) || !WellFormed(info, ring.payloadSize) || Uint64At(info, 8) < old(lastTimestamp)
      ensures status != Started ==> View() == old(View()) && flow.wakeups == old(flow.wakeups) && flow.lastWriteTime == old(flow.lastWriteTime)
      ensures status == Started ==>
        var s, i, e := old(View()), Committed(old(flow.headIndex)), Entry(Pack(info), payload[..EventSize(Pack(info))]);
        && |e.Stream()| <= SlotWords(ring.payloadSize) && flow.wakeups == old(flow.wakeups) + 1 && flow.lastWriteTime == now
        && View() == s.(slots := s.slots[Modular.Wrap(i, ring.count) := PublishedSlot(SlotAt(s.slots, i), i, e)],
                        head := i, counter := Incremented(s.counter), writer := Idle(e.Stamp(), false))
    {
      var acceptable, stamp := CheckRecord(info);
      if !acceptable {
        return InvalidArgument;
      }
      var head := flow.headIndex;
      var index := if head == UNDEFINED then 0 else head + 1;
      status := ring.Publish(index, info, payload[..]);
      if status != Started {
        return;
      }
      Advance(index, stamp, now);
    }

    /** What follows a publication: the head, the writer's own fields, the notification. */
    method Advance(index: nat, stamp: nat, now: nat)
      modifies this, flow
      ensures flow.headIndex == index && lastTimestamp == stamp && !open && flow.lastWriteTime == now
      ensures flow.syncCounter == Incremented(old(flow.syncCounter)) && flow.wakeups == old(flow.wakeups) + 1
    {
      flow.lastWriteTime := now;
      flow.headIndex := index;
      lastTimestamp := stamp;
      open := false;
      flow.Notify();
    }
  }

  datatype GetStatus = Ok | OutOfRangeTooLate | OutOfRangeTooEarly | FlowInvalid

  class EventFlowReader {
    const flow: FlowRuntime
    const ring: EventRingBuffer
    const snapshot: array<byte>
    var nextIndex: nat

    ghost predicate Valid() {
      && ring.Valid()
      && snapshot.Length == ring.payloadSize
      && snapshot as object != ring.mapping
    }

    constructor (flow: FlowRuntime, ring: EventRingBuffer)
      requires ring.Valid()
      ensures Valid() && fresh(snapshot)
      ensures this.flow == flow && this.ring == ring && nextIndex == Oldest(flow.headIndex, ring.count)
      ensures flow.headIndex == UNDEFINED ==> nextIndex == 0
      ensures flow.headIndex != UNDEFINED ==> flow.headIndex + 1 == nextIndex + Min(flow.headIndex + 1, ring.count)
    {
      this.flow, this.ring := flow, ring;
      this.snapshot := new byte[ring.payloadSize](_ => 0);
      this.nextIndex := Oldest(flow.headIndex, ring.count);
    }

    /** One call whose deadline has already passed and during which nobody stores: it
        reports what the ring holds at the cursor and moves the cursor accordingly. */
    method GetEvent(info: array<byte>, flowValid: bool) returns (status: GetStatus)
      requires Valid() && info.Length == INFO_BYTES
      requires info != snapshot && info as object != ring.mapping
      modifies this`nextIndex, snapshot, info
      ensures status != Ok ==> info[..] == old(info[..])
      ensures status == OutOfRangeTooLate && flow.headIndex != UNDEFINED ==> FirstKept(flow.headIndex, ring.count, old(nextIndex), nextIndex)
      ensures var n, oldest := old(nextIndex), Oldest(flow.headIndex, ring.count);
        if n < oldest then status == OutOfRangeTooLate && nextIndex == oldest
        else match ReadSlot(SlotAt(old(ring.Slots()), n), n, ring.payloadSize)
          case Ready(words) => status == Ok && nextIndex == n + 1 && HoldsEntry(words, n, info[..], snapshot[..])
          case Overwritten => status == OutOfRangeTooLate && nextIndex == Max(n + 1, oldest)
          case Invalid => status == FlowInvalid && nextIndex == n
          case Pending => status == (if flowValid then OutOfRangeTooEarly else FlowInvalid) && nextIndex == n
    {
      var oldest := Oldest(flow.headIndex, ring.count);
      if nextIndex < oldest {
        nextIndex := oldest;
        return OutOfRangeTooLate;
      }
      status := ReadNext(info, flowValid);
    }

    /** The ring's answer for the cursor. */
    method ReadNext(info: array<byte>, flowValid: bool) returns (status: GetStatus)
      requires Valid() && info.Length == INFO_BYTES
      requires info != snapshot && info as object != ring.mapping
      modifies this`nextIndex, snapshot, info
      ensures status != Ok ==> info[..] == old(info[..])
      ensures match ReadSlot(SlotAt(old(ring.Slots()), old(nextIndex)), old(nextIndex), ring.payloadSize)
        case Ready(words) => status == Ok && nextIndex == old(nextIndex) + 1 && HoldsEntry(words, old(nextIndex), info[..], snapshot[..])
        case Overwritten => status == OutOfRangeTooLate && nextIndex == Max(old(nextIndex) + 1, Oldest(flow.headIndex, ring.count))
        case Invalid => status == FlowInvalid && nextIndex == old(nextIndex)
        case Pending => status == (if flowValid then OutOfRangeTooEarly else FlowInvalid) && nextIndex == old(nextIndex)
    {
      var received := new byte[INFO_BYTES](_ => 0);
      var result := ring.Read(nextIndex, received, snapshot);
      status := Answer(result, received, info, flowValid);
    }

    /** Moves the cursor and hands out the record as the outcome says. */
    method Answer(result: Outcome, received: array<byte>, info: array<byte>, flowValid: bool) returns (status: GetStatus)
      requires received.Length == info.Length == INFO_BYTES && received != info
      modifies this`nextIndex, info
      ensures info[..] == if result.ReadyOutcome? then received[..] else old(info[..])
      ensures match result
        case ReadyOutcome => status == Ok && nextIndex == old(nextIndex) + 1
        case OverwrittenOutcome => status == OutOfRangeTooLate && nextIndex == Max(old(nextIndex) + 1, Oldest(flow.headIndex, ring.count))
        case InvalidOutcome => status == FlowInvalid && nextIndex == old(nextIndex)
        case PendingOutcome => status == (if flowValid then OutOfRangeTooEarly else FlowInvalid) && nextIndex == old(nextIndex)
    {
      match result {
        case ReadyOutcome =>
          CopyInfo(received, info);
          nextIndex := nextIndex + 1;
          status := Ok;
        case OverwrittenOutcome =>
          nextIndex := Max(nextIndex + 1, Oldest(flow.headIndex, ring.count));
          status := OutOfRangeTooLate;
        case InvalidOutcome =>
          status := FlowInvalid;
        case PendingOutcome =>
          status := if flowValid then OutOfRangeTooEarly else FlowInvalid;
      }
    }

    method CopyInfo(received: array<byte>, info: array<byte>)
      requires received.Length == info.Length == INFO_BYTES && received != info
      modifies info
      ensures info[..] == received[..]
    {
      CopyBytes(info, 0, received[..]);
    }
  }
}
