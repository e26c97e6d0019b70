/** The continuous flow writer and reader over shared sample memory. Ghost fields of the
    writer record the unbounded stream its commits stand for. */
module ContinuousFlow {
  import opened MachineWords
  import opened ContinuousRing
  import Modular

  /** The shared memory of a flow. */
  class ContinuousFlowData {
    const channels: nat
    const length: nat
    const data: array<int>
    var headIndex: nat
    var syncCounter: nat
    /** How often everybody who sleeps on the counter was woken. */
    var wakeups: nat

    ghost predicate Valid()
      reads this
    {
      && channels > 0 && length > 0
      && data.Length == Base(channels, length)
      && headIndex + length < WORD_LIMIT && syncCounter < COUNTER_LIMIT
    }

    ghost function Content(): (rings: seq<seq<int>>)
      requires data.Length == Base(channels, length)
      reads data
    {
      Rings(data[..], length, channels)
    }

    /** A new flow: zeroed memory, head at zero. */
    constructor (channels: nat, length: nat)
      requires channels > 0 && 0 < length < WORD_LIMIT
      ensures Valid() && fresh(data) && this.channels == channels && this.length == length
      ensures headIndex == 0 && syncCounter == 0
      ensures forall i :: 0 <= i < data.Length ==> data[i] == 0
    {
      this.channels, this.length := channels, length;
      this.data := new int[Base(channels, length)](_ => 0);
      this.headIndex, this.syncCounter, this.wakeups := 0, 0, 0;
    }
  }

  // ---- all channels -----------------------------------------------------------------------------

  ghost predicate HoldsAll(rings: seq<seq<int>>, streams: seq<seq<int>>, hidden: set<nat>) {
    && |rings| == |streams|
    && forall c :: 0 <= c < |streams| ==> Holds(rings[c], streams[c], hidden)
  }

  ghost predicate BlankAll(rings: seq<seq<int>>, hidden: set<nat>) {
    forall c :: 0 <= c < |rings| ==> Blank(rings[c], hidden)
  }

  ghost predicate Even(rows: seq<seq<int>>, size: nat) {
    forall c :: 0 <= c < |rows| ==> |rows[c]| == size
  }

  /** The first n rings cleared. */
  ghost function ClearFirst(rings: seq<seq<int>>, cells: set<nat>, n: nat): (after: seq<seq<int>>)
    ensures |after| == |rings|
    ensures forall c :: 0 <= c < |rings| ==> after[c] == if c < n then Cleared(rings[c], cells) else rings[c]
  {
    seq(|rings|, c requires 0 <= c < |rings| => if c < n then Cleared(rings[c], cells) else rings[c])
  }

  ghost function ClearAll(rings: seq<seq<int>>, cells: set<nat>): (after: seq<seq<int>>)
    ensures |after| == |rings|
    ensures forall c :: 0 <= c < |rings| ==> after[c] == Cleared(rings[c], cells)
  {
    ClearFirst(rings, cells, |rings|)
  }

  /** Every channel's stream after committing the range that ends at start + count. */
  ghost function ExtendAll(streams: seq<seq<int>>, rings: seq<seq<int>>, head: nat, length: nat, start: nat, count: nat): (longer: seq<seq<int>>)
    requires |rings| == |streams| && Even(rings, length) && Even(streams, head) && length > 0 && head <= start
    ensures |longer| == |streams| && Even(longer, start + count)
    ensures forall c :: 0 <= c < |streams| ==> longer[c] == Extended(streams[c], start, Samples(rings[c], start, count))
  {
    seq(|streams|, c requires 0 <= c < |streams| => Extended(streams[c], start, Samples(rings[c], start, count)))
  }

  ghost function ShownAll(rings: seq<seq<int>>, length: nat, head: nat): (streams: seq<seq<int>>)
    requires Even(rings, length) && length > 0
    ensures |streams| == |rings| && Even(streams, head)
    ensures forall c :: 0 <= c < |rings| ==> streams[c] == Shown(rings[c], head)
  {
    seq(|rings|, c requires 0 <= c < |rings| => Shown(rings[c], head))
  }

  lemma ShownHoldsAll(rings: seq<seq<int>>, length: nat, start: nat, count: nat, hidden: set<nat>)
    requires Even(rings, length) && length > 0
    ensures HoldsAll(rings, ShownAll(rings, length, start + count), hidden)
    ensures forall c :: 0 <= c < |rings| ==> ShownAll(rings, length, start + count)[c][start..] == Samples(rings[c], start, count)
  {
    var streams := ShownAll(rings, length, start + count);
    forall c | 0 <= c < |rings|
      ensures Holds(rings[c], streams[c], hidden) && streams[c][start..] == Samples(rings[c], start, count)
    {
      ShownHolds(rings[c], start, count, hidden);
    }
  }

  /** The streams after committing the range that ends at `index`. A writer that joined a flow in
      use takes over what the rings show; otherwise the streams grow. */
  ghost function Published(streams: seq<seq<int>>, rings: seq<seq<int>>, joining: bool, head: nat, length: nat, index: nat, count: nat)
    : (longer: seq<seq<int>>)
    requires |rings| == |streams| && Even(rings, length) && Even(streams, head) && length > 0
    requires count <= index && (joining || head <= index - count)
    ensures |longer| == |streams| && Even(longer, index)
  {
    if joining then ShownAll(rings, length, index) else ExtendAll(streams, rings, head, length, index - count, count)
  }

  /** What memory holds for a writer: a window on each stream, all blank before the first commit
      on a new flow, and the head where the writer left it. */
  ghost predicate RingsOk(rings: seq<seq<int>>, streams: seq<seq<int>>, head: nat, last: nat, joined: bool, hidden: set<nat>) {
    && Even(streams, head) && HoldsAll(rings, streams, hidden)
    && if last == UNDEFINED then joined || (head == 0 && BlankAll(rings, hidden)) else last == head
  }

  lemma CommitExtendsAll(rings: seq<seq<int>>, length: nat, streams: seq<seq<int>>, head: nat, dirty: set<nat>, start: nat, count: nat)
    requires length > 0 && count <= length && head <= start
    requires Even(rings, length) && Even(streams, head)
    requires HoldsAll(rings, streams, dirty + Cells(start, count, length))
    ensures var gap := Gap(head, start, count, length);
      HoldsAll(ClearAll(rings, gap), ExtendAll(streams, rings, head, length, start, count), dirty - gap - Cells(start, count, length))
  {
    var gap := Gap(head, start, count, length);
    forall c | 0 <= c < |streams|
      ensures Holds(ClearAll(rings, gap)[c], ExtendAll(streams, rings, head, length, start, count)[c], dirty - gap - Cells(start, count, length))
    {
      CommitExtends(rings[c], streams[c], dirty, start, count);
    }
  }

  lemma FirstCommitAll(rings: seq<seq<int>>, length: nat, streams: seq<seq<int>>, dirty: set<nat>, start: nat, count: nat)
    requires length > 0 && count <= length && |rings| == |streams|
    requires Even(rings, length) && Even(streams, 0)
    requires BlankAll(rings, dirty + Cells(start, count, length))
    ensures HoldsAll(rings, ExtendAll(streams, rings, 0, length, start, count), dirty - Cells(start, count, length))
  {
    forall c | 0 <= c < |streams|
      ensures Holds(rings[c], ExtendAll(streams, rings, 0, length, start, count)[c], dirty - Cells(start, count, length))
    {
      FirstCommit(rings[c], dirty, start, count);
      assert streams[c] == [];
    }
  }

  /** Hiding more cells keeps the ring invariant. */
  lemma HiddenGrows(rings: seq<seq<int>>, streams: seq<seq<int>>, head: nat, last: nat, joined: bool, less: set<nat>, more: set<nat>)
    requires less <= more && RingsOk(rings, streams, head, last, joined, less)
    ensures RingsOk(rings, streams, head, last, joined, more)
  {}

  /** A store into a hidden cell keeps the ring invariant. */
  lemma HiddenStore(ring: seq<int>, stream: seq<int>, hidden: set<nat>, o: nat, value: int)
    requires o < |ring| && o in hidden
    ensures Holds(ring, stream, hidden) ==> Holds(ring[o := value], stream, hidden)
    ensures Blank(ring, hidden) ==> Blank(ring[o := value], hidden)
  {}

  lemma HiddenStoreAll(rings: seq<seq<int>>, after: seq<seq<int>>, streams: seq<seq<int>>, head: nat, last: nat, joined: bool, hidden: set<nat>,
                       c: nat, o: nat, value: int)
    requires RingsOk(rings, streams, head, last, joined, hidden)
    requires c < |rings| && o < |rings[c]| && o in hidden && after == rings[c := rings[c][o := value]]
    ensures RingsOk(after, streams, head, last, joined, hidden)
  {
    HiddenStore(rings[c], streams[c], hidden, o, value);
  }

  /** What a store into the cell of the k-th sample changes. */
  lemma StoreShows(ring: seq<int>, after: seq<int>, o: nat, start: nat, count: nat, k: nat, value: int)
    requires k < count <= |ring| && o == Modular.Wrap(start + k, |ring|) && after == ring[o := value]
    ensures Samples(after, start, count) == Samples(ring, start, count)[k := value]
  {
    var samples := Samples(ring, start, count)[k := value];
    forall i | 0 <= i < count ensures Samples(after, start, count)[i] == samples[i] {
      if i < k {
        Apart(start + i, start + k, |ring|);
      } else if i > k {
        Apart(start + k, start + i, |ring|);
      }
    }
  }

  /** The k-th sample of a range is in the cell that following its fragments leads to. */
  lemma VisitedCell(index: nat, count: nat, length: nat, channels: nat, k: nat)
    requires InReach(index, count, length) && k < count
    ensures var o := Visited(Fragments(index, count, length, channels), k);
      o == Modular.Wrap(index - count + k, length) && o < length && o in Cells(index - count, count, length)
  {
    FragmentsInOrder(index, count, length, channels);
    InCells(index - count + k, index - count, count, length);
  }

  /** A store at an address inside a ring. */
  lemma CellChanged(memory: seq<int>, length: nat, channels: nat, channel: nat, o: nat, value: int)
    requires channel < channels && o < length && |memory| == Base(channels, length)
    ensures Base(channel, length) + length <= |memory|
    ensures Rings(memory[Base(channel, length) + o := value], length, channels)
      == var rings := Rings(memory, length, channels); rings[channel := rings[channel][o := value]]
  {
    RingsApart(channel, channels, length);
    var after := memory[Base(channel, length) + o := value];
    OneRingChanged(memory, after, length, channels, channel);
    assert Ring(after, length, channel) == Ring(memory, length, channel)[o := value];
  }

  method StoreCell(data: array<int>, length: nat, channels: nat, channel: nat, o: nat, value: int)
    requires channel < channels && o < length && data.Length == Base(channels, length)
    modifies data
    ensures Rings(data[..], length, channels)
      == var rings := old(Rings(data[..], length, channels)); rings[channel := rings[channel][o := value]]
  {
    CellChanged(data[..], length, channels, channel, o, value);
    var start := RingStart(channel, length);
    data[start + o] := value;
    assert data[..] == old(data[..])[Base(channel, length) + o := value];
  }

  // ---- clearing a gap in place --------------------------------------------------------------------

  /** The address of a channel's ring. */
  method RingStart(channel: nat, stride: nat) returns (start: nat)
    ensures start == Base(channel, stride)
  {
    BaseIsProduct(channel, stride);
    start := channel * stride;
  }

  method Zero(data: array<int>, at: nat, n: nat)
    requires at + n <= data.Length
    modifies data
    ensures forall i :: 0 <= i < data.Length ==> data[i] == if at <= i < at + n then 0 else old(data[i])
  {
    for k := 0 to n
      invariant forall i :: 0 <= i < data.Length ==> data[i] == if at <= i < at + k then 0 else old(data[i])
    {
      data[at + k] := 0;
    }
  }

  /** The two fragments of a range are exactly its cells. */
  lemma FragmentCells(index: nat, count: nat, length: nat, o: nat)
    requires InReach(index, count, length) && count >= 1
    ensures var s := Fragments(index, count, length, 1);
      o in Cells(index - count, count, length) <==> s.offset <= o < s.offset + s.first || o < s.second
  {
    FragmentsInOrder(index, count, length, 1);
    if o in Cells(index - count, count, length) {
      var j := CellPosition(o, index - count, count, length);
      VisitedCell(index, count, length, 1, j - (index - count));
    }
    var s := Fragments(index, count, length, 1);
    if s.offset <= o < s.offset + s.first {
      VisitedCell(index, count, length, 1, o - s.offset);
    } else if o < s.second {
      VisitedCell(index, count, length, 1, s.first + o);
    }
  }

  /** Zeroes both fragments of a range in one channel. */
  method ClearChannel(data: array<int>, length: nat, channels: nat, channel: nat, s: Slices, ghost index: nat, ghost count: nat)
    requires InReach(index, count, length) && count >= 1 && channel < channels && data.Length == Base(channels, length)
    requires s == Fragments(index, count, length, 1)
    modifies data
    ensures Rings(data[..], length, channels)
      == var before := old(Rings(data[..], length, channels));
         before[channel := Cleared(before[channel], Cells(index - count, count, length))]
  {
    FragmentsInOrder(index, count, length, 1);
    RingsApart(channel, channels, length);
    var start := RingStart(channel, s.stride);
    Zero(data, start + s.offset, s.first);
    Zero(data, start, s.second);
    OneRingChanged(old(data[..]), data[..], length, channels, channel);
    FragmentsCleared(old(Ring(data[..], length, channel)), Ring(data[..], length, channel), s, index, count, length);
  }

  lemma FragmentsCleared(before: seq<int>, after: seq<int>, s: Slices, index: nat, count: nat, length: nat)
    requires InReach(index, count, length) && count >= 1 && s == Fragments(index, count, length, 1)
    requires |before| == |after| == length
    requires forall o :: 0 <= o < length ==> after[o] == if s.offset <= o < s.offset + s.first || o < s.second then 0 else before[o]
    ensures after == Cleared(before, Cells(index - count, count, length))
  {
    var wanted := Cleared(before, Cells(index - count, count, length));
    forall o | 0 <= o < length ensures after[o] == wanted[o] {
      FragmentCells(index, count, length, o);
    }
  }

  lemma ClearOneMore(rings: seq<seq<int>>, cells: set<nat>, c: nat)
    requires c < |rings|
    ensures ClearFirst(rings, cells, c)[c := Cleared(ClearFirst(rings, cells, c)[c], cells)] == ClearFirst(rings, cells, c + 1)
  {}

  /** Zeroes a range in every channel. */
  method ClearGap(data: array<int>, channels: nat, length: nat, index: nat, count: nat, ghost cells: set<nat>)
    requires InReach(index, count, length) && count >= 1 && data.Length == Base(channels, length)
    requires cells == Cells(index - count, count, length)
    modifies data
    ensures Rings(data[..], length, channels) == ClearAll(old(Rings(data[..], length, channels)), cells)
  {
    var s := Fragments(index, count, length, 1);
    ghost var rings := Rings(data[..], length, channels);
    assert rings == ClearFirst(rings, cells, 0);
    for channel := 0 to channels
      invariant Rings(data[..], length, channels) == ClearFirst(rings, cells, channel)
    {
      ClearChannel(data, length, channels, channel, s, index, count);
      ClearOneMore(rings, cells, channel);
    }
  }

  lemma NothingCleared(rings: seq<seq<int>>)
    ensures ClearAll(rings, {}) == rings
  {
    forall c | 0 <= c < |rings| ensures Cleared(rings[c], {}) == rings[c] {}
  }

  lemma GapCells(last: nat, start: nat, count: nat, length: nat, n: nat)
    requires last <= start && count <= length && length > 0 && n == ClearedCount(last, start, count, length)
    ensures Gap(last, start, count, length) == Cells(start - n, n, length)
    ensures n == 0 ==> Gap(last, start, count, length) == {}
  {}

  /** Zeroes the newest part of the samples between the last commit and the open range. */
  method ClearBetween(data: array<int>, channels: nat, length: nat, last: nat, start: nat, count: nat, ghost gap: set<nat>)
    requires last <= start && InReach(start, 0, length) && count < length && data.Length == Base(channels, length)
    requires gap == Gap(last, start, count, length)
    modifies data
    ensures Rings(data[..], length, channels) == ClearAll(old(Rings(data[..], length, channels)), gap)
  {
    GapCells(last, start, count, length, ClearedCount(last, start, count, length));
    if start > last {
      var skippedCount := start - last;
      var clearableLength := length - count;
      var clearedCount := if skippedCount < clearableLength then skippedCount else clearableLength;
      ClearGap(data, channels, length, start, clearedCount, gap);
    } else {
      NothingCleared(Rings(data[..], length, channels));
    }
  }

  // ---- the writer -------------------------------------------------------------------------------------

  class ContinuousFlowWriter {
    const flow: ContinuousFlowData
    var currentIndex: nat
    var currentCount: nat
    var lastCommittedIndex: nat
    var signals: Signals
    /** What has been committed, per channel, from position zero on. */
    ghost var streams: seq<seq<int>>
    /** Cells handed out for writing by opens that were never committed. */
    ghost var dirty: set<nat>
    /** The last head that readers were notified of. */
    ghost var signalled: nat
    /** The flow was in use before this writer. */
    ghost const joined: bool

    predicate Pending()
      reads this
    {
      currentIndex != UNDEFINED
    }

    /** The cells of the open range. */
    ghost function Range(): set<nat>
      requires flow.length > 0
      reads this
    {
      if Pending() && currentCount <= currentIndex then Cells(currentIndex - currentCount, currentCount, flow.length) else {}
    }

    /** The next commit is the first one on a flow that was in use before. */
    ghost predicate Joining()
      reads this
    {
      joined && lastCommittedIndex == UNDEFINED
    }

    ghost predicate OpenOk()
      reads this, flow
    {
      Pending() ==>
        && InReach(currentIndex, currentCount, flow.length) && currentCount <= flow.length / 2
        && (Joining() || flow.headIndex <= currentIndex - currentCount)
        && (lastCommittedIndex != UNDEFINED ==> flow.headIndex < currentIndex)
    }

    ghost predicate Notified()
      reads this, flow
    {
      && SignalsOk(signals, signalled)
      && if lastCommittedIndex == UNDEFINED then signalled == 0 else signalled <= flow.headIndex < signalled + signals.size
    }

    /** What the memory holds, where `hidden` cells may have been changed without committing. */
    ghost predicate MemoryOk(hidden: set<nat>)
      requires flow.Valid()
      reads this, flow, flow.data
    {
      |streams| == flow.channels && RingsOk(flow.Content(), streams, flow.headIndex, lastCommittedIndex, joined, hidden)
    }

    ghost predicate Valid()
      reads this, flow, flow.data
    {
      flow.Valid() && OpenOk() && Notified() && MemoryOk(dirty + Range())
    }

    /** A writer on a new flow, or on one that is already in use. */
    constructor (flow: ContinuousFlowData, commitHint: nat, syncHint: nat)
      requires flow.Valid()
      ensures Valid() && this.flow == flow && !Pending() && lastCommittedIndex == UNDEFINED
      ensures dirty == {} && signals == Configured(commitHint, syncHint)
      ensures joined <==> flow.headIndex != 0 || exists i :: 0 <= i < flow.data.Length && flow.data[i] != 0
      ensures streams == ShownAll(flow.Content(), flow.length, flow.headIndex)
    {
      this.flow := flow;
      this.currentIndex, this.currentCount, this.lastCommittedIndex := UNDEFINED, 0, UNDEFINED;
      this.signals := Configured(commitHint, syncHint);
      this.streams := ShownAll(flow.Content(), flow.length, flow.headIndex);
      this.dirty, this.signalled := {}, 0;
      this.joined := flow.headIndex != 0 || exists i :: 0 <= i < flow.data.Length && flow.data[i] != 0;
      new;
      ShownHoldsAll(flow.Content(), flow.length, flow.headIndex, 0, {});
      assert dirty + Range() == {};
    }

    /** Hands out the cells of a range that starts at or after the last commit. Within one ring length
        of the largest index they need not be the range's own (`ContinuousRing.StartNearTheLimit`). */
    method OpenSamples(index: nat, count: nat) returns (status: Status, slices: Slices)
      requires Valid() && count < WORD_LIMIT && index < WORD_LIMIT
      modifies this
      ensures status != Ok || index + flow.length < WORD_LIMIT ==> Valid()
      ensures streams == old(streams) && lastCommittedIndex == old(lastCommittedIndex)
      ensures signals == old(signals) && signalled == old(signalled)
      ensures status == if count <= flow.length / 2 && count <= index
                           && (lastCommittedIndex != UNDEFINED ==> lastCommittedIndex < index && lastCommittedIndex <= index - count)
                        then Ok else InvalidArg
      ensures status == Ok ==> currentIndex == index && currentCount == count && slices == Fragments(index, count, flow.length, flow.channels)
      ensures status == Ok ==> dirty == old(dirty + Range())
      ensures status != Ok ==> currentIndex == old(currentIndex) && currentCount == old(currentCount) && dirty == old(dirty)
    {
      slices := Slices(0, 0, 0, 0, 0);
      if count <= flow.length / 2 {
        if index < count {
          return InvalidArg, slices;
        }
        var writeStartIndex := index - count;
        if lastCommittedIndex != UNDEFINED {
          if index <= lastCommittedIndex || writeStartIndex < lastCommittedIndex {
            return InvalidArg, slices;
          }
        }
        slices := Fragments(index, count, flow.length, flow.channels);
        dirty := dirty + Range();
        currentIndex, currentCount := index, count;
        HiddenGrows(flow.Content(), streams, flow.headIndex, lastCommittedIndex, joined, dirty, dirty + Range());
        return Ok, slices;
      }
      return InvalidArg, slices;
    }

    method Cancel() returns (status: Status)
      requires Valid()
      modifies this
      ensures Valid() && !Pending() && status == Ok && streams == old(streams)
      ensures dirty == old(dirty + Range()) && lastCommittedIndex == old(lastCommittedIndex)
      ensures signals == old(signals) && signalled == old(signalled)
    {
      dirty := dirty + Range();
      currentIndex, currentCount := UNDEFINED, 0;
      assert dirty + Range() == dirty;
      status := Ok;
    }

    /** Publishes the open range: a gap before it is zeroed, the head moves to its end, and
        readers are notified when enough samples have come together. */
    method Commit() returns (status: Status)
      requires Valid()
      modifies this, flow, flow.data
      ensures Valid() && !Pending()
      ensures status == if old(Pending()) then Ok else InvalidArg
      ensures !old(Pending()) ==>
        unchanged(flow) && unchanged(flow.data) && streams == old(streams) && dirty == old(dirty) && signals == old(signals)
      ensures old(Pending()) ==>
        && flow.headIndex == lastCommittedIndex == old(currentIndex)
        && streams == old(Published(streams, flow.Content(), Joining(), flow.headIndex, flow.length, currentIndex, currentCount))
        && dirty <= old(dirty - Range())
        && Signal(old(signals), flow.headIndex).1 == signals
        && flow.syncCounter == (if Signal(old(signals), flow.headIndex).0 then (old(flow.syncCounter) + 1) % COUNTER_LIMIT else old(flow.syncCounter))
        && flow.wakeups == old(flow.wakeups) + if Signal(old(signals), flow.headIndex).0 then 1 else 0
    {
      if currentIndex == UNDEFINED {
        return InvalidArg;
      }
      ghost var longer := Published(streams, flow.Content(), Joining(), flow.headIndex, flow.length, currentIndex, currentCount);
      ghost var rest := ClearSkipped();
      MoveHead(longer, rest);
      NotifyReaders();
      return Ok;
    }

    /** Lets readers know that the head has moved, if enough samples have come together. */
    method NotifyReaders()
      requires flow.Valid() && lastCommittedIndex != UNDEFINED && signals.size > 0
      requires var (now, g) := Signal(signals, flow.headIndex);
        SignalsOk(g, if now then flow.headIndex else signalled) && signalled <= flow.headIndex && (!now ==> flow.headIndex < signalled + signals.size)
      modifies this`signals, this`signalled, flow`syncCounter, flow`wakeups
      ensures flow.Valid() && Notified()
      ensures signals == Signal(old(signals), flow.headIndex).1
      ensures flow.syncCounter == if Signal(old(signals), flow.headIndex).0 then (old(flow.syncCounter) + 1) % COUNTER_LIMIT else old(flow.syncCounter)
      ensures flow.wakeups == old(flow.wakeups) + if Signal(old(signals), flow.headIndex).0 then 1 else 0
    {
      var signal := SignalCompletedBatch();
      if signal {
        signalled := flow.headIndex;
        flow.syncCounter := (flow.syncCounter + 1) % COUNTER_LIMIT;
        flow.wakeups := flow.wakeups + 1;
      }
    }

    /** The stores that make a range the committed one. */
    method MoveHead(ghost longer: seq<seq<int>>, ghost rest: set<nat>)
      requires flow.Valid() && OpenOk() && Notified() && Pending()
      requires |longer| == flow.channels && Even(longer, currentIndex) && HoldsAll(flow.Content(), longer, rest)
      modifies this`streams, this`dirty, this`currentIndex, this`currentCount, this`lastCommittedIndex, flow`headIndex
      ensures flow.Valid() && OpenOk() && !Pending() && MemoryOk(dirty + Range())
      ensures flow.headIndex == lastCommittedIndex == old(currentIndex) && streams == longer && dirty == rest
      ensures var (now, g) := Signal(signals, flow.headIndex);
        SignalsOk(g, if now then flow.headIndex else signalled) && signalled <= flow.headIndex && (!now ==> flow.headIndex < signalled + signals.size)
    {
      streams, dirty := longer, rest;
      flow.headIndex := currentIndex;
      lastCommittedIndex := currentIndex;
      currentIndex, currentCount := UNDEFINED, 0;
      SignalBound(signals, signalled, flow.headIndex);
      assert MemoryOk(dirty);
      assert dirty + Range() == dirty;
    }

    /** The part of a commit that changes sample memory. */
    method ClearSkipped() returns (ghost rest: set<nat>)
      requires Valid() && Pending()
      modifies flow.data
      ensures HoldsAll(flow.Content(),
                       old(Published(streams, flow.Content(), Joining(), flow.headIndex, flow.length, currentIndex, currentCount)), rest)
      ensures rest <= dirty - Range()
    {
      var writeStartIndex := currentIndex - currentCount;
      ghost var rings, range := flow.Content(), Range();
      assert range == Cells(writeStartIndex, currentCount, flow.length);
      if lastCommittedIndex == UNDEFINED {
        if joined {
          ShownHoldsAll(rings, flow.length, writeStartIndex, currentCount, dirty - range);
        } else {
          FirstCommitAll(rings, flow.length, streams, dirty, writeStartIndex, currentCount);
        }
        rest := dirty - range;
        return;
      }
      CommitExtendsAll(rings, flow.length, streams, flow.headIndex, dirty, writeStartIndex, currentCount);
      ghost var gap := Gap(flow.headIndex, writeStartIndex, currentCount, flow.length);
      rest := dirty - gap - range;
      ClearBetween(flow.data, flow.channels, flow.length, lastCommittedIndex, writeStartIndex, currentCount, gap);
      assert flow.Content() == ClearAll(rings, gap);
    }

    /** Whether the new head has to be signalled. */
    method SignalCompletedBatch() returns (signal: bool)
      requires signals.size > 0
      modifies this`signals
      ensures (signal, signals) == Signal(old(signals), flow.headIndex)
    {
      var currentSyncSampleBatch := flow.headIndex / signals.size;
      if currentSyncSampleBatch < signals.batch {
        return false;
      }
      if currentSyncSampleBatch == signals.batch {
        if flow.headIndex % signals.size > signals.threshold {
          signals := signals.(batch := currentSyncSampleBatch + 1);
        } else {
          return false;
        }
      } else {
        signals := signals.(batch := currentSyncSampleBatch);
      }
      signal := true;
    }

    /** A client's store of the k-th sample of one channel through the slices it was given: one
        cell changes, and with it one sample of the range (`StoreShows`). */
    method StoreSample(slices: Slices, channel: nat, k: nat, value: int)
      requires Valid() && Pending() && channel < flow.channels && k < currentCount
      requires slices == Fragments(currentIndex, currentCount, flow.length, flow.channels)
      modifies flow.data
      ensures Valid()
      ensures flow.Content() == var rings, o := old(flow.Content()), Modular.Wrap(currentIndex - currentCount + k, flow.length);
        rings[channel := rings[channel][o := value]]
    {
      VisitedCell(currentIndex, currentCount, flow.length, flow.channels, k);
      StoreHidden(channel, Visited(slices, k), value);
    }

    /** A store into a cell that readers are not promised anything about. */
    method StoreHidden(channel: nat, o: nat, value: int)
      requires Valid() && channel < flow.channels && o < flow.length && o in dirty + Range()
      modifies flow.data
      ensures Valid()
      ensures flow.Content() == var rings := old(flow.Content()); rings[channel := rings[channel][o := value]]
    {
      ghost var rings := flow.Content();
      ghost var after := rings[channel := rings[channel][o := value]];
      HiddenStoreAll(rings, after, streams, flow.headIndex, lastCommittedIndex, joined, dirty + Range(), channel, o, value);
      StoreCell(flow.data, flow.length, flow.channels, channel, o, value);
      assert flow.Content() == after;
    }
  }

  // ---- the reader --------------------------------------------------------------------------------------

  class ContinuousFlowReader {
    const flow: ContinuousFlowData

    constructor (flow: ContinuousFlowData)
      ensures this.flow == flow
    {
      this.flow := flow;
    }

    /** The non-blocking read: a window test and the slices of the range. */
    method GetSamples(index: nat, count: nat) returns (status: Status, slices: Slices)
      requires flow.Valid() && index < WORD_LIMIT && count < WORD_LIMIT
      ensures status == Window(flow.headIndex, flow.length, index, count)
      ensures status == Ok ==> slices == Fragments(index, count, flow.length, flow.channels)
    {
      slices := Slices(0, 0, 0, 0, 0);
      var headIndex := flow.headIndex;
      if index <= headIndex {
        var minIndex := if headIndex >= flow.length / 2 then headIndex - flow.length / 2 else 0;
        if index >= minIndex && index - minIndex >= count {
          slices := Fragments(index, count, flow.length, flow.channels);
          return Ok, slices;
        }
        return TooLate, slices;
      }
      return TooEarly, slices;
    }
  }

  /** In every state of a writer, a reader's successful read shows the committed stream, unless
      it touches cells of an abandoned open; an open range that is out of reach changes nothing. */
  lemma ReaderSeesStream(writer: ContinuousFlowWriter, index: nat, count: nat, channel: nat)
    requires writer.Valid() && channel < writer.flow.channels
    requires Window(writer.flow.headIndex, writer.flow.length, index, count) == Ok && count >= 1
    requires writer.dirty !! Cells(index - count, count, writer.flow.length)
    requires writer.Pending() && writer.currentCount > 0 ==>
      writer.flow.headIndex <= writer.currentIndex - writer.currentCount
      && OutOfReach(writer.flow.headIndex, writer.flow.length, writer.currentIndex - writer.currentCount, writer.currentCount)
    ensures var ring, s := writer.flow.Content()[channel], Fragments(index, count, writer.flow.length, writer.flow.channels);
      && s.offset + s.first <= |ring| && s.second <= |ring|
      && Through(ring, s) == writer.streams[channel][index - count..index]
  {
    var flow := writer.flow;
    if writer.Pending() && writer.currentCount > 0 {
      ApartIfOutOfReach(flow.headIndex, flow.length, writer.currentIndex - writer.currentCount, writer.currentCount);
      ReadableCells(flow.headIndex, flow.length, index, count);
    }
    assert writer.dirty + writer.Range() !! Cells(index - count, count, flow.length);
    ReadIsStream(flow.Content()[channel], flow.channels, writer.streams[channel], writer.dirty + writer.Range(), index, count);
  }
}
