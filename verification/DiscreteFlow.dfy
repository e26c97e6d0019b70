/** The discrete flow writer and reader objects over one shared array of grain headers. */
module DiscreteFlow {
  import opened MachineWords
  import opened DiscreteRing
  import Modular

  class DiscreteFlowData {
    const grains: array<Grain>
    var headIndex: nat
    var syncCounter: nat
    /** How often everybody who sleeps on the counter was woken. */
    var wakeups: nat

    ghost predicate Valid()
      reads this
    {
      grains.Length > 0 && headIndex <= UNDEFINED && syncCounter < COUNTER_LIMIT
    }

    /** A new flow: grain headers as the flow manager creates them. */
    constructor (grainCount: nat, rest: int, totalSlices: nat)
      requires grainCount > 0
      ensures Valid() && fresh(grains) && headIndex == 0 && syncCounter == 0
      ensures grains[..] == Initial(grainCount, rest, totalSlices).slots
    {
      this.grains := new Grain[grainCount](_ => Grain(0, false, rest, totalSlices, 0));
      this.headIndex, this.syncCounter, this.wakeups := 0, 0, 0;
    }
  }

  class DiscreteFlowWriter {
    const flow: DiscreteFlowData
    var currentIndex: nat
    var lastCommittedIndex: nat

    ghost predicate Valid()
      reads this, flow
    {
      flow.Valid() && currentIndex <= UNDEFINED && lastCommittedIndex <= UNDEFINED
    }

    ghost function View(): (f: Flow)
      reads this, flow, flow.grains
    {
      Flow(flow.grains[..], flow.headIndex, flow.syncCounter, currentIndex, lastCommittedIndex)
    }

    constructor (flow: DiscreteFlowData)
      requires flow.Valid()
      ensures Valid() && this.flow == flow
      ensures currentIndex == UNDEFINED && lastCommittedIndex == UNDEFINED && FreshWriter(View())
    {
      this.flow := flow;
      this.currentIndex, this.lastCommittedIndex := UNDEFINED, UNDEFINED;
    }

    method OpenGrain(index: nat) returns (status: Status, info: Grain)
      requires Valid() && index <= UNDEFINED
      modifies this`currentIndex, flow.grains
      ensures Valid() && (status, View()) == Open(old(View()), index)
      ensures status == Ok ==> info == Slot(flow.grains[..], index) && info.index == index
    {
      if lastCommittedIndex != UNDEFINED && index <= lastCommittedIndex {
        return InvalidArg, Grain(0, false, 0, 0, 0);
      }
      if lastCommittedIndex != UNDEFINED && index > lastCommittedIndex + 1 {
        InvalidateSkipped(index);
      }
      var offset := index % flow.grains.Length;
      Modular.WrapIsRemainder(index, flow.grains.Length);
      ghost var before := flow.grains[..];
      if flow.grains[offset].index != index {
        flow.grains[offset] := flow.grains[offset].(index := index, invalid := false, validSlices := 0);
      }
      assert flow.grains[..] == Put(before, index, DiscreteRing.Reset(Slot(before, index), index));
      currentIndex := index;
      return Ok, flow.grains[offset];
    }

    /** Marks the grains between the last commit and the opened one, at most one turn of them. */
    method InvalidateSkipped(index: nat)
      requires Valid() && lastCommittedIndex != UNDEFINED && index > lastCommittedIndex + 1
      modifies flow.grains
      ensures flow.grains[..] == Invalidate(old(flow.grains[..]), FirstInvalidated(lastCommittedIndex, index, flow.grains.Length), index)
    {
      var grainCount := flow.grains.Length;
      var skippedCount := index - lastCommittedIndex - 1;
      var invalidatedCount := if skippedCount < grainCount then skippedCount else grainCount;
      var missingIndex := index - invalidatedCount;
      ghost var before, from := flow.grains[..], missingIndex;
      while missingIndex < index
        invariant from <= missingIndex <= index
        invariant flow.grains[..] == Invalidate(before, from, missingIndex)
      {
        ghost var slots := flow.grains[..];
        var missingOffset := missingIndex % grainCount;
        Modular.WrapIsRemainder(missingIndex, grainCount);
        flow.grains[missingOffset] := flow.grains[missingOffset].(index := missingIndex, validSlices := 0, invalid := true);
        assert flow.grains[..] == Put(slots, missingIndex, Slot(slots, missingIndex).(index := missingIndex, validSlices := 0, invalid := true));
        missingIndex := missingIndex + 1;
      }
    }

    method Cancel() returns (status: Status)
      requires Valid()
      modifies this`currentIndex
      ensures Valid() && status == Ok && View() == DiscreteRing.Cancel(old(View()))
    {
      currentIndex := UNDEFINED;
      status := Ok;
    }

    method Commit(info: Grain) returns (status: Status)
      requires Valid() && info.index <= UNDEFINED
      modifies this, flow, flow.grains
      ensures Valid() && (status, View()) == DiscreteRing.Commit(old(View()), info)
      ensures flow.wakeups == old(flow.wakeups) + if status == Ok then 1 else 0
    {
      if info.index != currentIndex {
        return InvalidArg;
      }
      flow.headIndex := currentIndex;
      var offset := currentIndex % flow.grains.Length;
      Modular.WrapIsRemainder(currentIndex, flow.grains.Length);
      ghost var slots := flow.grains[..];
      flow.grains[offset] := info;
      assert flow.grains[..] == Put(slots, currentIndex, info);
      if info.validSlices == info.totalSlices {
        currentIndex := UNDEFINED;
        lastCommittedIndex := info.index;
      }
      flow.syncCounter := (flow.syncCounter + 1) % COUNTER_LIMIT;
      flow.wakeups := flow.wakeups + 1;
      return Ok;
    }
  }

  class DiscreteFlowReader {
    const flow: DiscreteFlowData

    constructor (flow: DiscreteFlowData)
      ensures this.flow == flow
    {
      this.flow := flow;
    }

    /** The non-blocking read. */
    method GetGrain(index: nat, minValidSlices: nat) returns (status: Status, info: Grain)
      requires flow.Valid()
      ensures status == Read(flow.grains[..], flow.headIndex, index, minValidSlices)
      ensures var g := Slot(flow.grains[..], index);
        Least(flow.headIndex, flow.grains.Length) <= index <= flow.headIndex && (g.totalSlices <= g.validSlices || g.invalid) ==> status == Ok
      ensures status == Ok ==> info == Slot(flow.grains[..], index)
    {
      info := Grain(0, false, 0, 0, 0);
      ReadStatuses(flow.grains[..], flow.headIndex, index, minValidSlices);
      var headIndex := flow.headIndex;
      if index <= headIndex {
        var grainCount := flow.grains.Length;
        var minIndex := if headIndex >= grainCount then (headIndex - grainCount + 2) % WORD_LIMIT else 0;
        if index >= minIndex {
          var offset := index % grainCount;
          Modular.WrapIsRemainder(index, grainCount);
          var grain := flow.grains[offset];
          var needed := if minValidSlices < grain.totalSlices then minValidSlices else grain.totalSlices;
          if grain.validSlices >= needed || grain.invalid {
            return Ok, grain;
          }
          return TooEarly, info;
        }
        return TooLate, info;
      }
      return TooEarly, info;
    }
  }
}
