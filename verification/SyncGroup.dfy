/** The flow synchronization group: a list of readers that are all waited for, and that is
    rearranged while it is walked so that the slowest flow comes first. */
module SyncGroup {
  import opened MachineWords
  import opened IndexConversion
  import DiscreteRing
  import Waiting

  /** A status code of the library; zero is success. */
  type Status = int
  const OK: Status := 0

  datatype Variant = Discrete | Continuous

  datatype Entry = Entry(reader: nat, minValidSlices: nat, variant: Variant, grainRate: Rational, maxObservedSourceDelay: int)

  /** What a visit to one reader meets: the head index of its flow, the result of waiting for the
      expected index, the time after the wait, and, for a discrete flow, its head and grain headers
      when the visit is over. */
  datatype Observation = Observation(headIndex: nat, waitResult: Status, now: int, headAfter: nat, grains: seq<DiscreteRing.Grain>)

  type World = nat -> Observation

  // ---- one visit -------------------------------------------------------------------------------

  predicate Reached(e: Entry, world: World, origin: int) {
    TimestampToIndex(e.grainRate, origin) <= world(e.reader).headIndex
  }

  predicate Passes(e: Entry, world: World, origin: int) {
    Reached(e, world, origin) || world(e.reader).waitResult == OK
  }

  /** The delay of the source, if this visit observes one larger than before. */
  function Observe(e: Entry, world: World, origin: int): (f: Entry)
    ensures f.(maxObservedSourceDelay := e.maxObservedSourceDelay) == e
    ensures f.maxObservedSourceDelay >= e.maxObservedSourceDelay
  {
    if Reached(e, world, origin) then e
    else
      var delay := world(e.reader).now - IndexToTimestamp(e.grainRate, TimestampToIndex(e.grainRate, origin));
      if delay > 0 && delay > e.maxObservedSourceDelay then e.(maxObservedSourceDelay := delay) else e
  }

  function MoveToFront(entries: seq<Entry>, k: nat): (moved: seq<Entry>)
    requires k < |entries|
    ensures |moved| == |entries|
  {
    [entries[k]] + entries[..k] + entries[k + 1..]
  }

  /** A newly observed delay `f` of the k-th entry exceeds that of the front. */
  predicate Slower(entries: seq<Entry>, k: nat, f: Entry)
    requires k < |entries|
  {
    f != entries[k] && f.maxObservedSourceDelay > entries[k := f][0].maxObservedSourceDelay
  }

  /** The list after a successful visit to its k-th entry. */
  function Visit(entries: seq<Entry>, k: nat, world: World, origin: int): (after: seq<Entry>)
    requires k < |entries|
    ensures |after| == |entries|
  {
    var f := Observe(entries[k], world, origin);
    if Slower(entries, k, f) then MoveToFront(entries[k := f], k) else entries[k := f]
  }

  /** The walk as if each turn visited the k-th entry for the next k. */
  function IndexedWalk(entries: seq<Entry>, k: nat, world: World, origin: int): (r: (Status, seq<Entry>))
    requires k <= |entries|
    ensures |r.1| == |entries|
    decreases |entries| - k
  {
    if k == |entries| then (OK, entries)
    else if !Passes(entries[k], world, origin) then (world(entries[k].reader).waitResult, entries)
    else IndexedWalk(Visit(entries, k, world, origin), k + 1, world, origin)
  }

  /** The readers visited by that walk, in order. */
  function IndexedVisits(entries: seq<Entry>, k: nat, world: World, origin: int): (readers: seq<nat>)
    requires k <= |entries|
    decreases |entries| - k
  {
    if k == |entries| then []
    else if !Passes(entries[k], world, origin) then [entries[k].reader]
    else [entries[k].reader] + IndexedVisits(Visit(entries, k, world, origin), k + 1, world, origin)
  }

  function Readers(entries: seq<Entry>): (readers: seq<nat>)
    ensures |readers| == |entries| && forall i :: 0 <= i < |entries| ==> readers[i] == entries[i].reader
  {
    seq(|entries|, i requires 0 <= i < |entries| => entries[i].reader)
  }

  predicate Distinct(entries: seq<Entry>) {
    forall i, j :: 0 <= i < j < |entries| ==> entries[i].reader != entries[j].reader
  }

  // ---- every reader once -----------------------------------------------------------------------------

  /** A visit leaves the entries that are still to come in place. */
  lemma VisitKeepsRest(entries: seq<Entry>, k: nat, world: World, origin: int)
    requires k < |entries|
    ensures Visit(entries, k, world, origin)[k + 1..] == entries[k + 1..]
  {}

  /** Although the list is rearranged under way, the walk visits its readers in their original
      order, each once: all of them when it succeeds, and up to the first failure otherwise. */
  lemma {:induction false} IndexedVisitsInOrder(entries: seq<Entry>, k: nat, world: World, origin: int)
    requires k <= |entries|
    ensures IndexedVisits(entries, k, world, origin) <= Readers(entries[k..])
    ensures IndexedWalk(entries, k, world, origin).0 == OK ==> IndexedVisits(entries, k, world, origin) == Readers(entries[k..])
    decreases |entries| - k
  {
    if k < |entries| {
      var next := Visit(entries, k, world, origin);
      VisitKeepsRest(entries, k, world, origin);
      assert Readers(entries[k..]) == [entries[k].reader] + Readers(entries[k + 1..]);
      if Passes(entries[k], world, origin) {
        IndexedVisitsInOrder(next, k + 1, world, origin);
      }
    }
  }

  predicate FirstFailure(entries: seq<Entry>, k: nat, i: nat, world: World, origin: int)
    requires k <= i < |entries|
  {
    !Passes(entries[i], world, origin) && forall j :: k <= j < i ==> Passes(entries[j], world, origin)
  }

  lemma {:induction false} IndexedStatus(entries: seq<Entry>, k: nat, world: World, origin: int)
    requires k <= |entries|
    ensures IndexedWalk(entries, k, world, origin).0 == OK <==> forall i :: k <= i < |entries| ==> Passes(entries[i], world, origin)
    decreases |entries| - k
  {
    if k < |entries| && Passes(entries[k], world, origin) {
      var next := Visit(entries, k, world, origin);
      IndexedStatus(next, k + 1, world, origin);
      LaterEntries(entries, k, world, origin);
    }
  }

  lemma LaterEntries(entries: seq<Entry>, k: nat, world: World, origin: int)
    requires k < |entries|
    ensures var next := Visit(entries, k, world, origin);
      |next| == |entries| && forall i :: k + 1 <= i < |entries| ==> next[i] == entries[i]
  {
    var next := Visit(entries, k, world, origin);
    VisitKeepsRest(entries, k, world, origin);
    assert forall i :: k + 1 <= i < |entries| ==> next[i] == next[k + 1..][i - k - 1] == entries[i];
  }

  lemma {:induction false} IndexedFailure(entries: seq<Entry>, k: nat, i: nat, world: World, origin: int)
    requires k <= i < |entries| && FirstFailure(entries, k, i, world, origin)
    ensures IndexedWalk(entries, k, world, origin).0 == world(entries[i].reader).waitResult
    decreases |entries| - k
  {
    if k < i {
      LaterEntries(entries, k, world, origin);
      IndexedFailure(Visit(entries, k, world, origin), k + 1, i, world, origin);
    }
  }

  // ---- the same readers afterwards ------------------------------------------------------------------------

  function Plain(e: Entry): Entry {
    e.(maxObservedSourceDelay := 0)
  }

  function AllPlain(entries: seq<Entry>): (plain: seq<Entry>)
    ensures |plain| == |entries| && forall i :: 0 <= i < |entries| ==> plain[i] == Plain(entries[i])
  {
    seq(|entries|, i requires 0 <= i < |entries| => Plain(entries[i]))
  }

  lemma VisitPermutes(entries: seq<Entry>, k: nat, world: World, origin: int)
    requires k < |entries|
    ensures multiset(AllPlain(Visit(entries, k, world, origin))) == multiset(AllPlain(entries))
  {
    var updated := entries[k := Observe(entries[k], world, origin)];
    var plain := AllPlain(entries);
    assert AllPlain(updated) == plain;
    assert AllPlain(MoveToFront(updated, k)) == [plain[k]] + plain[..k] + plain[k + 1..];
    assert plain == plain[..k] + [plain[k]] + plain[k + 1..];
  }

  /** The walk changes the order of the entries and their observed delays, nothing else. */
  lemma {:induction false} IndexedPermutes(entries: seq<Entry>, k: nat, world: World, origin: int)
    requires k <= |entries|
    ensures multiset(AllPlain(IndexedWalk(entries, k, world, origin).1)) == multiset(AllPlain(entries))
    decreases |entries| - k
  {
    if k < |entries| && Passes(entries[k], world, origin) {
      VisitPermutes(entries, k, world, origin);
      IndexedPermutes(Visit(entries, k, world, origin), k + 1, world, origin);
    }
  }

  lemma VisitKeepsDistinct(entries: seq<Entry>, k: nat, world: World, origin: int)
    requires k < |entries| && Distinct(entries)
    ensures Distinct(Visit(entries, k, world, origin))
  {
    var updated := entries[k := Observe(entries[k], world, origin)];
    assert Distinct(updated);
    MoveKeepsDistinct(updated, k);
  }

  lemma {:induction false} IndexedKeepsDistinct(entries: seq<Entry>, k: nat, world: World, origin: int)
    requires k <= |entries| && Distinct(entries)
    ensures Distinct(IndexedWalk(entries, k, world, origin).1)
    decreases |entries| - k
  {
    if k < |entries| && Passes(entries[k], world, origin) {
      VisitKeepsDistinct(entries, k, world, origin);
      IndexedKeepsDistinct(Visit(entries, k, world, origin), k + 1, world, origin);
    }
  }

  // ---- the slowest flow first ----------------------------------------------------------------------------------

  /** No entry has a larger observed delay than the front. */
  predicate FrontSlowest(entries: seq<Entry>) {
    forall i :: 0 <= i < |entries| ==> 0 <= entries[i].maxObservedSourceDelay <= entries[0].maxObservedSourceDelay
  }

  lemma VisitKeepsFront(entries: seq<Entry>, k: nat, world: World, origin: int)
    requires k < |entries| && FrontSlowest(entries)
    ensures FrontSlowest(Visit(entries, k, world, origin))
  {}

  lemma {:induction false} IndexedKeepsFront(entries: seq<Entry>, k: nat, world: World, origin: int)
    requires k <= |entries| && FrontSlowest(entries)
    ensures FrontSlowest(IndexedWalk(entries, k, world, origin).1)
    decreases |entries| - k
  {
    if k < |entries| && Passes(entries[k], world, origin) {
      VisitKeepsFront(entries, k, world, origin);
      IndexedKeepsFront(Visit(entries, k, world, origin), k + 1, world, origin);
    }
  }

  // ---- adding and removing ------------------------------------------------------------------------------------------

  function PositionOf(entries: seq<Entry>, reader: nat): (k: nat)
    ensures k <= |entries|
    ensures k < |entries| ==> entries[k].reader == reader
    ensures forall i :: 0 <= i < k ==> entries[i].reader != reader
  {
    if entries == [] || entries[0].reader == reader then 0 else 1 + PositionOf(entries[1..], reader)
  }

  function Added(entries: seq<Entry>, reader: nat, variant: Variant, minValidSlices: nat, rate: Rational): (after: seq<Entry>) {
    var k := PositionOf(entries, reader);
    if k == |entries| then entries + [Entry(reader, minValidSlices, variant, rate, 0)]
    else if variant.Discrete? then entries[k := entries[k].(minValidSlices := minValidSlices)]
    else entries
  }

  function Removed(entries: seq<Entry>, reader: nat): (after: seq<Entry>) {
    var k := PositionOf(entries, reader);
    if k == |entries| then entries else entries[..k] + entries[k + 1..]
  }

  /** Adding a reader, once or again, keeps readers distinct and the slowest flow first. */
  lemma AddKeeps(entries: seq<Entry>, reader: nat, variant: Variant, minValidSlices: nat, rate: Rational)
    ensures Distinct(entries) ==> Distinct(Added(entries, reader, variant, minValidSlices, rate))
    ensures FrontSlowest(entries) ==> FrontSlowest(Added(entries, reader, variant, minValidSlices, rate))
    ensures forall r :: r in Readers(Added(entries, reader, variant, minValidSlices, rate)) <==> r == reader || r in Readers(entries)
  {
    var k, after := PositionOf(entries, reader), Added(entries, reader, variant, minValidSlices, rate);
    if k == |entries| {
      assert Readers(after) == Readers(entries) + [reader];
    } else {
      assert Readers(after) == Readers(entries);
      assert Readers(entries)[k] == reader;
    }
  }

  /** What is asked for is what the list says: a new reader comes last with its requested slices and no
      delay yet; a known one only gets the new slices, and only as a discrete one. */
  lemma AddedExactly(entries: seq<Entry>, reader: nat, variant: Variant, minValidSlices: nat, rate: Rational)
    requires Distinct(entries)
    ensures var after := Added(entries, reader, variant, minValidSlices, rate);
      && (reader !in Readers(entries) ==> after == entries + [Entry(reader, minValidSlices, variant, rate, 0)])
      && (reader in Readers(entries) ==> |after| == |entries| && forall i :: 0 <= i < |entries| ==>
            after[i] == if entries[i].reader == reader && variant.Discrete? then entries[i].(minValidSlices := minValidSlices) else entries[i])
  {
    var k := PositionOf(entries, reader);
    if k < |entries| {
      assert Readers(entries)[k] == reader;
    }
  }

  /** Removal takes exactly this reader out, and keeps the slowest flow first unless it was the front. */
  lemma RemoveKeeps(entries: seq<Entry>, reader: nat)
    requires Distinct(entries)
    ensures Distinct(Removed(entries, reader))
    ensures forall r :: r in Readers(Removed(entries, reader)) <==> r != reader && r in Readers(entries)
    ensures FrontSlowest(entries) && entries != [] && entries[0].reader != reader ==> FrontSlowest(Removed(entries, reader))
  {
    var k, after := PositionOf(entries, reader), Removed(entries, reader);
    if k < |entries| {
      assert Readers(after) == Readers(entries)[..k] + Readers(entries)[k + 1..];
      forall r ensures r in Readers(after) <==> r != reader && r in Readers(entries) {
        if r in Readers(entries) {
          var i :| 0 <= i < |entries| && Readers(entries)[i] == r;
          assert i < k ==> Readers(after)[i] == r;
          assert i > k ==> Readers(after)[i - 1] == r;
        }
      }
    }
  }

  /** Every other reader keeps its entry and its place. */
  lemma RemovedExactly(entries: seq<Entry>, reader: nat)
    requires Distinct(entries)
    ensures reader !in Readers(entries) ==> Removed(entries, reader) == entries
    ensures forall k :: 0 <= k < |entries| && entries[k].reader == reader ==> Removed(entries, reader) == entries[..k] + entries[k + 1..]
  {
    var p := PositionOf(entries, reader);
    if p < |entries| {
      assert Readers(entries)[p] == reader;
    }
    forall k | 0 <= k < |entries| && entries[k].reader == reader ensures k == p {
      PositionUnique(entries, k);
    }
  }

  /** Removing the front keeps the order exactly if the second entry is the slowest of the rest. */
  lemma RemovingFront(entries: seq<Entry>)
    requires FrontSlowest(entries) && |entries| >= 2
    ensures FrontSlowest(Removed(entries, entries[0].reader))
      <==> forall i :: 1 <= i < |entries| ==> entries[i].maxObservedSourceDelay <= entries[1].maxObservedSourceDelay
  {
    var after := Removed(entries, entries[0].reader);
    assert after == entries[1..];
    assert forall i :: 1 <= i < |entries| ==> entries[i] == after[i - 1];
  }

  // ---- walking a linked list that is rearranged under way ---------------------------------------------

  /** A position in the list: before the first node, at the node of a reader, or past the last. */
  datatype Iterator = BeforeBegin | At(reader: nat) | End

  function NodeAt(entries: seq<Entry>, k: nat): Iterator {
    if k < |entries| then At(entries[k].reader) else End
  }

  /** The iterator one node further. */
  function Next(entries: seq<Entry>, it: Iterator): Iterator {
    match it
    case BeforeBegin => NodeAt(entries, 0)
    case At(reader) => NodeAt(entries, PositionOf(entries, reader) + 1)
    case End => End
  }

  /** Moves the node that follows `prev` to the front. */
  function SpliceToFront(entries: seq<Entry>, prev: Iterator): (moved: seq<Entry>)
    ensures |moved| == |entries|
  {
    match Next(entries, prev)
    case At(reader) =>
      var k := PositionOf(entries, reader);
      if k < |entries| then MoveToFront(entries, k) else entries
    case _ => entries
  }

  /** What one turn of the loop leaves: the failed wait, or the list and both iterators. */
  datatype Turn = Failed(status: Status) | Going(entries: seq<Entry>, prev: Iterator, it: Iterator)

  function TurnOf(entries: seq<Entry>, prev: Iterator, current: Iterator, world: World, origin: int): Turn
    requires current.At? && PositionOf(entries, current.reader) < |entries|
  {
    var k := PositionOf(entries, current.reader);
    var e, it := entries[k], Next(entries, current);
    if !Passes(e, world, origin) then Failed(world(e.reader).waitResult)
    else
      var f := Observe(e, world, origin);
      if Slower(entries, k, f) then Going(SpliceToFront(entries[k := f], prev), prev, it)
      else Going(entries[k := f], current, it)
  }

  /** `prev` precedes the k-th node, where `it` is. */
  predicate InPlace(entries: seq<Entry>, prev: Iterator, it: Iterator, k: nat) {
    && Distinct(entries) && k <= |entries|
    && it == NodeAt(entries, k) && Next(entries, prev) == it
    && prev == if k == 0 then BeforeBegin else At(entries[k - 1].reader)
  }

  lemma PositionUnique(entries: seq<Entry>, k: nat)
    requires Distinct(entries) && k < |entries|
    ensures PositionOf(entries, entries[k].reader) == k
  {}

  lemma MoveKeepsDistinct(entries: seq<Entry>, k: nat)
    requires k < |entries| && Distinct(entries)
    ensures Distinct(MoveToFront(entries, k))
  {
    var moved := MoveToFront(entries, k);
    forall i, j | 0 <= i < j < |moved| ensures moved[i].reader != moved[j].reader {
      assert moved[i] == entries[if i == 0 then k else if i <= k then i - 1 else i];
      assert moved[j] == entries[if j <= k then j - 1 else j];
    }
  }

  /** Changing an entry in place moves no node. */
  lemma UpdateKeepsPlace(entries: seq<Entry>, prev: Iterator, it: Iterator, k: nat, f: Entry)
    requires InPlace(entries, prev, it, k) && k < |entries| && f.reader == entries[k].reader
    ensures InPlace(entries[k := f], prev, it, k)
  {
    var updated := entries[k := f];
    if k > 0 {
      PositionUnique(updated, k - 1);
    }
  }

  /** The node after `prev` is the k-th, so the splice moves that one; the node after it then
      follows `prev`, and there is nothing to advance. */
  lemma SpliceKeepsPlace(entries: seq<Entry>, prev: Iterator, it: Iterator, k: nat)
    requires InPlace(entries, prev, it, k) && 0 < k < |entries|
    ensures SpliceToFront(entries, prev) == MoveToFront(entries, k)
    ensures InPlace(SpliceToFront(entries, prev), prev, Next(entries, it), k + 1)
  {
    var moved := MoveToFront(entries, k);
    PositionUnique(entries, k);
    MoveKeepsDistinct(entries, k);
    assert moved[k] == entries[k - 1];
    PositionUnique(moved, k);
    assert k + 1 < |entries| ==> moved[k + 1] == entries[k + 1];
  }

  /** Without a splice `prev` moves on to the node just visited. */
  lemma StepKeepsPlace(entries: seq<Entry>, prev: Iterator, it: Iterator, k: nat)
    requires InPlace(entries, prev, it, k) && k < |entries|
    ensures InPlace(entries, it, Next(entries, it), k + 1)
  {
    PositionUnique(entries, k);
  }

  /** Both iterators name nodes, so a splice moves the node they mean: after every turn, with or
      without a splice, `prev` precedes `it` again, and the list is that of an indexed visit. */
  lemma TurnKeepsPlace(entries: seq<Entry>, prev: Iterator, it: Iterator, k: nat, world: World, origin: int)
    requires InPlace(entries, prev, it, k) && k < |entries| && Passes(entries[k], world, origin)
    ensures PositionOf(entries, it.reader) == k
    ensures var turn := TurnOf(entries, prev, it, world, origin);
      && turn.Going? && turn.entries == Visit(entries, k, world, origin)
      && InPlace(turn.entries, turn.prev, turn.it, k + 1)
  {
    PositionUnique(entries, k);
    var f := Observe(entries[k], world, origin);
    UpdateKeepsPlace(entries, prev, it, k, f);
    SameNext(entries, k, f);
    if Slower(entries, k, f) {
      SpliceKeepsPlace(entries[k := f], prev, it, k);
    } else {
      StepKeepsPlace(entries[k := f], prev, it, k);
    }
  }

  /** Changing the visited entry leaves the node after it. */
  lemma SameNext(entries: seq<Entry>, k: nat, f: Entry)
    requires Distinct(entries) && k < |entries| && f.reader == entries[k].reader
    ensures Next(entries, At(f.reader)) == Next(entries[k := f], At(f.reader))
  {
    PositionUnique(entries, k);
    PositionUnique(entries[k := f], k);
  }

  /** What a call returns, the list it leaves, and the readers whose nodes it visited, in order. */
  datatype Outcome = Outcome(status: Status, entries: seq<Entry>, visited: seq<nat>)

  /** The loop from a place on. */
  function Walk(entries: seq<Entry>, prev: Iterator, it: Iterator, ghost k: nat, visited: seq<nat>, world: World, origin: int): (r: Outcome)
    requires InPlace(entries, prev, it, k)
    decreases |entries| - k
  {
    match it
    case At(reader) =>
      PositionUnique(entries, k);
      if Passes(entries[PositionOf(entries, reader)], world, origin) then
        TurnKeepsPlace(entries, prev, it, k, world, origin);
        var turn := TurnOf(entries, prev, it, world, origin);
        Walk(turn.entries, turn.prev, turn.it, k + 1, visited + [reader], world, origin)
      else Outcome(TurnOf(entries, prev, it, world, origin).status, entries, visited + [reader])
    case _ => Outcome(OK, entries, visited)
  }

  /** A whole call. */
  function WalkAll(entries: seq<Entry>, world: World, origin: int): (r: Outcome)
    requires Distinct(entries)
  {
    Walk(entries, BeforeBegin, NodeAt(entries, 0), 0, [], world, origin)
  }

  /** The loop over nodes has the effect of visiting the k-th entry for the next k. */
  lemma {:induction false} WalkIsIndexed(entries: seq<Entry>, prev: Iterator, it: Iterator, k: nat, visited: seq<nat>, world: World, origin: int)
    requires InPlace(entries, prev, it, k)
    ensures var r := Walk(entries, prev, it, k, visited, world, origin);
      (r.status, r.entries) == IndexedWalk(entries, k, world, origin) && r.visited == visited + IndexedVisits(entries, k, world, origin)
    decreases |entries| - k
  {
    if k < |entries| {
      PositionUnique(entries, k);
      if Passes(entries[k], world, origin) {
        TurnKeepsPlace(entries, prev, it, k, world, origin);
        var turn := TurnOf(entries, prev, it, world, origin);
        WalkIsIndexed(turn.entries, turn.prev, turn.it, k + 1, visited + [it.reader], world, origin);
        Regroup(visited, it.reader, IndexedVisits(turn.entries, k + 1, world, origin));
      }
    }
  }

  lemma Regroup(a: seq<nat>, x: nat, b: seq<nat>)
    ensures a + [x] + b == a + ([x] + b)
  {}

  lemma WalkAllIsIndexed(entries: seq<Entry>, world: World, origin: int)
    requires Distinct(entries)
    ensures var r := WalkAll(entries, world, origin);
      (r.status, r.entries) == IndexedWalk(entries, 0, world, origin) && r.visited == IndexedVisits(entries, 0, world, origin)
  {
    WalkIsIndexed(entries, BeforeBegin, NodeAt(entries, 0), 0, [], world, origin);
    assert [] + IndexedVisits(entries, 0, world, origin) == IndexedVisits(entries, 0, world, origin);
  }

  /** Although nodes are moved under way, the walk visits the readers in their original order,
      each once: all of them when it succeeds, and up to the first failure otherwise. */
  lemma WalkVisitsEachOnce(entries: seq<Entry>, world: World, origin: int)
    requires Distinct(entries)
    ensures WalkAll(entries, world, origin).visited <= Readers(entries)
    ensures WalkAll(entries, world, origin).status == OK ==> WalkAll(entries, world, origin).visited == Readers(entries)
  {
    WalkAllIsIndexed(entries, world, origin);
    IndexedVisitsInOrder(entries, 0, world, origin);
    assert entries[0..] == entries;
  }

  /** The walk succeeds exactly if every reader's head has reached the expected index or its wait
      succeeded; otherwise it returns the result of the first reader that failed. */
  lemma WalkStatus(entries: seq<Entry>, world: World, origin: int)
    requires Distinct(entries)
    ensures WalkAll(entries, world, origin).status == OK <==> forall i :: 0 <= i < |entries| ==> Passes(entries[i], world, origin)
    ensures forall e :: e in entries ==> (Passes(e, world, origin) <==>
              TimestampToIndex(e.grainRate, origin) <= world(e.reader).headIndex || world(e.reader).waitResult == OK)
    ensures forall i :: 0 <= i < |entries| && FirstFailure(entries, 0, i, world, origin) ==>
      WalkAll(entries, world, origin).status == world(entries[i].reader).waitResult
  {
    WalkAllIsIndexed(entries, world, origin);
    IndexedStatus(entries, 0, world, origin);
    forall i | 0 <= i < |entries| && FirstFailure(entries, 0, i, world, origin)
      ensures WalkAll(entries, world, origin).status == world(entries[i].reader).waitResult
    {
      IndexedFailure(entries, 0, i, world, origin);
    }
  }

  /** The walk changes the order of the entries and their observed delays, nothing else; no reader
      appears twice, and the front keeps the largest observed delay. */
  lemma WalkPermutes(entries: seq<Entry>, world: World, origin: int)
    requires Distinct(entries)
    ensures multiset(AllPlain(WalkAll(entries, world, origin).entries)) == multiset(AllPlain(entries))
    ensures Distinct(WalkAll(entries, world, origin).entries)
    ensures FrontSlowest(entries) ==> FrontSlowest(WalkAll(entries, world, origin).entries)
  {
    WalkAllIsIndexed(entries, world, origin);
    IndexedPermutes(entries, 0, world, origin);
    IndexedKeepsDistinct(entries, 0, world, origin);
    if FrontSlowest(entries) {
      IndexedKeepsFront(entries, 0, world, origin);
    }
  }

  // ---- the list after a walk ---------------------------------------------------------------------------------

  /** The delay of a visited reader: that of the source at this visit, counted from the time of the
      expected index, if it is the largest so far; unchanged if the head had already been reached. */
  predicate DelayAfter(e: Entry, f: Entry, world: World, origin: int) {
    var index, seen := TimestampToIndex(e.grainRate, origin), world(e.reader);
    var delay := seen.now - IndexToTimestamp(e.grainRate, index);
    && f == e.(maxObservedSourceDelay := f.maxObservedSourceDelay)
    && (index <= seen.headIndex || delay <= 0 ==> f.maxObservedSourceDelay == e.maxObservedSourceDelay)
    && (seen.headIndex < index && 0 < delay ==>
          f.maxObservedSourceDelay == if e.maxObservedSourceDelay < delay then delay else e.maxObservedSourceDelay)
  }

  lemma ObservedDelay(e: Entry, world: World, origin: int)
    ensures DelayAfter(e, Observe(e, world, origin), world, origin)
  {}

  /** The entries after the first m visits, in their old order. */
  function Updated(entries: seq<Entry>, m: nat, world: World, origin: int): (after: seq<Entry>)
    requires m <= |entries|
    ensures |after| == |entries|
    ensures forall i :: 0 <= i < |entries| ==> after[i] == if i < m then Observe(entries[i], world, origin) else entries[i]
  {
    seq(|entries|, i requires 0 <= i < |entries| => if i < m then Observe(entries[i], world, origin) else entries[i])
  }

  /** Visit i reveals a larger delay than that of the front entry. */
  predicate Moves(entries: seq<Entry>, after: seq<Entry>, i: nat)
    requires i < |entries| == |after|
    decreases i, 1
  {
    i > 0 && after[i] != entries[i] && FrontDelay(entries, after, i) < after[i].maxObservedSourceDelay
  }

  /** The delay of the front entry after i visits: that of the last one that moved there. */
  function FrontDelay(entries: seq<Entry>, after: seq<Entry>, i: nat): int
    requires 1 <= i <= |entries| == |after|
    decreases i, 0
  {
    if i == 1 then after[0].maxObservedSourceDelay
    else if Moves(entries, after, i - 1) then after[i - 1].maxObservedSourceDelay
    else FrontDelay(entries, after, i - 1)
  }

  /** The entries that moved in the first i visits, the latest first, and those that did not. */
  function Moved(entries: seq<Entry>, after: seq<Entry>, i: nat): seq<Entry>
    requires i <= |entries| == |after|
  {
    if i == 0 then [] else (if Moves(entries, after, i - 1) then [after[i - 1]] else []) + Moved(entries, after, i - 1)
  }

  function Stayed(entries: seq<Entry>, after: seq<Entry>, i: nat): seq<Entry>
    requires i <= |entries| == |after|
  {
    if i == 0 then [] else Stayed(entries, after, i - 1) + if Moves(entries, after, i - 1) then [] else [after[i - 1]]
  }

  function Arranged(entries: seq<Entry>, after: seq<Entry>, i: nat): seq<Entry>
    requires i <= |entries| == |after|
  {
    Moved(entries, after, i) + Stayed(entries, after, i) + entries[i..]
  }

  lemma {:induction false} ArrangedFront(entries: seq<Entry>, after: seq<Entry>, i: nat)
    requires i <= |entries| == |after|
    ensures |Moved(entries, after, i)| + |Stayed(entries, after, i)| == i
    ensures i >= 1 ==> Arranged(entries, after, i)[0].maxObservedSourceDelay == FrontDelay(entries, after, i)
    ensures Moved(entries, after, i) == [] && i >= 1 ==> Stayed(entries, after, i)[0] == after[0]
  {
    if i > 0 {
      ArrangedFront(entries, after, i - 1);
    }
  }

  lemma MiddleEntry(moved: seq<Entry>, stayed: seq<Entry>, e: Entry, f: Entry, rest: seq<Entry>)
    ensures var list, i := moved + stayed + ([e] + rest), |moved| + |stayed|;
      && |list| == i + 1 + |rest| && list[i] == e
      && list[i := f] == moved + stayed + ([f] + rest)
      && MoveToFront(list[i := f], i) == [f] + moved + stayed + rest
  {
    var list, i := moved + stayed + ([e] + rest), |moved| + |stayed|;
    assert list[i := f][..i] == moved + stayed;
    assert list[i := f][i + 1..] == rest;
  }

  lemma ArrangedNext(entries: seq<Entry>, after: seq<Entry>, i: nat)
    requires i < |entries| == |after|
    ensures var moved, stayed := Moved(entries, after, i), Stayed(entries, after, i);
      && Arranged(entries, after, i) == moved + stayed + ([entries[i]] + entries[i + 1..])
      && Arranged(entries, after, i + 1) ==
           if Moves(entries, after, i) then [after[i]] + moved + stayed + entries[i + 1..]
           else moved + stayed + ([after[i]] + entries[i + 1..])
  {
    assert entries[i..] == [entries[i]] + entries[i + 1..];
    var moved, stayed := Moved(entries, after, i), Stayed(entries, after, i);
    if !Moves(entries, after, i) {
      assert Moved(entries, after, i + 1) == moved;
      assert moved + (stayed + [after[i]]) + entries[i + 1..] == moved + stayed + ([after[i]] + entries[i + 1..]);
    } else {
      assert Stayed(entries, after, i + 1) == stayed;
    }
  }

  lemma ArrangedVisit(entries: seq<Entry>, m: nat, i: nat, world: World, origin: int)
    requires i < m <= |entries|
    ensures var after := Updated(entries, m, world, origin);
      && |Arranged(entries, after, i)| == |entries| && Arranged(entries, after, i)[i] == entries[i]
      && Visit(Arranged(entries, after, i), i, world, origin) == Arranged(entries, after, i + 1)
  {
    var after := Updated(entries, m, world, origin);
    ArrangedFront(entries, after, i);
    ArrangedNext(entries, after, i);
    MiddleEntry(Moved(entries, after, i), Stayed(entries, after, i), entries[i], after[i], entries[i + 1..]);
    var list := Arranged(entries, after, i);
    assert Slower(list, i, after[i]) <==> Moves(entries, after, i);
  }

  lemma {:induction false} IndexedArranges(entries: seq<Entry>, m: nat, i: nat, list: seq<Entry>, world: World, origin: int)
    requires i <= m <= |entries| == |list| && (forall j :: 0 <= j < m ==> Passes(entries[j], world, origin))
    requires m < |entries| ==> !Passes(entries[m], world, origin)
    requires list == Arranged(entries, Updated(entries, m, world, origin), i)
    ensures IndexedWalk(list, i, world, origin).1 == Arranged(entries, Updated(entries, m, world, origin), m)
    decreases m - i
  {
    if i < m {
      ArrangedVisit(entries, m, i, world, origin);
      var next := Visit(list, i, world, origin);
      IndexedArranges(entries, m, i + 1, next, world, origin);
      OneVisit(list, i, world, origin);
    } else {
      ArrangedEnd(entries, m, world, origin);
    }
  }

  lemma OneVisit(list: seq<Entry>, i: nat, world: World, origin: int)
    requires i < |list| && Passes(list[i], world, origin)
    ensures IndexedWalk(list, i, world, origin) == IndexedWalk(Visit(list, i, world, origin), i + 1, world, origin)
  {}

  lemma ArrangedEnd(entries: seq<Entry>, m: nat, world: World, origin: int)
    requires m <= |entries| && (m < |entries| ==> !Passes(entries[m], world, origin))
    ensures var list := Arranged(entries, Updated(entries, m, world, origin), m);
      |list| == |entries| && IndexedWalk(list, m, world, origin).1 == list
  {
    var after := Updated(entries, m, world, origin);
    ArrangedFront(entries, after, m);
    if m < |entries| {
      assert Arranged(entries, after, m)[m] == entries[m];
    }
  }

  /** The exact list after a walk in which the first m waits succeeded and the next one, if any,
      failed: the readers that proved slower than the front at their visit, the latest first, then
      the other visited ones in their order, with their delays brought up to date, and then those
      that were not reached. */
  lemma WalkArranges(entries: seq<Entry>, m: nat, world: World, origin: int)
    requires Distinct(entries) && m <= |entries| && (forall j :: 0 <= j < m ==> Passes(entries[j], world, origin))
    requires m < |entries| ==> !Passes(entries[m], world, origin)
    ensures WalkAll(entries, world, origin).entries == Arranged(entries, Updated(entries, m, world, origin), m)
  {
    WalkAllIsIndexed(entries, world, origin);
    assert Arranged(entries, Updated(entries, m, world, origin), 0) == entries;
    IndexedArranges(entries, m, 0, entries, world, origin);
  }

  lemma {:induction false} ArrangedHas(entries: seq<Entry>, after: seq<Entry>, m: nat, i: nat)
    requires i < m <= |entries| == |after|
    ensures after[i] in Moved(entries, after, m) || after[i] in Stayed(entries, after, m)
    decreases m
  {
    if i < m - 1 {
      ArrangedHas(entries, after, m - 1, i);
    }
  }

  /** After a walk that succeeds every reader is in the list with its delay: unchanged if its head
      had been reached, otherwise the larger of the old one and the time from its expected index's
      timestamp to its visit. */
  lemma WalkDelays(entries: seq<Entry>, i: nat, world: World, origin: int) returns (f: Entry)
    requires Distinct(entries) && i < |entries| && WalkAll(entries, world, origin).status == OK
    ensures f in WalkAll(entries, world, origin).entries && DelayAfter(entries[i], f, world, origin)
  {
    WalkStatus(entries, world, origin);
    WalkArranges(entries, |entries|, world, origin);
    f := Observe(entries[i], world, origin);
    ArrangedHas(entries, Updated(entries, |entries|, world, origin), |entries|, i);
    ObservedDelay(entries[i], world, origin);
  }

  // ---- slices ----------------------------------------------------------------------------------------------

  /** At the end of its visit, a read of the expected grain with the requested slices succeeds. */
  predicate HasSlices(e: Entry, world: World, origin: int) {
    var seen := world(e.reader);
    && seen.grains != []
    && DiscreteRing.Read(seen.grains, seen.headAfter, TimestampToIndex(e.grainRate, origin), e.minValidSlices) == DiscreteRing.Ok
  }

  /** A blocking read of a grain: the moments it meets, and the flow at each of them. */
  datatype Trace = Trace(moments: Waiting.World, grains: nat -> seq<DiscreteRing.Grain>, heads: nat -> nat, start: nat, limit: nat)

  /** Each attempt is a read of the expected grain for the requested slices. */
  ghost predicate Attempts(e: Entry, trace: Trace, origin: int) {
    forall t: nat :: trace.grains(t) != [] && (trace.moments(t).attempt == Waiting.Ok <==>
      DiscreteRing.Read(trace.grains(t), trace.heads(t), TimestampToIndex(e.grainRate, origin), e.minValidSlices) == DiscreteRing.Ok)
  }

  /** What the visit saw is how this read ended: its result, and the flow at its last attempt. */
  ghost predicate EndOfWait(seen: Observation, trace: Trace, n: nat, status: Waiting.Status, end: nat)
    requires Waiting.Expires(trace.moments, trace.limit)
  {
    && Waiting.EndsWith(trace.moments, trace.start, trace.limit, n, status, end)
    && (seen.waitResult == OK ==> status == Waiting.Ok)
    && var t := Waiting.StartOf(trace.moments, trace.start, trace.limit, n) + 1;
       seen.grains == trace.grains(t) && seen.headAfter == trace.heads(t)
  }

  ghost predicate FromWait(e: Entry, seen: Observation, trace: Trace, origin: int) {
    && Waiting.Expires(trace.moments, trace.limit) && Attempts(e, trace, origin)
    && exists n: nat, status: Waiting.Status, end: nat :: EndOfWait(seen, trace, n, status, end)
  }

  /** The visits that had to wait for a grain saw what a blocking read leaves. */
  ghost predicate FromWaits(entries: seq<Entry>, world: World, traces: nat -> Trace, origin: int) {
    forall i :: 0 <= i < |entries| && entries[i].variant.Discrete? && !Reached(entries[i], world, origin) ==>
      FromWait(entries[i], world(entries[i].reader), traces(entries[i].reader), origin)
  }

  /** A wait for a grain that succeeds has just read it with its slices. */
  lemma WaitReads(e: Entry, world: World, trace: Trace, origin: int)
    requires FromWait(e, world(e.reader), trace, origin) && world(e.reader).waitResult == OK
    ensures HasSlices(e, world, origin)
  {
    var n: nat, status, end: nat :| EndOfWait(world(e.reader), trace, n, status, end);
    Waiting.ResultMeans(trace.moments, trace.start, trace.limit, n, status, end);
  }

  /** A walk that succeeds leaves every discrete reader with its slices exactly if those readers have
      them whose head had already been reached: for them nothing was waited for, and the others read
      their grain. */
  lemma SlicesAfterWalk(entries: seq<Entry>, world: World, traces: nat -> Trace, origin: int)
    requires Distinct(entries) && FromWaits(entries, world, traces, origin)
    requires WalkAll(entries, world, origin).status == OK
    ensures forall i :: 0 <= i < |entries| && entries[i].variant.Discrete? && !Reached(entries[i], world, origin) ==>
              HasSlices(entries[i], world, origin)
    ensures (forall i :: 0 <= i < |entries| && entries[i].variant.Discrete? ==> HasSlices(entries[i], world, origin))
      <==> (forall i :: 0 <= i < |entries| && entries[i].variant.Discrete? && Reached(entries[i], world, origin)
             ==> HasSlices(entries[i], world, origin))
  {
    WalkStatus(entries, world, origin);
    forall i | 0 <= i < |entries| && entries[i].variant.Discrete? && !Reached(entries[i], world, origin)
      ensures HasSlices(entries[i], world, origin)
    {
      assert Passes(entries[i], world, origin);
      WaitReads(entries[i], world, traces(entries[i].reader), origin);
    }
  }

  /** The case occurs: for every group with a discrete reader that asks for at least one slice, there
      is a world in which the walk succeeds and this reader's grain has no slices yet. */
  lemma SlicesCanBeMissing(entries: seq<Entry>, i: nat, traces: nat -> Trace, origin: int) returns (world: World)
    requires Distinct(entries) && i < |entries| && entries[i].variant.Discrete? && entries[i].minValidSlices >= 1
    ensures FromWaits(entries, world, traces, origin) && WalkAll(entries, world, origin).status == OK
    ensures Reached(entries[i], world, origin) && !HasSlices(entries[i], world, origin)
  {
    var index := TimestampToIndex(entries[i].grainRate, origin);
    var blank := DiscreteRing.Grain(index, false, 0, 1, 0);
    world := reader => Observation(UNDEFINED, OK, 0, index, [blank]);
    forall k | 0 <= k < |entries| ensures Reached(entries[k], world, origin) {
      IndexFits(entries[k].grainRate, origin);
    }
    WalkStatus(entries, world, origin);
  }

  lemma IndexFits(rate: Rational, origin: int)
    ensures TimestampToIndex(rate, origin) <= UNDEFINED
  {}

  // ---- the group -----------------------------------------------------------------------------------------------------

  class FlowSynchronizationGroup {
    var readers: seq<Entry>

    ghost predicate Valid()
      reads this
    {
      Distinct(readers)
    }

    constructor ()
      ensures Valid() && readers == []
    {
      readers := [];
    }

    method AddReader(reader: nat, variant: Variant, minValidSlices: nat, rate: Rational)
      requires Valid()
      modifies this
      ensures Valid() && readers == Added(old(readers), reader, variant, minValidSlices, rate)
    {
      AddKeeps(readers, reader, variant, minValidSlices, rate);
      var current := 0;
      while current < |readers|
        invariant current <= PositionOf(readers, reader) && readers == old(readers)
      {
        if readers[current].reader == reader {
          if variant.Discrete? {
            readers := readers[current := readers[current].(minValidSlices := minValidSlices)];
          }
          return;
        }
        current := current + 1;
      }
      readers := readers + [Entry(reader, minValidSlices, variant, rate, 0)];
    }

    method RemoveReader(reader: nat)
      requires Valid()
      modifies this
      ensures Valid() && readers == Removed(old(readers), reader)
    {
      RemoveKeeps(readers, reader);
      var current := 0;
      while current < |readers|
        invariant current <= PositionOf(readers, reader) && readers == old(readers)
      {
        if readers[current].reader == reader {
          readers := readers[..current] + readers[current + 1..];
          return;
        }
        current := current + 1;
      }
    }

    /** The wait for one reader, and its entry with the delay that the wait revealed. */
    method WaitFor(entry: Entry, world: World, origin: int) returns (result: Status, observed: Entry)
      ensures Passes(entry, world, origin) ==> result == OK && observed == Observe(entry, world, origin)
      ensures !Passes(entry, world, origin) ==> result == world(entry.reader).waitResult && result != OK
    {
      var expectedIndex := TimestampToIndex(entry.grainRate, origin);
      var observation := world(entry.reader);
      observed := entry;
      if expectedIndex > observation.headIndex {
        result := observation.waitResult;
        if result != OK {
          return;
        }
        var expectedArrivalTime := IndexToTimestamp(entry.grainRate, expectedIndex);
        if observation.now > expectedArrivalTime {
          var sourceDelay := observation.now - expectedArrivalTime;
          if sourceDelay > entry.maxObservedSourceDelay {
            observed := entry.(maxObservedSourceDelay := sourceDelay);
          }
        }
      }
      result := OK;
    }

    /** The check of one reader. A splice leaves `prev` where it is: it already precedes the next
        node. Otherwise `prev` moves on to the node just visited. */
    method VisitReader(prev: Iterator, current: Iterator, world: World, origin: int) returns (result: Status, prev': Iterator)
      requires current.At? && PositionOf(readers, current.reader) < |readers|
      modifies this
      ensures var turn := TurnOf(old(readers), prev, current, world, origin);
        if turn.Failed? then result == turn.status && result != OK && readers == old(readers)
        else result == OK && readers == turn.entries && prev' == turn.prev
    {
      var k := PositionOf(readers, current.reader);
      var entry := readers[k];
      var observed;
      prev' := current;
      result, observed := WaitFor(entry, world, origin);
      if result == OK && observed != entry {
        readers := readers[k := observed];
        if readers[k].maxObservedSourceDelay > readers[0].maxObservedSourceDelay {
          readers := SpliceToFront(readers, prev);
          prev' := prev;
        }
      }
    }

    /** One turn of the loop. */
    method TakeTurn(ghost goal: Outcome, prev: Iterator, current: Iterator, ghost k: nat, visited: seq<nat>, world: World, origin: int)
      returns (result: Status, prev': Iterator, it: Iterator, visited': seq<nat>)
      requires OnTheWay(goal, readers, prev, current, k, visited, world, origin) && current != End
      modifies this
      ensures result != OK ==> Outcome(result, readers, visited') == goal
      ensures result == OK ==> |readers| == old(|readers|) && OnTheWay(goal, readers, prev', it, k + 1, visited', world, origin)
    {
      TurnOnTheWay(goal, readers, prev, current, k, visited, world, origin);
      it := Next(readers, current);
      visited' := visited + [current.reader];
      result, prev' := VisitReader(prev, current, world, origin);
    }

    method WaitForDataAt(world: World, origin: int) returns (status: Status, visited: seq<nat>)
      requires Valid()
      modifies this
      ensures Valid() && Outcome(status, readers, visited) == WalkAll(old(readers), world, origin)
    {
      WalkPermutes(readers, world, origin);
      AtTheStart(readers, world, origin);
      status, visited := WalkList(WalkAll(readers, world, origin), world, origin);
    }

    /** Walks the list, moving the node after `prev` to the front when it proves slower than the front. */
    method WalkList(ghost goal: Outcome, world: World, origin: int) returns (status: Status, visited: seq<nat>)
      requires OnTheWay(goal, readers, BeforeBegin, Next(readers, BeforeBegin), 0, [], world, origin)
      modifies this
      ensures Outcome(status, readers, visited) == goal
    {
      visited := [];
      var prev, it := BeforeBegin, Next(readers, BeforeBegin);
      ghost var k := 0;
      while it != End
        invariant OnTheWay(goal, readers, prev, it, k, visited, world, origin)
        decreases |readers| - k
      {
        status, prev, it, visited := TakeTurn(goal, prev, it, k, visited, world, origin);
        if status != OK {
          return;
        }
        k := k + 1;
      }
      status := OK;
      AtTheEnd(goal, readers, prev, k, visited, world, origin);
    }
  }

  /** The iterators are in place, and the rest of the walk completes the whole one. */
  ghost predicate OnTheWay(goal: Outcome, entries: seq<Entry>, prev: Iterator, it: Iterator, k: nat, visited: seq<nat>,
                     world: World, origin: int)
  {
    InPlace(entries, prev, it, k) && Walk(entries, prev, it, k, visited, world, origin) == goal
  }

  lemma AtTheStart(entries: seq<Entry>, world: World, origin: int)
    requires Distinct(entries)
    ensures OnTheWay(WalkAll(entries, world, origin), entries, BeforeBegin, Next(entries, BeforeBegin), 0, [], world, origin)
  {}

  lemma AtTheEnd(goal: Outcome, entries: seq<Entry>, prev: Iterator, k: nat, visited: seq<nat>, world: World, origin: int)
    requires OnTheWay(goal, entries, prev, End, k, visited, world, origin)
    ensures goal == Outcome(OK, entries, visited)
  {}

  lemma TurnOnTheWay(goal: Outcome, entries: seq<Entry>, prev: Iterator, it: Iterator, k: nat, visited: seq<nat>, world: World, origin: int)
    requires OnTheWay(goal, entries, prev, it, k, visited, world, origin) && it != End
    ensures k < |entries| && it.At? && PositionOf(entries, it.reader) == k
    ensures var turn := TurnOf(entries, prev, it, world, origin);
      if turn.Failed? then Outcome(turn.status, entries, visited + [it.reader]) == goal
      else
        && turn.it == Next(entries, it) && |turn.entries| == |entries|
        && OnTheWay(goal, turn.entries, turn.prev, turn.it, k + 1, visited + [it.reader], world, origin)
  {
    PositionUnique(entries, k);
    if Passes(entries[k], world, origin) {
      TurnKeepsPlace(entries, prev, it, k, world, origin);
    }
  }
}
