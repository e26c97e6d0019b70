/** The inductive invariant of the event queue and its preservation by every step. */
module EventInvariant {
  import opened MachineWords
  import opened EventWords
  import opened EventProtocol
  import Modular

  // ---- what every reachable state satisfies ---------------------------------------

  /** The slot's leading words are the entry's stream. */
  predicate Holds(slot: Slot, e: Entry) {
    |e.Stream()| <= |slot.words| && slot.words[..|e.Stream()|] == e.Stream()
  }

  /** A slot is untouched, or in flux for the very next position, or holds the most recent
      published entry of its residue class. */
  predicate SlotOk(slots: seq<Slot>, head: nat, log: seq<Entry>, j: nat)
    requires j < |slots|
  {
    var slot, h := slots[j], |log|;
    if slot.tag == EMPTY then h <= j
    else if slot.tag % 2 == 0 then slot.tag == 2 * h && j == Modular.Wrap(h, |slots|) && Committed(head) == h && h <= MAX_INDEX
    else
      var i := slot.tag / 2;
      Modular.Wrap(i, |slots|) == j && i < h <= i + |slots| && Holds(slot, log[i])
  }

  predicate SlotsOk(slots: seq<Slot>, head: nat, log: seq<Entry>) {
    forall j :: 0 <= j < |slots| ==> SlotOk(slots, head, log, j)
  }

  predicate LogOk(log: seq<Entry>, capacity: nat) {
    && |log| <= MAX_INDEX + 1
    && (forall i :: 0 <= i < |log| ==> log[i].Valid(capacity))
    && (forall i, j :: 0 <= i <= j < |log| ==> log[i].Stamp() <= log[j].Stamp())
  }

  /** The timestamp that the next entry must reach. */
  function LastStamp(log: seq<Entry>): nat
    requires log != [] ==> |log[|log| - 1].info| == INFO_WORDS
  {
    if log == [] then 0 else log[|log| - 1].Stamp()
  }

  predicate HeadOk(s: State) {
    && (s.head == UNDEFINED || s.head <= MAX_INDEX)
    && Committed(s.head) <= |s.log| <= Committed(s.head) + 1
    && (Committed(s.head) < |s.log| ==> s.debt.OwesIncrement?)
    && (s.debt != Settled ==> s.log != [])
  }

  predicate WriterOk(s: State)
    requires Shaped(s) && LogOk(s.log, s.capacity)
  {
    var h := |s.log|;
    match s.writer
    case Detached => true
    case Failed => false
    case Idle(last, _) => Committed(s.head) == h && last == LastStamp(s.log) && s.debt.Settled?
    case Writing(last, e, stored) =>
      && Committed(s.head) == h && last == LastStamp(s.log) && s.debt.Settled? && h <= MAX_INDEX
      && e.Valid(s.capacity) && e.Stamp() >= last
      && SlotAt(s.slots, h).tag == 2 * h
      && stored <= |e.Stream()| <= SlotWords(s.capacity)
      && SlotAt(s.slots, h).words[..stored] == e.Stream()[..stored]
    case Advancing(index, stamp) => h == index + 1 && Committed(s.head) == index && stamp == LastStamp(s.log)
    case Notifying(stamp) => Committed(s.head) == h > 0 && stamp == LastStamp(s.log)
    case Waking(stamp) => Committed(s.head) == h > 0 && stamp == LastStamp(s.log) && s.debt.OwesWake?
  }

  // ---- readers ------------------------------------------------------------------------

  /** The slot of `index` carries the tag of a later entry. */
  predicate Passed(slots: seq<Slot>, index: nat)
    requires |slots| > 0
  {
    SlotAt(slots, index).tag != EMPTY && SlotAt(slots, index).tag / 2 > index
  }

  predicate ReportOk(slots: seq<Slot>, log: seq<Entry>, report: Report)
    requires |slots| > 0
  {
    match report
    case Delivered(i, words) => i < |log| && words == log[i].Stream()
    case TooLate(from, to) => from < to <= |log| && forall i :: from <= i < to ==> Passed(slots, i)
    case TooEarly => true
    case FlowReplaced => true
    case CorruptEntry => false
  }

  predicate ReportsOk(slots: seq<Slot>, log: seq<Entry>, reports: seq<Report>)
    requires |slots| > 0
  {
    forall k :: 0 <= k < |reports| ==> ReportOk(slots, log, reports[k])
  }

  /** Where the cursor stands after `reports`, provided each report starts where the
      previous one ended. */
  function Cursor(start: nat, reports: seq<Report>): int {
    if reports == [] then start
    else
      var at := Cursor(start, reports[..|reports| - 1]);
      match reports[|reports| - 1]
      case Delivered(i, _) => if at == i then i + 1 else -1
      case TooLate(from, to) => if at == from then to else -1
      case _ => at
  }

  /** `n` was unpublished when the counter was `saved`, or that counter value is stale, or
      the increment that will make it stale is still to come. */
  predicate Announced(s: State, n: nat, saved: nat) {
    n < |s.log| ==> saved < s.counter || s.debt.OwesIncrement?
  }

  predicate PcOk(s: State, r: Reader)
    requires Shaped(s)
  {
    match r.pc
    case Unattached => r.reports == []
    case Starting => true
    case Entered(saved) => saved <= s.counter
    case Probing(saved) => saved <= s.counter
    case Copying(saved, words) =>
      && saved <= s.counter
      && r.next < |s.log|
      && |words| <= Target(s, words)
      && (SlotAt(s.slots, r.next).tag == 2 * r.next + 1 ==> words <= s.log[r.next].Stream())
    case Overrun => r.next < |s.log| && Passed(s.slots, r.next)
    case Empty(saved) => saved <= s.counter && Announced(s, r.next, saved)
    case Parked(saved, since) =>
      && saved <= since <= s.counter
      && since % COUNTER_LIMIT == saved % COUNTER_LIMIT
      && Announced(s, r.next, saved)
      && (r.next < |s.log| ==> saved < since || s.debt != Settled)
  }

  predicate ReaderOk(s: State, r: Reader)
    requires Shaped(s)
  {
    && PcOk(s, r)
    && (!r.pc.Unattached? ==> Cursor(r.start, r.reports) == r.next && r.next <= |s.log|)
    && ReportsOk(s.slots, s.log, r.reports)
  }

  /** The mapping, the log and the writer. */
  predicate Core(s: State) {
    && Shaped(s)
    && LogOk(s.log, s.capacity)
    && HeadOk(s)
    && SlotsOk(s.slots, s.head, s.log)
    && WriterOk(s)
  }

  predicate Inv(s: State) {
    && Core(s)
    && forall i :: 0 <= i < |s.readers| ==> ReaderOk(s, s.readers[i])
  }

  lemma InitInv(s: State)
    requires Init(s)
    ensures Inv(s)
  {}

  // ---- consequences for single slots ----------------------------------------------------

  /** A published position within the last `count` positions is intact in its slot, except
      that the oldest of them may already be in flux for its successor. */
  lemma Intact(s: State, i: nat)
    requires Inv(s) && i < |s.log| <= i + s.count
    requires |s.log| < i + s.count || SlotAt(s.slots, i).tag % 2 == 1
    ensures SlotAt(s.slots, i).tag == 2 * i + 1 && Holds(SlotAt(s.slots, i), s.log[i])
  {
    var j, h := Modular.Wrap(i, s.count), |s.log|;
    assert SlotOk(s.slots, s.head, s.log, j);
    var tag := s.slots[j].tag;
    if tag == EMPTY {
    } else if tag % 2 == 0 {
      Modular.Turn(i, h, s.count);
    } else {
      var k := tag / 2;
      if k < i { Modular.Turn(k, i, s.count); }
      if i < k { Modular.Turn(i, k, s.count); }
    }
  }

  /** The completed tag of a published position is either still there or was replaced by a
      later one; it is never missing and never older. */
  lemma PublishedTag(s: State, i: nat)
    requires Inv(s) && i < |s.log|
    ensures SlotAt(s.slots, i).tag == 2 * i + 1 || Passed(s.slots, i)
    ensures SlotAt(s.slots, i).tag == 2 * i + 1 ==> Holds(SlotAt(s.slots, i), s.log[i])
  {
    var j := Modular.Wrap(i, s.count);
    assert SlotOk(s.slots, s.head, s.log, j);
    var tag := s.slots[j].tag;
    if tag != EMPTY && tag % 2 == 1 && tag / 2 < i {
      Modular.Turn(tag / 2, i, s.count);
    }
  }

  /** An unpublished position never shows its completed tag nor a later one. */
  lemma UnpublishedTag(s: State, i: nat)
    requires Inv(s) && |s.log| <= i <= MAX_INDEX
    ensures SlotAt(s.slots, i).tag != 2 * i + 1 && !Passed(s.slots, i)
  {
    assert SlotOk(s.slots, s.head, s.log, Modular.Wrap(i, s.count));
  }

  /** The next position's slot is free to take: untouched, or interrupted at this very
      position, or holding the entry one turn older. */
  lemma NextSlot(s: State)
    requires Inv(s) && Committed(s.head) == |s.log| <= MAX_INDEX
    ensures MayPublish(SlotAt(s.slots, |s.log|).tag, |s.log|)
  {
    assert SlotOk(s.slots, s.head, s.log, Modular.Wrap(|s.log|, s.count));
  }

  /** A position more than a full turn behind the log is gone from its slot. */
  lemma LongPassed(s: State, i: nat)
    requires Inv(s) && i + s.count < |s.log|
    ensures Passed(s.slots, i)
  {
    PublishedTag(s, i);
    assert SlotOk(s.slots, s.head, s.log, Modular.Wrap(i, s.count));
  }
}
