/** The event queue as a state machine: one writer process at a time, any number of
    readers, and a shared mapping that survives the death of the writer.

    Every store to the mapping is one step, and every load that can race with a store is
    one step. The writer's own loads are folded into its next store, because no other
    process stores; recovery reads a slot in one step for the same reason. The sync counter is
    a 32-bit word in the code: waiting compares its values modulo COUNTER_LIMIT. */
module EventProtocol {
  import opened MachineWords
  import opened EventWords
  import Modular

  /** Tag of a slot that never held an entry. */
  const EMPTY: nat := 0xFFFF_FFFF_FFFF_FFFF

  /** Largest index whose completed tag differs from EMPTY. */
  const MAX_INDEX: nat := EMPTY / 2 - 1

  /** Sequence tag, then metadata words, then payload words. */
  datatype Slot = Slot(tag: nat, words: seq<Word>)

  datatype Writer =
    | Detached                                        // no writer process
    | Failed                                          // recovery threw
    | Idle(last: nat, open: bool)                     // attached, between commits
    | Writing(last: nat, entry: Entry, stored: nat)   // tag 2i visible, copying words
    | Advancing(index: nat, stamp: nat)               // tag 2i+1 visible, head not stored
    | Notifying(stamp: nat)                           // head stored, counter not incremented
    | Waking(stamp: nat)                              // counter incremented, sleepers not woken

  /** What the latest publication still owes to waiting readers. Kept for the proofs only. */
  datatype Debt = Settled | OwesIncrement | OwesWake

  /** What one call of getEvent did. */
  datatype Report =
    | Delivered(index: nat, words: seq<Word>)
    | TooLate(from: nat, to: nat)
    | TooEarly
    | FlowReplaced
    | CorruptEntry

  datatype ReaderPc =
    | Unattached
    | Starting                                   // between calls, or back at the top of the loop
    | Entered(saved: nat)                        // counter loaded
    | Probing(saved: nat)                        // cursor found within the window
    | Copying(saved: nat, words: seq<Word>)       // completed tag seen, copying words
    | Overrun                                    // tag moved past the cursor
    | Empty(saved: nat)                          // the tag said: not published
    | Parked(saved: nat, since: nat)             // asleep; counter was `since` when it fell asleep

  datatype Reader = Reader(pc: ReaderPc, start: nat, next: nat, reports: seq<Report>)

  datatype State = State(
    count: nat,
    capacity: nat,
    slots: seq<Slot>,
    head: nat,
    counter: nat,
    writer: Writer,
    readers: seq<Reader>,
    log: seq<Entry>,    // entries whose completed tag was stored, in order; proofs only
    debt: Debt)

  datatype Step =
    | Attach
    | Crash
    | Open
    | Cancel
    | Commit(info: seq<Word>, staging: seq<byte>)
    | StoreWord
    | CompleteTag
    | StoreHead
    | Increment
    | Wake
    | Read(reader: nat, action: Action)

  datatype Action =
    | Construct      // load the head, set the cursor to the oldest entry
    | Enter          // load the counter
    | LoadHead       // is the cursor behind the window?
    | LoadTag
    | LoadWord
    | RecheckTag
    | ReloadHead     // choose the cursor after an overrun
    | Wait           // futex wait or counter test
    | Interrupt      // spurious return of the futex wait
    | Deadline
    | Replaced       // the flow file was removed or replaced

  // ---- shared state ---------------------------------------------------------

  predicate Shaped(s: State) {
    && 2 <= s.count
    && |s.slots| == s.count
    && forall j :: 0 <= j < s.count ==> |s.slots[j].words| == SlotWords(s.capacity)
  }

  /** The slot that holds queue position `index`: index % count. */
  function SlotOf(s: State, index: nat): (j: nat)
    requires Shaped(s)
    ensures j < s.count
  {
    Modular.Wrap(index, s.count)
  }

  function SlotAt(slots: seq<Slot>, index: nat): Slot
    requires |slots| > 0
  {
    slots[Modular.Wrap(index, |slots|)]
  }

  /** Number of positions the head covers; also the position the next commit takes. */
  function Committed(head: nat): nat {
    if head == UNDEFINED then 0 else head + 1
  }

  function Oldest(head: nat, count: nat): nat {
    if head != UNDEFINED && head >= count && count > 0 then head - (count - 1) else 0
  }

  function Max(a: nat, b: nat): nat { if a >= b then a else b }

  /** Among the last `count` positions up to the head, or after it. */
  predicate Kept(head: nat, count: nat, p: nat) {
    head < p + count
  }

  /** The first such position after `from`. */
  predicate FirstKept(head: nat, count: nat, from: nat, to: nat) {
    from < to && Kept(head, count, to) && forall p: nat :: from < p && Kept(head, count, p) ==> to <= p
  }

  // ---- the ring primitives ----------------------------------------------------

  datatype ReadResult = Ready(words: seq<Word>) | Pending | Overwritten | Invalid

  /** What a slot's tag alone tells a reader that did not find the completed tag. */
  function Missed(tag: nat, index: nat): ReadResult {
    if tag != EMPTY && tag / 2 > index then Overwritten else Pending
  }

  /** A read of one slot during which nothing is stored. */
  function ReadSlot(slot: Slot, index: nat, capacity: nat): ReadResult
    requires |slot.words| == SlotWords(capacity)
  {
    if index > MAX_INDEX then Pending
    else if slot.tag != 2 * index + 1 then Missed(slot.tag, index)
    else
      var info := slot.words[..INFO_WORDS];
      if Acceptable(info, capacity) then Ready(slot.words[..Extent(info, capacity)]) else Invalid
  }

  datatype Status = Started | InvalidArgument | IndexExhausted | TagTaken

  /** Whether the writer may store the tag 2 * index over `tag`. */
  predicate MayPublish(tag: nat, index: nat) {
    tag == EMPTY || tag == 2 * index || tag / 2 < index
  }

  /** What publish decides from the index and the tag it finds. */
  function PublishStatus(tag: nat, index: nat): Status {
    if index > MAX_INDEX then IndexExhausted else if !MayPublish(tag, index) then TagTaken else Started
  }

  /** The outcome of commit's argument checks and of publish's checks, before any store. */
  function CommitStatus(s: State, info: seq<Word>): Status
    requires Shaped(s) && s.writer.Idle? && |info| == INFO_WORDS
  {
    if !s.writer.open || !Acceptable(info, s.capacity) || Timestamp(info) < s.writer.last then InvalidArgument
    else PublishStatus(SlotAt(s.slots, Committed(s.head)).tag, Committed(s.head))
  }

  /** The slot after a complete publication. */
  function PublishedSlot(slot: Slot, index: nat, e: Entry): Slot
    requires |e.Stream()| <= |slot.words|
  {
    Slot(2 * index + 1, e.Stream() + slot.words[|e.Stream()|..])
  }

  /** The writer right after its constructor inspected the ring. */
  function Recover(s: State): Writer
    requires Shaped(s)
  {
    var next := Committed(s.head);
    if s.head != UNDEFINED && !ReadSlot(SlotAt(s.slots, s.head), s.head, s.capacity).Ready? then Failed
    else
      var last := if s.head == UNDEFINED then 0 else Timestamp(SlotAt(s.slots, s.head).words[..INFO_WORDS]);
      match ReadSlot(SlotAt(s.slots, next), next, s.capacity)
      case Ready(words) =>
        var stamp := Timestamp(SlotAt(s.slots, next).words[..INFO_WORDS]);
        if stamp < last then Failed else Advancing(next, stamp)
      case Pending => if s.head == UNDEFINED then Idle(last, false) else Notifying(last)
      case _ => Failed
  }

  // ---- writer steps -------------------------------------------------------------

  predicate WriterEnabled(s: State, step: Step)
    requires Shaped(s)
  {
    match step
    case Attach => s.writer.Detached?
    case Crash => !s.writer.Detached?
    case Open => s.writer.Idle? && !s.writer.open
    case Cancel => s.writer.Idle? && s.writer.open
    case Commit(info, staging) => s.writer.Idle? && |info| == INFO_WORDS && |staging| == s.capacity
    case StoreWord => s.writer.Writing? && s.writer.stored < |s.writer.entry.Stream()| <= SlotWords(s.capacity)
    case CompleteTag => s.writer.Writing? && s.writer.stored == |s.writer.entry.Stream()| && |s.writer.entry.info| == INFO_WORDS
    case StoreHead => s.writer.Advancing?
    case Increment => s.writer.Notifying?
    case Wake => s.writer.Waking?
    case Read(_, _) => false
  }

  /** Futex wake-all: sleepers re-examine the counter. */
  function Woken(r: Reader): Reader {
    if r.pc.Parked? then r.(pc := Empty(r.pc.saved)) else r
  }

  function WriterStep(s: State, step: Step): State
    requires Shaped(s) && WriterEnabled(s, step)
  {
    match step
    case Attach => s.(writer := Recover(s))
    case Crash => s.(writer := Detached)
    case Open => s.(writer := Idle(s.writer.last, true))
    case Cancel => s.(writer := Idle(s.writer.last, false))
    case Commit(info, staging) =>
      if CommitStatus(s, info) != Started then s
      else
        var index := Committed(s.head);
        s.(slots := s.slots[SlotOf(s, index) := SlotAt(s.slots, index).(tag := 2 * index)],
           writer := Writing(s.writer.last, Entry(info, staging[..EventSize(info)]), 0))
    case StoreWord =>
      var index, k := Committed(s.head), s.writer.stored;
      var slot := SlotAt(s.slots, index);
      s.(slots := s.slots[SlotOf(s, index) := slot.(words := slot.words[k := s.writer.entry.Stream()[k]])],
         writer := s.writer.(stored := k + 1))
    case CompleteTag =>
      var index := Committed(s.head);
      s.(slots := s.slots[SlotOf(s, index) := SlotAt(s.slots, index).(tag := 2 * index + 1)],
         writer := Advancing(index, s.writer.entry.Stamp()),
         log := s.log + [s.writer.entry],
         debt := OwesIncrement)
    case StoreHead => s.(head := s.writer.index, writer := Notifying(s.writer.stamp))
    case Increment => s.(counter := s.counter + 1, writer := Waking(s.writer.stamp), debt := OwesWake)
    case Wake =>
      s.(readers := seq(|s.readers|, i requires 0 <= i < |s.readers| => Woken(s.readers[i])),
         writer := Idle(s.writer.stamp, false), debt := Settled)
    case Read(_, _) => s
  }

  // ---- reader steps ---------------------------------------------------------------

  predicate ReaderEnabled(s: State, r: Reader, action: Action)
    requires Shaped(s)
  {
    match action
    case Construct => r.pc.Unattached?
    case Enter => r.pc.Starting?
    case LoadHead => r.pc.Entered?
    case LoadTag => r.pc.Probing?
    case LoadWord => r.pc.Copying? && |r.pc.words| < Target(s, r.pc.words)
    case RecheckTag => r.pc.Copying? && |r.pc.words| == Target(s, r.pc.words)
    case ReloadHead => r.pc.Overrun?
    case Wait => r.pc.Empty?
    case Interrupt => r.pc.Parked?
    case Deadline => r.pc.Empty? || r.pc.Parked?
    case Replaced => r.pc.Empty?
  }

  /** How many words the reader copies, as far as it can tell from those it already has. */
  function Target(s: State, words: seq<Word>): (n: nat)
    ensures n <= SlotWords(s.capacity)
  {
    if |words| < INFO_WORDS then INFO_WORDS else Extent(words[..INFO_WORDS], s.capacity)
  }

  /** End of a call: the report is recorded and the cursor moves as the report says. */
  function Return(r: Reader, report: Report, next: nat): Reader {
    r.(pc := Starting, next := next, reports := r.reports + [report])
  }

  function ReaderStep(s: State, r: Reader, action: Action): Reader
    requires Shaped(s) && ReaderEnabled(s, r, action)
  {
    match action
    case Construct =>
      var oldest := Oldest(s.head, s.count);
      Reader(Starting, oldest, oldest, [])
    case Enter => r.(pc := Entered(s.counter))
    case LoadHead =>
      var oldest := Oldest(s.head, s.count);
      if r.next < oldest then Return(r, TooLate(r.next, oldest), oldest) else r.(pc := Probing(r.pc.saved))
    case LoadTag =>
      var tag := SlotAt(s.slots, r.next).tag;
      if r.next > MAX_INDEX then r.(pc := Empty(r.pc.saved))
      else if tag == 2 * r.next + 1 then r.(pc := Copying(r.pc.saved, []))
      else if Missed(tag, r.next).Overwritten? then r.(pc := Overrun)
      else r.(pc := Empty(r.pc.saved))
    case LoadWord =>
      r.(pc := Copying(r.pc.saved, r.pc.words + [SlotAt(s.slots, r.next).words[|r.pc.words|]]))
    case RecheckTag =>
      if SlotAt(s.slots, r.next).tag != 2 * r.next + 1 then r.(pc := Overrun)
      else if !Acceptable(r.pc.words[..INFO_WORDS], s.capacity) then Return(r, CorruptEntry, r.next)
      else Return(r, Delivered(r.next, r.pc.words), r.next + 1)
    case ReloadHead =>
      var to := Max(r.next + 1, Oldest(s.head, s.count));
      Return(r, TooLate(r.next, to), to)
    case Wait =>
      if s.counter % COUNTER_LIMIT == r.pc.saved % COUNTER_LIMIT
      then r.(pc := Parked(r.pc.saved, s.counter))
      else r.(pc := Starting)
    case Interrupt => r.(pc := Empty(r.pc.saved))
    case Deadline => Return(r, TooEarly, r.next)
    case Replaced => Return(r, FlowReplaced, r.next)
  }

  // ---- whole runs -------------------------------------------------------------------

  predicate Enabled(s: State, step: Step)
    requires Shaped(s)
  {
    match step
    case Read(i, action) => i < |s.readers| && ReaderEnabled(s, s.readers[i], action)
    case _ => WriterEnabled(s, step)
  }

  function Do(s: State, step: Step): State
    requires Shaped(s) && Enabled(s, step)
  {
    match step
    case Read(i, action) => s.(readers := s.readers[i := ReaderStep(s, s.readers[i], action)])
    case _ => WriterStep(s, step)
  }

  /** A freshly created flow: legal geometry, every tag EMPTY, no head, nobody attached. */
  predicate Init(s: State) {
    && Shaped(s)
    && (forall j :: 0 <= j < s.count ==> s.slots[j].tag == EMPTY)
    && s.head == UNDEFINED
    && s.writer.Detached?
    && (forall i :: 0 <= i < |s.readers| ==> s.readers[i].pc.Unattached? && s.readers[i].reports == [])
    && s.log == []
    && s.debt.Settled?
  }

  /** States visited by executing `steps` one after another from a fresh flow. */
  predicate Run(states: seq<State>, steps: seq<Step>) {
    && |states| == |steps| + 1
    && Init(states[0])
    && forall k :: 0 <= k < |steps| ==>
        Shaped(states[k]) && Enabled(states[k], steps[k]) && states[k + 1] == Do(states[k], steps[k])
  }
}
