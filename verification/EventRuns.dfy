/** What holds in every run of the event queue: crash recovery, snapshots, reader cursors,
    timestamps and wake-ups. */
module EventRuns {
  import opened MachineWords
  import opened EventWords
  import opened EventProtocol
  import opened EventInvariant
  import opened EventPreservation
  import Modular

  // ---- reachable states ---------------------------------------------------------------

  lemma StepOfRun(states: seq<State>, steps: seq<Step>, k: nat)
    requires Run(states, steps) && k < |steps|
    ensures Shaped(states[k]) && Enabled(states[k], steps[k]) && states[k + 1] == Do(states[k], steps[k])
  {}

  lemma {:induction false} RunInv(states: seq<State>, steps: seq<Step>, k: nat)
    requires Run(states, steps) && k < |states|
    ensures Inv(states[k])
  {
    if k == 0 {
      InitInv(states[0]);
    } else {
      RunInv(states, steps, k - 1);
      StepOfRun(states, steps, k - 1);
      StepInv(states[k - 1], steps[k - 1]);
    }
  }

  /** What is never taken back, however many steps and crashes lie between two states. */
  predicate Later(s: State, t: State) {
    && t.count == s.count && t.capacity == s.capacity
    && s.log <= t.log
    && s.counter <= t.counter
    && Committed(s.head) <= Committed(t.head)
    && TagsLe(s.slots, t.slots)
    && |t.readers| == |s.readers|
    && forall r :: 0 <= r < |s.readers| ==> s.readers[r].reports <= t.readers[r].reports
  }

  lemma ReportsKept(s: State, step: Step)
    requires Inv(s) && Enabled(s, step)
    ensures |Do(s, step).readers| == |s.readers|
    ensures forall r :: 0 <= r < |s.readers| ==> s.readers[r].reports <= Do(s, step).readers[r].reports
  {
    if step.Read? {
      assert ReaderOk(s, s.readers[step.reader]);
    }
  }

  lemma StepLater(s: State, step: Step)
    requires Inv(s) && Enabled(s, step)
    ensures Later(s, Do(s, step))
  {
    StepInv(s, step);
    ReportsKept(s, step);
  }

  lemma LaterReflexive(s: State)
    ensures Later(s, s)
  {}

  lemma LaterTransitive(s: State, t: State, u: State)
    requires Later(s, t) && Later(t, u)
    ensures Later(s, u)
  {}

  lemma LaterStep(states: seq<State>, steps: seq<Step>, k: nat)
    requires Run(states, steps) && k < |steps|
    ensures Later(states[k], states[k + 1])
  {
    RunInv(states, steps, k);
    StepOfRun(states, steps, k);
    StepLater(states[k], steps[k]);
  }

  lemma {:induction false} LaterChain(states: seq<State>, i: nat, k: nat)
    requires i <= k < |states|
    requires forall m: nat {:trigger states[m]} :: m + 1 < |states| ==> Later(states[m], states[m + 1])
    ensures Later(states[i], states[k])
    decreases k
  {
    if i == k {
      LaterReflexive(states[i]);
    } else {
      LaterChain(states, i, k - 1);
      LaterTransitive(states[i], states[k - 1], states[k]);
    }
  }

  /** Entries, tags, the head and reports only ever move forward. */
  lemma RunLater(states: seq<State>, steps: seq<Step>, i: nat, k: nat)
    requires Run(states, steps) && i <= k < |states|
    ensures Later(states[i], states[k])
  {
    forall m: nat | m + 1 < |states| ensures Later(states[m], states[m + 1]) {
      LaterStep(states, steps, m);
    }
    LaterChain(states, i, k);
  }

  // ---- crash recovery --------------------------------------------------------------------

  /** Once a completed tag was visible in any state of a run, its entry keeps its index and
      content in the log for ever, whatever crashes and reattachments follow, and a slot
      that still shows that tag still holds exactly that entry. */
  lemma CompletedNeverChanges(states: seq<State>, steps: seq<Step>, i: nat, k: nat, n: nat)
    requires Run(states, steps) && i <= k < |states|
    requires Shaped(states[i]) && n <= MAX_INDEX && SlotAt(states[i].slots, n).tag == 2 * n + 1
    ensures n < |states[i].log| <= |states[k].log| && states[k].log[n] == states[i].log[n]
    ensures Shaped(states[k]) && SlotAt(states[k].slots, n).tag != EMPTY && SlotAt(states[k].slots, n).tag >= 2 * n + 1
    ensures SlotAt(states[k].slots, n).tag == 2 * n + 1 ==> Holds(SlotAt(states[k].slots, n), states[i].log[n])
  {
    RunInv(states, steps, i);
    RunInv(states, steps, k);
    RunLater(states, steps, i, k);
    if |states[i].log| <= n {
      UnpublishedTag(states[i], n);
    }
    PublishedTag(states[k], n);
    assert TagLe(states[i].slots[Modular.Wrap(n, states[i].count)].tag, states[k].slots[Modular.Wrap(n, states[i].count)].tag);
  }

  /** Recovery never throws; the log and the head never disagree by more than the one entry
      whose head store is pending; and they agree whenever a writer is ready to commit. */
  lemma HeadFollowsLog(states: seq<State>, steps: seq<Step>, k: nat)
    requires Run(states, steps) && k < |states|
    ensures var s := states[k];
      && !s.writer.Failed?
      && Committed(s.head) <= |s.log| <= Committed(s.head) + 1
      && (s.writer.Idle? || s.writer.Writing? ==> |s.log| == Committed(s.head))
      && (|s.log| > Committed(s.head) ==> s.writer.Advancing? || s.writer.Detached?)
  {
    RunInv(states, steps, k);
  }

  /** The log grows only by the step that completes a tag, at the index of that tag; no step
      skips or repeats an index. */
  lemma LogGrowsByTag(s: State, step: Step)
    requires Inv(s) && Enabled(s, step)
    ensures var t := Do(s, step);
      if step.CompleteTag?
      then t.log == s.log + [s.writer.entry] && SlotAt(s.slots, |s.log|).tag == 2 * |s.log| && SlotAt(t.slots, |s.log|).tag == 2 * |s.log| + 1
      else t.log == s.log
  {
    StepInv(s, step);
  }

  /** A tag left unfinished names the very position that the next accepted commit retries,
      in the same slot. */
  lemma UnfinishedIsReused(s: State, j: nat, info: seq<Word>, staging: seq<byte>)
    requires Inv(s) && j < s.count && s.slots[j].tag != EMPTY && s.slots[j].tag % 2 == 0
    ensures s.slots[j].tag == 2 * |s.log| && Committed(s.head) == |s.log| && j == SlotOf(s, |s.log|)
    ensures WriterEnabled(s, Commit(info, staging)) && CommitStatus(s, info) == Started ==>
      var t := Do(s, Commit(info, staging));
      t.slots == s.slots && t.writer.Writing? && t.writer.stored == 0
  {
    assert SlotOk(s.slots, s.head, s.log, j);
  }

  /** The statuses of commit: it refuses exactly the documented cases, never because of a
      tag in the ring, and leaves everything as it was when it refuses. */
  lemma CommitOutcome(s: State, info: seq<Word>, staging: seq<byte>)
    requires Inv(s) && WriterEnabled(s, Commit(info, staging))
    ensures CommitStatus(s, info) ==
      if !s.writer.open || !Acceptable(info, s.capacity) || Timestamp(info) < LastStamp(s.log) then InvalidArgument
      else if |s.log| > MAX_INDEX then IndexExhausted
      else Started
    ensures CommitStatus(s, info) != Started ==> Do(s, Commit(info, staging)) == s
  {
    if |s.log| <= MAX_INDEX {
      NextSlot(s);
    }
  }

  // ---- uninterrupted executions ----------------------------------------------------------

  /** The steps can be executed one after another. */
  predicate Executes(s: State, steps: seq<Step>)
    decreases |steps|
  {
    steps == [] || (Shaped(s) && Enabled(s, steps[0]) && Executes(Do(s, steps[0]), steps[1..]))
  }

  function Exec(s: State, steps: seq<Step>): State
    requires Executes(s, steps)
    decreases |steps|
  {
    if steps == [] then s else Exec(Do(s, steps[0]), steps[1..])
  }

  /** What a constructor that runs to its end does after a crash in `s`. */
  function RecoverySteps(s: State): seq<Step> {
    if Committed(s.head) < |s.log| then [Attach, StoreHead, Increment, Wake]
    else if s.log == [] then [Attach]
    else [Attach, Increment, Wake]
  }

  /** What the constructor leaves behind, given what it finds. */
  predicate Restored(s: State, t: State, stamp: nat) {
    && t.writer == Idle(stamp, false)
    && t.log == s.log && t.slots == s.slots
    && t.debt.Settled?
    && forall r :: 0 <= r < |t.readers| ==> !t.readers[r].pc.Parked?
  }

  lemma AdoptionExec(s: State, index: nat, stamp: nat)
    requires Shaped(s) && s.writer.Detached? && Recover(s) == Advancing(index, stamp)
    ensures Executes(s, [Attach, StoreHead, Increment, Wake])
    ensures Restored(s, Exec(s, [Attach, StoreHead, Increment, Wake]), stamp)
    ensures Exec(s, [Attach, StoreHead, Increment, Wake]).head == index
  {
    ExecFour(s, Attach, StoreHead, Increment, Wake);
  }

  lemma NotificationExec(s: State, stamp: nat)
    requires Shaped(s) && s.writer.Detached? && Recover(s) == Notifying(stamp)
    ensures Executes(s, [Attach, Increment, Wake])
    ensures Restored(s, Exec(s, [Attach, Increment, Wake]), stamp)
    ensures Exec(s, [Attach, Increment, Wake]).head == s.head
  {
    ExecNotify(Do(s, Attach), stamp);
    assert [Attach, Increment, Wake][1..] == [Increment, Wake];
  }

  /** Recovery adopts the published entry, restores the timestamp floor, pays the owed
      notification and wakes every sleeper, without touching the ring or the log. */
  lemma RecoveryCompletes(s: State)
    requires Inv(s) && s.writer.Detached?
    ensures Executes(s, RecoverySteps(s))
    ensures var t := Exec(s, RecoverySteps(s));
      && t.writer == Idle(LastStamp(s.log), false)
      && t.log == s.log && t.slots == s.slots
      && Committed(t.head) == |s.log|
      && t.debt.Settled?
      && (s.log != [] ==> forall r :: 0 <= r < |t.readers| ==> !t.readers[r].pc.Parked?)
  {
    RecoverExact(s);
    if Committed(s.head) < |s.log| {
      AdoptionExec(s, |s.log| - 1, LastStamp(s.log));
    } else if s.log != [] {
      NotificationExec(s, LastStamp(s.log));
    } else {
      assert [Attach][1..] == [];
      assert Executes(Do(s, Attach), []);
    }
  }

  lemma ExecNotify(s: State, stamp: nat)
    requires Shaped(s) && s.writer == Notifying(stamp)
    ensures Executes(s, [Increment, Wake])
    ensures Exec(s, [Increment, Wake]) == Do(Do(s, Increment), Wake)
  {
    var steps := [Increment, Wake];
    assert steps[1..] == [Wake];
    assert [Wake][1..] == [];
    assert Executes(Do(Do(s, Increment), Wake), []);
    assert Executes(Do(s, Increment), [Wake]);
  }

  function StoreWords(n: nat): seq<Step> {
    seq(n, _ => StoreWord)
  }

  lemma ExecConcat(s: State, a: seq<Step>, b: seq<Step>)
    requires Executes(s, a) && Executes(Exec(s, a), b)
    ensures Executes(s, a + b) && Exec(s, a + b) == Exec(Exec(s, a), b)
    decreases |a|
  {
    if a == [] {
      assert a + b == b;
    } else {
      assert (a + b)[1..] == a[1..] + b;
      ExecConcat(Do(s, a[0]), a[1..], b);
    }
  }

  /** The state once the words from k on are stored as well. */
  function Filled(s: State, k: nat): State
    requires Shaped(s) && s.writer.Writing? && k <= |s.writer.entry.Stream()| <= SlotWords(s.capacity)
  {
    var stream, slot := s.writer.entry.Stream(), SlotAt(s.slots, Committed(s.head));
    s.(writer := s.writer.(stored := |stream|),
       slots := s.slots[SlotOf(s, Committed(s.head)) :=
         slot.(words := slot.words[..k] + stream[k..] + slot.words[|stream|..])])
  }

  lemma FilledNext(s: State)
    requires Shaped(s) && WriterEnabled(s, StoreWord)
    ensures Shaped(Do(s, StoreWord)) && Filled(Do(s, StoreWord), s.writer.stored + 1) == Filled(s, s.writer.stored)
  {
    var u, k := Do(s, StoreWord), s.writer.stored;
    var stream, words := s.writer.entry.Stream(), SlotAt(s.slots, Committed(s.head)).words;
    var words' := SlotAt(u.slots, Committed(s.head)).words;
    assert words' == words[k := stream[k]];
    assert words'[..k + 1] + stream[k + 1..] + words'[|stream|..] == words[..k] + stream[k..] + words[|stream|..];
  }

  /** Copying the remaining words one store at a time. */
  lemma {:induction false} StoreWordsExec(s: State, n: nat)
    requires Shaped(s) && s.writer.Writing?
    requires s.writer.stored + n == |s.writer.entry.Stream()| <= SlotWords(s.capacity)
    ensures Executes(s, StoreWords(n))
    ensures Exec(s, StoreWords(n)) == Filled(s, s.writer.stored)
    decreases n
  {
    if n == 0 {
      var stream, slot := s.writer.entry.Stream(), SlotAt(s.slots, Committed(s.head));
      assert slot.words[..|stream|] + stream[|stream|..] + slot.words[|stream|..] == slot.words;
      assert s.slots[SlotOf(s, Committed(s.head)) := slot] == s.slots;
    } else {
      assert StoreWords(n)[1..] == StoreWords(n - 1);
      FilledNext(s);
      StoreWordsExec(Do(s, StoreWord), n - 1);
    }
  }

  function PublishSteps(info: seq<Word>, staging: seq<byte>): seq<Step>
    requires |info| == INFO_WORDS && EventSize(info) <= |staging|
  {
    [Commit(info, staging)] + StoreWords(INFO_WORDS + WordCount(EventSize(info))) + [CompleteTag]
  }

  /** The state when the last word is stored and the completed tag is not. */
  lemma WordsStored(s: State, info: seq<Word>, staging: seq<byte>)
    requires Inv(s) && WriterEnabled(s, Commit(info, staging)) && CommitStatus(s, info) == Started
    ensures var e, i := Entry(info, staging[..EventSize(info)]), |s.log|;
      var u, n := Do(s, Commit(info, staging)), |e.Stream()|;
      && n <= SlotWords(s.capacity)
      && Executes(u, StoreWords(n))
      && Exec(u, StoreWords(n)) == s.(
          writer := Writing(s.writer.last, e, n),
          slots := s.slots[SlotOf(s, i) := Slot(2 * i, e.Stream() + SlotAt(s.slots, i).words[n..])])
  {
    var e, i := Entry(info, staging[..EventSize(info)]), |s.log|;
    StreamDetermines(e, s.capacity);
    var n := |e.Stream()|;
    var u := Do(s, Commit(info, staging));
    StoreWordsExec(u, n);
    var words := SlotAt(s.slots, i).words;
    assert words[..0] + e.Stream()[0..] + words[n..] == e.Stream() + words[n..];
  }

  lemma ExecThreePhases(s: State, first: Step, middle: seq<Step>, last: Step)
    requires Shaped(s) && Enabled(s, first) && Executes(Do(s, first), middle)
    requires var u := Exec(Do(s, first), middle); Shaped(u) && Enabled(u, last)
    ensures Executes(s, [first] + middle + [last])
    ensures Exec(s, [first] + middle + [last]) == Do(Exec(Do(s, first), middle), last)
  {
    var u := Exec(Do(s, first), middle);
    assert [last][1..] == [];
    assert Executes(Do(u, last), []);
    assert Executes(u, [last]) && Exec(u, [last]) == Do(u, last);
    ExecConcat(Do(s, first), middle, [last]);
    assert [first] + middle + [last] == [first] + (middle + [last]);
    assert ([first] + (middle + [last]))[1..] == middle + [last];
  }

  /** Storing the completed tag over a fully copied entry. */
  lemma TagCompletes(s: State, u: State, i: nat, last: nat, e: Entry)
    requires Shaped(s) && Committed(s.head) == i == |s.log| && e.Valid(s.capacity)
    requires |e.Stream()| <= SlotWords(s.capacity)
    requires u == s.(
      writer := Writing(last, e, |e.Stream()|),
      slots := s.slots[SlotOf(s, i) := Slot(2 * i, e.Stream() + SlotAt(s.slots, i).words[|e.Stream()|..])])
    ensures Shaped(u) && Enabled(u, CompleteTag)
    ensures Do(u, CompleteTag) == s.(
      log := s.log + [e],
      slots := s.slots[SlotOf(s, i) := PublishedSlot(SlotAt(s.slots, i), i, e)],
      debt := OwesIncrement,
      writer := Advancing(i, e.Stamp()))
  {
    assert u.slots[SlotOf(s, i) := PublishedSlot(SlotAt(s.slots, i), i, e)]
        == s.slots[SlotOf(s, i) := PublishedSlot(SlotAt(s.slots, i), i, e)];
  }

  /** A publication that is not interrupted replaces one slot by the published entry and
      appends that entry to the log. */
  lemma PublishCompletes(s: State, info: seq<Word>, staging: seq<byte>)
    requires Inv(s) && WriterEnabled(s, Commit(info, staging)) && CommitStatus(s, info) == Started
    ensures |Entry(info, staging[..EventSize(info)]).Stream()| <= SlotWords(s.capacity)
    ensures Executes(s, PublishSteps(info, staging))
    ensures var e, i := Entry(info, staging[..EventSize(info)]), |s.log|;
      Exec(s, PublishSteps(info, staging)) == s.(
        log := s.log + [e],
        slots := s.slots[SlotOf(s, i) := PublishedSlot(SlotAt(s.slots, i), i, e)],
        debt := OwesIncrement,
        writer := Advancing(i, e.Stamp()))
  {
    var e, i := Entry(info, staging[..EventSize(info)]), |s.log|;
    var n := |e.Stream()|;
    WordsStored(s, info, staging);
    var u := Exec(Do(s, Commit(info, staging)), StoreWords(n));
    TagCompletes(s, u, i, s.writer.last, e);
    ExecThreePhases(s, Commit(info, staging), StoreWords(n), CompleteTag);
    assert PublishSteps(info, staging) == [Commit(info, staging)] + StoreWords(n) + [CompleteTag];
  }

  /** What remains of a commit once the completed tag is visible. */
  lemma ExecAnnounce(s: State, index: nat, stamp: nat)
    requires Shaped(s) && s.writer == Advancing(index, stamp)
    ensures Executes(s, [StoreHead, Increment, Wake])
    ensures var t := Exec(s, [StoreHead, Increment, Wake]);
      && t.log == s.log && t.slots == s.slots && t.head == index && t.counter == s.counter + 1
      && t.writer == Idle(stamp, false) && t.debt.Settled? && t.count == s.count && t.capacity == s.capacity
      && |t.readers| == |s.readers|
      && forall r :: 0 <= r < |t.readers| ==> t.readers[r] == Woken(s.readers[r])
  {
    ExecNotify(Do(s, StoreHead), stamp);
    assert [StoreHead, Increment, Wake][1..] == [Increment, Wake];
  }

  /** A whole commit: one more entry, the head on it, every sleeper woken. */
  lemma CommitCompletes(s: State, info: seq<Word>, staging: seq<byte>)
    requires Inv(s) && WriterEnabled(s, Commit(info, staging)) && CommitStatus(s, info) == Started
    ensures Executes(s, PublishSteps(info, staging) + [StoreHead, Increment, Wake])
    ensures var t, e, i := Exec(s, PublishSteps(info, staging) + [StoreHead, Increment, Wake]), Entry(info, staging[..EventSize(info)]), |s.log|;
      && t.log == s.log + [e]
      && |e.Stream()| <= SlotWords(s.capacity)
      && t.slots == s.slots[SlotOf(s, i) := PublishedSlot(SlotAt(s.slots, i), i, e)]
      && t.head == |s.log| && t.counter == s.counter + 1
      && t.writer == Idle(Timestamp(info), false) && t.debt.Settled? && t.count == s.count && t.capacity == s.capacity
      && |t.readers| == |s.readers|
      && forall r :: 0 <= r < |t.readers| ==> t.readers[r] == Woken(s.readers[r])
  {
    PublishCompletes(s, info, staging);
    var p := Exec(s, PublishSteps(info, staging));
    assert Shaped(p);
    ExecAnnounce(p, |s.log|, Timestamp(info));
    ExecConcat(s, PublishSteps(info, staging), [StoreHead, Increment, Wake]);
  }

  // ---- slots and reads ---------------------------------------------------------------------

  /** The newest count - 1 committed positions are intact in every state, also while the
      writer is at work on the next one. */
  lemma WindowIntact(s: State, i: nat)
    requires Inv(s) && s.head != UNDEFINED && i <= s.head && s.head + 2 <= i + s.count
    ensures i < |s.log| && SlotAt(s.slots, i).tag == 2 * i + 1 && Holds(SlotAt(s.slots, i), s.log[i])
  {
    assert SlotOk(s.slots, s.head, s.log, SlotOf(s, i));
    Intact(s, i);
  }

  /** Exactly what a read returns, for every position and every reachable state: an entry is
      lost only after a full turn, or while its slot is being refilled one turn later. */
  lemma ReadExact(s: State, i: nat)
    requires Inv(s)
    ensures ReadSlot(SlotAt(s.slots, i), i, s.capacity) ==
      if |s.log| <= i then Pending
      else if i + s.count < |s.log| || (i + s.count == |s.log| && SlotAt(s.slots, i).tag % 2 == 0) then Overwritten
      else Ready(s.log[i].Stream())
  {
    if |s.log| <= i {
      if i <= MAX_INDEX { UnpublishedTag(s, i); }
    } else if i + s.count < |s.log| {
      LongPassed(s, i);
    } else {
      PublishedTag(s, i);
      if i + s.count < |s.log| + 1 && SlotAt(s.slots, i).tag % 2 == 0 {
      } else {
        Intact(s, i);
        var e := s.log[i];
        StreamDetermines(e, s.capacity);
        HoldsInfo(SlotAt(s.slots, i), e);
      }
    }
  }

  /** Loading the tag at the cursor tells a reader exactly whether its entry is published. */
  lemma LoadTagTells(s: State, r: Reader)
    requires Inv(s) && ReaderOk(s, r) && r.pc.Probing?
    ensures ReaderStep(s, r, LoadTag).pc.Empty? <==> |s.log| <= r.next
    ensures ReaderStep(s, r, LoadTag).pc.Overrun? <==> r.next < |s.log| && Passed(s.slots, r.next)
  {
    LoadTagExact(s, r);
    if r.next < |s.log| {
      PublishedTag(s, r.next);
    }
  }

  // ---- snapshots -----------------------------------------------------------------------------

  /** No torn snapshot: whatever a reader delivered under index n is, byte for byte, the
      metadata and the payload of entry n; and no reader ever reports a corrupt entry. */
  lemma DeliveredExact(states: seq<State>, steps: seq<Step>, k: nat, r: nat, m: nat)
    requires Run(states, steps) && k < |states|
    requires r < |states[k].readers| && m < |states[k].readers[r].reports|
    ensures var report := states[k].readers[r].reports[m];
      && !report.CorruptEntry?
      && (report.Delivered? ==>
            && report.index < |states[k].log|
            && |states[k].log[report.index].info| == INFO_WORDS
            && INFO_WORDS + WordCount(EventSize(states[k].log[report.index].info)) == |report.words|
            && report.words[..INFO_WORDS] == states[k].log[report.index].info
            && Unpack(report.words[INFO_WORDS..], EventSize(report.words[..INFO_WORDS])) == states[k].log[report.index].payload)
  {
    var s := states[k];
    RunInv(states, steps, k);
    var report := s.readers[r].reports[m];
    assert ReaderOk(s, s.readers[r]) && ReportOk(s.slots, s.log, report);
    if report.Delivered? {
      StreamDetermines(s.log[report.index], s.capacity);
    }
  }

  // ---- cursors --------------------------------------------------------------------------------

  /** The positions a report accounts for. */
  predicate Covers(report: Report, i: nat) {
    match report
    case Delivered(n, _) => i == n
    case TooLate(from, to) => from <= i < to
    case _ => false
  }

  /** Every position the cursor went over is accounted for by exactly one report. */
  lemma {:induction false} CursorAccounts(start: nat, reports: seq<Report>, i: nat)
    requires Cursor(start, reports) >= 0
    requires forall m :: 0 <= m < |reports| && reports[m].TooLate? ==> reports[m].from < reports[m].to
    ensures start <= Cursor(start, reports)
    ensures start <= i < Cursor(start, reports) <==> exists m :: 0 <= m < |reports| && Covers(reports[m], i)
    ensures forall m, m' :: 0 <= m < m' < |reports| && Covers(reports[m], i) ==> !Covers(reports[m'], i)
    ensures forall m :: 0 <= m < |reports| && Covers(reports[m], i) ==> i < Cursor(start, reports)
    decreases |reports|
  {
    if reports != [] {
      var n := |reports| - 1;
      CursorAccounts(start, reports[..n], i);
      assert forall m :: 0 <= m < n ==> reports[..n][m] == reports[m];
      if start <= i < Cursor(start, reports) && !Covers(reports[n], i) {
        var m :| 0 <= m < n && Covers(reports[..n][m], i);
        assert Covers(reports[m], i);
      }
    }
  }

  /** In every run each reader's cursor went over every position from its start exactly
      once: either it delivered the entry, or it reported the position as too late, and
      then the position is gone from its slot. */
  lemma EveryPositionAccounted(states: seq<State>, steps: seq<Step>, k: nat, r: nat, i: nat)
    requires Run(states, steps) && k < |states| && r < |states[k].readers|
    requires !states[k].readers[r].pc.Unattached?
    requires states[k].readers[r].start <= i < states[k].readers[r].next
    ensures var reports := states[k].readers[r].reports;
      && i < |states[k].log|
      && exists m :: 0 <= m < |reports| && AccountsFor(states[k], reports, m, i)
  {
    var s := states[k];
    var reader := s.readers[r];
    RunInv(states, steps, k);
    assert ReaderOk(s, reader);
    CursorAccounts(reader.start, reader.reports, i);
    var m :| 0 <= m < |reader.reports| && Covers(reader.reports[m], i);
    assert ReportOk(s.slots, s.log, reader.reports[m]);
    assert AccountsFor(s, reader.reports, m, i);
  }

  /** Report m is the only one that accounts for position i; if it is a loss, the slot of i
      has moved on. */
  predicate AccountsFor(s: State, reports: seq<Report>, m: nat, i: nat) {
    && Shaped(s)
    && m < |reports|
    && Covers(reports[m], i)
    && (forall m' :: 0 <= m' < |reports| && Covers(reports[m'], i) ==> m' == m)
    && (reports[m].Delivered? || Passed(s.slots, i))
  }

  /** Deliveries come in strictly increasing order. */
  lemma {:induction false} DeliveriesIncrease(start: nat, reports: seq<Report>, m: nat, n: nat)
    requires Cursor(start, reports) >= 0 && m < n < |reports|
    requires forall l :: 0 <= l < |reports| && reports[l].TooLate? ==> reports[l].from < reports[l].to
    requires reports[m].Delivered? && reports[n].Delivered?
    ensures reports[m].index < reports[n].index < Cursor(start, reports)
    decreases |reports|
  {
    var last := |reports| - 1;
    var shorter := reports[..last];
    assert Cursor(start, shorter) >= 0;
    if n < last {
      DeliveriesIncrease(start, shorter, m, n);
    } else {
      CursorAccounts(start, shorter, reports[m].index);
      assert Covers(shorter[m], reports[m].index);
    }
  }

  /** In every run each reader's deliveries come in strictly increasing order. */
  lemma DeliveredInOrder(states: seq<State>, steps: seq<Step>, k: nat, r: nat, m: nat, n: nat)
    requires Run(states, steps) && k < |states| && r < |states[k].readers|
    requires m < n < |states[k].readers[r].reports|
    requires states[k].readers[r].reports[m].Delivered? && states[k].readers[r].reports[n].Delivered?
    ensures states[k].readers[r].reports[m].index < states[k].readers[r].reports[n].index
  {
    var s := states[k];
    RunInv(states, steps, k);
    assert ReaderOk(s, s.readers[r]);
    DeliveriesIncrease(s.readers[r].start, s.readers[r].reports, m, n);
  }

  // ---- timestamps -----------------------------------------------------------------------------

  /** Timestamps never decrease along the log, and the writer's floor is the timestamp of
      the head entry (zero before the first), through failed commits, cancels and crashes. */
  lemma TimestampsOrdered(states: seq<State>, steps: seq<Step>, k: nat)
    requires Run(states, steps) && k < |states|
    ensures var s := states[k];
      && LogOk(s.log, s.capacity)
      && (forall i, j :: 0 <= i <= j < |s.log| ==> s.log[i].Stamp() <= s.log[j].Stamp())
      && (s.head == UNDEFINED || s.head < |s.log|)
      && (s.writer.Idle? ==> s.writer.last == if s.head == UNDEFINED then 0 else s.log[s.head].Stamp())
  {
    RunInv(states, steps, k);
  }

  // ---- wake-ups -------------------------------------------------------------------------------

  /** A sleeping reader whose entry is published is owed a wake-up by a writer that is on
      its way to it or that died before it, unless the 32-bit counter went all the way
      round between the reader's load of it and its falling asleep. */
  lemma NoLostWakeup(states: seq<State>, steps: seq<Step>, k: nat, r: nat)
    requires Run(states, steps) && k < |states| && r < |states[k].readers|
    requires states[k].readers[r].pc.Parked? && states[k].readers[r].next < |states[k].log|
    ensures var s, pc := states[k], states[k].readers[r].pc;
      || pc.saved + COUNTER_LIMIT <= pc.since
      || (s.debt != Settled && (s.writer.Advancing? || s.writer.Notifying? || s.writer.Waking? || s.writer.Detached?))
  {
    var s := states[k];
    RunInv(states, steps, k);
    assert ReaderOk(s, s.readers[r]);
  }

  const RESTART: seq<Step> := [Crash, Attach, Increment, Wake]

  /** The writer dies and its successor's recovery runs to the end, n times over. */
  function Restarts(n: nat): seq<Step> {
    if n == 0 then [] else RESTART + Restarts(n - 1)
  }

  /** Later by n notifications; nothing else changed that an awake reader can see. */
  predicate Renotified(s: State, t: State, n: nat) {
    && t.writer.Idle? && t.debt.Settled? && t.counter == s.counter + n
    && t.count == s.count && t.capacity == s.capacity
    && t.slots == s.slots && t.head == s.head && t.log == s.log
    && |t.readers| == |s.readers|
    && forall r :: 0 <= r < |s.readers| && s.readers[r].pc.Empty? ==> t.readers[r] == s.readers[r]
  }

  lemma ExecFour(s: State, a: Step, b: Step, c: Step, d: Step)
    requires Shaped(s) && Enabled(s, a)
    requires var s1 := Do(s, a); Shaped(s1) && Enabled(s1, b)
    requires var s2 := Do(Do(s, a), b); Shaped(s2) && Enabled(s2, c)
    requires var s3 := Do(Do(Do(s, a), b), c); Shaped(s3) && Enabled(s3, d)
    ensures Executes(s, [a, b, c, d]) && Exec(s, [a, b, c, d]) == Do(Do(Do(Do(s, a), b), c), d)
  {
    var s1 := Do(s, a);
    var s2 := Do(s1, b);
    var s3 := Do(s2, c);
    assert [a, b, c, d][1..] == [b, c, d];
    assert [b, c, d][1..] == [c, d];
    assert [c, d][1..] == [d];
    assert [d][1..] == [];
    assert Executes(Do(s3, d), []);
    assert Executes(s3, [d]) && Exec(s3, [d]) == Do(s3, d);
    assert Executes(s2, [c, d]) && Exec(s2, [c, d]) == Exec(s3, [d]);
    assert Executes(s1, [b, c, d]) && Exec(s1, [b, c, d]) == Exec(s2, [c, d]);
  }

  lemma RestartOnce(s: State)
    requires Shaped(s) && s.writer.Idle? && Recover(s).Notifying?
    ensures Executes(s, RESTART) && Renotified(s, Exec(s, RESTART), 1)
  {
    var u := Do(s, Crash);
    assert Recover(u) == Recover(s);
    var v := Do(u, Attach);
    assert v == s.(writer := Recover(s));
    ExecFour(s, Crash, Attach, Increment, Wake);
  }

  lemma {:induction false} RestartsExec(s: State, n: nat)
    requires Shaped(s) && s.writer.Idle? && s.debt.Settled? && Recover(s).Notifying?
    ensures Executes(s, Restarts(n)) && Renotified(s, Exec(s, Restarts(n)), n)
    decreases n
  {
    if n > 0 {
      RestartOnce(s);
      var t := Exec(s, RESTART);
      assert Recover(t) == Recover(s);
      RestartsExec(t, n - 1);
      ExecConcat(s, RESTART, Restarts(n - 1));
    }
  }

  lemma FallsAsleep(s: State, r: nat)
    requires Shaped(s) && r < |s.readers| && s.readers[r].pc.Empty?
    requires s.counter == s.readers[r].pc.saved + COUNTER_LIMIT
    ensures Executes(s, [Read(r, Wait)])
    ensures Exec(s, [Read(r, Wait)])
      == s.(readers := s.readers[r := s.readers[r].(pc := Parked(s.readers[r].pc.saved, s.counter))])
  {
    assert [Read(r, Wait)][1..] == [];
    assert Executes(Do(s, Read(r, Wait)), []);
  }

  /** A reader that is about to wait for an already published entry can be put to sleep with
      nothing owed to it, after as many notifications as bring the 32-bit counter back to the
      value it saved. */
  lemma WrapFromHere(s: State, r: nat) returns (steps: seq<Step>)
    requires Inv(s) && s.writer.Idle? && r < |s.readers|
    requires s.readers[r].pc.Empty? && s.readers[r].next < |s.log|
    requires s.counter <= s.readers[r].pc.saved + COUNTER_LIMIT
    ensures Executes(s, steps) && SleepsForNothing(Exec(s, steps), r)
  {
    var n := s.readers[r].pc.saved + COUNTER_LIMIT - s.counter;
    RestartRecovers(s);
    RestartsExec(s, n);
    FallsAsleep(Exec(s, Restarts(n)), r);
    ExecConcat(s, Restarts(n), [Read(r, Wait)]);
    steps := Restarts(n) + [Read(r, Wait)];
  }

  /** Asleep on a published entry, with nothing owed and no writer at work. */
  predicate SleepsForNothing(s: State, r: nat) {
    && r < |s.readers| && s.readers[r].pc.Parked? && s.readers[r].next < |s.log|
    && s.debt.Settled? && s.writer.Idle?
  }

  lemma ExecThen(s: State, steps: seq<Step>, step: Step)
    requires Executes(s, steps) && Shaped(Exec(s, steps)) && Enabled(Exec(s, steps), step)
    ensures Executes(s, steps + [step]) && Exec(s, steps + [step]) == Do(Exec(s, steps), step)
  {
    assert [step][1..] == [];
    assert Executes(Do(Exec(s, steps), step), []);
    ExecConcat(s, steps, [step]);
  }

  /** On a fresh flow with a writer, a reader loads the counter and finds nothing to read. */
  lemma FindsNothing(s: State, r: nat) returns (steps: seq<Step>, t: State)
    requires Init(s) && r < |s.readers|
    ensures Executes(s, steps) && t == Exec(s, steps)
    ensures t == s.(writer := Idle(0, false), readers := s.readers[r := Reader(Empty(s.counter), 0, 0, [])])
  {
    steps, t := [Attach], Do(s, Attach);
    ExecThen(s, [], Attach);
    assert [] + [Attach] == [Attach];
    assert t.writer == Idle(0, false);
    ExecThen(s, steps, Read(r, Construct));
    steps, t := steps + [Read(r, Construct)], Do(t, Read(r, Construct));
    ExecThen(s, steps, Read(r, Enter));
    steps, t := steps + [Read(r, Enter)], Do(t, Read(r, Enter));
    ExecThen(s, steps, Read(r, LoadHead));
    steps, t := steps + [Read(r, LoadHead)], Do(t, Read(r, LoadHead));
    ExecThen(s, steps, Read(r, LoadTag));
    steps, t := steps + [Read(r, LoadTag)], Do(t, Read(r, LoadTag));
  }

  /** The first commit, while the reader has not gone to sleep yet. */
  lemma CommitsMeanwhile(s: State, r: nat, info: seq<Word>, staging: seq<byte>) returns (steps: seq<Step>, t: State)
    requires Init(s) && r < |s.readers| && |info| == INFO_WORDS && Acceptable(info, s.capacity) && |staging| == s.capacity
    ensures Executes(s, steps) && t == Exec(s, steps) && Inv(t)
    ensures t.writer.Idle? && |t.log| == 1 && |t.readers| == |s.readers| && t.counter == s.counter + 1
    ensures t.readers[r] == Reader(Empty(s.counter), 0, 0, [])
  {
    steps, t := FindsNothing(s, r);
    ExecThen(s, steps, Open);
    steps, t := steps + [Open], Do(t, Open);
    InitInv(s);
    ExecInv(s, steps);
    CommitCompletes(t, info, staging);
    var commit := PublishSteps(info, staging) + [StoreHead, Increment, Wake];
    ExecConcat(s, steps, commit);
    ExecInv(s, steps + commit);
    steps, t := steps + commit, Exec(t, commit);
  }

  lemma {:induction false} ExecInv(s: State, steps: seq<Step>)
    requires Inv(s) && Executes(s, steps)
    ensures Inv(Exec(s, steps))
    decreases |steps|
  {
    if steps != [] {
      StepInv(s, steps[0]);
      ExecInv(Do(s, steps[0]), steps[1..]);
    }
  }

  /** The states an execution goes through. */
  function Visited(s: State, steps: seq<Step>): (states: seq<State>)
    requires Executes(s, steps)
    ensures |states| == |steps| + 1 && states[0] == s
    decreases |steps|
  {
    if steps == [] then [s] else [s] + Visited(Do(s, steps[0]), steps[1..])
  }

  lemma {:induction false} VisitedIsRun(s: State, steps: seq<Step>, k: nat)
    requires Executes(s, steps) && k <= |steps|
    ensures var states := Visited(s, steps);
      && states[|steps|] == Exec(s, steps)
      && (k < |steps| ==> Shaped(states[k]) && Enabled(states[k], steps[k]) && states[k + 1] == Do(states[k], steps[k]))
    decreases |steps|
  {
    if steps != [] {
      VisitedIsRun(Do(s, steps[0]), steps[1..], if k > 0 then k - 1 else 0);
    }
  }

  /** The wrap-around case is real, on every fresh flow: a run in which a reader finds its entry
      missing, the entry is published before it sleeps, and then as many notifications follow as
      bring the 32-bit counter back to the value the reader saved. */
  lemma WrapLosesWakeup(s: State, r: nat, info: seq<Word>, staging: seq<byte>) returns (states: seq<State>, steps: seq<Step>)
    requires Init(s) && r < |s.readers| && |info| == INFO_WORDS && Acceptable(info, s.capacity) && |staging| == s.capacity
    ensures Run(states, steps) && states[0] == s && SleepsForNothing(states[|steps|], r)
  {
    var before, t := CommitsMeanwhile(s, r, info, staging);
    var after := WrapFromHere(t, r);
    ExecConcat(s, before, after);
    steps := before + after;
    states := Visited(s, steps);
    VisitedIsRun(s, steps, 0);
    forall k | 0 <= k < |steps| ensures Shaped(states[k]) && Enabled(states[k], steps[k]) && states[k + 1] == Do(states[k], steps[k]) {
      VisitedIsRun(s, steps, k);
    }
  }

  lemma RestartRecovers(s: State)
    requires Inv(s) && s.writer.Idle? && s.log != []
    ensures Recover(s).Notifying? && s.debt.Settled?
  {
    StepInv(s, Crash);
    RecoverExact(Do(s, Crash));
    assert Recover(Do(s, Crash)) == Recover(s);
  }
}
