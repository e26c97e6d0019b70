/** Every step of the writer and of any reader keeps the invariant. */
module EventPreservation {
  import opened MachineWords
  import opened EventWords
  import opened EventProtocol
  import opened EventInvariant
  import Modular

  // ---- readers ----------------------------------------------------------------------

  lemma CursorAppends(start: nat, reports: seq<Report>, report: Report)
    ensures Cursor(start, reports + [report]) ==
      match report
      case Delivered(i, _) => if Cursor(start, reports) == i then i + 1 else -1
      case TooLate(from, to) => if Cursor(start, reports) == from then to else -1
      case _ => Cursor(start, reports)
  {
    assert (reports + [report])[..|reports|] == reports;
  }

  /** Positions before the retained window are gone from their slots. */
  lemma BeforeOldest(s: State)
    requires Inv(s)
    ensures Oldest(s.head, s.count) <= |s.log|
    ensures forall i :: 0 <= i < Oldest(s.head, s.count) ==> Passed(s.slots, i)
  {
    forall i | 0 <= i < Oldest(s.head, s.count) ensures Passed(s.slots, i) {
      LongPassed(s, i);
    }
  }

  /** What loading the tag at the cursor can show: the entry, a later one, or that the
      entry is not published. */
  lemma LoadTagExact(s: State, r: Reader)
    requires Inv(s) && ReaderOk(s, r) && r.pc.Probing?
    ensures ReaderStep(s, r, LoadTag).pc.Copying? ==> r.next < |s.log|
    ensures ReaderStep(s, r, LoadTag).pc.Overrun? ==> r.next < |s.log| && Passed(s.slots, r.next)
    ensures ReaderStep(s, r, LoadTag).pc.Empty? ==> |s.log| <= r.next
  {
    if r.next < |s.log| {
      PublishedTag(s, r.next);
    } else if r.next <= MAX_INDEX {
      UnpublishedTag(s, r.next);
    }
  }

  /** A copied word is the word of the entry, as long as the tag has not moved on. */
  lemma LoadWordKeeps(s: State, r: Reader)
    requires Inv(s) && ReaderOk(s, r) && ReaderEnabled(s, r, LoadWord)
    ensures PcOk(s, ReaderStep(s, r, LoadWord))
  {
    var words := r.pc.words;
    var next := ReaderStep(s, r, LoadWord).pc.words;
    assert |words| >= INFO_WORDS ==> next[..INFO_WORDS] == words[..INFO_WORDS];
    if SlotAt(s.slots, r.next).tag == 2 * r.next + 1 {
      PrefixGrows(s, r);
    }
  }

  /** A copy under the entry's tag goes on being a prefix of the entry. */
  lemma PrefixGrows(s: State, r: Reader)
    requires Inv(s) && ReaderOk(s, r) && ReaderEnabled(s, r, LoadWord)
    requires SlotAt(s.slots, r.next).tag == 2 * r.next + 1
    ensures r.pc.words + [SlotAt(s.slots, r.next).words[|r.pc.words|]] <= s.log[r.next].Stream()
  {
    var words := r.pc.words;
    PublishedTag(s, r.next);
    var e := s.log[r.next];
    StreamDetermines(e, s.capacity);
    assert |words| >= INFO_WORDS ==> words[..INFO_WORDS] == e.Stream()[..INFO_WORDS];
    assert |words| < |e.Stream()|;
    assert SlotAt(s.slots, r.next).words[|words|] == SlotAt(s.slots, r.next).words[..|e.Stream()|][|words|];
  }

  /** A stable copy is the whole entry: neither torn nor corrupt. */
  lemma RecheckExact(s: State, r: Reader)
    requires Inv(s) && ReaderOk(s, r) && ReaderEnabled(s, r, RecheckTag)
    ensures ReaderStep(s, r, RecheckTag) ==
      if SlotAt(s.slots, r.next).tag == 2 * r.next + 1
      then Return(r, Delivered(r.next, s.log[r.next].Stream()), r.next + 1)
      else r.(pc := Overrun)
    ensures SlotAt(s.slots, r.next).tag != 2 * r.next + 1 ==> Passed(s.slots, r.next)
  {
    PublishedTag(s, r.next);
    if SlotAt(s.slots, r.next).tag == 2 * r.next + 1 {
      var e := s.log[r.next];
      StreamDetermines(e, s.capacity);
      assert r.pc.words[..INFO_WORDS] == e.Stream()[..INFO_WORDS];
      assert r.pc.words == e.Stream();
    }
  }

  lemma ReturnOk(s: State, r: Reader, report: Report, next: nat)
    requires Inv(s) && ReaderOk(s, r) && !r.pc.Unattached?
    requires ReportOk(s.slots, s.log, report) && next <= |s.log|
    requires match report
             case Delivered(i, _) => i == r.next && next == i + 1
             case TooLate(from, to) => from == r.next && next == to
             case _ => next == r.next
    ensures ReaderOk(s, Return(r, report, next))
  {
    CursorAppends(r.start, r.reports, report);
  }

  lemma LoadHeadOk(s: State, r: Reader)
    requires Inv(s) && ReaderOk(s, r) && r.pc.Entered?
    ensures ReaderOk(s, ReaderStep(s, r, LoadHead))
  {
    var oldest := Oldest(s.head, s.count);
    BeforeOldest(s);
    if r.next < oldest {
      ReturnOk(s, r, TooLate(r.next, oldest), oldest);
    }
  }

  lemma RecheckTagOk(s: State, r: Reader)
    requires Inv(s) && ReaderOk(s, r) && ReaderEnabled(s, r, RecheckTag)
    ensures ReaderOk(s, ReaderStep(s, r, RecheckTag))
  {
    RecheckExact(s, r);
    if SlotAt(s.slots, r.next).tag == 2 * r.next + 1 {
      ReturnOk(s, r, Delivered(r.next, s.log[r.next].Stream()), r.next + 1);
    }
  }

  lemma ReloadHeadOk(s: State, r: Reader)
    requires Inv(s) && ReaderOk(s, r) && r.pc.Overrun?
    ensures ReaderOk(s, ReaderStep(s, r, ReloadHead))
  {
    var to := Max(r.next + 1, Oldest(s.head, s.count));
    BeforeOldest(s);
    ReturnOk(s, r, TooLate(r.next, to), to);
  }

  lemma LocalStepOk(s: State, r: Reader, action: Action)
    requires Inv(s) && ReaderOk(s, r) && ReaderEnabled(s, r, action)
    requires action in {Construct, Enter, LoadTag, Wait, Interrupt}
    ensures ReaderOk(s, ReaderStep(s, r, action))
  {
    if action.Construct? {
      BeforeOldest(s);
    } else if action.LoadTag? {
      LoadTagExact(s, r);
    }
  }

  lemma ReaderStepInv(s: State, r: Reader, action: Action)
    requires Inv(s) && ReaderOk(s, r) && ReaderEnabled(s, r, action)
    ensures ReaderOk(s, ReaderStep(s, r, action))
  {
    match action
    case LoadHead => LoadHeadOk(s, r);
    case LoadWord => LoadWordKeeps(s, r);
    case RecheckTag => RecheckTagOk(s, r);
    case ReloadHead => ReloadHeadOk(s, r);
    case Deadline => ReturnOk(s, r, TooEarly, r.next);
    case Replaced => ReturnOk(s, r, FlowReplaced, r.next);
    case _ => LocalStepOk(s, r, action);
  }

  // ---- frame of the writer's steps ------------------------------------------------------

  /** Tags only move forward; EMPTY is the lowest. */
  predicate TagLe(a: nat, b: nat) {
    a == EMPTY || (b != EMPTY && a <= b)
  }

  predicate TagsLe(a: seq<Slot>, b: seq<Slot>) {
    |a| == |b| && forall j :: 0 <= j < |a| ==> TagLe(a[j].tag, b[j].tag)
  }

  /** What every writer step does to the part of the state that readers look at. */
  predicate Forward(s: State, t: State)
    requires Shaped(s)
  {
    && Shaped(t)
    && t.count == s.count && t.capacity == s.capacity
    && s.log <= t.log
    && s.counter <= t.counter
    && TagsLe(s.slots, t.slots)
    && (t.debt.OwesIncrement? || s.counter < t.counter || (|t.log| == |s.log| && !s.debt.OwesIncrement?))
  }

  lemma PassedForward(s: State, t: State, i: nat)
    requires Shaped(s) && Forward(s, t) && Passed(s.slots, i)
    ensures Passed(t.slots, i)
  {
    var j := SlotOf(s, i);
    assert TagLe(s.slots[j].tag, t.slots[j].tag);
  }

  lemma ReportForward(s: State, t: State, report: Report)
    requires Shaped(s) && Forward(s, t) && ReportOk(s.slots, s.log, report)
    ensures ReportOk(t.slots, t.log, report)
  {
    if report.TooLate? {
      forall i | report.from <= i < report.to ensures Passed(t.slots, i) {
        PassedForward(s, t, i);
      }
    }
  }

  lemma ReaderFrame(s: State, t: State, r: Reader)
    requires Inv(s) && Forward(s, t) && ReaderOk(s, r)
    requires r.pc.Parked? ==> t.debt != Settled || (|t.log| == |s.log| && s.debt.Settled?)
    ensures ReaderOk(t, r)
  {
    forall k | 0 <= k < |r.reports| ensures ReportOk(t.slots, t.log, r.reports[k]) {
      ReportForward(s, t, r.reports[k]);
    }
    if r.pc.Copying? {
      PublishedTag(s, r.next);
      if Passed(s.slots, r.next) {
        PassedForward(s, t, r.next);
      }
    } else if r.pc.Overrun? {
      PassedForward(s, t, r.next);
    }
  }

  // ---- the writer's steps ---------------------------------------------------------------

  /** The head entry can be read back at any time, so recovery finds its timestamp. */
  lemma HeadReadable(s: State)
    requires Inv(s) && s.head != UNDEFINED && !s.writer.Failed?
    ensures ReadSlot(SlotAt(s.slots, s.head), s.head, s.capacity).Ready?
    ensures SlotAt(s.slots, s.head).words[..INFO_WORDS] == s.log[s.head].info
  {
    assert SlotOk(s.slots, s.head, s.log, SlotOf(s, s.head));
    Intact(s, s.head);
    StreamDetermines(s.log[s.head], s.capacity);
    HoldsInfo(SlotAt(s.slots, s.head), s.log[s.head]);
  }

  /** Reading past the head finds exactly the entry whose head store is missing, if any. */
  lemma NextReadable(s: State)
    requires Inv(s)
    ensures var next := Committed(s.head);
      if next < |s.log|
      then ReadSlot(SlotAt(s.slots, next), next, s.capacity).Ready?
           && SlotAt(s.slots, next).words[..INFO_WORDS] == s.log[next].info
      else ReadSlot(SlotAt(s.slots, next), next, s.capacity).Pending?
  {
    var next := Committed(s.head);
    if next < |s.log| {
      Intact(s, next);
      StreamDetermines(s.log[next], s.capacity);
      HoldsInfo(SlotAt(s.slots, next), s.log[next]);
    } else if next <= MAX_INDEX {
      UnpublishedTag(s, next);
    }
  }

  /** Recovery never throws, adopts a completed entry whose head store was lost, and
      otherwise restores the timestamp of the head entry. */
  lemma RecoverExact(s: State)
    requires Inv(s) && s.writer.Detached?
    ensures Recover(s) ==
      if Committed(s.head) < |s.log| then Advancing(|s.log| - 1, LastStamp(s.log))
      else if s.log == [] then Idle(0, false)
      else Notifying(LastStamp(s.log))
  {
    if s.head != UNDEFINED {
      HeadReadable(s);
    }
    NextReadable(s);
  }

  lemma HoldsInfo(slot: Slot, e: Entry)
    requires Holds(slot, e) && |e.info| == INFO_WORDS
    ensures slot.words[..INFO_WORDS] == e.info
  {
    assert slot.words[..INFO_WORDS] == slot.words[..|e.Stream()|][..INFO_WORDS];
  }

  lemma AttachOk(s: State)
    requires Inv(s) && s.writer.Detached?
    ensures Core(WriterStep(s, Attach)) && Forward(s, WriterStep(s, Attach))
  {
    RecoverExact(s);
    var t := WriterStep(s, Attach);
  }

  /** Steps that leave the ring alone. */
  lemma LocalWriterOk(s: State, step: Step)
    requires Inv(s) && WriterEnabled(s, step)
    requires step in {Crash, Open, Cancel, Wake, Increment}
    ensures Core(WriterStep(s, step)) && Forward(s, WriterStep(s, step))
  {
    var t := WriterStep(s, step);
  }

  lemma StoreHeadOk(s: State)
    requires Inv(s) && s.writer.Advancing?
    ensures Core(WriterStep(s, StoreHead)) && Forward(s, WriterStep(s, StoreHead))
  {
    var t := WriterStep(s, StoreHead);
    forall j | 0 <= j < s.count ensures SlotOk(t.slots, t.head, t.log, j) {
      assert SlotOk(s.slots, s.head, s.log, j);
    }
  }

  /** Changing one slot leaves the other slots as good as they were. */
  lemma SlotReplaced(slots: seq<Slot>, head: nat, log: seq<Entry>, j: nat, slot: Slot)
    requires j < |slots| && SlotsOk(slots, head, log) && SlotOk(slots[j := slot], head, log, j)
    ensures SlotsOk(slots[j := slot], head, log)
  {
    var changed := slots[j := slot];
    forall k | 0 <= k < |slots| ensures SlotOk(changed, head, log, k) {
      assert SlotOk(slots, head, log, k);
    }
  }

  lemma TagReplaced(slots: seq<Slot>, j: nat, slot: Slot)
    requires j < |slots| && TagLe(slots[j].tag, slot.tag)
    ensures TagsLe(slots, slots[j := slot])
  {}

  /** Taking the next position's slot. */
  lemma TakeSlot(slots: seq<Slot>, head: nat, log: seq<Entry>)
    requires |slots| > 0 && SlotsOk(slots, head, log) && Committed(head) == |log| <= MAX_INDEX
    ensures var j := Modular.Wrap(|log|, |slots|);
      var taken := slots[j := slots[j].(tag := 2 * |log|)];
      SlotsOk(taken, head, log) && TagsLe(slots, taken)
  {
    var j := Modular.Wrap(|log|, |slots|);
    var slot := slots[j].(tag := 2 * |log|);
    assert SlotOk(slots, head, log, j);
    SlotReplaced(slots, head, log, j, slot);
    TagReplaced(slots, j, slot);
  }

  lemma CommitOk(s: State, info: seq<Word>, staging: seq<byte>)
    requires Inv(s) && WriterEnabled(s, Commit(info, staging))
    ensures Core(WriterStep(s, Commit(info, staging))) && Forward(s, WriterStep(s, Commit(info, staging)))
  {
    if CommitStatus(s, info) == Started {
      StreamDetermines(Entry(info, staging[..EventSize(info)]), s.capacity);
      TakeSlot(s.slots, s.head, s.log);
    }
  }

  /** Writing into a slot whose tag is unfinished disturbs no entry. */
  lemma StoreWordOk(s: State)
    requires Inv(s) && WriterEnabled(s, StoreWord)
    ensures Core(WriterStep(s, StoreWord)) && Forward(s, WriterStep(s, StoreWord))
  {
    var t := WriterStep(s, StoreWord);
    var h, k := |s.log|, s.writer.stored;
    var stream, slot := s.writer.entry.Stream(), SlotAt(t.slots, h);
    assert SlotOk(s.slots, s.head, s.log, SlotOf(s, h));
    SlotReplaced(s.slots, s.head, s.log, SlotOf(s, h), slot);
    TagReplaced(s.slots, SlotOf(s, h), slot);
    assert stream[..k + 1] == stream[..k] + [stream[k]];
    assert slot.words[..k + 1] == SlotAt(s.slots, h).words[..k] + [stream[k]];
  }

  lemma CompleteTagOk(s: State)
    requires Inv(s) && WriterEnabled(s, CompleteTag)
    ensures Core(WriterStep(s, CompleteTag)) && Forward(s, WriterStep(s, CompleteTag))
  {
    var t := WriterStep(s, CompleteTag);
    var h, e := |s.log|, s.writer.entry;
    assert e.Stream()[..|e.Stream()|] == e.Stream();
    forall j | 0 <= j < s.count ensures SlotOk(t.slots, t.head, t.log, j) && TagLe(s.slots[j].tag, t.slots[j].tag) {
      CompleteTagSlot(s, j);
    }
  }

  lemma CompleteTagSlot(s: State, j: nat)
    requires Inv(s) && WriterEnabled(s, CompleteTag) && j < s.count
    ensures var t := WriterStep(s, CompleteTag); SlotOk(t.slots, t.head, t.log, j) && TagLe(s.slots[j].tag, t.slots[j].tag)
  {
    var h, tag := |s.log|, s.slots[j].tag;
    assert SlotOk(s.slots, s.head, s.log, j);
    if j == Modular.Wrap(h, s.count) {
      assert s.writer.entry.Stream()[..s.writer.stored] == s.writer.entry.Stream();
    } else if tag == EMPTY {
    } else if tag % 2 == 1 {
    }
  }

  lemma WriterStepCore(s: State, step: Step)
    requires Inv(s) && WriterEnabled(s, step)
    ensures Core(WriterStep(s, step)) && Forward(s, WriterStep(s, step))
  {
    match step
    case Attach => AttachOk(s);
    case Commit(info, staging) => CommitOk(s, info, staging);
    case StoreWord => StoreWordOk(s);
    case CompleteTag => CompleteTagOk(s);
    case StoreHead => StoreHeadOk(s);
    case _ => LocalWriterOk(s, step);
  }

  lemma WriterStepInv(s: State, step: Step)
    requires Inv(s) && WriterEnabled(s, step)
    ensures Inv(WriterStep(s, step)) && Forward(s, WriterStep(s, step))
  {
    var t := WriterStep(s, step);
    WriterStepCore(s, step);
    forall i | 0 <= i < |t.readers| ensures ReaderOk(t, t.readers[i]) {
      assert ReaderOk(s, s.readers[i]);
      if step.Wake? {
        WokenOk(s, s.readers[i]);
      }
      ReaderFrame(s, t, if step.Wake? then Woken(s.readers[i]) else s.readers[i]);
    }
  }

  /** Whoever is woken finds the counter already changed, or its entry still unpublished. */
  lemma WokenOk(s: State, r: Reader)
    requires Inv(s) && ReaderOk(s, r)
    ensures ReaderOk(s, Woken(r))
  {}

  /** The invariant is inductive, and every step only moves tags, log and counter forward. */
  lemma StepInv(s: State, step: Step)
    requires Inv(s) && Enabled(s, step)
    ensures Inv(Do(s, step)) && Forward(s, Do(s, step))
  {
    if step.Read? {
      var t := Do(s, step);
      ReaderStepInv(s, s.readers[step.reader], step.action);
        forall i | 0 <= i < |t.readers| ensures ReaderOk(t, t.readers[i]) {
        assert i != step.reader ==> ReaderOk(s, s.readers[i]);
        ReaderMoved(s, t, t.readers[i]);
      }
    } else {
      WriterStepInv(s, step);
    }
  }

  lemma ReaderMoved(s: State, t: State, r: Reader)
    requires Shaped(s) && ReaderOk(s, r) && t == s.(readers := t.readers)
    ensures ReaderOk(t, r)
  {}
}
