/** Where a reader of the event queue starts, where it resumes after a loss, and what it finds
    there. */
module EventCursors {
  import opened MachineWords
  import opened EventWords
  import opened EventProtocol
  import opened EventInvariant
  import opened EventPreservation
  import EventLayout
  import EventRing
  import EventRuns
  import Modular

  /** The retained window, from the oldest position to the head, has as many positions as the ring
      has slots, or all there are. */
  lemma WindowSize(head: nat, count: nat)
    requires count > 0
    ensures head == UNDEFINED ==> Oldest(head, count) == 0
    ensures head != UNDEFINED ==>
      Oldest(head, count) <= head && head + 1 - Oldest(head, count) == if head + 1 <= count then head + 1 else count
  {}

  /** A reader that lost its position resumes at the first later one in the window. */
  lemma ResumesInWindow(s: State, r: Reader, action: Action)
    requires Inv(s) && ReaderOk(s, r) && ReaderEnabled(s, r, action) && (action.LoadHead? || action.ReloadHead?)
    requires ReaderStep(s, r, action).reports != r.reports
    ensures var to := ReaderStep(s, r, action).next;
      && ReaderStep(s, r, action).reports == r.reports + [TooLate(r.next, to)]
      && s.head != UNDEFINED && FirstKept(s.head, s.count, r.next, to)
  {
    if action.ReloadHead? {
      assert SlotOk(s.slots, s.head, s.log, Modular.Wrap(r.next, s.count));
    }
  }

  /** It is told so exactly if the window has left its position behind, or its slot has moved on. */
  lemma LostIff(s: State, r: Reader)
    requires Inv(s) && ReaderOk(s, r)
    ensures r.pc.Entered? ==>
      (ReaderStep(s, r, LoadHead).reports != r.reports <==> s.head != UNDEFINED && r.next + s.count <= s.head)
  {}

  /** What a new reader finds at its first position while no commit is under way: the entry, unless
      an earlier writer died in the middle of the next commit after the ring had filled; then that
      very slot is taken, and the reader starts with a loss. No earlier position is left. */
  lemma NewReaderFinds(s: State)
    requires Inv(s) && s.head != UNDEFINED && Committed(s.head) == |s.log|
    ensures var i := Oldest(s.head, s.count);
      && i < |s.log|
      && ReadSlot(SlotAt(s.slots, i), i, s.capacity) ==
           (if s.count <= |s.log| && SlotAt(s.slots, |s.log|).tag == 2 * |s.log| then Overwritten else Ready(s.log[i].Stream()))
    ensures forall i: nat :: i < Oldest(s.head, s.count) ==> ReadSlot(SlotAt(s.slots, i), i, s.capacity) == Overwritten
  {
    var i := Oldest(s.head, s.count);
    EventRuns.ReadExact(s, i);
    if s.count <= |s.log| {
      Modular.Offset(i, s.count, s.count);
      assert SlotOk(s.slots, s.head, s.log, Modular.Wrap(i, s.count));
    }
    forall j: nat | j < i ensures ReadSlot(SlotAt(s.slots, j), j, s.capacity) == Overwritten {
      EventRuns.ReadExact(s, j);
    }
  }

  /** The case occurs in every state with a full ring: the writer dies after the first store of a
      commit, and its successor is ready. */
  lemma CutOffCommit(s: State, info: seq<Word>, staging: seq<byte>)
    requires Inv(s) && s.writer.Idle? && s.count <= |s.log| && WriterEnabled(s, Commit(info, staging))
    requires CommitStatus(s, info) == Started
    ensures var t := Do(Do(Do(s, Commit(info, staging)), Crash), Attach);
      && Inv(t) && t.head == s.head != UNDEFINED
      && ReadSlot(SlotAt(t.slots, Oldest(t.head, t.count)), Oldest(t.head, t.count), t.capacity) == Overwritten
  {
    var u := Do(s, Commit(info, staging));
    StepInv(s, Commit(info, staging));
    StepInv(u, Crash);
    var v := Do(u, Crash);
    StepInv(v, Attach);
    NewReaderFinds(Do(v, Attach));
  }

  // ---- how a flow begins, and what its recovery refuses --------------------------------------------------------

  /** An initialized mapping is the fresh flow that every run starts from. */
  lemma InitializedIsFresh(count: nat, payloadSize: nat, counter: nat, readers: seq<Reader>)
    requires EventLayout.LegalGeometry(count, payloadSize)
    requires forall r :: 0 <= r < |readers| ==> readers[r].pc.Unattached? && readers[r].reports == []
    ensures Init(State(count, payloadSize, EventRing.EmptySlots(count, payloadSize), UNDEFINED, counter, Detached, readers, [], Settled))
  {}

  /** Recovery throws, on any mapping, exactly if the entry at the head cannot be read, or the slot
      after it holds a later entry, an invalid one, or one with an earlier timestamp. */
  lemma RecoverRefuses(s: State)
    requires Shaped(s)
    ensures var next := Committed(s.head);
      var found, last := ReadSlot(SlotAt(s.slots, next), next, s.capacity),
        if s.head == UNDEFINED then 0 else Timestamp(SlotAt(s.slots, s.head).words[..INFO_WORDS]);
      Recover(s).Failed? <==>
        || (s.head != UNDEFINED && !ReadSlot(SlotAt(s.slots, s.head), s.head, s.capacity).Ready?)
        || found.Overwritten? || found.Invalid?
        || (found.Ready? && Timestamp(SlotAt(s.slots, next).words[..INFO_WORDS]) < last)
  {}

  // ---- reads that nothing disturbs ------------------------------------------------------------------------

  function LoadWords(r: nat, n: nat): seq<Step> {
    seq(n, _ => Read(r, LoadWord))
  }

  /** The reader in the middle of copying a stable entry. */
  predicate CopiesEntry(s: State, r: nat, i: nat, e: Entry) {
    && Shaped(s) && r < |s.readers| && s.readers[r].pc.Copying? && s.readers[r].next == i
    && |e.info| == INFO_WORDS && |e.Stream()| == Extent(e.info, s.capacity) <= SlotWords(s.capacity)
    && Holds(SlotAt(s.slots, i), e)
    && s.readers[r].pc.words <= e.Stream()
  }

  lemma LoadOneWord(s: State, r: nat, i: nat, e: Entry)
    requires CopiesEntry(s, r, i, e) && |s.readers[r].pc.words| < |e.Stream()|
    ensures Enabled(s, Read(r, LoadWord))
    ensures var t, words := Do(s, Read(r, LoadWord)), s.readers[r].pc.words;
      && CopiesEntry(t, r, i, e) && |t.readers[r].pc.words| == |words| + 1
      && t == s.(readers := s.readers[r := s.readers[r].(pc := t.readers[r].pc)])
      && t.readers[r].pc.saved == s.readers[r].pc.saved
  {
    var words := s.readers[r].pc.words;
    assert e.Stream()[..INFO_WORDS] == e.info;
    assert |words| >= INFO_WORDS ==> words[..INFO_WORDS] == e.info;
    assert SlotAt(s.slots, i).words[|words|] == SlotAt(s.slots, i).words[..|e.Stream()|][|words|];
  }

  lemma {:induction false} LoadWordsExec(s: State, r: nat, i: nat, e: Entry, n: nat)
    requires CopiesEntry(s, r, i, e) && |s.readers[r].pc.words| + n == |e.Stream()|
    ensures EventRuns.Executes(s, LoadWords(r, n))
    ensures EventRuns.Exec(s, LoadWords(r, n))
      == s.(readers := s.readers[r := s.readers[r].(pc := Copying(s.readers[r].pc.saved, e.Stream()))])
    decreases n
  {
    if n == 0 {
      assert s.readers[r].pc.words == e.Stream();
      assert s.readers[r := s.readers[r]] == s.readers;
    } else {
      LoadOneWord(s, r, i, e);
      assert LoadWords(r, n)[1..] == LoadWords(r, n - 1);
      LoadWordsExec(Do(s, Read(r, LoadWord)), r, i, e, n - 1);
    }
  }

  /** The state with another reader r. */
  function With(s: State, r: nat, q: Reader): State
    requires r < |s.readers|
  {
    s.(readers := s.readers[r := q])
  }

  /** One more action of reader r. */
  lemma OneMore(s: State, r: nat, before: seq<Step>, q: Reader, action: Action) returns (steps: seq<Step>)
    requires Shaped(s) && r < |s.readers| && EventRuns.Executes(s, before) && EventRuns.Exec(s, before) == With(s, r, q)
    requires ReaderEnabled(s, q, action)
    ensures EventRuns.Executes(s, steps) && EventRuns.Exec(s, steps) == With(s, r, ReaderStep(s, q, action))
  {
    var t := With(s, r, q);
    SameStep(s, t, q, action);
    assert Enabled(t, Read(r, action));
    EventRuns.ExecThen(s, before, Read(r, action));
    steps := before + [Read(r, action)];
    assert t.readers[r := ReaderStep(s, q, action)] == s.readers[r := ReaderStep(s, q, action)];
  }

  /** What a reader does does not depend on the readers. */
  lemma SameStep(s: State, t: State, q: Reader, action: Action)
    requires Shaped(s) && t == s.(readers := t.readers) && ReaderEnabled(s, q, action)
    ensures ReaderEnabled(t, q, action) && ReaderStep(t, q, action) == ReaderStep(s, q, action)
  {}

  /** Entering a call, up to the tag at the cursor. */
  lemma EntersCall(s: State, r: nat) returns (steps: seq<Step>)
    requires Shaped(s) && r < |s.readers| && s.readers[r].pc.Starting? && Oldest(s.head, s.count) <= s.readers[r].next
    ensures EventRuns.Executes(s, steps)
    ensures EventRuns.Exec(s, steps) == With(s, r, ReaderStep(s, s.readers[r].(pc := Probing(s.counter)), LoadTag))
  {
    var q := s.readers[r];
    assert s.readers[r := q] == s.readers;
    steps := OneMore(s, r, [], q, Enter);
    steps := OneMore(s, r, steps, q.(pc := Entered(s.counter)), LoadHead);
    steps := OneMore(s, r, steps, q.(pc := Probing(s.counter)), LoadTag);
  }

  /** A reader that nothing disturbs and whose entry is in its slot delivers it and moves on. */
  lemma ReadDelivers(s: State, r: nat) returns (steps: seq<Step>)
    requires Inv(s) && r < |s.readers| && s.readers[r].pc.Starting?
    requires var i := s.readers[r].next; i < |s.log| && Oldest(s.head, s.count) <= i && SlotAt(s.slots, i).tag == 2 * i + 1
    ensures EventRuns.Executes(s, steps)
    ensures var i := s.readers[r].next;
      EventRuns.Exec(s, steps) == With(s, r, Return(s.readers[r], Delivered(i, s.log[i].Stream()), i + 1))
  {
    EntryInSlot(s, s.readers[r].next);
    steps := StableDelivers(s, r, s.log[s.readers[r].next]);
  }

  lemma StableDelivers(s: State, r: nat, e: Entry) returns (steps: seq<Step>)
    requires Shaped(s) && r < |s.readers| && s.readers[r].pc.Starting? && Oldest(s.head, s.count) <= s.readers[r].next <= MAX_INDEX
    requires SlotAt(s.slots, s.readers[r].next).tag == 2 * s.readers[r].next + 1 && Holds(SlotAt(s.slots, s.readers[r].next), e)
    requires e.Valid(s.capacity) && |e.Stream()| == Extent(e.info, s.capacity) <= SlotWords(s.capacity)
    ensures EventRuns.Executes(s, steps)
    ensures EventRuns.Exec(s, steps) == With(s, r, Return(s.readers[r], Delivered(s.readers[r].next, e.Stream()), s.readers[r].next + 1))
  {
    var q := s.readers[r];
    steps := EntersCall(s, r);
    steps := CopiesWhole(s, r, steps, q.(pc := Copying(s.counter, [])), e);
    WholeCopy(s, q.(pc := Copying(s.counter, e.Stream())), e);
    steps := OneMore(s, r, steps, q.(pc := Copying(s.counter, e.Stream())), RecheckTag);
  }

  lemma EntryInSlot(s: State, i: nat)
    requires Inv(s) && i < |s.log| && SlotAt(s.slots, i).tag == 2 * i + 1
    ensures var e := s.log[i];
      e.Valid(s.capacity) && Holds(SlotAt(s.slots, i), e) && |e.Stream()| == Extent(e.info, s.capacity) <= SlotWords(s.capacity)
    ensures i <= MAX_INDEX
  {
    PublishedTag(s, i);
    StreamDetermines(s.log[i], s.capacity);
  }

  lemma CopiesWhole(s: State, r: nat, before: seq<Step>, q: Reader, e: Entry) returns (steps: seq<Step>)
    requires Shaped(s) && r < |s.readers| && EventRuns.Executes(s, before) && EventRuns.Exec(s, before) == With(s, r, q)
    requires q.pc.Copying? && q.pc.words == [] && CopiesEntry(With(s, r, q), r, q.next, e)
    ensures EventRuns.Executes(s, steps) && EventRuns.Exec(s, steps) == With(s, r, q.(pc := Copying(q.pc.saved, e.Stream())))
  {
    var t, n, copied := With(s, r, q), |e.Stream()|, q.(pc := Copying(q.pc.saved, e.Stream()));
    LoadWordsExec(t, r, q.next, e, n);
    EventRuns.ExecConcat(s, before, LoadWords(r, n));
    steps := before + LoadWords(r, n);
    assert t.readers[r := copied] == s.readers[r := copied];
  }

  lemma WholeCopy(s: State, q: Reader, e: Entry)
    requires Shaped(s) && q.pc.Copying? && q.pc.words == e.Stream() && e.Valid(s.capacity)
    requires SlotAt(s.slots, q.next).tag == 2 * q.next + 1
    ensures ReaderEnabled(s, q, RecheckTag)
    ensures ReaderStep(s, q, RecheckTag) == Return(q, Delivered(q.next, e.Stream()), q.next + 1)
  {
    StreamDetermines(e, s.capacity);
    assert e.Stream()[..INFO_WORDS] == e.info;
  }

  /** A reader that nothing disturbs and that has nothing to read falls asleep. */
  lemma ReadSleeps(s: State, r: nat) returns (steps: seq<Step>)
    requires Inv(s) && r < |s.readers| && s.readers[r].pc.Starting? && |s.log| <= s.readers[r].next
    ensures EventRuns.Executes(s, steps)
    ensures EventRuns.Exec(s, steps) == With(s, r, s.readers[r].(pc := Parked(s.counter, s.counter)))
  {
    BeforeOldest(s);
    if s.readers[r].next <= MAX_INDEX {
      UnpublishedTag(s, s.readers[r].next);
    }
    steps := EntersCall(s, r);
    steps := OneMore(s, r, steps, s.readers[r].(pc := Empty(s.counter)), Wait);
  }
}
