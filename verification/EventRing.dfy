/** The event ring on one flat array of 64-bit words: initialization, header checks,
    publication and reading, as the code performs them when nothing interferes. */
module EventRing {
  import opened MachineWords
  import opened EventWords
  import opened EventProtocol
  import opened EventLayout
  import opened EventCopy
  import Modular

  // ---- initialization and validation -----------------------------------------------------------

  const RING_HEADER_WORD: Word := STORAGE_VERSION + UINT32 * RING_HEADER_BYTES
  const SLOT_HEADER_WORD: Word := STORAGE_VERSION + UINT32 * SLOT_HEADER_BYTES

  /** The immutable geometry word of the ring header. */
  function GeometryWord(count: nat, payloadSize: nat): Word
    requires LegalGeometry(count, payloadSize)
  {
    count + UINT32 * payloadSize
  }

  predicate HeadersOk(mapping: seq<Word>, count: nat, payloadSize: nat)
    requires LegalGeometry(count, payloadSize) && BufferWords(count, payloadSize) <= |mapping|
  {
    && mapping[0] == RING_HEADER_WORD
    && mapping[1] == GeometryWord(count, payloadSize)
    && forall j :: 0 <= j < count ==> SlotHeaderOk(mapping, j, count, payloadSize)
  }

  /** Headers tell geometries apart: a ring initialized with one is never accepted for another. */
  lemma HeadersTellApart(mapping: seq<Word>, count: nat, payloadSize: nat, count': nat, payloadSize': nat)
    requires LegalGeometry(count, payloadSize) && BufferWords(count, payloadSize) <= |mapping|
    requires LegalGeometry(count', payloadSize') && BufferWords(count', payloadSize') <= |mapping|
    requires HeadersOk(mapping, count, payloadSize)
    ensures HeadersOk(mapping, count', payloadSize') <==> count' == count && payloadSize' == payloadSize
  {
    LowHigh(GeometryWord(count, payloadSize), count, payloadSize);
    LowHigh(GeometryWord(count', payloadSize'), count', payloadSize');
  }

  predicate SlotHeaderOk(mapping: seq<Word>, j: nat, count: nat, payloadSize: nat)
    requires j < count && BufferWords(count, payloadSize) <= |mapping|
  {
    SlotInside(j, count, payloadSize);
    mapping[Base(j, payloadSize)] == SLOT_HEADER_WORD
  }

  /** Initial value of word k of a slot. */
  function FreshWord(k: nat): Word {
    if k == 0 then SLOT_HEADER_WORD else if k == SEQUENCE_WORD then EMPTY else 0
  }

  function FreshSlot(payloadSize: nat): seq<Word> {
    seq(PAYLOAD_WORD + WordCount(payloadSize), k requires k >= 0 => FreshWord(k))
  }

  predicate SlotFresh(mapping: seq<Word>, j: nat, payloadSize: nat)
    requires Base(j, payloadSize) + PAYLOAD_WORD + WordCount(payloadSize) <= |mapping|
  {
    mapping[Base(j, payloadSize)..Base(j, payloadSize) + PAYLOAD_WORD + WordCount(payloadSize)] == FreshSlot(payloadSize)
  }

  function EmptySlot(payloadSize: nat): Slot {
    Slot(EMPTY, seq(SlotWords(payloadSize), _ => 0))
  }

  function EmptySlots(count: nat, payloadSize: nat): seq<Slot> {
    seq(count, _ => EmptySlot(payloadSize))
  }

  lemma FreshWords(mapping: seq<Word>, b: nat, payloadSize: nat)
    requires b + PAYLOAD_WORD + WordCount(payloadSize) <= |mapping|
    requires mapping[b..b + PAYLOAD_WORD + WordCount(payloadSize)] == FreshSlot(payloadSize)
    ensures mapping[b] == SLOT_HEADER_WORD
    ensures mapping[b + SEQUENCE_WORD] == EMPTY
    ensures mapping[b + INFO_WORD..b + INFO_WORD + SlotWords(payloadSize)] == EmptySlot(payloadSize).words
  {
    var part := mapping[b..b + PAYLOAD_WORD + WordCount(payloadSize)];
    var words := mapping[b + INFO_WORD..b + INFO_WORD + SlotWords(payloadSize)];
    assert part[0] == mapping[b] && part[SEQUENCE_WORD] == mapping[b + SEQUENCE_WORD];
    forall k | 0 <= k < |words| ensures words[k] == 0 {
      assert words[k] == part[INFO_WORD + k] == FreshWord(INFO_WORD + k);
    }
  }

  lemma FreshSlotIs(mapping: seq<Word>, j: nat, count: nat, payloadSize: nat)
    requires j < count && BufferWords(count, payloadSize) <= |mapping|
    requires Base(j, payloadSize) + PAYLOAD_WORD + WordCount(payloadSize) <= |mapping| && SlotFresh(mapping, j, payloadSize)
    ensures SlotIn(mapping, j, count, payloadSize) == EmptySlot(payloadSize)
    ensures SlotHeaderOk(mapping, j, count, payloadSize)
  {
    SlotInside(j, count, payloadSize);
    FreshWords(mapping, Base(j, payloadSize), payloadSize);
  }

  method InitializeSlot(mapping: array<Word>, b: nat, payloadSize: nat)
    requires b + PAYLOAD_WORD + WordCount(payloadSize) <= mapping.Length
    modifies mapping
    ensures mapping[..] == Overlay(old(mapping[..]), b, FreshSlot(payloadSize))
  {
    forall k | 0 <= k < PAYLOAD_WORD + WordCount(payloadSize) {
      mapping[b + k] := FreshWord(k);
    }
  }

  lemma StillFresh(before: seq<Word>, i: nat, j: nat, payloadSize: nat)
    requires Base(i, payloadSize) + PAYLOAD_WORD + WordCount(payloadSize) <= |before|
    requires j < i
    requires Base(j, payloadSize) + PAYLOAD_WORD + WordCount(payloadSize) <= |before| && SlotFresh(before, j, payloadSize)
    ensures SlotFresh(Overlay(before, Base(i, payloadSize), FreshSlot(payloadSize)), j, payloadSize)
  {
    BaseGrows(j, i, payloadSize);
    StrideHolds(payloadSize);
  }

  method InitializeHeader(mapping: array<Word>, count: nat, payloadSize: nat)
    requires LegalGeometry(count, payloadSize) && RING_HEADER_WORDS <= mapping.Length
    modifies mapping
    ensures mapping[0] == RING_HEADER_WORD && mapping[1] == GeometryWord(count, payloadSize)
  {
    forall k | 0 <= k < RING_HEADER_WORDS {
      mapping[k] := if k == 0 then RING_HEADER_WORD else if k == 1 then GeometryWord(count, payloadSize) else 0;
    }
  }

  predicate FreshUpTo(mapping: seq<Word>, i: nat, payloadSize: nat) {
    forall j :: 0 <= j < i ==>
      Base(j, payloadSize) + PAYLOAD_WORD + WordCount(payloadSize) <= |mapping| && SlotFresh(mapping, j, payloadSize)
  }

  lemma FreshOneMore(before: seq<Word>, i: nat, payloadSize: nat)
    requires Base(i, payloadSize) + PAYLOAD_WORD + WordCount(payloadSize) <= |before|
    requires FreshUpTo(before, i, payloadSize)
    ensures FreshUpTo(Overlay(before, Base(i, payloadSize), FreshSlot(payloadSize)), i + 1, payloadSize)
  {
    var after := Overlay(before, Base(i, payloadSize), FreshSlot(payloadSize));
    forall j | 0 <= j < i ensures SlotFresh(after, j, payloadSize) {
      StillFresh(before, i, j, payloadSize);
    }
    JustFresh(before, i, payloadSize);
  }

  lemma JustFresh(before: seq<Word>, i: nat, payloadSize: nat)
    requires Base(i, payloadSize) + PAYLOAD_WORD + WordCount(payloadSize) <= |before|
    ensures SlotFresh(Overlay(before, Base(i, payloadSize), FreshSlot(payloadSize)), i, payloadSize)
  {}

  method InitializeSlots(mapping: array<Word>, count: nat, payloadSize: nat)
    requires BufferWords(count, payloadSize) <= mapping.Length
    modifies mapping
    ensures FreshUpTo(mapping[..], count, payloadSize)
    ensures mapping[..RING_HEADER_WORDS] == old(mapping[..RING_HEADER_WORDS])
  {
    var i, b := 0, RING_HEADER_WORDS;
    while i < count
      invariant i <= count && b == Base(i, payloadSize) <= mapping.Length
      invariant mapping[..RING_HEADER_WORDS] == old(mapping[..RING_HEADER_WORDS])
      invariant FreshUpTo(mapping[..], i, payloadSize)
    {
      SlotInside(i, count, payloadSize);
      FreshOneMore(mapping[..], i, payloadSize);
      ghost var previous := mapping[..];
      InitializeSlot(mapping, b, payloadSize);
      OverlayPrefix(previous, b, FreshSlot(payloadSize), RING_HEADER_WORDS);
      assert mapping[..RING_HEADER_WORDS] == mapping[..][..RING_HEADER_WORDS];
      i, b := i + 1, b + StrideWords(payloadSize);
    }
  }

  lemma FreshRing(mapping: seq<Word>, count: nat, payloadSize: nat)
    requires BufferWords(count, payloadSize) <= |mapping| && FreshUpTo(mapping, count, payloadSize)
    ensures SlotsIn(mapping, count, payloadSize) == EmptySlots(count, payloadSize)
    ensures forall j :: 0 <= j < count ==> SlotHeaderOk(mapping, j, count, payloadSize)
  {
    forall j | 0 <= j < count
      ensures SlotIn(mapping, j, count, payloadSize) == EmptySlot(payloadSize)
      ensures SlotHeaderOk(mapping, j, count, payloadSize)
    {
      FreshSlotIs(mapping, j, count, payloadSize);
    }
  }

  /** Writes both kinds of headers, empties every slot; refuses an illegal geometry. */
  method Initialize(mapping: array<Word>, count: nat, payloadSize: nat) returns (ok: bool)
    requires LegalGeometry(count, payloadSize) ==> BufferWords(count, payloadSize) <= mapping.Length
    modifies mapping
    ensures ok == LegalGeometry(count, payloadSize)
    ensures !ok ==> mapping[..] == old(mapping[..])
    ensures ok ==> HeadersOk(mapping[..], count, payloadSize)
    ensures ok ==> SlotsIn(mapping[..], count, payloadSize) == EmptySlots(count, payloadSize)
  {
    if !LegalGeometry(count, payloadSize) {
      return false;
    }
    BaseGrows(0, count, payloadSize);
    InitializeHeader(mapping, count, payloadSize);
    ghost var header := mapping[..RING_HEADER_WORDS];
    assert header[0] == RING_HEADER_WORD && header[1] == GeometryWord(count, payloadSize);
    InitializeSlots(mapping, count, payloadSize);
    assert mapping[0] == mapping[..RING_HEADER_WORDS][0] && mapping[1] == mapping[..RING_HEADER_WORDS][1];
    FreshRing(mapping[..], count, payloadSize);
    ok := true;
  }

  /** The header checks of attaching a view: accepts exactly a ring initialized with this geometry. */
  method CheckHeaders(mapping: array<Word>, count: nat, payloadSize: nat) returns (ok: bool)
    requires LegalGeometry(count, payloadSize) ==> BufferWords(count, payloadSize) <= mapping.Length
    ensures ok <==> LegalGeometry(count, payloadSize) && HeadersOk(mapping[..], count, payloadSize)
  {
    if !LegalGeometry(count, payloadSize) {
      return false;
    }
    BaseGrows(0, count, payloadSize);
    if mapping[0] != RING_HEADER_WORD || mapping[1] != GeometryWord(count, payloadSize) {
      return false;
    }
    var i := 0;
    while i < count
      invariant i <= count
      invariant forall j :: 0 <= j < i ==> SlotHeaderOk(mapping[..], j, count, payloadSize)
    {
      SlotInside(i, count, payloadSize);
      if mapping[Base(i, payloadSize)] != SLOT_HEADER_WORD {
        assert !SlotHeaderOk(mapping[..], i, count, payloadSize);
        return false;
      }
      i := i + 1;
    }
    ok := true;
  }

  // ---- metadata records -----------------------------------------------------------------------

  const VERSION_AT: nat := 0
  const SIZE_AT: nat := 4
  const TIMESTAMP_AT: nat := 8
  const FLAGS_AT: nat := 16
  const EVENT_SIZE_AT: nat := 280
  const INDEX_AT: nat := 504
  const INDEX_BYTES: nat := 8

  /** The fields read from a record are those of its packed words. */
  lemma RecordFields(record: seq<byte>)
    requires |record| == INFO_BYTES
    ensures Version(Pack(record)) == Uint32At(record, VERSION_AT)
    ensures InfoSize(Pack(record)) == Uint32At(record, SIZE_AT)
    ensures Flags(Pack(record)) == Uint32At(record, FLAGS_AT)
    ensures EventSize(Pack(record)) == Uint32At(record, EVENT_SIZE_AT)
  {
    FieldsOfWord(record, 0);
    FieldsOfWord(record, 2);
    FieldsOfWord(record, 35);
  }

  /** The eventSize field of a record. */
  function EventSizeOf(record: seq<byte>): (size: nat)
    requires |record| == INFO_BYTES
    ensures size == EventSize(Pack(record))
  {
    RecordFields(record);
    Uint32At(record, EVENT_SIZE_AT)
  }

  /** The acceptance test on a record's fields. */
  predicate AcceptableRecord(record: seq<byte>, capacity: nat)
    requires |record| == INFO_BYTES
    ensures AcceptableRecord(record, capacity) == Acceptable(Pack(record), capacity)
  {
    RecordFields(record);
    && Uint32At(record, VERSION_AT) == EVENT_HEADER_VERSION
    && Uint32At(record, SIZE_AT) == INFO_BYTES
    && Uint32At(record, FLAGS_AT) == 0
    && Uint32At(record, EVENT_SIZE_AT) <= capacity
  }

  /** The records that commit and read accept, byte by byte: version 1 and size 512, flags zero, and
      an event size, the little-endian number at 280, within the capacity. Nothing else matters. */
  predicate WellFormed(record: seq<byte>, capacity: nat) {
    && |record| == 512
    && record[0..8] == [1, 0, 0, 0, 0, 2, 0, 0] && record[16..20] == [0, 0, 0, 0]
    && Number(record[280], record[281], record[282], record[283]) <= capacity
  }

  lemma AcceptableBytes(record: seq<byte>, capacity: nat)
    requires |record| == INFO_BYTES
    ensures Acceptable(Pack(record), capacity) <==> WellFormed(record, capacity)
  {
    RecordFields(record);
    FieldsAre(record, capacity);
  }

  lemma FieldsAre(record: seq<byte>, capacity: nat)
    requires |record| == 512
    ensures WellFormed(record, capacity) <==>
      Uint32At(record, 0) == 1 && Uint32At(record, 4) == 512 && Uint32At(record, 16) == 0 && Uint32At(record, 280) <= capacity
  {
    StartIs(record);
    FlagsAre(record);
    SizeIs(record);
    BytesAre(record);
  }

  lemma StartIs(record: seq<byte>)
    requires |record| == 512
    ensures record[0..8] == [1, 0, 0, 0, 0, 2, 0, 0] <==> Uint32At(record, 0) == 1 && Uint32At(record, 4) == 512
  {
    NumberIs(record, 0, 1, 0, 0, 0);
    NumberIs(record, 4, 0, 2, 0, 0);
    BytesAre(record);
  }

  lemma FlagsAre(record: seq<byte>)
    requires |record| == 512
    ensures Uint32At(record, 16) == 0 <==> record[16] == 0 && record[17] == 0 && record[18] == 0 && record[19] == 0
  {
    var a, b, c, d := record[16], record[17], record[18], record[19];
    NumberAt(record, 16, a, b, c, d);
    NumberIsZero(a, b, c, d);
  }

  lemma NumberIsZero(a: nat, b: nat, c: nat, d: nat)
    ensures Number(a, b, c, d) == 0 <==> a == 0 && b == 0 && c == 0 && d == 0
  {}

  lemma SizeIs(record: seq<byte>)
    requires |record| == 512
    ensures Uint32At(record, 280) == Number(record[280], record[281], record[282], record[283])
  {
    NumberAt(record, 280, record[280], record[281], record[282], record[283]);
  }

  lemma NumberAt(record: seq<byte>, at: nat, a: byte, b: byte, c: byte, d: byte)
    requires at + 4 <= |record| && a == record[at] && b == record[at + 1] && c == record[at + 2] && d == record[at + 3]
    ensures Uint32At(record, at) == Number(a, b, c, d)
  {
    FourBytes(record[at..at + 4]);
  }

  lemma NumberIs(record: seq<byte>, at: nat, a: byte, b: byte, c: byte, d: byte)
    requires at + 4 <= |record|
    ensures Uint32At(record, at) == Number(a, b, c, d) <==>
      record[at] == a && record[at + 1] == b && record[at + 2] == c && record[at + 3] == d
  {
    FourBytes(record[at..at + 4]);
    NumberUnique(record[at], record[at + 1], record[at + 2], record[at + 3], a, b, c, d);
  }

  lemma BytesAre(record: seq<byte>)
    requires |record| == 512
    ensures record[0..8] == [1, 0, 0, 0, 0, 2, 0, 0] <==>
      && record[0] == 1 && record[1] == 0 && record[2] == 0 && record[3] == 0
      && record[4] == 0 && record[5] == 2 && record[6] == 0 && record[7] == 0
    ensures record[16..20] == [0, 0, 0, 0] <==> record[16] == 0 && record[17] == 0 && record[18] == 0 && record[19] == 0
  {
    var start, flags := record[0..8], record[16..20];
    assert start[0] == record[0] && start[1] == record[1] && start[2] == record[2] && start[3] == record[3];
    assert start[4] == record[4] && start[5] == record[5] && start[6] == record[6] && start[7] == record[7];
    assert flags[0] == record[16] && flags[1] == record[17] && flags[2] == record[18] && flags[3] == record[19];
  }

  /** A read finds its entry invalid exactly if the stored record has the completed tag and is not
      well-formed. */
  lemma InvalidIff(slot: Slot, index: nat, capacity: nat)
    requires |slot.words| == SlotWords(capacity) && index <= MAX_INDEX
    ensures var record := Unpack(slot.words[..INFO_WORDS], 8 * INFO_WORDS);
      ReadSlot(slot, index, capacity) == Invalid <==> slot.tag == 2 * index + 1 && !WellFormed(record, capacity)
  {
    PackUnpack(slot.words[..INFO_WORDS]);
    AcceptableBytes(Unpack(slot.words[..INFO_WORDS], 8 * INFO_WORDS), capacity);
  }

  /** The refusals of a publication, for every tag that a slot can have: an index whose completed tag
      would not stay below the mark of an empty slot; and a slot that is completed at this index or a
      later one, or in flux for a later one. */
  lemma PublishExact(tag: nat, index: nat)
    requires tag <= EMPTY
    ensures PublishStatus(tag, index) == IndexExhausted <==> EMPTY <= 2 * index + 1
    ensures 2 * index + 1 < EMPTY ==>
      (PublishStatus(tag, index) == TagTaken <==> tag != EMPTY && exists i: nat :: (tag == 2 * i + 1 && index <= i) || (tag == 2 * i && index < i))
    ensures PublishStatus(tag, index) in {Started, IndexExhausted, TagTaken}
  {
    var i := tag / 2;
    assert tag == 2 * i || tag == 2 * i + 1;
  }

  datatype Outcome = ReadyOutcome | PendingOutcome | OverwrittenOutcome | InvalidOutcome

  function OutcomeOf(r: ReadResult): Outcome {
    match r
    case Ready(_) => ReadyOutcome
    case Pending => PendingOutcome
    case Overwritten => OverwrittenOutcome
    case Invalid => InvalidOutcome
  }

  // ---- the ring view ----------------------------------------------------------------------------

  class EventRingBuffer {
    const mapping: array<Word>
    const count: nat
    const payloadSize: nat

    constructor (mapping: array<Word>, count: nat, payloadSize: nat)
      requires LegalGeometry(count, payloadSize) && BufferWords(count, payloadSize) <= mapping.Length
      ensures Valid()
      ensures this.mapping == mapping && this.count == count && this.payloadSize == payloadSize
    {
      this.mapping, this.count, this.payloadSize := mapping, count, payloadSize;
    }

    ghost predicate Valid() {
      LegalGeometry(count, payloadSize) && BufferWords(count, payloadSize) <= mapping.Length
    }

    function Slots(): (slots: seq<Slot>)
      requires Valid()
      reads mapping
      ensures |slots| == count
      ensures forall j :: 0 <= j < count ==> |slots[j].words| == SlotWords(payloadSize)
    {
      SlotsIn(mapping[..], count, payloadSize)
    }

    /** First word of the slot of a queue position. */
    function SlotBase(index: nat): (b: nat)
      requires Valid()
      ensures INFO_WORD + SlotWords(payloadSize) <= StrideWords(payloadSize)
      ensures b + StrideWords(payloadSize) <= mapping.Length
    {
      SlotInside(Modular.Wrap(index, count), count, payloadSize);
      Base(Modular.Wrap(index, count), payloadSize)
    }

    lemma SlotAtBase(index: nat)
      requires Valid()
      ensures var b := SlotBase(index);
        SlotAt(Slots(), index) == Slot(mapping[b + SEQUENCE_WORD], mapping[b + INFO_WORD..b + INFO_WORD + SlotWords(payloadSize)])
    {}

    /** Publishes one entry, or refuses without touching the mapping. */
    method Publish(index: nat, info: seq<byte>, payload: seq<byte>) returns (status: Status)
      requires Valid() && |info| == INFO_BYTES
      requires EventSize(Pack(info)) <= Min(payloadSize, |payload|)
      modifies mapping
      ensures status == PublishStatus(SlotAt(old(Slots()), index).tag, index)
      ensures status != Started ==> mapping[..] == old(mapping[..])
      ensures status == Started ==>
        var e := Entry(Pack(info), payload[..EventSize(Pack(info))]);
        && |e.Stream()| <= SlotWords(payloadSize)
        && Slots() == old(Slots())[Modular.Wrap(index, count) := PublishedSlot(SlotAt(old(Slots()), index), index, e)]
    {
      if index > MAX_INDEX {
        return IndexExhausted;
      }
      var b := SlotBase(index);
      var previous := mapping[b + SEQUENCE_WORD];
      assert previous == SlotAt(Slots(), index).tag by { SlotAtBase(index); }
      if previous != EMPTY && previous != 2 * index && previous / 2 >= index {
        return TagTaken;
      }
      ghost var e := Entry(Pack(info), payload[..EventSize(Pack(info))]);
      assert WordCount(EventSize(Pack(info))) <= WordCount(payloadSize);
      Published(mapping[..], index, e, Pack(info), Pack(e.payload), payloadSize, count);
      assert info[..|info|] == info;
      StoreEntry(b, index, info, payload, EventSizeOf(info), Pack(info), Pack(e.payload));
      status := Started;
    }

    /** Copies one entry out of the ring. Only a ready outcome says anything about the
        destinations: then they hold the entry, with the position filled in as its index. */
    method Read(index: nat, info: array<byte>, payload: array<byte>) returns (outcome: Outcome)
      requires Valid() && info.Length == INFO_BYTES && payloadSize <= payload.Length
      requires info != payload && info as object != mapping && payload as object != mapping
      modifies info, payload
      ensures outcome == OutcomeOf(ReadSlot(SlotAt(old(Slots()), index), index, payloadSize))
      ensures outcome.ReadyOutcome? ==>
        HoldsEntry(ReadSlot(SlotAt(old(Slots()), index), index, payloadSize).words, index, info[..], payload[..])
    {
      if index > MAX_INDEX {
        return PendingOutcome;
      }
      var b := SlotBase(index);
      SlotAtBase(index);
      ghost var slot := SlotAt(Slots(), index);
      var before := mapping[b + SEQUENCE_WORD];
      if before != 2 * index + 1 {
        return if before != EMPTY && before / 2 > index then OverwrittenOutcome else PendingOutcome;
      }
      CopyEntry(b, slot, info, payload);
      if mapping[b + SEQUENCE_WORD] != before {
        return OverwrittenOutcome;
      }
      if !AcceptableRecord(info[..], payloadSize) {
        return InvalidOutcome;
      }
      FillIn(index, info, slot, payload[..]);
      outcome := ReadyOutcome;
    }

    /** The queue index goes into the record of an accepted copy. */
    method FillIn(index: nat, info: array<byte>, ghost slot: Slot, ghost copied: seq<byte>)
      requires info.Length == INFO_BYTES && |slot.words| == SlotWords(payloadSize)
      requires Copied(slot, info[..], copied, payloadSize) && Acceptable(slot.words[..INFO_WORDS], payloadSize)
      modifies info
      ensures HoldsEntry(slot.words[..Extent(slot.words[..INFO_WORDS], payloadSize)], index, info[..], copied)
    {
      ghost var record := info[..];
      CopyBytes(info, INDEX_AT, BytesOf(index, INDEX_BYTES));
      IndexFilledIn(slot, index, record, info[..], copied, payloadSize);
    }

    /** What a reader takes from a slot before it checks the tag again. */
    method CopyEntry(b: nat, ghost slot: Slot, info: array<byte>, payload: array<byte>)
      requires Valid() && info.Length == INFO_BYTES && payloadSize <= payload.Length
      requires info != payload && info as object != mapping && payload as object != mapping
      requires b + INFO_WORD + SlotWords(payloadSize) <= mapping.Length && |slot.words| == SlotWords(payloadSize)
      requires mapping[b + INFO_WORD..b + INFO_WORD + SlotWords(payloadSize)] == slot.words
      modifies info, payload
      ensures Copied(slot, info[..], payload[..], payloadSize)
    {
      LoadInfo(b, info, slot);
      var size := EventSizeOf(info[..]);
      if size <= payloadSize {
        LoadPayload(b, payload, size, slot);
      }
    }

    method LoadInfo(b: nat, info: array<byte>, ghost slot: Slot)
      requires info.Length == INFO_BYTES && info as object != mapping
      requires b + INFO_WORD + SlotWords(payloadSize) <= mapping.Length && |slot.words| == SlotWords(payloadSize)
      requires mapping[b + INFO_WORD..b + INFO_WORD + SlotWords(payloadSize)] == slot.words
      modifies info
      ensures Pack(info[..]) == slot.words[..INFO_WORDS]
    {
      ghost var found := mapping[b + INFO_WORD..];
      assert slot.words <= found;
      LoadedRecord(slot.words, found, info.Length);
      LoadBytes(info, mapping, b + INFO_WORD, info.Length);
      OverlayWhole(old(info[..]), Unpack(found, info.Length));
      assert info[..] == Unpack(found, info.Length);
    }

    method LoadPayload(b: nat, payload: array<byte>, size: nat, ghost slot: Slot)
      requires size <= payloadSize <= payload.Length && payload as object != mapping
      requires b + INFO_WORD + SlotWords(payloadSize) <= mapping.Length && |slot.words| == SlotWords(payloadSize)
      requires mapping[b + INFO_WORD..b + INFO_WORD + SlotWords(payloadSize)] == slot.words
      modifies payload
      ensures WordCount(size) <= WordCount(payloadSize)
      ensures payload[..size] == Unpack(slot.words[INFO_WORDS..], size)
    {
      LoadedPayload(slot, mapping[..], b, payloadSize, size);
      ghost var found := mapping[b + PAYLOAD_WORD..];
      assert found == mapping[..][b + PAYLOAD_WORD..];
      LoadBytes(payload, mapping, b + PAYLOAD_WORD, size);
    }

    method StoreTag(at: nat, tag: Word)
      requires at < mapping.Length
      modifies mapping
      ensures mapping[..] == old(mapping[..])[at := tag]
    {
      mapping[at] := tag;
    }

    /** The stores of a publication whose slot was found free. */
    method StoreEntry(b: nat, index: nat, info: seq<byte>, payload: seq<byte>, size: nat, ghost record: seq<Word>, ghost data: seq<Word>)
      requires |record| == INFO_WORDS && record == Pack(info[..|info|]) && index <= MAX_INDEX
      requires size <= |payload| && data == Pack(payload[..size]) && b + PAYLOAD_WORD + |data| <= mapping.Length
      modifies mapping
      ensures mapping[..] == Stores(old(mapping[..]), b, index, record, data)
    {
      StoreTag(b + SEQUENCE_WORD, 2 * index);
      StoreBody(b, info, payload, size, record, data);
      StoreTag(b + SEQUENCE_WORD, 2 * index + 1);
    }

    method StoreBody(b: nat, info: seq<byte>, payload: seq<byte>, size: nat, ghost record: seq<Word>, ghost data: seq<Word>)
      requires |record| == INFO_WORDS && record == Pack(info[..|info|])
      requires size <= |payload| && data == Pack(payload[..size]) && b + PAYLOAD_WORD + |data| <= mapping.Length
      modifies mapping
      ensures mapping[..] == Overlay(Overlay(old(mapping[..]), b + INFO_WORD, record), b + PAYLOAD_WORD, data)
    {
      StoreBytes(mapping, b + INFO_WORD, info, |info|);
      StoreBytes(mapping, b + PAYLOAD_WORD, payload, size);
    }
  }

  lemma LoadedRecord(words: seq<Word>, found: seq<Word>, size: nat)
    requires size == INFO_BYTES && INFO_WORDS <= |words| && words <= found
    ensures Pack(Unpack(found, size)) == words[..INFO_WORDS]
  {
    UnpackPrefix(found, words[..INFO_WORDS], size);
    PackUnpack(words[..INFO_WORDS]);
  }

  lemma LoadedPayload(slot: Slot, mapping: seq<Word>, b: nat, payloadSize: nat, size: nat)
    requires |slot.words| == SlotWords(payloadSize) && size <= payloadSize
    requires b + INFO_WORD + SlotWords(payloadSize) <= |mapping|
    requires mapping[b + INFO_WORD..b + INFO_WORD + SlotWords(payloadSize)] == slot.words
    ensures WordCount(size) <= WordCount(payloadSize)
    ensures Unpack(mapping[b + PAYLOAD_WORD..], size) == Unpack(slot.words[INFO_WORDS..], size)
  {
    var found, words := mapping[b + PAYLOAD_WORD..], slot.words[INFO_WORDS..];
    forall w | 0 <= w < WordCount(size) ensures found[w] == words[w] {
      assert words[w] == slot.words[INFO_WORDS + w];
    }
    UnpackPrefix(found, words, size);
  }

  /** A private copy of a slot, as far as its announced size can be followed. */
  predicate Copied(slot: Slot, info: seq<byte>, payload: seq<byte>, payloadSize: nat)
    requires |slot.words| == SlotWords(payloadSize)
  {
    var size := EventSize(slot.words[..INFO_WORDS]);
    && |info| == INFO_BYTES && payloadSize <= |payload|
    && Pack(info) == slot.words[..INFO_WORDS]
    && (size <= payloadSize ==> WordCount(size) <= WordCount(payloadSize) && payload[..size] == Unpack(slot.words[INFO_WORDS..], size))
  }

  /** The destinations hold the entry stored as `words`, its index field replaced by `index`. */
  predicate HoldsEntry(words: seq<Word>, index: nat, info: seq<byte>, payload: seq<byte>) {
    && |info| == INFO_BYTES && INFO_WORDS <= |words|
    && HoldsRecord(words[..INFO_WORDS], index, info)
    && HoldsPayload(words[INFO_WORDS..], EventSize(words[..INFO_WORDS]), payload)
  }

  predicate HoldsRecord(words: seq<Word>, index: nat, info: seq<byte>)
    requires |words| == INFO_WORDS && |info| == INFO_BYTES
  {
    info == Unpack(words, |info|)[..INDEX_AT] + BytesOf(index, INDEX_BYTES)
  }

  predicate HoldsPayload(words: seq<Word>, size: nat, payload: seq<byte>) {
    |words| == WordCount(size) && size <= |payload| && payload[..size] == Unpack(words, size)
  }

  lemma RecordFilledIn(words: seq<Word>, index: nat, record: seq<byte>, info: seq<byte>)
    requires |record| == INFO_BYTES && Pack(record) == words
    requires info == Overlay(record, INDEX_AT, BytesOf(index, INDEX_BYTES))
    ensures HoldsRecord(words, index, info)
  {
    UnpackPack(record, []);
    assert Pack(record) + [] == words;
  }

  lemma IndexFilledIn(slot: Slot, index: nat, record: seq<byte>, info: seq<byte>, payload: seq<byte>, payloadSize: nat)
    requires |slot.words| == SlotWords(payloadSize) && Copied(slot, record, payload, payloadSize)
    requires Acceptable(slot.words[..INFO_WORDS], payloadSize)
    requires info == Overlay(record, INDEX_AT, BytesOf(index, INDEX_BYTES))
    ensures HoldsEntry(slot.words[..Extent(slot.words[..INFO_WORDS], payloadSize)], index, info, payload)
  {
    var words := slot.words[..Extent(slot.words[..INFO_WORDS], payloadSize)];
    assert words[..INFO_WORDS] == slot.words[..INFO_WORDS];
    RecordFilledIn(words[..INFO_WORDS], index, record, info);
    PayloadFilledIn(slot, record, payload, payloadSize);
  }

  lemma PayloadFilledIn(slot: Slot, record: seq<byte>, payload: seq<byte>, payloadSize: nat)
    requires |slot.words| == SlotWords(payloadSize) && Copied(slot, record, payload, payloadSize)
    requires Acceptable(slot.words[..INFO_WORDS], payloadSize)
    ensures var words := slot.words[..Extent(slot.words[..INFO_WORDS], payloadSize)];
      HoldsPayload(words[INFO_WORDS..], EventSize(slot.words[..INFO_WORDS]), payload)
  {
    var size := EventSize(slot.words[..INFO_WORDS]);
    var words := slot.words[..Extent(slot.words[..INFO_WORDS], payloadSize)];
    UnpackPrefix(slot.words[INFO_WORDS..], words[INFO_WORDS..], size);
  }

  /** The timestamp field of a delivered record is the stored one. */
  lemma DeliveredStamp(words: seq<Word>, index: nat, info: seq<byte>)
    requires |words| == INFO_WORDS && |info| == INFO_BYTES && HoldsRecord(words, index, info)
    ensures Uint64At(info, TIMESTAMP_AT) == Timestamp(words)
  {
    var record := Unpack(words, |info|);
    PackUnpack(words);
    FieldsOfWord(record, 1);
    assert info[TIMESTAMP_AT..TIMESTAMP_AT + 8] == record[TIMESTAMP_AT..TIMESTAMP_AT + 8];
  }

  /** The four groups of stores of one publication, put together. */
  function Stores(before: seq<Word>, b: nat, index: nat, info: seq<Word>, payload: seq<Word>): (after: seq<Word>)
    requires |info| == INFO_WORDS && index <= MAX_INDEX && b + PAYLOAD_WORD + |payload| <= |before|
    ensures |after| == |before|
  {
    Overlay(Overlay(before[b + SEQUENCE_WORD := 2 * index], b + INFO_WORD, info), b + PAYLOAD_WORD, payload)
      [b + SEQUENCE_WORD := 2 * index + 1]
  }

  lemma StoresAt(before: seq<Word>, b: nat, index: nat, info: seq<Word>, payload: seq<Word>, w: nat)
    requires |info| == INFO_WORDS && index <= MAX_INDEX && b + PAYLOAD_WORD + |payload| <= |before|
    requires w < |before|
    ensures Stores(before, b, index, info, payload)[w] ==
      if w == b + SEQUENCE_WORD then 2 * index + 1
      else if b + INFO_WORD <= w < b + PAYLOAD_WORD then info[w - b - INFO_WORD]
      else if b + PAYLOAD_WORD <= w < b + PAYLOAD_WORD + |payload| then payload[w - b - PAYLOAD_WORD]
      else before[w]
  {}

  /** Everything stored lies in one slot. */
  lemma StoresInside(before: seq<Word>, b: nat, index: nat, info: seq<Word>, payload: seq<Word>, payloadSize: nat)
    requires |info| == INFO_WORDS && index <= MAX_INDEX && INFO_WORDS + |payload| <= SlotWords(payloadSize)
    requires b + StrideWords(payloadSize) <= |before| && b + PAYLOAD_WORD + |payload| <= |before|
    ensures forall w :: 0 <= w < |before| && !(b <= w < b + StrideWords(payloadSize)) ==>
      Stores(before, b, index, info, payload)[w] == before[w]
  {
    StrideHolds(payloadSize);
    forall w | 0 <= w < |before| && !(b <= w < b + StrideWords(payloadSize))
      ensures Stores(before, b, index, info, payload)[w] == before[w]
    {
      StoresAt(before, b, index, info, payload, w);
    }
  }

  lemma StoresStream(before: seq<Word>, b: nat, index: nat, info: seq<Word>, payload: seq<Word>, n: nat)
    requires |info| == INFO_WORDS && index <= MAX_INDEX
    requires INFO_WORDS + |payload| <= n && b + INFO_WORD + n <= |before|
    ensures Stores(before, b, index, info, payload)[b + INFO_WORD..b + INFO_WORD + n]
      == info + payload + before[b + INFO_WORD..b + INFO_WORD + n][INFO_WORDS + |payload|..]
  {
    var after := Stores(before, b, index, info, payload);
    var found := after[b + INFO_WORD..b + INFO_WORD + n];
    var expected := info + payload + before[b + INFO_WORD..b + INFO_WORD + n][INFO_WORDS + |payload|..];
    forall k | 0 <= k < n ensures found[k] == expected[k] {
      StoresAt(before, b, index, info, payload, b + INFO_WORD + k);
    }
  }

  lemma Published(before: seq<Word>, index: nat, e: Entry, info: seq<Word>, payload: seq<Word>, payloadSize: nat, count: nat)
    requires count > 0 && BufferWords(count, payloadSize) <= |before| && index <= MAX_INDEX
    requires |info| == INFO_WORDS && INFO_WORDS + |payload| <= SlotWords(payloadSize) && e.Stream() == info + payload
    ensures var j := Modular.Wrap(index, count);
      var b := Base(j, payloadSize);
      && b + PAYLOAD_WORD + |payload| <= |before|
      && SlotsIn(Stores(before, b, index, info, payload), count, payloadSize)
        == SlotsIn(before, count, payloadSize)[j := PublishedSlot(SlotIn(before, j, count, payloadSize), index, e)]
  {
    var j := Modular.Wrap(index, count);
    SlotInside(j, count, payloadSize);
    var after := StoresParts(before, Base(j, payloadSize), index, info, payload, SlotWords(payloadSize));
    StoresInside(before, Base(j, payloadSize), index, info, payload, payloadSize);
    ReplacedSlot(before, after, j, index, e, payloadSize, count);
  }

  lemma ReplacedSlot(before: seq<Word>, after: seq<Word>, j: nat, index: nat, e: Entry, payloadSize: nat, count: nat)
    requires j < count && BufferWords(count, payloadSize) <= |before| == |after|
    requires |e.Stream()| <= SlotWords(payloadSize)
    requires var b, n := Base(j, payloadSize), SlotWords(payloadSize);
      && b + INFO_WORD + n <= |before|
      && after[b + SEQUENCE_WORD] == 2 * index + 1
      && after[b + INFO_WORD..b + INFO_WORD + n] == e.Stream() + before[b + INFO_WORD..b + INFO_WORD + n][|e.Stream()|..]
      && forall w :: 0 <= w < |before| && !(b <= w < b + StrideWords(payloadSize)) ==> after[w] == before[w]
    ensures SlotsIn(after, count, payloadSize)
      == SlotsIn(before, count, payloadSize)[j := PublishedSlot(SlotIn(before, j, count, payloadSize), index, e)]
  {
    OneSlotChanged(before, after, j, count, payloadSize);
    AssembledSlot(before, after, j, index, e, payloadSize, count);
  }

  /** What the stores of a publication leave in its slot. */
  lemma StoresParts(before: seq<Word>, b: nat, index: nat, info: seq<Word>, payload: seq<Word>, n: nat) returns (after: seq<Word>)
    requires |info| == INFO_WORDS && index <= MAX_INDEX
    requires INFO_WORDS + |payload| <= n && b + INFO_WORD + n <= |before|
    ensures after == Stores(before, b, index, info, payload) && after[b + SEQUENCE_WORD] == 2 * index + 1
    ensures after[b + INFO_WORD..b + INFO_WORD + n] == info + payload + before[b + INFO_WORD..b + INFO_WORD + n][INFO_WORDS + |payload|..]
  {
    after := Stores(before, b, index, info, payload);
    StoresStream(before, b, index, info, payload, n);
    StoresAt(before, b, index, info, payload, b + SEQUENCE_WORD);
  }

  lemma AssembledSlot(before: seq<Word>, after: seq<Word>, j: nat, index: nat, e: Entry, payloadSize: nat, count: nat)
    requires j < count && BufferWords(count, payloadSize) <= |before| == |after|
    requires |e.Stream()| <= SlotWords(payloadSize)
    requires var b, n := Base(j, payloadSize), SlotWords(payloadSize);
      && b + INFO_WORD + n <= |before|
      && after[b + SEQUENCE_WORD] == 2 * index + 1
      && after[b + INFO_WORD..b + INFO_WORD + n] == e.Stream() + before[b + INFO_WORD..b + INFO_WORD + n][|e.Stream()|..]
    ensures SlotIn(after, j, count, payloadSize) == PublishedSlot(SlotIn(before, j, count, payloadSize), index, e)
  {
    var b, n := Base(j, payloadSize), SlotWords(payloadSize);
    var slot, was := SlotIn(after, j, count, payloadSize), SlotIn(before, j, count, payloadSize);
    assert slot.tag == after[b + SEQUENCE_WORD] && slot.words == after[b + INFO_WORD..b + INFO_WORD + n];
    assert was.words == before[b + INFO_WORD..b + INFO_WORD + n];
  }
}
