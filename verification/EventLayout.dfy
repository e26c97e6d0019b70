/** Geometry of the event ring file and the ring of slots that its words represent. */
module EventLayout {
  import opened MachineWords
  import opened EventWords
  import opened EventProtocol
  import Modular

  // ---- layout -------------------------------------------------------------------------

  const STORAGE_VERSION: nat := 1
  const RING_HEADER_BYTES: nat := 4096
  const SLOT_HEADER_BYTES: nat := 768
  const SEQUENCE_OFFSET: nat := 128
  const INFO_OFFSET: nat := 256

  predicate LegalGeometry(count: nat, payloadSize: nat) {
    2 <= count <= 65536 && 1 <= payloadSize <= 1048576
  }

  /** Slot header plus payload, rounded up to 128 bytes. */
  function SlotStride(payloadSize: nat): nat {
    (SLOT_HEADER_BYTES + payloadSize + 127) / 128 * 128
  }

  function BufferSize(count: nat, payloadSize: nat): nat {
    RING_HEADER_BYTES + SlotStride(payloadSize) * count
  }

  /** First byte of slot j. */
  function SlotAddress(j: nat, payloadSize: nat): nat {
    RING_HEADER_BYTES + j * SlotStride(payloadSize)
  }

  lemma AlignUp(n: nat)
    ensures n <= (n + 127) / 128 * 128 < n + 128
  {
    var q := (n + 127) / 128;
    assert n + 127 == 128 * q + (n + 127) % 128;
  }

  lemma WholeWordsFit(size: nat, q: nat)
    requires size <= 128 * q
    ensures 8 * WordCount(size) <= 128 * q
  {
    var w := WordCount(size);
    assert size + 7 == 8 * w + (size + 7) % 8;
    assert w <= 16 * q;
  }

  lemma StrideFits(payloadSize: nat)
    ensures SlotStride(payloadSize) == 128 * ((SLOT_HEADER_BYTES + payloadSize + 127) / 128)
    ensures SLOT_HEADER_BYTES + payloadSize <= SlotStride(payloadSize) < SLOT_HEADER_BYTES + payloadSize + 128
    ensures SLOT_HEADER_BYTES + 8 * WordCount(payloadSize) <= SlotStride(payloadSize)
  {
    AlignUp(SLOT_HEADER_BYTES + payloadSize);
    WholeWordsFit(payloadSize, (SLOT_HEADER_BYTES + payloadSize + 127) / 128 - 6);
  }

  /** For every legal geometry the slots lie one behind the other inside the mapping, each
      aligned to 128 bytes and large enough for its payload rounded up to whole words. */
  lemma SlotsDisjoint(count: nat, payloadSize: nat, j: nat, k: nat)
    requires j < k < count
    ensures RING_HEADER_BYTES <= SlotAddress(j, payloadSize)
    ensures SlotAddress(j, payloadSize) + SlotStride(payloadSize) <= SlotAddress(k, payloadSize)
    ensures SlotAddress(k, payloadSize) + SlotStride(payloadSize) <= BufferSize(count, payloadSize)
    ensures SlotAddress(j, payloadSize) % 128 == 0
    ensures SLOT_HEADER_BYTES + 8 * WordCount(payloadSize) <= SlotStride(payloadSize)
  {
    StrideFits(payloadSize);
    Modular.Rows(j, k, count, SlotStride(payloadSize));
    MultipleOf128(j, (SLOT_HEADER_BYTES + payloadSize + 127) / 128);
  }

  lemma MultipleOf128(j: nat, q: nat)
    ensures (RING_HEADER_BYTES + j * (128 * q)) % 128 == 0
  {
    assert RING_HEADER_BYTES + j * (128 * q) == 128 * (32 + j * q);
    Modular.Unique(RING_HEADER_BYTES + j * (128 * q), 128, 32 + j * q, 0);
  }

  /** The size test of the geometry check never fires with 64-bit sizes. */
  lemma SizeNeverOverflows(count: nat, payloadSize: nat)
    requires LegalGeometry(count, payloadSize)
    ensures SlotStride(payloadSize) <= (WORD_LIMIT - 1 - RING_HEADER_BYTES) / count
    ensures BufferSize(count, payloadSize) < WORD_LIMIT
  {
    StrideFits(payloadSize);
    var stride := SlotStride(payloadSize);
    assert stride <= 0x20_0000;
    Modular.Product(stride, 0x20_0000, count, 65536);
    Modular.Quotient(WORD_LIMIT - 1 - RING_HEADER_BYTES, count, stride);
  }

  // ---- the mapping as one array of words ---------------------------------------------------

  const RING_HEADER_WORDS: nat := RING_HEADER_BYTES / 8
  const SEQUENCE_WORD: nat := SEQUENCE_OFFSET / 8
  const INFO_WORD: nat := INFO_OFFSET / 8
  const PAYLOAD_WORD: nat := SLOT_HEADER_BYTES / 8

  function StrideWords(payloadSize: nat): nat {
    SlotStride(payloadSize) / 8
  }

  /** First word of slot j; adding up strides keeps products out of the proofs. */
  function Base(j: nat, payloadSize: nat): (b: nat)
    ensures RING_HEADER_WORDS <= b
  {
    if j == 0 then RING_HEADER_WORDS else Base(j - 1, payloadSize) + StrideWords(payloadSize)
  }

  function BufferWords(count: nat, payloadSize: nat): nat {
    Base(count, payloadSize)
  }

  /** Word and byte addresses agree. */
  lemma {:induction false} BaseIsAddress(j: nat, payloadSize: nat)
    ensures 8 * Base(j, payloadSize) == SlotAddress(j, payloadSize)
  {
    if j > 0 {
      BaseIsAddress(j - 1, payloadSize);
      StrideInWords(payloadSize);
      assert j * SlotStride(payloadSize) == (j - 1) * SlotStride(payloadSize) + SlotStride(payloadSize);
    }
  }

  lemma StrideInWords(payloadSize: nat)
    ensures 8 * StrideWords(payloadSize) == SlotStride(payloadSize)
  {
    StrideFits(payloadSize);
    Eighth(SlotStride(payloadSize), (SLOT_HEADER_BYTES + payloadSize + 127) / 128);
  }

  lemma Eighth(stride: nat, q: nat)
    requires stride == 128 * q
    ensures 8 * (stride / 8) == stride
  {}

  lemma StrideHolds(payloadSize: nat)
    ensures INFO_WORD + SlotWords(payloadSize) <= StrideWords(payloadSize)
  {
    StrideFits(payloadSize);
  }

  /** Each slot ends before any later slot starts, and inside the mapping. */
  lemma {:induction false} BaseGrows(j: nat, k: nat, payloadSize: nat)
    requires j < k
    ensures Base(j, payloadSize) + StrideWords(payloadSize) <= Base(k, payloadSize)
    decreases k
  {
    if j + 1 < k {
      BaseGrows(j, k - 1, payloadSize);
    }
  }

  lemma SlotInside(j: nat, count: nat, payloadSize: nat)
    requires j < count
    ensures INFO_WORD + SlotWords(payloadSize) <= StrideWords(payloadSize)
    ensures Base(j, payloadSize) + StrideWords(payloadSize) <= BufferWords(count, payloadSize)
  {
    StrideHolds(payloadSize);
    BaseGrows(j, count, payloadSize);
  }

  lemma SlotsApart(j: nat, k: nat, payloadSize: nat)
    requires j != k
    ensures Base(j, payloadSize) + StrideWords(payloadSize) <= Base(k, payloadSize)
      || Base(k, payloadSize) + StrideWords(payloadSize) <= Base(j, payloadSize)
  {
    if j < k {
      BaseGrows(j, k, payloadSize);
    } else {
      BaseGrows(k, j, payloadSize);
    }
  }

  function SlotIn(mapping: seq<Word>, j: nat, count: nat, payloadSize: nat): (slot: Slot)
    requires j < count && BufferWords(count, payloadSize) <= |mapping|
    ensures |slot.words| == SlotWords(payloadSize)
  {
    SlotInside(j, count, payloadSize);
    var b := Base(j, payloadSize);
    Slot(mapping[b + SEQUENCE_WORD], mapping[b + INFO_WORD..b + INFO_WORD + SlotWords(payloadSize)])
  }

  /** The ring that a mapping represents. */
  function SlotsIn(mapping: seq<Word>, count: nat, payloadSize: nat): (slots: seq<Slot>)
    requires BufferWords(count, payloadSize) <= |mapping|
    ensures |slots| == count
    ensures forall j :: 0 <= j < count ==> |slots[j].words| == SlotWords(payloadSize)
  {
    seq(count, j requires 0 <= j < count => SlotIn(mapping, j, count, payloadSize))
  }

  /** Words outside one slot did not change, so neither did the other slots. */
  lemma OneSlotChanged(before: seq<Word>, after: seq<Word>, j: nat, count: nat, payloadSize: nat)
    requires j < count && BufferWords(count, payloadSize) <= |before| == |after|
    requires forall w :: 0 <= w < Base(j, payloadSize) && w < |before| ==> after[w] == before[w]
    requires forall w :: Base(j, payloadSize) + StrideWords(payloadSize) <= w < |before| ==> after[w] == before[w]
    ensures SlotsIn(after, count, payloadSize) == SlotsIn(before, count, payloadSize)[j := SlotIn(after, j, count, payloadSize)]
  {
    forall k | 0 <= k < count && k != j
      ensures SlotIn(after, k, count, payloadSize) == SlotIn(before, k, count, payloadSize)
    {
      SlotsApart(j, k, payloadSize);
      SlotInside(k, count, payloadSize);
    }
  }
}
