/** Packing ancillary data packets as in section 2.1 of RFC 8331, and the proof that the data
    probe's parser inverts it. */
module AncPacking {
  import opened AncBits
  import opened AncPayload

  /** A number stored in a fixed width. */
  datatype BitField = BitField(value: nat, width: nat)

  /** A ten-bit word of ancillary data: eight bits and the two above them. */
  datatype Word10 = Word10(upper: nat, low: nat)

  /** A packet; its data count is the number of user data words. */
  datatype Packet = Packet(c: nat, line: nat, horizontalOffset: nat, s: nat, streamNumber: nat,
                           did: Word10, sdid: Word10, countUpper: nat, udw: seq<Word10>, checksum: nat)

  // ---- fields one behind the other ----------------------------------------------------------------

  function FieldBits(fields: seq<BitField>): (bits: Bits)
  {
    if fields == [] then []
    else FieldBits(fields[..|fields| - 1]) + Digits(fields[|fields| - 1].value, fields[|fields| - 1].width)
  }

  /** Where the k-th field starts. */
  function Offset(fields: seq<BitField>, k: nat): nat
    requires k <= |fields|
  {
    if k == 0 then 0 else Offset(fields, k - 1) + fields[k - 1].width
  }

  predicate Fits(fields: seq<BitField>) {
    forall k :: 0 <= k < |fields| ==> fields[k].value < Pow2(fields[k].width)
  }

  lemma {:induction false} OffsetPrefix(fields: seq<BitField>, n: nat, k: nat)
    requires k <= n <= |fields|
    ensures Offset(fields[..n], k) == Offset(fields, k)
    decreases k
  {
    if k > 0 {
      OffsetPrefix(fields, n, k - 1);
    }
  }

  lemma {:induction false} FieldBitsLength(fields: seq<BitField>)
    ensures |FieldBits(fields)| == Offset(fields, |fields|)
    decreases |fields|
  {
    if fields != [] {
      var n := |fields| - 1;
      FieldBitsLength(fields[..n]);
      OffsetPrefix(fields, n, n);
    }
  }

  lemma LastFieldAt(fields: seq<BitField>)
    requires fields != [] && fields[|fields| - 1].value < Pow2(fields[|fields| - 1].width)
    ensures var n, bits := |fields| - 1, FieldBits(fields);
      && |bits| == Offset(fields, n) + fields[n].width
      && At(bits, Offset(fields, n), fields[n].width) == fields[n].value
  {
    var n := |fields| - 1;
    var earlier, last := FieldBits(fields[..n]), Digits(fields[n].value, fields[n].width);
    FieldBitsLength(fields[..n]);
    OffsetPrefix(fields, n, n);
    DigitsValue(fields[n].value, fields[n].width);
    assert FieldBits(fields) == earlier + last;
    TailAt(earlier, last);
  }

  lemma TailAt(earlier: Bits, last: Bits)
    ensures At(earlier + last, |earlier|, |last|) == Value(last)
  {
    assert (earlier + last)[|earlier|..|earlier| + |last|] == last;
  }

  /** Reading at a field's offset gives its value. */
  lemma {:induction false} FieldAt(fields: seq<BitField>, k: nat)
    requires k < |fields| && fields[k].value < Pow2(fields[k].width)
    ensures Offset(fields, k) + fields[k].width <= |FieldBits(fields)|
    ensures At(FieldBits(fields), Offset(fields, k), fields[k].width) == fields[k].value
    decreases |fields|
  {
    var n := |fields| - 1;
    if k < n {
      FieldAt(fields[..n], k);
      OffsetPrefix(fields, n, k);
      SameBits(FieldBits(fields[..n]), FieldBits(fields), Offset(fields, k), fields[k].width);
    } else {
      LastFieldAt(fields);
    }
  }

  lemma SameBits(less: Bits, more: Bits, p: nat, n: nat)
    requires p + n <= |less| && less <= more
    ensures At(more, p, n) == At(less, p, n)
  {
    assert more[p..p + n] == less[p..p + n];
  }

  // ---- packets --------------------------------------------------------------------------------------

  function WordFields(udw: seq<Word10>): (fields: seq<BitField>)
    ensures |fields| == 2 * |udw|
    ensures forall j :: 0 <= j < |udw| ==> fields[2 * j] == BitField(udw[j].upper, 2) && fields[2 * j + 1] == BitField(udw[j].low, 8)
  {
    if udw == [] then []
    else
      var n := |udw| - 1;
      WordFields(udw[..n]) + [BitField(udw[n].upper, 2), BitField(udw[n].low, 8)]
  }

  const FIXED_FIELDS: nat := 11

  function HeaderFieldsOf(p: Packet): (fields: seq<BitField>)
    ensures |fields| == FIXED_FIELDS
  {
    [BitField(p.c, 1), BitField(p.line, 11), BitField(p.horizontalOffset, 12), BitField(p.s, 1), BitField(p.streamNumber, 7),
     BitField(p.did.upper, 2), BitField(p.did.low, 8), BitField(p.sdid.upper, 2), BitField(p.sdid.low, 8),
     BitField(p.countUpper, 2), BitField(|p.udw|, 8)]
  }

  /** 32-bit words taken by a packet, and the zero bits that fill the last of them. */
  function LongWords(n: nat): (m: nat)
    ensures 72 + 10 * n <= 32 * m < 72 + 10 * n + 32
  {
    (72 + 10 * n + 31) / 32
  }

  function Padding(n: nat): (width: nat)
    ensures width < 32
  {
    32 * LongWords(n) - (72 + 10 * n)
  }

  function PacketFields(p: Packet): (fields: seq<BitField>)
    ensures |fields| == FIXED_FIELDS + 2 * |p.udw| + 2
  {
    HeaderFieldsOf(p) + WordFields(p.udw) + [BitField(p.checksum, 10), BitField(0, Padding(|p.udw|))]
  }

  ghost predicate Valid(p: Packet) {
    Fits(PacketFields(p))
  }

  /** What the parser reports of a packet. */
  function Reported(p: Packet): AncElement {
    AncElement(p.line, p.did.low, p.sdid.low, |p.udw|, LowBytes(p.udw))
  }

  function LowBytes(udw: seq<Word10>): (bytes: seq<nat>)
    ensures |bytes| == |udw| && forall j :: 0 <= j < |udw| ==> bytes[j] == udw[j].low
  {
    seq(|udw|, j requires 0 <= j < |udw| => udw[j].low)
  }

  lemma HeaderOffsets(p: Packet)
    ensures var f := PacketFields(p);
      && Offset(f, 1) == 1 && Offset(f, 6) == 34 && Offset(f, 8) == 44 && Offset(f, 10) == 54 && Offset(f, 11) == 62
      && f[1] == BitField(p.line, 11) && f[6] == BitField(p.did.low, 8) && f[8] == BitField(p.sdid.low, 8)
      && f[10] == BitField(|p.udw|, 8)
  {
    var f := PacketFields(p);
    assert forall k :: 0 <= k < 11 ==> f[k] == HeaderFieldsOf(p)[k];
    assert Offset(f, 2) == 12 && Offset(f, 3) == 24 && Offset(f, 4) == 25;
    assert Offset(f, 5) == 32 && Offset(f, 7) == 42 && Offset(f, 9) == 52;
  }

  lemma {:induction false} WordOffsets(p: Packet, j: nat)
    requires j <= |p.udw|
    ensures Offset(PacketFields(p), FIXED_FIELDS + 2 * j) == 62 + 10 * j
    decreases j
  {
    if j == 0 {
      HeaderOffsets(p);
    } else {
      WordOffsets(p, j - 1);
      var f, k := PacketFields(p), FIXED_FIELDS + 2 * (j - 1);
      assert f[k] == WordFields(p.udw)[2 * (j - 1)] && f[k + 1] == WordFields(p.udw)[2 * (j - 1) + 1];
      assert Offset(f, k + 2) == Offset(f, k + 1) + f[k + 1].width;
    }
  }

  lemma PacketLength(p: Packet)
    ensures |FieldBits(PacketFields(p))| == 72 + 10 * |p.udw| + Padding(|p.udw|)
  {
    var f, k := PacketFields(p), FIXED_FIELDS + 2 * |p.udw|;
    WordOffsets(p, |p.udw|);
    FieldBitsLength(f);
    assert f[k] == BitField(p.checksum, 10) && f[k + 1] == BitField(0, Padding(|p.udw|));
    assert Offset(f, k + 2) == Offset(f, k + 1) + f[k + 1].width;
  }

  /** The bits of a packet, found at its start, give the reported element. */
  lemma PacketAt(p: Packet)
    requires Valid(p)
    ensures var bits := FieldBits(PacketFields(p));
      && 72 + 10 * |p.udw| <= |bits| && At(bits, 54, 8) == |p.udw| && ElementAt(bits, 0) == Reported(p)
  {
    var f := PacketFields(p);
    var bits := FieldBits(f);
    PacketLength(p);
    HeaderOffsets(p);
    FieldAt(f, 1);
    FieldAt(f, 6);
    FieldAt(f, 8);
    FieldAt(f, 10);
    forall j | 0 <= j < |p.udw| ensures At(bits, 62 + 10 * j + 2, 8) == p.udw[j].low {
      WordByteAt(p, j);
    }
    assert UserWords(bits, 62, |p.udw|) == LowBytes(p.udw);
  }

  lemma WordByteAt(p: Packet, j: nat)
    requires Valid(p) && j < |p.udw|
    ensures 64 + 10 * j + 8 <= |FieldBits(PacketFields(p))|
    ensures At(FieldBits(PacketFields(p)), 64 + 10 * j, 8) == p.udw[j].low
  {
    var f, k := PacketFields(p), FIXED_FIELDS + 2 * j;
    WordOffsets(p, j);
    WordFieldsAt(p, j);
    assert Offset(f, k + 1) == Offset(f, k) + 2;
    FieldAt(f, k + 1);
  }

  lemma WordFieldsAt(p: Packet, j: nat)
    requires j < |p.udw|
    ensures var f, k := PacketFields(p), FIXED_FIELDS + 2 * j;
      f[k] == BitField(p.udw[j].upper, 2) && f[k + 1] == BitField(p.udw[j].low, 8)
  {
    var f, k := PacketFields(p), FIXED_FIELDS + 2 * j;
    assert f[k] == WordFields(p.udw)[2 * j] && f[k + 1] == WordFields(p.udw)[2 * j + 1];
  }

  // ---- frames -------------------------------------------------------------------------------------------

  /** A bit string of whole 32-bit words that reads as the given element. */
  ghost predicate Encodes(part: Bits, e: AncElement) {
    && |part| == 32 * LongWords(|e.udw|)
    && At(part, 54, 8) == |e.udw| && ElementAt(part, 0) == e
  }

  lemma PacketEncodes(p: Packet)
    requires Valid(p)
    ensures Encodes(FieldBits(PacketFields(p)), Reported(p))
  {
    PacketAt(p);
    PacketLength(p);
  }

  function Joined(parts: seq<Bits>): (bits: Bits) {
    if parts == [] then [] else parts[0] + Joined(parts[1..])
  }

  lemma ShiftedAt(bits: Bits, p: nat, part: Bits, x: nat, n: nat)
    requires p <= |bits| && part <= bits[p..] && x + n <= |part|
    ensures p + x + n <= |bits| && At(bits, p + x, n) == At(part, x, n)
  {
    assert bits[p + x..p + x + n] == part[x..x + n];
  }

  /** A packet in the middle of a payload. */
  lemma PacketInside(bits: Bits, p: nat, part: Bits, e: AncElement)
    requires Encodes(part, e) && p <= |bits| && part <= bits[p..]
    ensures p + 32 * LongWords(|e.udw|) <= |bits|
    ensures At(bits, p + 54, 8) == |e.udw| && ElementAt(bits, p) == e
  {
    var n := |e.udw|;
    ShiftedAt(bits, p, part, 54, 8);
    ShiftedAt(bits, p, part, 1, 11);
    ShiftedAt(bits, p, part, 34, 8);
    ShiftedAt(bits, p, part, 44, 8);
    forall j | 0 <= j < n ensures At(bits, p + 62 + 10 * j + 2, 8) == At(part, 62 + 10 * j + 2, 8) {
      ShiftedAt(bits, p, part, 62 + 10 * j + 2, 8);
    }
    assert UserWords(bits, p + 62, n) == UserWords(part, 62, n);
  }

  /** Skipping the padding leads to the start of the next packet. */
  lemma NextStart(start: nat, n: nat)
    requires start % 2 == 1
    ensures Aligned(start + WordsOf(n)) == start + 2 * LongWords(n)
    ensures start + WordsOf(n) <= start + 2 * LongWords(n)
  {
    var m, w := LongWords(n), WordsOf(n);
    assert 72 + 10 * n <= 16 * w < 72 + 10 * n + 16;
    assert w == 2 * m || w == 2 * m - 1;
  }

  lemma ElementInside(bits: Bits, start: nat, part: Bits, e: AncElement)
    requires start % 2 == 1 && Encodes(part, e) && 16 * start <= |bits| && part <= bits[16 * start..]
    ensures ElementFrom(bits, start) == Ok((e, start + WordsOf(|e.udw|)))
  {
    PacketInside(bits, 16 * start, part, e);
    NextStart(start, |e.udw|);
  }

  lemma JoinedTail(bits: Bits, p: nat, parts: seq<Bits>)
    requires parts != [] && p <= |bits| && Joined(parts) <= bits[p..]
    ensures parts[0] <= bits[p..] && p + |parts[0]| <= |bits|
    ensures Joined(parts[1..]) <= bits[p + |parts[0]|..]
  {
    var tail := bits[p..];
    assert Joined(parts) == parts[0] + Joined(parts[1..]);
    assert tail[|parts[0]|..] == bits[p + |parts[0]|..];
  }

  ghost predicate AllEncode(parts: seq<Bits>, elements: seq<AncElement>) {
    |parts| == |elements| && forall i :: 0 <= i < |parts| ==> Encodes(parts[i], elements[i])
  }

  lemma EncodeTail(parts: seq<Bits>, elements: seq<AncElement>)
    requires AllEncode(parts, elements) && parts != []
    ensures Encodes(parts[0], elements[0]) && |parts[0]| == 32 * LongWords(|elements[0].udw|)
    ensures AllEncode(parts[1..], elements[1..]) && elements == [elements[0]] + elements[1..]
  {}

  lemma ElementsStep(bits: Bits, w: nat, n: nat, e: AncElement, end: nat)
    requires n > 0 && ElementFrom(bits, Aligned(w)) == Ok((e, end))
    ensures ElementsFrom(bits, w, n) == Prefixed([e], ElementsFrom(bits, end, n - 1))
  {}

  /** Where the packets after the first one are. */
  lemma ParseOthers(bits: Bits, w: nat, parts: seq<Bits>, elements: seq<AncElement>)
    requires AllEncode(parts, elements) && parts != []
    requires 16 * Aligned(w) <= |bits| && Joined(parts) <= bits[16 * Aligned(w)..]
    ensures var next := 16 * Aligned(EndOf(w, elements[0])); next <= |bits| && Joined(parts[1..]) <= bits[next..]
  {
    EncodeTail(parts, elements);
    JoinedTail(bits, 16 * Aligned(w), parts);
    NextPosition(w, elements[0], |parts[0]|);
  }

  /** The word after a packet, before padding is skipped. */
  function EndOf(w: nat, e: AncElement): nat {
    Aligned(w) + WordsOf(|e.udw|)
  }

  lemma NextPosition(w: nat, e: AncElement, size: nat)
    requires size == 32 * LongWords(|e.udw|)
    ensures 16 * Aligned(EndOf(w, e)) == 16 * Aligned(w) + size
  {
    NextStart(Aligned(w), |e.udw|);
  }

  lemma {:induction false} ParsePackets(bits: Bits, w: nat, parts: seq<Bits>, elements: seq<AncElement>)
    requires AllEncode(parts, elements)
    requires 16 * Aligned(w) <= |bits| && Joined(parts) <= bits[16 * Aligned(w)..]
    ensures ElementsFrom(bits, w, |parts|) == Ok(elements)
    decreases |parts|
  {
    if parts == [] {
      assert elements == [];
    } else {
      EncodeTail(parts, elements);
      JoinedTail(bits, 16 * Aligned(w), parts);
      ElementInside(bits, Aligned(w), parts[0], elements[0]);
      ParseOthers(bits, w, parts, elements);
      ParsePackets(bits, EndOf(w, elements[0]), parts[1..], elements[1..]);
      ElementsStep(bits, w, |parts|, elements[0], EndOf(w, elements[0]));
    }
  }

  /** Bytes taken by the packets. */
  function Size(elements: seq<AncElement>): nat {
    if elements == [] then 0 else 4 * LongWords(|elements[0].udw|) + Size(elements[1..])
  }

  lemma {:induction false} JoinedLength(parts: seq<Bits>, elements: seq<AncElement>)
    requires AllEncode(parts, elements)
    ensures |Joined(parts)| == 8 * Size(elements)
    decreases |parts|
  {
    if parts != [] {
      EncodeTail(parts, elements);
      JoinedLength(parts[1..], elements[1..]);
    }
  }

  function FrameFields(length: nat, count: nat, f: nat, reserved: nat): (fields: seq<BitField>)
    ensures |fields| == 4
  {
    [BitField(length, 16), BitField(count, 8), BitField(f, 2), BitField(reserved, 22)]
  }

  function ReportedAll(packets: seq<Packet>): (elements: seq<AncElement>)
    ensures |elements| == |packets| && forall i :: 0 <= i < |packets| ==> elements[i] == Reported(packets[i])
  {
    seq(|packets|, i requires 0 <= i < |packets| => Reported(packets[i]))
  }

  function PacketParts(packets: seq<Packet>): (parts: seq<Bits>)
    ensures |parts| == |packets| && forall i :: 0 <= i < |packets| ==> parts[i] == FieldBits(PacketFields(packets[i]))
  {
    seq(|packets|, i requires 0 <= i < |packets| => FieldBits(PacketFields(packets[i])))
  }

  function HeaderBits(packets: seq<Packet>, f: nat, reserved: nat): Bits {
    FieldBits(FrameFields(Size(ReportedAll(packets)), |packets|, f, reserved))
  }

  /** The payload of a frame, from the Length field on. */
  function Encode(packets: seq<Packet>, f: nat, reserved: nat): seq<Byte> {
    ToBytes(HeaderBits(packets, f, reserved) + Joined(PacketParts(packets)))
  }

  lemma FrameHeader(length: nat, count: nat, f: nat, reserved: nat)
    requires Fits(FrameFields(length, count, f, reserved))
    ensures var header := FieldBits(FrameFields(length, count, f, reserved));
      |header| == 48 && At(header, 0, 16) == length && At(header, 16, 8) == count
  {
    var fields := FrameFields(length, count, f, reserved);
    FieldBitsLength(fields);
    assert Offset(fields, 1) == 16 && Offset(fields, 2) == 24 && Offset(fields, 3) == 26 && Offset(fields, 4) == 48;
    FieldAt(fields, 0);
    FieldAt(fields, 1);
  }

  lemma FrameOfParts(payload: seq<Byte>, elements: seq<AncElement>)
    requires 48 + 8 * Size(elements) <= |FromBytes(payload)|
    requires At(FromBytes(payload), 0, 16) == Size(elements) && At(FromBytes(payload), 16, 8) == |elements|
    requires ElementsFrom(FromBytes(payload), 3, |elements|) == Ok(elements)
    ensures FrameOf(payload) == Ok(AncFrame(Size(elements), |elements|, elements))
  {}

  lemma HeaderInside(bits: Bits, header: Bits, body: Bits)
    requires |header| == 48 && header + body <= bits
    ensures At(bits, 0, 16) == At(header, 0, 16) && At(bits, 16, 8) == At(header, 16, 8)
    ensures body <= bits[48..]
  {
    assert header <= bits[0..];
    ShiftedAt(bits, 0, header, 0, 16);
    ShiftedAt(bits, 0, header, 16, 8);
    assert bits[48..][..|body|] == body;
  }

  lemma Decoded(bits: Bits, size: nat, rest: seq<Byte>)
    requires |bits| == 8 * size
    ensures bits <= FromBytes(ToBytes(bits) + rest)
  {
    ToFromBytes(bits);
    FromBytesConcat(ToBytes(bits), rest);
  }

  /** Bits that start with a frame header and encoded packets parse to them. */
  lemma ParsePayload(payload: seq<Byte>, bits: Bits, header: Bits, parts: seq<Bits>, elements: seq<AncElement>)
    requires bits == FromBytes(payload) && AllEncode(parts, elements)
    requires |header| == 48 && At(header, 0, 16) == Size(elements) && At(header, 16, 8) == |elements|
    requires header + Joined(parts) <= bits
    ensures FrameOf(payload) == Ok(AncFrame(Size(elements), |elements|, elements))
  {
    JoinedLength(parts, elements);
    HeaderInside(bits, header, Joined(parts));
    ParsePackets(bits, 3, parts, elements);
    FrameOfParts(payload, elements);
  }

  /** The same for the bytes of such a frame, whatever bytes follow. */
  lemma ParseBytes(header: Bits, parts: seq<Bits>, elements: seq<AncElement>, rest: seq<Byte>)
    requires AllEncode(parts, elements)
    requires |header| == 48 && At(header, 0, 16) == Size(elements) && At(header, 16, 8) == |elements|
    ensures FrameOf(ToBytes(header + Joined(parts)) + rest) == Ok(AncFrame(Size(elements), |elements|, elements))
  {
    JoinedLength(parts, elements);
    var frame := header + Joined(parts);
    Decoded(frame, 6 + Size(elements), rest);
    ParsePayload(ToBytes(frame) + rest, FromBytes(ToBytes(frame) + rest), header, parts, elements);
  }

  lemma AllPacketsEncode(packets: seq<Packet>)
    requires forall i :: 0 <= i < |packets| ==> Valid(packets[i])
    ensures AllEncode(PacketParts(packets), ReportedAll(packets))
  {
    forall i | 0 <= i < |packets| ensures Encodes(PacketParts(packets)[i], ReportedAll(packets)[i]) {
      PacketEncodes(packets[i]);
    }
  }

  /** Parsing inverts packing: for any packets whose fields fit, whose number fits the count and
      whose size fits the Length field, and whatever bytes follow them, the parser reports each
      packet's line, identifiers, count and the low eight bits of its user data words. */
  lemma ParseInvertsPacking(packets: seq<Packet>, f: nat, reserved: nat, rest: seq<Byte>)
    requires forall i :: 0 <= i < |packets| ==> Valid(packets[i])
    requires Fits(FrameFields(Size(ReportedAll(packets)), |packets|, f, reserved))
    ensures FrameOf(Encode(packets, f, reserved) + rest) == Ok(AncFrame(Size(ReportedAll(packets)), |packets|, ReportedAll(packets)))
  {
    FrameHeader(Size(ReportedAll(packets)), |packets|, f, reserved);
    AllPacketsEncode(packets);
    ParseBytes(HeaderBits(packets, f, reserved), PacketParts(packets), ReportedAll(packets), rest);
  }
}
