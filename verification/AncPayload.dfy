/** Ancillary data payloads as section 2.1 of RFC 8331 lays them out, from the Length field on,
    and the parser of the data probe: a reader of big-endian 16-bit words and an unpacker of
    10-bit user data words. */
module AncPayload {
  import opened AncBits

  const HEADER_BYTES: nat := 6

  datatype AncElement = AncElement(lineNumber: nat, did: nat, sdid: nat, dataCount: nat, udw: seq<nat>)

  datatype AncFrame = AncFrame(length: nat, ancCount: nat, elements: seq<AncElement>)

  datatype Error = PayloadTooSmall | LengthTooLarge | OutOfBounds

  datatype Result<T> = Ok(value: T) | Err(error: Error)

  // ---- what a payload says, bit by bit --------------------------------------------------------------

  /** The number in n bits from position p on. */
  function At(bits: Bits, p: nat, n: nat): (v: nat)
    requires p + n <= |bits|
  {
    Value(bits[p..p + n])
  }

  /** 16-bit words taken by a packet with n user data words: 62 bits of header fields, the user
      data words and the checksum. */
  function WordsOf(n: nat): nat {
    (72 + 10 * n + 15) / 16
  }

  /** The low eight bits of n user data words. */
  function UserWords(bits: Bits, p: nat, n: nat): (udw: seq<nat>)
    requires p + 10 * n <= |bits|
    ensures |udw| == n
    ensures forall j :: 0 <= j < n ==> udw[j] == At(bits, p + 10 * j + 2, 8)
  {
    seq(n, j requires 0 <= j < n => At(bits, p + 10 * j + 2, 8))
  }

  function ElementAt(bits: Bits, p: nat): AncElement
    requires p + 62 <= |bits| && p + 62 + 10 * At(bits, p + 54, 8) <= |bits|
  {
    var count := At(bits, p + 54, 8);
    AncElement(At(bits, p + 1, 11), At(bits, p + 34, 8), At(bits, p + 44, 8), count, UserWords(bits, p + 62, count))
  }

  /** Packets start at odd words, which are the 32-bit boundaries of the RTP payload. */
  function Aligned(w: nat): (start: nat)
    ensures start % 2 == 1
  {
    if w % 2 == 0 then w + 1 else w
  }

  /** The packet that starts at a word, and the word after it. */
  function ElementFrom(bits: Bits, start: nat): Result<(AncElement, nat)> {
    if 16 * start + 64 > |bits| then Err(OutOfBounds)
    else
      var end := start + WordsOf(At(bits, 16 * start + 54, 8));
      if 16 * end > |bits| then Err(OutOfBounds) else Ok((ElementAt(bits, 16 * start), end))
  }

  function ElementsFrom(bits: Bits, w: nat, n: nat): (r: Result<seq<AncElement>>)
    decreases n
  {
    if n == 0 then Ok([])
    else
      match ElementFrom(bits, Aligned(w))
      case Err(e) => Err(e)
      case Ok((element, end)) => Prefixed([element], ElementsFrom(bits, end, n - 1))
  }

  function Prefixed(elements: seq<AncElement>, r: Result<seq<AncElement>>): Result<seq<AncElement>> {
    match r
    case Err(e) => Err(e)
    case Ok(rest) => Ok(elements + rest)
  }

  function FrameOf(payload: seq<Byte>): Result<AncFrame> {
    if |payload| < HEADER_BYTES then Err(PayloadTooSmall)
    else
      var bits := FromBytes(payload);
      var length, ancCount := At(bits, 0, 16), At(bits, 16, 8);
      if length + HEADER_BYTES > |payload| then Err(LengthTooLarge)
      else
        match ElementsFrom(bits, 3, ancCount)
        case Err(e) => Err(e)
        case Ok(elements) => Ok(AncFrame(length, ancCount, elements))
  }

  /** What the payload's first bytes say: when it is refused before any packet is looked at, and how
      many packets are reported otherwise. */
  lemma FrameHeader(payload: seq<Byte>)
    ensures FrameOf(payload) == Err(PayloadTooSmall) <==> |payload| < 6
    ensures |payload| >= 6 ==> var high: nat, low: nat := payload[0], payload[1];
      && (FrameOf(payload) == Err(LengthTooLarge) <==> |payload| < 6 + 256 * high + low)
      && (FrameOf(payload).Ok? ==> var frame := FrameOf(payload).value;
            frame.length == 256 * high + low && frame.ancCount == payload[2] && |frame.elements| == payload[2])
  {
    if |payload| >= 6 {
      var bits := FromBytes(payload);
      WordAt(payload, 0);
      ByteAt(payload, 2);
      OctetValue(payload[2]);
      ElementsCounted(bits, 3, At(bits, 16, 8));
    }
  }

  /** Reading packets fails in one way only, and otherwise gives as many as asked for. */
  lemma {:induction false} ElementsCounted(bits: Bits, w: nat, n: nat)
    ensures Counted(ElementsFrom(bits, w, n), n)
    decreases n
  {
    if n > 0 {
      var first := ElementFrom(bits, Aligned(w));
      match first
      case Err(e) => OneError(bits, Aligned(w));
      case Ok((element, end)) => ElementsCounted(bits, end, n - 1);
    }
  }

  predicate Counted(r: Result<seq<AncElement>>, n: nat) {
    match r case Err(e) => e == OutOfBounds case Ok(elements) => |elements| == n
  }

  lemma OneError(bits: Bits, start: nat)
    ensures ElementFrom(bits, start).Err? ==> ElementFrom(bits, start).error == OutOfBounds
  {}

  /** A packet is refused exactly if the payload ends before it does: with any fewer bits it is out of
      bounds, with any more it is the same packet. */
  lemma ElementNeeds(bits: Bits, start: nat, m: nat)
    requires m <= |bits| && ElementFrom(bits, start).Ok?
    ensures var (e, end) := ElementFrom(bits, start).value;
      ElementFrom(bits[..m], start) == if 16 * end <= m then Ok((e, end)) else Err(OutOfBounds)
  {
    var end := ElementFrom(bits, start).value.1;
    var part, p := bits[..m], 16 * start;
    if p + 64 <= m {
      assert part[p + 54..p + 62] == bits[p + 54..p + 62];
      if 16 * end <= m {
        ElementKept(bits, m, p);
      }
    }
  }

  lemma ElementKept(bits: Bits, m: nat, p: nat)
    requires p + 62 <= m <= |bits| && p + 62 + 10 * At(bits, p + 54, 8) <= m
    ensures At(bits[..m], p + 54, 8) == At(bits, p + 54, 8) && ElementAt(bits[..m], p) == ElementAt(bits, p)
  {
    var part := bits[..m];
    assert forall a, b :: 0 <= a <= b <= m ==> part[a..b] == bits[a..b];
    assert UserWords(part, p + 62, At(bits, p + 54, 8)) == UserWords(bits, p + 62, At(bits, p + 54, 8));
  }

  // ---- shifts and masks of the code --------------------------------------------------------------------

  /** (number >> shift) & mask, with a mask of `width` ones, on a number of n bits. */
  method Field(number: nat, n: nat, shift: nat, width: nat, ghost bits: Bits, ghost p: nat) returns (v: nat)
    requires p + n <= |bits| && number == At(bits, p, n) && shift + width <= n
    ensures v == At(bits, p + n - shift - width, width)
  {
    ShiftIsDivision(number, shift);
    ShiftIsDivision(number / Pow2(shift), width);
    FieldValue(bits[p..p + n], shift, width);
    Subslice(bits, p, n, n - shift - width, n - shift);
    v := (number / Pow2(shift)) % Pow2(width);
  }

  lemma Subslice(bits: Bits, p: nat, n: nat, from: nat, to: nat)
    requires p + n <= |bits| && from <= to <= n
    ensures bits[p..p + n][from..to] == bits[p + from..p + to]
  {
    var part, same := bits[p..p + n][from..to], bits[p + from..p + to];
    forall k | 0 <= k < to - from ensures part[k] == same[k] {
      assert part[k] == bits[p..p + n][from + k] == bits[p + (from + k)];
    }
  }

  lemma FieldValue(digits: Bits, shift: nat, width: nat)
    requires shift + width <= |digits|
    ensures Low(Shr(Value(digits), shift), width) == Value(digits[|digits| - shift - width..|digits| - shift])
  {
    var kept := digits[..|digits| - shift];
    ShrValue(digits, shift);
    LowValue(kept, width);
    assert kept[|kept| - width..] == digits[|digits| - shift - width..|digits| - shift];
  }

  /** (high << 16) | word. */
  method Join(high: nat, n: nat, word: nat, ghost bits: Bits, ghost p: nat) returns (v: nat)
    requires p + n + 16 <= |bits| && high == At(bits, p, n) && word == At(bits, p + n, 16)
    ensures v == At(bits, p, n + 16)
  {
    ghost var a, b := bits[p..p + n], bits[p + n..p + n + 16];
    ShlValue(a, b);
    ShlWord(high, |b|);
    assert a + b == bits[p..p + n + 16];
    v := high * 65536 + word;
  }

  lemma {:induction false} Pow2Monotone(m: nat, n: nat)
    requires m <= n
    ensures Pow2(m) <= Pow2(n)
    decreases n
  {
    if m < n {
      Pow2Monotone(m, n - 1);
    }
  }

  /** Up to 25 bits stay below 2^25. */
  lemma AccumulatorFits(bits: Bits, p: nat, n: nat)
    requires p + n <= |bits| && n <= 25
    ensures At(bits, p, n) < 0x200_0000
  {
    Pow2Monotone(n, 25);
    assert Pow2(8) == 0x100 && Pow2(16) == 0x1_0000 && Pow2(24) == 0x100_0000 && Pow2(25) == 0x200_0000;
  }

  // ---- the readers ------------------------------------------------------------------------------------------

  /** (bytes[i] << 8) | bytes[i + 1]. */
  method WordOf(bytes: seq<Byte>, i: nat) returns (word: nat)
    requires i + 1 < |bytes|
    ensures word == At(FromBytes(bytes), 8 * i, 16)
  {
    WordAt(bytes, i);
    var high: nat, low: nat := bytes[i], bytes[i + 1];
    word := high * 256 + low;
  }

  class BigEndianWordReader {
    const bytes: seq<Byte>
    var offset: nat

    ghost predicate Valid()
      reads this
    {
      offset <= |bytes| && offset % 2 == 0
    }

    ghost function Bits(): Bits {
      FromBytes(bytes)
    }

    constructor (bytes: seq<Byte>)
      ensures Valid() && this.bytes == bytes && offset == 0
    {
      this.bytes, this.offset := bytes, 0;
    }

    function WordOffset(): nat
      reads this
    {
      offset / 2
    }

    method Read() returns (r: Result<nat>)
      requires Valid()
      modifies this
      ensures Valid()
      ensures if old(offset) + 2 <= |bytes| then r == Ok(At(Bits(), 8 * old(offset), 16)) && offset == old(offset) + 2
              else r == Err(OutOfBounds) && offset == old(offset)
    {
      if |bytes| - offset < 2 {
        return Err(OutOfBounds);
      }
      var word := WordOf(bytes, offset);
      offset := offset + 2;
      return Ok(word);
    }
  }

  class UdwUnpacker {
    const reader: BigEndianWordReader
    var accumulatedBits: nat
    var bitCount: nat

    /** The position of the first bit that has not been handed out. */
    ghost function Position(): nat
      reads this, reader
    {
      if bitCount <= 8 * reader.offset then 8 * reader.offset - bitCount else 0
    }

    /** The accumulator holds the bits read but not handed out. */
    ghost predicate Holding()
      reads this, reader
    {
      && reader.Valid() && bitCount <= 8 * reader.offset
      && accumulatedBits == At(reader.Bits(), Position(), bitCount)
    }

    ghost predicate Valid()
      reads this, reader
    {
      Holding() && bitCount < 16
    }

    constructor (reader: BigEndianWordReader, initialBits: nat, initialBitCount: nat)
      requires reader.Valid() && initialBitCount < 16 && initialBitCount <= 8 * reader.offset
      requires initialBits == At(reader.Bits(), 8 * reader.offset - initialBitCount, initialBitCount)
      ensures Valid() && this.reader == reader && Position() == 8 * reader.offset - initialBitCount
    {
      this.reader, this.accumulatedBits, this.bitCount := reader, initialBits, initialBitCount;
    }

    /** Appends one word of the reader. */
    method Refill() returns (r: Result<nat>)
      requires Holding() && bitCount < 10
      modifies this, reader
      ensures old(reader.offset) + 2 <= |reader.bytes| ==>
        r.Ok? && Holding() && bitCount == old(bitCount) + 16 && Position() == old(Position()) && accumulatedBits < 0x200_0000
      ensures old(reader.offset) + 2 > |reader.bytes| ==> r == Err(OutOfBounds)
    {
      r := reader.Read();
      if r.Err? {
        return;
      }
      accumulatedBits := Join(accumulatedBits, bitCount, r.value, reader.Bits(), old(Position()));
      bitCount := bitCount + 16;
      AccumulatorFits(reader.Bits(), Position(), bitCount);
    }

    /** Takes the leading ten bits of the accumulator. */
    method Take() returns (value: nat)
      requires Holding() && 10 <= bitCount <= 25
      modifies this
      ensures Valid() && Position() == old(Position()) + 10
      ensures value == At(reader.Bits(), old(Position()), 10)
    {
      value := Field(accumulatedBits, bitCount, bitCount - 10, 10, reader.Bits(), Position());
      accumulatedBits := Field(accumulatedBits, bitCount, 0, bitCount - 10, reader.Bits(), Position());
      bitCount := bitCount - 10;
    }

    /** Reads words until ten bits are there. */
    method FillUp() returns (r: Result<nat>)
      requires Valid()
      modifies this, reader
      ensures old(Position()) + 10 <= 16 * (|reader.bytes| / 2) ==>
        r.Ok? && Holding() && 10 <= bitCount <= 25 && Position() == old(Position())
      ensures old(Position()) + 10 > 16 * (|reader.bytes| / 2) ==> r == Err(OutOfBounds)
    {
      r := Ok(0);
      while bitCount < 10
        invariant Holding() && Position() == old(Position()) && bitCount <= 25 && r.Ok?
        decreases 10 - bitCount
      {
        r := Refill();
        if r.Err? {
          return;
        }
      }
    }

    /** The next ten bits. */
    method Read() returns (r: Result<nat>)
      requires Valid()
      modifies this, reader
      ensures old(Position()) + 10 <= 16 * (|reader.bytes| / 2) ==>
        && Valid() && Position() == old(Position()) + 10
        && r == Ok(At(reader.Bits(), old(Position()), 10))
      ensures old(Position()) + 10 > 16 * (|reader.bytes| / 2) ==> r == Err(OutOfBounds)
    {
      r := FillUp();
      if r.Err? {
        return;
      }
      var value := Take();
      return Ok(value);
    }
  }

  // ---- the parser --------------------------------------------------------------------------------------------

  /** ((high & 0xf) << 4) | low, where the four low bits of one word continue in the next. */
  method JoinNibbles(high: nat, low: nat, ghost bits: Bits, ghost p: nat) returns (v: nat)
    requires p + 8 <= |bits| && high == At(bits, p, 4) && low == At(bits, p + 4, 4)
    ensures v == At(bits, p, 8)
  {
    ghost var a, b := bits[p..p + 4], bits[p + 4..p + 8];
    ShlValue(a, b);
    ShlNibble(high, |b|);
    assert a + b == bits[p..p + 8];
    v := high * 16 + low;
  }

  /** The first four words of a packet. */
  datatype Header = Header(line: nat, did: nat, sdid: nat, count: nat, firstBits: nat)

  method ReadHeader(reader: BigEndianWordReader) returns (r: Result<Header>)
    requires reader.Valid()
    modifies reader
    ensures old(reader.offset) + 8 > |reader.bytes| ==> r == Err(OutOfBounds)
    ensures old(reader.offset) + 8 <= |reader.bytes| ==>
      var bits, p := reader.Bits(), 8 * old(reader.offset);
      && reader.Valid() && reader.offset == old(reader.offset) + 8
      && r == Ok(Header(At(bits, p + 1, 11), At(bits, p + 34, 8), At(bits, p + 44, 8), At(bits, p + 54, 8), At(bits, p + 62, 2)))
  {
    ghost var bits, p := reader.Bits(), 8 * reader.offset;
    var word0 := reader.Read();
    if word0.Err? {
      return Err(word0.error);
    }
    var word1 := reader.Read();
    if word1.Err? {
      return Err(word1.error);
    }
    var word2 := reader.Read();
    if word2.Err? {
      return Err(word2.error);
    }
    var word3 := reader.Read();
    if word3.Err? {
      return Err(word3.error);
    }
    r := HeaderFields(word0.value, word2.value, word3.value, bits, p);
  }

  method HeaderFields(word0: nat, word2: nat, word3: nat, ghost bits: Bits, ghost p: nat) returns (r: Result<Header>)
    requires p + 64 <= |bits|
    requires word0 == At(bits, p, 16) && word2 == At(bits, p + 32, 16) && word3 == At(bits, p + 48, 16)
    ensures r == Ok(Header(At(bits, p + 1, 11), At(bits, p + 34, 8), At(bits, p + 44, 8), At(bits, p + 54, 8), At(bits, p + 62, 2)))
  {
    var line := Field(word0, 16, 4, 11, bits, p);
    var did := Field(word2, 16, 6, 8, bits, p + 32);
    var high := Field(word2, 16, 0, 4, bits, p + 32);
    var low := Field(word3, 16, 12, 4, bits, p + 48);
    var sdid := JoinNibbles(high, low, bits, p + 44);
    var count := Field(word3, 16, 2, 8, bits, p + 48);
    var firstBits := Field(word3, 16, 0, 2, bits, p + 48);
    return Ok(Header(line, did, sdid, count, firstBits));
  }

  /** The low eight bits of the next user data word. */
  method ReadUserWord(unpacker: UdwUnpacker) returns (r: Result<nat>)
    requires unpacker.Valid()
    modifies unpacker, unpacker.reader
    ensures var p, available := old(unpacker.Position()), 16 * (|unpacker.reader.bytes| / 2);
      if p + 10 <= available
      then unpacker.Valid() && unpacker.Position() == p + 10 && r == Ok(At(unpacker.reader.Bits(), p + 2, 8))
      else r == Err(OutOfBounds)
  {
    ghost var p := unpacker.Position();
    r := unpacker.Read();
    if r.Ok? {
      var low := Field(r.value, 10, 0, 8, unpacker.reader.Bits(), p);
      r := Ok(low);
    }
  }

  /** The user data words, and the checksum, which is thrown away. */
  method ReadUserWords(unpacker: UdwUnpacker, count: nat) returns (r: Result<seq<nat>>)
    requires unpacker.Valid()
    modifies unpacker, unpacker.reader
    ensures var bits, p, available := unpacker.reader.Bits(), old(unpacker.Position()), 16 * (|unpacker.reader.bytes| / 2);
      if p + 10 * count + 10 <= available
      then unpacker.Valid() && unpacker.Position() == p + 10 * count + 10 && r == Ok(UserWords(bits, p, count))
      else r == Err(OutOfBounds)
  {
    var udw: seq<nat> := [];
    for word := 0 to count
      invariant unpacker.Valid() && unpacker.Position() == old(unpacker.Position()) + 10 * word
      invariant unpacker.Position() <= |unpacker.reader.Bits()|
      invariant udw == UserWords(unpacker.reader.Bits(), old(unpacker.Position()), word)
      invariant word > 0 ==> unpacker.Position() <= 16 * (|unpacker.reader.bytes| / 2)
    {
      var next := ReadUserWord(unpacker);
      if next.Err? {
        return Err(next.error);
      }
      OneMoreWord(udw, next.value, unpacker.reader.Bits(), old(unpacker.Position()), word);
      udw := udw + [next.value];
    }
    var checksum := unpacker.Read();
    if checksum.Err? {
      return Err(checksum.error);
    }
    return Ok(udw);
  }

  lemma OneMoreWord(udw: seq<nat>, word: nat, bits: Bits, p: nat, n: nat)
    requires p + 10 * n + 10 <= |bits| && udw == UserWords(bits, p, n) && word == At(bits, p + 10 * n + 2, 8)
    ensures udw + [word] == UserWords(bits, p, n + 1)
  {}

  lemma EndWord(start: nat, count: nat, offset: nat, bitCount: nat)
    requires offset % 2 == 0 && bitCount < 16 && 8 * offset == 16 * start + 72 + 10 * count + bitCount
    ensures offset / 2 == start + WordsOf(count)
  {}

  lemma EnoughWords(start: nat, count: nat, bytes: nat)
    ensures 16 * start + 72 + 10 * count <= 16 * (bytes / 2) <==> 16 * (start + WordsOf(count)) <= 8 * bytes
  {}

  /** The header, the user data words and the checksum of a packet. */
  method ParseAligned(reader: BigEndianWordReader) returns (r: Result<AncElement>)
    requires reader.Valid()
    modifies reader
    ensures match ElementFrom(reader.Bits(), old(reader.WordOffset()))
      case Err(e) => r == Err(e)
      case Ok((element, end)) => r == Ok(element) && reader.Valid() && reader.WordOffset() == end
  {
    ghost var start, bits := reader.WordOffset(), reader.Bits();
    assert 8 * reader.offset == 16 * start;
    var header := ReadHeader(reader);
    if header.Err? {
      return Err(header.error);
    }
    var h := header.value;
    var unpacker := new UdwUnpacker(reader, h.firstBits, 2);
    EnoughWords(start, h.count, |reader.bytes|);
    var udw := ReadUserWords(unpacker, h.count);
    if udw.Err? {
      return Err(udw.error);
    }
    EndWord(start, h.count, reader.offset, unpacker.bitCount);
    return Ok(AncElement(h.line, h.did, h.sdid, h.count, udw.value));
  }

  /** One packet, after the word that pads an even offset. */
  method ParseElement(reader: BigEndianWordReader) returns (r: Result<AncElement>)
    requires reader.Valid()
    modifies reader
    ensures match ElementFrom(reader.Bits(), Aligned(old(reader.WordOffset())))
      case Err(e) => r == Err(e)
      case Ok((element, end)) => r == Ok(element) && reader.Valid() && reader.WordOffset() == end
  {
    if reader.WordOffset() % 2 == 0 {
      var pad := reader.Read();
      if pad.Err? {
        return Err(pad.error);
      }
    }
    assert reader.WordOffset() == Aligned(old(reader.WordOffset()));
    r := ParseAligned(reader);
  }

  /** Elements already parsed, and what the rest of the payload says. */
  ghost predicate OnTheWay(bits: Bits, elements: seq<AncElement>, w: nat, left: nat, all: Result<seq<AncElement>>) {
    Prefixed(elements, ElementsFrom(bits, w, left)) == all
  }

  lemma NextElement(bits: Bits, elements: seq<AncElement>, w: nat, left: nat, all: Result<seq<AncElement>>)
    requires left > 0 && OnTheWay(bits, elements, w, left, all)
    ensures match ElementFrom(bits, Aligned(w))
      case Err(e) => all == Err(e)
      case Ok((element, end)) => OnTheWay(bits, elements + [element], end, left - 1, all)
  {
    match ElementFrom(bits, Aligned(w))
    case Err(_) =>
    case Ok((element, end)) => PrefixedTwice(elements, [element], ElementsFrom(bits, end, left - 1));
  }

  lemma NoElementLeft(bits: Bits, elements: seq<AncElement>, w: nat, all: Result<seq<AncElement>>)
    requires OnTheWay(bits, elements, w, 0, all)
    ensures all == Ok(elements)
  {
    assert elements + [] == elements;
  }

  /** One turn of the parser's loop. */
  method ParseNext(reader: BigEndianWordReader, elements: seq<AncElement>, ghost left: nat, ghost all: Result<seq<AncElement>>)
    returns (r: Result<seq<AncElement>>)
    requires reader.Valid() && left > 0
    requires OnTheWay(reader.Bits(), elements, reader.WordOffset(), left, all)
    modifies reader
    ensures r.Err? ==> r == all
    ensures r.Ok? ==> reader.Valid() && OnTheWay(reader.Bits(), r.value, reader.WordOffset(), left - 1, all)
  {
    NextElement(reader.Bits(), elements, reader.WordOffset(), left, all);
    var element := ParseElement(reader);
    if element.Err? {
      return Err(element.error);
    }
    return Ok(elements + [element.value]);
  }

  method ParseElements(reader: BigEndianWordReader, ancCount: nat) returns (r: Result<seq<AncElement>>)
    requires reader.Valid()
    modifies reader
    ensures r == ElementsFrom(reader.Bits(), old(reader.WordOffset()), ancCount)
  {
    ghost var all := ElementsFrom(reader.Bits(), reader.WordOffset(), ancCount);
    ghost var left := ancCount;
    r := Ok([]);
    PrefixedNone(all);
    for i := 0 to ancCount
      invariant reader.Valid() && r.Ok? && left == ancCount - i
      invariant OnTheWay(reader.Bits(), r.value, reader.WordOffset(), left, all)
    {
      r := ParseNext(reader, r.value, left, all);
      if r.Err? {
        return;
      }
      left := left - 1;
    }
    NoElementLeft(reader.Bits(), r.value, reader.WordOffset(), all);
  }

  /** The parser of the data probe. */
  method ParseAncFrame(payload: seq<Byte>) returns (r: Result<AncFrame>)
    ensures r == FrameOf(payload)
  {
    if |payload| < HEADER_BYTES {
      return Err(PayloadTooSmall);
    }
    var reader := new BigEndianWordReader(payload);
    var length := reader.Read();
    var word1 := reader.Read();
    var word2 := reader.Read();
    var ancCount := Field(word1.value, 16, 8, 8, FromBytes(payload), 16);
    if length.value + HEADER_BYTES > |payload| {
      return Err(LengthTooLarge);
    }
    var elements := ParseElements(reader, ancCount);
    if elements.Err? {
      return Err(elements.error);
    }
    return Ok(AncFrame(length.value, ancCount, elements.value));
  }

  lemma PrefixedNone(r: Result<seq<AncElement>>)
    ensures Prefixed([], r) == r
  {
    if r.Ok? {
      assert [] + r.value == r.value;
    }
  }

  lemma PrefixedTwice(a: seq<AncElement>, b: seq<AncElement>, r: Result<seq<AncElement>>)
    ensures Prefixed(a, Prefixed(b, r)) == Prefixed(a + b, r)
  {
    if r.Ok? {
      assert a + (b + r.value) == a + b + r.value;
    }
  }
}
