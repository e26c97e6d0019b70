/** Bytes, 64-bit words and the metadata record of one event entry.

    Shared memory is written and read one 64-bit word at a time. A word is the
    little-endian image of up to eight bytes; missing bytes of a final partial
    word are zero. An entry is stored as its 64 metadata words followed, without a
    gap, by its payload words. */
module EventWords {
  import opened MachineWords
  type byte = b: int | 0 <= b < 256

  /** A 64-bit word of the mapping. */
  type Word = w: nat | w < 0x1_0000_0000_0000_0000
  const INFO_BYTES: nat := 512
  const INFO_WORDS: nat := 64
  const EVENT_HEADER_VERSION: nat := 1

  /** Number of words that cover `size` bytes. */
  function WordCount(size: nat): nat {
    (size + 7) / 8
  }

  function Pow256(n: nat): nat {
    if n == 0 then 1 else 256 * Pow256(n - 1)
  }

  /** The word whose memory image starts with `bytes` and is zero after them. */
  function PackWord(bytes: seq<byte>): nat {
    if bytes == [] then 0 else bytes[0] + 256 * PackWord(bytes[1..])
  }

  /** The first `n` bytes of the memory image of a word. */
  function BytesOf(word: nat, n: nat): (bytes: seq<byte>)
    ensures |bytes| == n
  {
    if n == 0 then [] else [word % 256] + BytesOf(word / 256, n - 1)
  }

  /** The words that a copy of `bytes` into shared memory stores. */
  function Pack(bytes: seq<byte>): (words: seq<Word>)
    ensures |words| == WordCount(|bytes|)
  {
    if bytes == [] then []
    else if |bytes| <= 8 then PackWordFits(bytes); [PackWord(bytes)]
    else PackWordFits(bytes[..8]); [PackWord(bytes[..8])] + Pack(bytes[8..])
  }

  /** Packing goes word by word, so a prefix of whole words can be packed on its own. */
  lemma {:induction false} PackAppends(whole: seq<byte>, tail: seq<byte>)
    requires |whole| % 8 == 0
    ensures Pack(whole + tail) == Pack(whole) + Pack(tail)
    decreases |whole|
  {
    var bytes := whole + tail;
    if whole == [] {
      assert bytes == tail;
    } else {
      assert bytes[..8] == whole[..8];
      assert bytes[8..] == whole[8..] + tail;
      PackAppends(whole[8..], tail);
      assert |whole| == 8 ==> whole[..8] == whole && whole[8..] == [];
      assert |bytes| == 8 ==> bytes[..8] == bytes && bytes[8..] == [];
    }
  }

  /** The first `size` bytes found in `words`. */
  function Unpack(words: seq<Word>, size: nat): (bytes: seq<byte>)
    requires WordCount(size) <= |words|
    ensures |bytes| == size
    decreases size
  {
    if size == 0 then []
    else if size <= 8 then BytesOf(words[0], size)
    else BytesOf(words[0], 8) + Unpack(words[1..], size - 8)
  }

  lemma {:induction false} BytesOfPackWord(bytes: seq<byte>)
    ensures BytesOf(PackWord(bytes), |bytes|) == bytes
  {
    if bytes != [] {
      var high := PackWord(bytes[1..]);
      BytesOfPackWord(bytes[1..]);
      LowByte(bytes[0], high);
      assert BytesOf(PackWord(bytes), |bytes|) == [bytes[0]] + BytesOf(high, |bytes| - 1);
    }
  }

  lemma LowByte(low: byte, high: nat)
    ensures (low + 256 * high) % 256 == low && (low + 256 * high) / 256 == high
  {}

  lemma ByteThenRest(bytes: seq<byte>, k: nat)
    requires k < |bytes|
    ensures PackWord(bytes[k..]) == bytes[k] + 256 * PackWord(bytes[k + 1..])
  {
    assert bytes[k..][1..] == bytes[k + 1..];
  }

  /** The little-endian number of four bytes. */
  function Number(a: nat, b: nat, c: nat, d: nat): nat {
    a + 256 * b + 65536 * c + 16777216 * d
  }

  lemma FourBytes(bytes: seq<byte>)
    requires |bytes| == 4
    ensures PackWord(bytes) == Number(bytes[0], bytes[1], bytes[2], bytes[3])
  {
    ByteThenRest(bytes, 0);
    ByteThenRest(bytes, 1);
    ByteThenRest(bytes, 2);
    ByteThenRest(bytes, 3);
    assert bytes[0..] == bytes && bytes[4..] == [];
  }

  lemma NumberUnique(a: byte, b: byte, c: byte, d: byte, e: byte, f: byte, g: byte, h: byte)
    ensures Number(a, b, c, d) == Number(e, f, g, h) <==> a == e && b == f && c == g && d == h
  {
    SameLowByte(a, Number(b, c, d, 0), e, Number(f, g, h, 0));
    SameLowByte(b, Number(c, d, 0, 0), f, Number(g, h, 0, 0));
    SameLowByte(c, d, g, h);
  }

  lemma SameLowByte(low: nat, high: nat, low': nat, high': nat)
    requires low < 256 && low' < 256
    ensures low + 256 * high == low' + 256 * high' <==> low == low' && high == high'
  {
    LowByte(low, high);
    LowByte(low', high');
  }

  /** A word packed from n bytes fits in n bytes, so at most eight bytes never overflow uint64. */
  lemma {:induction false} PackWordBound(bytes: seq<byte>)
    ensures PackWord(bytes) < Pow256(|bytes|)
  {
    if bytes != [] {
      PackWordBound(bytes[1..]);
    }
  }

  lemma PackWordFits(bytes: seq<byte>)
    requires |bytes| <= 8
    ensures PackWord(bytes) < WORD_LIMIT
  {
    PackWordBound(bytes);
    Pow256UpToEight(|bytes|);
  }

  lemma Pow256UpToEight(n: nat)
    requires n <= 8
    ensures Pow256(n) <= WORD_LIMIT
    decreases 8 - n
  {
    Pow256Eight();
    if n < 8 {
      Pow256UpToEight(n + 1);
    }
  }

  /** Loading what was stored gives the stored bytes back, for every length and whatever
      follows them in the slot. */
  lemma {:induction false} UnpackPack(bytes: seq<byte>, rest: seq<Word>)
    ensures Unpack(Pack(bytes) + rest, |bytes|) == bytes
    decreases |bytes|
  {
    var words := Pack(bytes) + rest;
    if bytes == [] {
    } else if |bytes| <= 8 {
      BytesOfPackWord(bytes);
    } else {
      BytesOfPackWord(bytes[..8]);
      UnpackPack(bytes[8..], rest);
      assert words[1..] == Pack(bytes[8..]) + rest;
      assert bytes == bytes[..8] + bytes[8..];
    }
  }

  /** Loading stops after the requested size, so only the words it covers matter. */
  lemma {:induction false} UnpackPrefix(a: seq<Word>, b: seq<Word>, size: nat)
    requires WordCount(size) <= |a| && WordCount(size) <= |b|
    requires forall w :: 0 <= w < WordCount(size) ==> a[w] == b[w]
    ensures Unpack(a, size) == Unpack(b, size)
    decreases size
  {
    if size > 8 {
      forall w | 0 <= w < WordCount(size - 8) ensures a[1..][w] == b[1..][w] {
        assert a[w + 1] == b[w + 1];
      }
      UnpackPrefix(a[1..], b[1..], size - 8);
    }
  }

  /** Packing what was loaded gives the stored words back. */
  lemma {:induction false} PackBytesOf(word: nat, n: nat)
    requires word < Pow256(n)
    ensures PackWord(BytesOf(word, n)) == word
  {
    if n > 0 {
      PackBytesOf(word / 256, n - 1);
    }
  }

  lemma {:induction false} PackUnpack(words: seq<Word>)
    ensures Pack(Unpack(words, 8 * |words|)) == words
    decreases |words|
  {
    if words != [] {
      assert Pow256(8) == WORD_LIMIT by { Pow256Eight(); }
      PackBytesOf(words[0], 8);
      PackUnpack(words[1..]);
      var bytes := Unpack(words, 8 * |words|);
      if |words| > 1 {
        assert bytes[..8] == BytesOf(words[0], 8);
        assert bytes[8..] == Unpack(words[1..], 8 * |words| - 8);
      }
    }
  }

  lemma Pow256Eight()
    ensures Pow256(8) == WORD_LIMIT && Pow256(4) == UINT32
  {
    assert Pow256(4) == 0x1_0000_0000;
    assert Pow256(5) == 256 * Pow256(4);
    assert Pow256(6) == 256 * Pow256(5);
    assert Pow256(7) == 256 * Pow256(6);
    assert Pow256(8) == 256 * Pow256(7);
  }

  /** The little-endian uint32 at a byte offset of a record. */
  function Uint32At(record: seq<byte>, offset: nat): nat
    requires offset + 4 <= |record|
  {
    PackWord(record[offset..offset + 4])
  }

  function Uint64At(record: seq<byte>, offset: nat): nat
    requires offset + 8 <= |record|
  {
    PackWord(record[offset..offset + 8])
  }

  /** The fields of a record seen through its packed words. */
  lemma FieldsOfWord(record: seq<byte>, w: nat)
    requires |record| == INFO_BYTES && w < INFO_WORDS
    ensures Pack(record)[w] == Uint64At(record, 8 * w)
    ensures Pack(record)[w] % UINT32 == Uint32At(record, 8 * w)
    ensures Pack(record)[w] / UINT32 == Uint32At(record, 8 * w + 4)
  {
    PackedWord(record, w);
    SplitAt(record, 8 * w);
  }

  lemma SplitAt(record: seq<byte>, at: nat)
    requires at + 8 <= |record|
    ensures PackWord(record[at..at + 8]) % UINT32 == PackWord(record[at..at + 4])
    ensures PackWord(record[at..at + 8]) / UINT32 == PackWord(record[at + 4..at + 8])
  {
    var eight := record[at..at + 8];
    SplitWord(eight);
    assert eight[..4] == record[at..at + 4];
    assert eight[4..] == record[at + 4..at + 8];
  }

  lemma {:induction false} PackedWord(record: seq<byte>, w: nat)
    requires 8 * w + 8 <= |record|
    ensures Pack(record)[w] == PackWord(record[8 * w..8 * w + 8])
    decreases w
  {
    if w > 0 {
      PackedWord(record[8..], w - 1);
      SliceOfDrop(record, 8, 8 * w - 8, 8 * w);
    } else if |record| == 8 {
      assert record[0..8] == record;
    }
  }

  lemma SliceOfDrop<T>(s: seq<T>, k: nat, a: nat, b: nat)
    requires a <= b && k + b <= |s|
    ensures s[k..][a..b] == s[k + a..k + b]
  {}

  lemma SplitWord(eight: seq<byte>)
    requires |eight| == 8
    ensures PackWord(eight) % UINT32 == PackWord(eight[..4])
    ensures PackWord(eight) / UINT32 == PackWord(eight[4..])
  {
    PackWordConcat(eight[..4], eight[4..]);
    assert eight[..4] + eight[4..] == eight;
    PackWordBound(eight[..4]);
    Pow256Eight();
    LowHigh(PackWord(eight), PackWord(eight[..4]), PackWord(eight[4..]));
  }

  lemma LowHigh(word: nat, low: nat, high: nat)
    requires word == low + UINT32 * high && low < UINT32
    ensures word % UINT32 == low && word / UINT32 == high
  {}

  lemma {:induction false} PackWordConcat(a: seq<byte>, b: seq<byte>)
    ensures PackWord(a + b) == PackWord(a) + Pow256(|a|) * PackWord(b)
  {
    if a == [] {
      assert a + b == b;
    } else {
      assert (a + b)[1..] == a[1..] + b;
      PackWordConcat(a[1..], b);
      assert 256 * (Pow256(|a| - 1) * PackWord(b)) == Pow256(|a|) * PackWord(b);
    }
  }

  // ---- metadata -------------------------------------------------------------

  const UINT32: nat := 0x1_0000_0000

  function Version(info: seq<Word>): nat requires |info| == INFO_WORDS { info[0] % UINT32 }

  function InfoSize(info: seq<Word>): nat requires |info| == INFO_WORDS { info[0] / UINT32 }

  function Timestamp(info: seq<Word>): nat requires |info| == INFO_WORDS { info[1] }

  function Flags(info: seq<Word>): nat requires |info| == INFO_WORDS { info[2] % UINT32 }

  function EventSize(info: seq<Word>): nat requires |info| == INFO_WORDS { info[35] % UINT32 }

  /** The tests a reader applies to a stable copy and a writer to an entry before publication. */
  predicate Acceptable(info: seq<Word>, capacity: nat)
    requires |info| == INFO_WORDS
  {
    && Version(info) == EVENT_HEADER_VERSION
    && InfoSize(info) == INFO_BYTES
    && Flags(info) == 0
    && EventSize(info) <= capacity
  }

  /** Words reserved for metadata and payload in each slot. */
  function SlotWords(capacity: nat): nat {
    INFO_WORDS + WordCount(capacity)
  }

  /** How many words a reader copies once it has read `info`: an event size beyond the
      capacity is not followed. */
  function Extent(info: seq<Word>, capacity: nat): (n: nat)
    requires |info| == INFO_WORDS
    ensures INFO_WORDS <= n <= SlotWords(capacity)
  {
    INFO_WORDS + if EventSize(info) <= capacity then WordCount(EventSize(info)) else 0
  }

  /** A published entry: its metadata record and exactly the payload bytes it announces. */
  datatype Entry = Entry(info: seq<Word>, payload: seq<byte>) {
    predicate Valid(capacity: nat) {
      && |info| == INFO_WORDS
      && Acceptable(info, capacity)
      && |payload| == EventSize(info)
    }

    function Stream(): (words: seq<Word>)
      ensures |words| == |info| + WordCount(|payload|)
    {
      info + Pack(payload)
    }

    function Stamp(): nat
      requires |info| == INFO_WORDS
    {
      Timestamp(info)
    }
  }

  /** What an entry's stream gives to a reader: its metadata, the extent to copy and its bytes. */
  lemma StreamDetermines(e: Entry, capacity: nat)
    requires e.Valid(capacity)
    ensures INFO_WORDS <= |e.Stream()| <= SlotWords(capacity)
    ensures e.Stream()[..INFO_WORDS] == e.info
    ensures Extent(e.info, capacity) == |e.Stream()|
    ensures Unpack(e.Stream()[INFO_WORDS..], EventSize(e.info)) == e.payload
  {
    UnpackPack(e.payload, []);
    assert e.Stream()[INFO_WORDS..] == Pack(e.payload) + [];
  }
}
