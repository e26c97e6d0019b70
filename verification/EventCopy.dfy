/** Copies between private bytes and the words of the shared mapping. */
module EventCopy {
  import opened MachineWords
  import opened EventWords

  function Min(a: nat, b: nat): nat { if a <= b then a else b }

  /** `before` with `part` laid over it from position `at`. */
  function Overlay<T>(before: seq<T>, at: nat, part: seq<T>): (after: seq<T>)
    requires at + |part| <= |before|
    ensures |after| == |before|
  {
    before[..at] + part + before[at + |part|..]
  }

  lemma OverlayWhole<T>(before: seq<T>, part: seq<T>)
    requires |part| == |before|
    ensures Overlay(before, 0, part) == part
  {}

  lemma OverlayPrefix<T>(before: seq<T>, at: nat, part: seq<T>, k: nat)
    requires k <= at && at + |part| <= |before|
    ensures Overlay(before, at, part)[..k] == before[..k]
  {}

  lemma OverlayExtends<T>(before: seq<T>, at: nat, part: seq<T>, x: T)
    requires at + |part| < |before|
    ensures Overlay(before, at, part)[at + |part| := x] == Overlay(before, at, part + [x])
  {}

  lemma PackExtends(source: seq<byte>, m: nat, n: nat)
    requires 1 <= n <= 8 && 8 * m + n <= |source|
    ensures Pack(source[..8 * m + n]) == Pack(source[..8 * m]) + [PackWord(source[8 * m..8 * m + n])]
    ensures |Pack(source[..8 * m])| == m && PackWord(source[8 * m..8 * m + n]) < WORD_LIMIT
  {
    var piece := source[8 * m..8 * m + n];
    PackWordFits(piece);
    assert Pack(piece) == [PackWord(piece)];
    PackAppends(source[..8 * m], piece);
    assert source[..8 * m] + piece == source[..8 * m + n];
  }

  lemma WordStep(size: nat, m: nat, n: nat)
    requires 8 * m + n <= size && 1 <= n <= 8 && (n == 8 || 8 * m + n == size)
    ensures WordCount(8 * m) == m < WordCount(size) && WordCount(8 * m + n) == m + 1
  {}

  lemma StoredOneMore(before: seq<Word>, at: nat, source: seq<byte>, m: nat, n: nat)
    requires 1 <= n <= 8 && 8 * m + n <= |source| && at + m < |before|
    ensures |Pack(source[..8 * m])| == m && |Pack(source[..8 * m + n])| == m + 1
    ensures PackWord(source[8 * m..8 * m + n]) < WORD_LIMIT
    ensures Overlay(before, at, Pack(source[..8 * m]))[at + m := PackWord(source[8 * m..8 * m + n])]
         == Overlay(before, at, Pack(source[..8 * m + n]))
  {
    PackExtends(source, m, n);
    OverlayExtends(before, at, Pack(source[..8 * m]), PackWord(source[8 * m..8 * m + n]));
  }

  /** `mapping` holds the words of the first `done` bytes of `source` from position `at` on. */
  predicate StoredUpTo(mapping: seq<Word>, before: seq<Word>, at: nat, source: seq<byte>, done: nat) {
    && done <= |source| && at + WordCount(done) <= |before|
    && mapping == Overlay(before, at, Pack(source[..done]))
  }

  /** Copies `size` private bytes into the mapping, word by word. */
  method StoreBytes(mapping: array<Word>, at: nat, source: seq<byte>, size: nat)
    requires size <= |source| && at + WordCount(size) <= mapping.Length
    modifies mapping
    ensures mapping[..] == Overlay(old(mapping[..]), at, Pack(source[..size]))
  {
    var offset := 0;
    ghost var before, m: nat, done: nat := mapping[..], 0, 0;
    assert Pack(source[..0]) == [];
    while offset < size
      invariant offset == 8 * m && offset < size + 8 && done == Min(offset, size)
      invariant StoredUpTo(mapping[..], before, at, source, done)
    {
      var n := Min(8, size - offset);
      WordStep(size, m, n);
      assert offset / 8 == m;
      StoreWord(mapping, at, offset / 8, source[offset..offset + n], before, source);
      offset, m, done := offset + 8, m + 1, 8 * m + n;
    }
  }

  /** Stores one word made of up to eight bytes of the source. */
  method StoreWord(mapping: array<Word>, at: nat, m: nat, bytes: seq<byte>, ghost before: seq<Word>, ghost source: seq<byte>)
    requires 1 <= |bytes| <= 8 && 8 * m + |bytes| <= |source| && bytes == source[8 * m..8 * m + |bytes|]
    requires at + m < mapping.Length == |before|
    requires StoredUpTo(mapping[..], before, at, source, 8 * m)
    modifies mapping
    ensures StoredUpTo(mapping[..], before, at, source, 8 * m + |bytes|)
  {
    StoredOneMore(before, at, source, m, |bytes|);
    var word: Word := PackWord(bytes);
    ghost var previous := mapping[..];
    mapping[at + m] := word;
    assert mapping[..] == previous[at + m := word];
  }

  /** `bytes` is a private buffer into which the first `done` bytes of `words` were copied. */
  predicate LoadedUpTo(bytes: seq<byte>, before: seq<byte>, words: seq<Word>, done: nat) {
    && WordCount(done) <= |words| && done <= |before|
    && bytes == Overlay(before, 0, Unpack(words, done))
  }

  /** Copies `size` bytes out of the mapping, word by word. */
  method LoadBytes(destination: array<byte>, mapping: array<Word>, at: nat, size: nat)
    requires size <= destination.Length && at + WordCount(size) <= mapping.Length
    requires destination as object != mapping
    modifies destination
    ensures destination[..] == Overlay(old(destination[..]), 0, Unpack(old(mapping[at..]), size))
  {
    var offset := 0;
    ghost var before, words, m: nat, done: nat := destination[..], mapping[at..], 0, 0;
    while offset < size
      invariant offset == 8 * m && offset < size + 8 && done == Min(offset, size)
      invariant LoadedUpTo(destination[..], before, words, done)
    {
      var n := Min(8, size - offset);
      WordStep(size, m, n);
      assert offset / 8 == m && mapping[at + m] == old(mapping[at + m]) == words[m];
      CopyWord(destination, offset, mapping[at + offset / 8], n, before, words, m);
      offset, m, done := offset + 8, m + 1, offset + n;
    }
  }

  /** The copy of the first `n` bytes of one word. */
  method CopyWord(destination: array<byte>, at: nat, word: nat, n: nat,
                  ghost before: seq<byte>, ghost words: seq<Word>, ghost m: nat)
    requires at + n <= destination.Length && at == 8 * m && 1 <= n <= 8
    requires m < |words| && word == words[m] && |before| == destination.Length
    requires LoadedUpTo(destination[..], before, words, at)
    modifies destination
    ensures LoadedUpTo(destination[..], before, words, at + n)
  {
    LoadedOneMore(before, words, m, n);
    ghost var loaded, bytes := destination[..], BytesOf(word, n);
    CopyBytes(destination, at, BytesOf(word, n));
    assert destination[..] == Overlay(loaded, at, bytes);
  }

  method CopyBytes(destination: array<byte>, at: nat, bytes: seq<byte>)
    requires at + |bytes| <= destination.Length
    modifies destination
    ensures destination[..] == Overlay(old(destination[..]), at, bytes)
  {
    forall k | 0 <= k < |bytes| {
      destination[at + k] := bytes[k];
    }
  }

  lemma LoadedOneMore(before: seq<byte>, words: seq<Word>, m: nat, n: nat)
    requires 1 <= n <= 8 && m < |words| && 8 * m + n <= |before|
    ensures WordCount(8 * m) <= |words| && WordCount(8 * m + n) <= |words|
    ensures Overlay(Overlay(before, 0, Unpack(words, 8 * m)), 8 * m, BytesOf(words[m], n))
         == Overlay(before, 0, Unpack(words, 8 * m + n))
  {
    UnpackAppends(words, m, n);
    OverlayTwice(before, Unpack(words, 8 * m), BytesOf(words[m], n));
  }

  lemma OverlayTwice<T>(before: seq<T>, first: seq<T>, second: seq<T>)
    requires |first| + |second| <= |before|
    ensures Overlay(Overlay(before, 0, first), |first|, second) == Overlay(before, 0, first + second)
  {}

  lemma {:induction false} UnpackAppends(words: seq<Word>, m: nat, n: nat)
    requires 1 <= n <= 8 && m < |words|
    ensures WordCount(8 * m + n) == m + 1 && WordCount(8 * m) == m
    ensures Unpack(words, 8 * m + n) == Unpack(words, 8 * m) + BytesOf(words[m], n)
    decreases m
  {
    if m > 0 {
      UnpackAppends(words[1..], m - 1, n);
      assert m > 1 ==> Unpack(words, 8 * m) == BytesOf(words[0], 8) + Unpack(words[1..], 8 * m - 8);
      assert m == 1 ==> Unpack(words, 8) == BytesOf(words[0], 8) && Unpack(words[1..], 0) == [];
      assert words[m] == words[1..][m - 1];
    }
  }
}
