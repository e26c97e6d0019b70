/** Bit strings, most significant bit first, and the numbers they stand for. Halving is written
    by repeated subtraction so that facts about bits need only linear arithmetic. */
module AncBits {
  import Modular

  type Bits = seq<bool>
  type Byte = x: nat | x < 256

  function Pow2(n: nat): (p: nat)
    ensures p >= 1
  {
    if n == 0 then 1 else 2 * Pow2(n - 1)
  }

  function Digit(b: bool): nat {
    if b then 1 else 0
  }

  function Half(v: nat): (h: nat)
    ensures v == 2 * h || v == 2 * h + 1
  {
    if v < 2 then 0 else 1 + Half(v - 2)
  }

  predicate Odd(v: nat) {
    v != 2 * Half(v)
  }

  function Value(bits: Bits): (v: nat)
    ensures v < Pow2(|bits|)
  {
    if bits == [] then 0 else 2 * Value(bits[..|bits| - 1]) + Digit(bits[|bits| - 1])
  }

  lemma Snoc(bits: Bits, b: bool)
    ensures Value(bits + [b]) == 2 * Value(bits) + Digit(b)
    ensures Half(Value(bits + [b])) == Value(bits) && Odd(Value(bits + [b])) == b
  {
    assert (bits + [b])[..|bits|] == bits;
  }

  /** The lowest n bits of a number. */
  function Digits(v: nat, n: nat): (bits: Bits)
    ensures |bits| == n
  {
    if n == 0 then [] else Digits(Half(v), n - 1) + [Odd(v)]
  }

  lemma {:induction false} DigitsValue(v: nat, n: nat)
    requires v < Pow2(n)
    ensures Value(Digits(v, n)) == v
  {
    if n > 0 {
      DigitsValue(Half(v), n - 1);
      Snoc(Digits(Half(v), n - 1), Odd(v));
    }
  }

  /** Equal numbers of the same width have equal bits. */
  lemma {:induction false} ValueInjective(a: Bits, b: Bits)
    requires |a| == |b| && Value(a) == Value(b)
    ensures a == b
    decreases |a|
  {
    if a != [] {
      var n := |a| - 1;
      assert a == a[..n] + [a[n]] && b == b[..n] + [b[n]];
      Snoc(a[..n], a[n]);
      Snoc(b[..n], b[n]);
      ValueInjective(a[..n], b[..n]);
    }
  }

  // ---- shifting, masking, joining --------------------------------------------------------------

  /** A number shifted right. */
  function Shr(v: nat, k: nat): (s: nat) {
    if k == 0 then v else Half(Shr(v, k - 1))
  }

  /** The lowest k bits of a number, as a number. */
  function Low(v: nat, k: nat): (m: nat) {
    if k == 0 then 0 else 2 * Low(Half(v), k - 1) + Digit(Odd(v))
  }

  /** A number shifted left. */
  function Shl(v: nat, k: nat): (s: nat) {
    if k == 0 then v else 2 * Shl(v, k - 1)
  }

  lemma {:induction false} ShlIsProduct(v: nat, k: nat)
    ensures Shl(v, k) == v * Pow2(k)
  {
    if k > 0 {
      ShlIsProduct(v, k - 1);
      Twice(v, Pow2(k - 1));
    }
  }

  lemma Twice(a: nat, p: nat)
    ensures a * (2 * p) == 2 * (a * p)
  {}

  lemma {:induction false} LowBelow(v: nat, k: nat)
    ensures Low(v, k) < Pow2(k)
  {
    if k > 0 {
      LowBelow(Half(v), k - 1);
    }
  }

  lemma {:induction false} HalfOfShr(v: nat, k: nat)
    ensures Shr(Half(v), k) == Half(Shr(v, k))
  {
    if k > 0 {
      HalfOfShr(v, k - 1);
    }
  }

  lemma {:induction false} ShlLow(v: nat, k: nat)
    ensures v == Shl(Shr(v, k), k) + Low(v, k)
    decreases k
  {
    if k > 0 {
      ShlLow(Half(v), k - 1);
      HalfOfShr(v, k - 1);
    }
  }

  /** Shifting right is division, masking the remainder. */
  lemma ShiftIsDivision(v: nat, k: nat)
    ensures Shr(v, k) == v / Pow2(k) && Low(v, k) == v % Pow2(k)
  {
    ShlLow(v, k);
    LowBelow(v, k);
    ShlIsProduct(Shr(v, k), k);
    Decomposed(v, Pow2(k), Shr(v, k), Low(v, k));
  }

  lemma Decomposed(v: nat, p: nat, high: nat, low: nat)
    requires p > 0 && v == high * p + low && low < p
    ensures high == v / p && low == v % p
  {
    Modular.Unique(v, p, high, low);
  }

  /** Shifting right drops the last bits, masking keeps them. */
  lemma {:induction false} ShrValue(bits: Bits, k: nat)
    requires k <= |bits|
    ensures Shr(Value(bits), k) == Value(bits[..|bits| - k])
    decreases k
  {
    if k == 0 {
      assert bits[..|bits|] == bits;
    } else {
      ShrValue(bits, k - 1);
      var kept := bits[..|bits| - k + 1];
      assert kept == bits[..|bits| - k] + [kept[|kept| - 1]];
      Snoc(bits[..|bits| - k], kept[|kept| - 1]);
    }
  }

  lemma {:induction false} LowValue(bits: Bits, k: nat)
    requires k <= |bits|
    ensures Low(Value(bits), k) == Value(bits[|bits| - k..])
    decreases k
  {
    if k > 0 {
      var n := |bits| - 1;
      assert bits == bits[..n] + [bits[n]];
      Snoc(bits[..n], bits[n]);
      LowValue(bits[..n], k - 1);
      assert bits[|bits| - k..] == bits[..n][n - (k - 1)..] + [bits[n]];
      Snoc(bits[..n][n - (k - 1)..], bits[n]);
    }
  }

  lemma {:induction false} ShlValue(a: Bits, b: Bits)
    ensures Value(a + b) == Shl(Value(a), |b|) + Value(b)
    decreases |b|
  {
    if b == [] {
      assert a + b == a;
    } else {
      var n := |b| - 1;
      ShlValue(a, b[..n]);
      assert a + b == (a + b[..n]) + [b[n]] && b == b[..n] + [b[n]];
      Snoc(a + b[..n], b[n]);
      Snoc(b[..n], b[n]);
    }
  }

  // ---- bytes -------------------------------------------------------------------------------------

  function Octet(b: Byte): (bits: Bits)
    ensures |bits| == 8
  {
    seq(8, k requires 0 <= k < 8 => Odd(Shr(b, 7 - k)))
  }

  lemma {:induction false} OctetPrefix(b: Byte, k: nat)
    requires 1 <= k <= 8
    ensures Value(Octet(b)[..k]) == Shr(b, 8 - k)
    decreases k
  {
    var o := Octet(b);
    assert o[..k] == o[..k - 1] + [o[k - 1]];
    Snoc(o[..k - 1], o[k - 1]);
    if k == 1 {
      TopBit(b, 7);
    } else {
      OctetPrefix(b, k - 1);
    }
  }

  lemma TopBit(b: Byte, k: nat)
    requires k == 7
    ensures Shr(b, k) < 2
  {
    ShrBelow(b, k, 8);
    assert Pow2(8 - k) == 2;
  }

  lemma {:induction false} ShrBelow(v: nat, k: nat, n: nat)
    requires k <= n && v < Pow2(n)
    ensures Shr(v, k) < Pow2(n - k)
  {
    if k > 0 {
      ShrBelow(v, k - 1, n);
    }
  }

  lemma OctetValue(b: Byte)
    ensures Value(Octet(b)) == b
  {
    OctetPrefix(b, 8);
    assert Octet(b)[..8] == Octet(b);
  }

  /** The bits of a byte string. */
  function FromBytes(bytes: seq<Byte>): (bits: Bits)
    ensures |bits| == 8 * |bytes|
  {
    if bytes == [] then [] else FromBytes(bytes[..|bytes| - 1]) + Octet(bytes[|bytes| - 1])
  }

  lemma {:induction false} ByteAt(bytes: seq<Byte>, i: nat)
    requires i < |bytes|
    ensures FromBytes(bytes)[8 * i..8 * i + 8] == Octet(bytes[i])
    decreases |bytes|
  {
    var n := |bytes| - 1;
    if i < n {
      ByteAt(bytes[..n], i);
      assert FromBytes(bytes)[8 * i..8 * i + 8] == FromBytes(bytes[..n])[8 * i..8 * i + 8];
    }
  }

  lemma PairAt(bytes: seq<Byte>, i: nat)
    requires i + 1 < |bytes|
    ensures FromBytes(bytes)[8 * i..8 * i + 16] == Octet(bytes[i]) + Octet(bytes[i + 1])
  {
    ByteAt(bytes, i);
    ByteAt(bytes, i + 1);
    TwoSlices(FromBytes(bytes), 8 * i, 8 * i + 8, 8 * i + 16);
  }

  lemma TwoSlices(bits: Bits, a: nat, b: nat, c: nat)
    requires a <= b <= c <= |bits|
    ensures bits[a..c] == bits[a..b] + bits[b..c]
  {}

  /** Two neighbouring bytes, the first more significant. */
  lemma WordAt(bytes: seq<Byte>, i: nat)
    requires i + 1 < |bytes|
    ensures var high: nat, low: nat := bytes[i], bytes[i + 1];
      Value(FromBytes(bytes)[8 * i..8 * i + 16]) == high * 256 + low
  {
    PairAt(bytes, i);
    TwoOctets(bytes[i], bytes[i + 1]);
  }

  lemma TwoOctets(a: Byte, b: Byte)
    ensures var high: nat, low: nat := a, b;
      Value(Octet(a) + Octet(b)) == high * 256 + low
  {
    ShlValue(Octet(a), Octet(b));
    OctetValue(a);
    OctetValue(b);
    ShlByte(a, |Octet(b)|);
  }

  lemma ShlWord(v: nat, k: nat)
    requires k == 16
    ensures Shl(v, k) == v * 65536
  {
    ShlIsProduct(v, k);
    assert Pow2(8) == 256 && Pow2(16) == 65536;
  }

  lemma ShlNibble(v: nat, k: nat)
    requires k == 4
    ensures Shl(v, k) == v * 16
  {
    ShlIsProduct(v, k);
    assert Pow2(4) == 16;
  }

  lemma ShlByte(v: nat, k: nat)
    requires k == 8
    ensures Shl(v, k) == v * 256
  {
    ShlIsProduct(v, k);
    assert Pow2(8) == 256;
  }

  /** The bytes of a bit string. */
  function ToBytes(bits: Bits): (bytes: seq<Byte>)
    ensures |bytes| == |bits| / 8
  {
    if |bits| < 8 then []
    else
      var n := |bits| - 8;
      ToBytes(bits[..n]) + [ByteOf(bits[n..])]
  }

  function ByteOf(bits: Bits): (b: Byte)
    requires |bits| == 8
    ensures b == Value(bits)
  {
    assert Pow2(8) == 256;
    Value(bits)
  }

  lemma ToFromBytes(bits: Bits)
    requires |bits| % 8 == 0
    ensures FromBytes(ToBytes(bits)) == bits
  {
    ToFromOctets(bits, |bits| / 8);
  }

  lemma {:induction false} ToFromOctets(bits: Bits, k: nat)
    requires |bits| == 8 * k
    ensures FromBytes(ToBytes(bits)) == bits
    decreases k
  {
    if k > 0 {
      var earlier, last := bits[..8 * k - 8], bits[8 * k - 8..];
      ToFromOctets(earlier, k - 1);
      LastByte(bits, earlier, last);
    }
  }

  lemma LastByte(bits: Bits, earlier: Bits, last: Bits)
    requires |last| == 8 && bits == earlier + last
    ensures FromBytes(ToBytes(bits)) == FromBytes(ToBytes(earlier)) + last
  {
    assert bits[..|bits| - 8] == earlier && bits[|bits| - 8..] == last;
    FromBytesSnoc(ToBytes(earlier), ByteOf(last));
    OctetOfByte(last);
  }

  lemma FromBytesSnoc(bytes: seq<Byte>, b: Byte)
    ensures FromBytes(bytes + [b]) == FromBytes(bytes) + Octet(b)
  {
    assert (bytes + [b])[..|bytes|] == bytes;
  }

  lemma OctetOfByte(bits: Bits)
    requires |bits| == 8
    ensures Octet(ByteOf(bits)) == bits
  {
    OctetValue(ByteOf(bits));
    ValueInjective(Octet(ByteOf(bits)), bits);
  }

  lemma {:induction false} FromBytesConcat(a: seq<Byte>, b: seq<Byte>)
    ensures FromBytes(a + b) == FromBytes(a) + FromBytes(b)
    decreases |b|
  {
    if b == [] {
      assert a + b == a;
    } else {
      var n := |b| - 1;
      FromBytesConcat(a, b[..n]);
      assert (a + b)[..|a + b| - 1] == a + b[..n];
    }
  }
}
