/** Conversion between sample or grain indices and TAI timestamps at a rational edit rate. */
module IndexConversion {
  import opened MachineWords
  import Modular

  const TWO_63: int := 0x8000_0000_0000_0000
  const TWO_127: int := 0x8000_0000_0000_0000_0000_0000_0000_0000
  const SECOND: int := 1_000_000_000

  datatype Rational = Rational(numerator: int, denominator: int)

  /** Division that truncates toward zero. */
  function Quotient(a: int, b: int): (q: int)
    requires b != 0
    ensures a >= 0 && b > 0 ==> q == a / b
  {
    if a >= 0 then (if b > 0 then a / b else -(a / -b))
    else if b > 0 then -(-a / b) else -a / -b
  }

  /** Conversion of a wide integer to an unsigned or signed 64-bit one. */
  function Unsigned(x: int): (u: nat)
    ensures u < WORD_LIMIT
    ensures 0 <= x < WORD_LIMIT ==> u == x
  {
    x % WORD_LIMIT
  }

  function Signed(x: int): (s: int)
    ensures -TWO_63 <= s < TWO_63
    ensures -TWO_63 <= x < TWO_63 ==> s == x
  {
    if x % WORD_LIMIT < TWO_63 then x % WORD_LIMIT else x % WORD_LIMIT - WORD_LIMIT
  }

  /** Both differ from the wide integer by a multiple of 2^64. */
  lemma CutDown(x: int)
    ensures (x - Unsigned(x)) % WORD_LIMIT == 0 && (x - Signed(x)) % WORD_LIMIT == 0
  {}

  function TimestampToIndex(rate: Rational, timestamp: int): nat {
    if rate.denominator != 0 && rate.numerator != 0 then
      Unsigned(Quotient(timestamp * rate.numerator + 500_000_000 * rate.denominator, SECOND * rate.denominator))
    else UNDEFINED
  }

  function IndexToTimestamp(rate: Rational, index: nat): int {
    if rate.denominator != 0 && rate.numerator != 0 then
      Signed(Quotient(index * rate.denominator * SECOND + Quotient(rate.numerator, 2), rate.numerator))
    else 0
  }

  /** A rate with a zero part converts every time to the reserved index and every index to time zero. */
  lemma ZeroParts(rate: Rational, timestamp: int, index: nat)
    requires rate.numerator == 0 || rate.denominator == 0
    ensures TimestampToIndex(rate, timestamp) == UNDEFINED && IndexToTimestamp(rate, index) == 0
  {}

  // ---- rounding without machine widths ----------------------------------------------------------

  /** A rate of n grains in d seconds; `period` stands for n grains in nanoseconds. */
  predicate Positive(rate: Rational) {
    rate.numerator > 0 && rate.denominator > 0
  }

  function Period(rate: Rational): (q: nat)
    requires Positive(rate)
    ensures q > 0
  {
    SECOND * rate.denominator
  }

  /** Half a period is a whole number of nanoseconds. */
  function Half(rate: Rational): (h: nat)
    requires Positive(rate)
    ensures 2 * h == Period(rate)
  {
    500_000_000 * rate.denominator
  }

  function Times(a: nat, b: nat): (p: nat)
    ensures p == a * b
  {
    Modular.Product(0, a, 0, b);
    a * b
  }

  function Ratio(a: nat, b: nat): (q: nat)
    requires b > 0
    ensures q == a / b
  {
    a / b
  }

  /** The rounded timestamp of an index, and the rounded index of a timestamp. */
  function TimeOf(rate: Rational, i: nat): nat
    requires Positive(rate)
  {
    Ratio(Times(i, Period(rate)) + rate.numerator / 2, rate.numerator)
  }

  function IndexOf(rate: Rational, t: nat): nat
    requires Positive(rate)
  {
    Ratio(Times(t, rate.numerator) + Half(rate), Period(rate))
  }

  lemma Exact(rate: Rational, i: nat, t: nat)
    requires Positive(rate)
    ensures TimeOf(rate, i) < TWO_63 ==> IndexToTimestamp(rate, i) == TimeOf(rate, i)
    ensures IndexOf(rate, t) < WORD_LIMIT ==> TimestampToIndex(rate, t) == IndexOf(rate, t)
  {
    Reduced(rate, i);
    Reduced(rate, t);
  }

  /** The code's conversions are the rounded quotients cut down to 64 bits. */
  lemma Reduced(rate: Rational, x: nat)
    requires Positive(rate)
    ensures IndexToTimestamp(rate, x) == Signed(TimeOf(rate, x))
    ensures TimestampToIndex(rate, x) == Unsigned(IndexOf(rate, x))
  {
    ReducedTime(rate, x);
    assert TimestampToIndex(rate, x) == Unsigned(IndexOf(rate, x));
  }

  lemma ReducedTime(rate: Rational, x: nat)
    requires Positive(rate)
    ensures IndexToTimestamp(rate, x) == Signed(TimeOf(rate, x))
  {
    assert x * rate.denominator * SECOND == x * Period(rate);
    assert Quotient(rate.numerator, 2) == rate.numerator / 2;
  }

  /** A time before zero: up to half a grain before, index zero; further back, the number of grains
      counted down from 2^64. */
  lemma BeforeZero(rate: Rational, t: nat, timestamp: int)
    requires Positive(rate) && timestamp + t == 0
    ensures var n: nat := Times(t, rate.numerator);
      TimestampToIndex(rate, timestamp) ==
        if n <= Half(rate) then 0 else Unsigned(0 - Ratio(n - Half(rate), Period(rate)))
  {
    var n := Times(t, rate.numerator);
    assert timestamp * rate.numerator + n == 0;
    if n <= Half(rate) {
      Modular.Unique(Half(rate) - n, Period(rate), 0, Half(rate) - n);
    }
  }

  /** The remainder of a rounded division. */
  lemma Divided(a: nat, b: nat)
    requires b > 0
    ensures 0 <= a - b * (a / b) < b
  {}

  lemma QuotientIs(a: nat, b: nat, q: nat, low: int)
    requires b > 0 && a == q * b + low && 0 <= low < b
    ensures a / b == q
  {
    Modular.Unique(a, b, q, low);
  }

  // ---- round trips -------------------------------------------------------------------------------

  /** Index to timestamp and back is the identity if a grain lasts at least a nanosecond. */
  lemma IndexRoundTrip(rate: Rational, i: nat)
    requires Positive(rate) && rate.numerator <= Period(rate)
    ensures IndexOf(rate, TimeOf(rate, i)) == i
  {
    var n, q := rate.numerator, Period(rate);
    var a, t := i * q + n / 2, TimeOf(rate, i);
    Divided(a, n);
    assert t * n == n * t;
    if n == q {
      assert n * i == i * q;
      Modular.Unique(a, n, i, n / 2);
    }
    QuotientIs(t * n + Half(rate), q, i, t * n + Half(rate) - i * q);
  }

  /** The code's two conversions, for every index whose timestamp fits 63 bits. */
  lemma RoundTrip(rate: Rational, i: nat)
    requires Positive(rate) && rate.numerator <= Period(rate)
    requires i < WORD_LIMIT && TimeOf(rate, i) < TWO_63
    ensures TimestampToIndex(rate, IndexToTimestamp(rate, i)) == i
  {
    IndexRoundTrip(rate, i);
    Exact(rate, i, TimeOf(rate, i));
  }

  /** At a shorter grain duration two neighbouring indices share a timestamp. */
  lemma SharedTimestamp(rate: Rational) returns (i: nat)
    requires Positive(rate) && Period(rate) < rate.numerator
    ensures i < rate.numerator && TimeOf(rate, i) == TimeOf(rate, i + 1)
  {
    var n, q := rate.numerator, Period(rate);
    Modular.Unique(n / 2, n, 0, n / 2);
    assert TimeOf(rate, 0) == 0;
    assert n * q == q * n;
    Modular.Unique(n * q + n / 2, n, q, n / 2);
    assert TimeOf(rate, n) == q;
    i := FlatStep(rate, n);
  }

  /** A rise of less than m over m steps that never fall has a level step. */
  lemma {:induction false} FlatStep(rate: Rational, m: nat) returns (i: nat)
    requires Positive(rate) && m > 0 && TimeOf(rate, 0) == 0 && TimeOf(rate, m) < m
    ensures i < m && TimeOf(rate, i) == TimeOf(rate, i + 1)
    decreases m
  {
    TimeMonotone(rate, m - 1, m);
    if TimeOf(rate, m - 1) == TimeOf(rate, m) {
      i := m - 1;
    } else {
      i := FlatStep(rate, m - 1);
    }
  }

  /** In the code: every index whose timestamp fits survives the round trip exactly when a grain
      lasts at least a nanosecond. */
  lemma CodeRoundTripIff(rate: Rational)
    requires Positive(rate) && rate.numerator < TWO_63
    ensures (forall i: nat :: i < WORD_LIMIT && TimeOf(rate, i) < TWO_63 ==> TimestampToIndex(rate, IndexToTimestamp(rate, i)) == i)
      <==> rate.numerator <= Period(rate)
  {
    if rate.numerator <= Period(rate) {
      forall i: nat | i < WORD_LIMIT && TimeOf(rate, i) < TWO_63 ensures TimestampToIndex(rate, IndexToTimestamp(rate, i)) == i {
        RoundTrip(rate, i);
      }
    } else {
      var i := SharedTimestamp(rate);
      SmallTime(rate, i);
      Exact(rate, i, TimeOf(rate, i));
      Exact(rate, i + 1, TimeOf(rate, i));
      assert IndexToTimestamp(rate, i) == IndexToTimestamp(rate, i + 1);
    }
  }

  /** Below one nanosecond a grain, timestamps are smaller than indices. */
  lemma SmallTime(rate: Rational, i: nat)
    requires Positive(rate) && Period(rate) < rate.numerator < TWO_63 && i < rate.numerator
    ensures TimeOf(rate, i) < TWO_63
  {
    var n, q := rate.numerator, Period(rate);
    assert n * q == q * n;
    Modular.Unique(n * q + n / 2, n, q, n / 2);
    TimeMonotone(rate, i, n);
  }

  /** Timestamp to index and back, where the results fit, is off by at most half a grain and half a
      nanosecond. */
  lemma TimestampError(rate: Rational, t: nat)
    requires Positive(rate) && IndexOf(rate, t) < WORD_LIMIT && TimeOf(rate, IndexOf(rate, t)) < TWO_63
    ensures var e := IndexToTimestamp(rate, TimestampToIndex(rate, t)) - t;
      -(Period(rate) + rate.numerator) <= 2 * (rate.numerator * e) <= Period(rate) + rate.numerator
  {
    QuotientError(rate, t);
    Exact(rate, IndexOf(rate, t), t);
  }

  lemma QuotientError(rate: Rational, t: nat)
    requires Positive(rate)
    ensures var e := TimeOf(rate, IndexOf(rate, t)) - t;
      -(Period(rate) + rate.numerator) <= 2 * (rate.numerator * e) <= Period(rate) + rate.numerator
  {
    var n, q := rate.numerator, Period(rate);
    var i := IndexOf(rate, t);
    var u := TimeOf(rate, i);
    Divided(t * n + Half(rate), q);
    Divided(i * q + n / 2, n);
    assert q * i == i * q && n * t == t * n;
    assert n * (u - t) == n * u - n * t;
  }

  // ---- order and scale -------------------------------------------------------------------------------

  lemma DivisionMonotone(a: nat, b: nat, n: nat)
    requires n > 0 && a <= b
    ensures a / n <= b / n
  {
    var x, y := a / n, b / n;
    Divided(a, n);
    Divided(b, n);
    assert (y + 1) * n == n * y + n && x * n == n * x;
    if x > y {
      Modular.Product(y + 1, x, n, n);
    }
  }

  lemma TimeMonotone(rate: Rational, i: nat, j: nat)
    requires Positive(rate) && i <= j
    ensures TimeOf(rate, i) <= TimeOf(rate, j)
  {
    Modular.Product(i, j, Period(rate), Period(rate));
    DivisionMonotone(i * Period(rate) + rate.numerator / 2, j * Period(rate) + rate.numerator / 2, rate.numerator);
  }

  lemma IndexMonotone(rate: Rational, t: nat, u: nat)
    requires Positive(rate) && t <= u
    ensures IndexOf(rate, t) <= IndexOf(rate, u)
  {
    Modular.Product(t, u, rate.numerator, rate.numerator);
    DivisionMonotone(t * rate.numerator + Half(rate), u * rate.numerator + Half(rate), Period(rate));
  }

  /** Larger arguments give larger results in the code as long as the larger one fits. */
  lemma ConversionsMonotone(rate: Rational, i: nat, j: nat)
    requires Positive(rate) && i <= j
    ensures TimeOf(rate, j) < TWO_63 ==> IndexToTimestamp(rate, i) <= IndexToTimestamp(rate, j)
    ensures IndexOf(rate, j) < WORD_LIMIT ==> TimestampToIndex(rate, i) <= TimestampToIndex(rate, j)
  {
    TimeMonotone(rate, i, j);
    IndexMonotone(rate, i, j);
    Exact(rate, i, i);
    Exact(rate, j, j);
  }

  /** A common factor of numerator and denominator, and a remainder below it, cancel. */
  lemma Cancel(a: nat, b: nat, k: nat, e: nat)
    requires b > 0 && k > 0 && e < k
    ensures k * b > 0 && (k * a + e) / (k * b) == a / b
  {
    var q, r := a / b, a % b;
    Modular.Times(k, b);
    assert k * a + e == (k * b) * q + (k * r + e) by {
      assert a == b * q + r;
      assert k * a == k * (b * q) + k * r;
      assert (k * b) * q == k * (b * q);
    }
    assert k * r + e < k * b by {
      Modular.Product(r + 1, b, k, k);
      assert (r + 1) * k == k * r + k && b * k == k * b;
    }
    Modular.Unique(k * a + e, k * b, q, k * r + e);
  }

  function Scaled(rate: Rational, k: nat): Rational {
    Rational(k * rate.numerator, k * rate.denominator)
  }

  /** Rates that are equal as fractions convert alike. */
  lemma ScaleInvariant(rate: Rational, k: nat, x: nat)
    requires Positive(rate) && k > 0
    ensures Positive(Scaled(rate, k))
    ensures TimeOf(Scaled(rate, k), x) == TimeOf(rate, x)
    ensures IndexOf(Scaled(rate, k), x) == IndexOf(rate, x)
  {
    Modular.Times(k, rate.numerator);
    Modular.Times(k, rate.denominator);
    ScaledPeriod(rate, k);
    ScaledTime(rate.numerator, Period(rate), k, x);
    ScaledIndex(rate.numerator, Period(rate), Half(rate), k, x);
  }

  /** In the code, also where the results do not fit: for every rate and timestamp in one direction,
      and for every index at a rate whose parts have the same sign in the other. */
  lemma CodeScaleInvariant(rate: Rational, k: nat, timestamp: int, index: nat)
    requires k > 0
    ensures TimestampToIndex(Scaled(rate, k), timestamp) == TimestampToIndex(rate, timestamp)
    ensures Positive(rate) || Positive(Negated(rate)) ==> IndexToTimestamp(Scaled(rate, k), index) == IndexToTimestamp(rate, index)
  {
    ScaledToIndex(rate, k, timestamp);
    if Positive(rate) {
      ScaledToTimestamp(rate, k, index);
    } else if Positive(Negated(rate)) {
      ScaledNegative(rate, k, index);
    }
  }

  lemma ScaledNegative(rate: Rational, k: nat, index: nat)
    requires Positive(Negated(rate)) && k > 0
    ensures IndexToTimestamp(Scaled(rate, k), index) == IndexToTimestamp(rate, index)
  {
    var same, scaled := Negated(rate), Scaled(rate, k);
    NegatedAlike(rate, index);
    ScaledToTimestamp(same, k, index);
    NegatedAlike(scaled, index);
    NegatedScaled(rate, k);
  }

  lemma NegatedScaled(rate: Rational, k: nat)
    ensures Negated(Scaled(rate, k)) == Scaled(Negated(rate), k)
  {
    assert k * -rate.numerator == -(k * rate.numerator);
    assert k * -rate.denominator == -(k * rate.denominator);
  }

  function Negated(rate: Rational): Rational {
    Rational(-rate.numerator, -rate.denominator)
  }

  lemma NegatedAlike(rate: Rational, index: nat)
    ensures IndexToTimestamp(Negated(rate), index) == IndexToTimestamp(rate, index)
  {
    var n, product := rate.numerator, index * rate.denominator;
    assert index * -rate.denominator == -product;
    QuotientNegated(n);
    if n != 0 {
      QuotientBothNegated(product * SECOND + Quotient(n, 2), n);
    }
  }

  lemma QuotientNegated(n: int)
    ensures Quotient(-n, 2) == -Quotient(n, 2)
  {}

  lemma QuotientBothNegated(a: int, b: int)
    requires b != 0
    ensures Quotient(-a, -b) == Quotient(a, b)
  {}

  /** With parts of different signs the rounding goes the wrong way and depends on the scale. */
  lemma MixedSigns()
    ensures IndexToTimestamp(Rational(1, -1), 1) != IndexToTimestamp(Scaled(Rational(1, -1), 2), 1)
  {}

  lemma ScaledToTimestamp(rate: Rational, k: nat, index: nat)
    requires Positive(rate) && k > 0
    ensures IndexToTimestamp(Scaled(rate, k), index) == IndexToTimestamp(rate, index)
  {
    ScaleInvariant(rate, k, index);
    ReducedTime(rate, index);
    ReducedTime(Scaled(rate, k), index);
  }

  lemma ScaledToIndex(rate: Rational, k: nat, timestamp: int)
    requires k > 0
    ensures TimestampToIndex(Scaled(rate, k), timestamp) == TimestampToIndex(rate, timestamp)
  {
    var n, d := rate.numerator, rate.denominator;
    NotZero(k, n);
    NotZero(k, d);
    if n != 0 && d != 0 {
      var a, b := timestamp * n + 500_000_000 * d, SECOND * d;
      assert timestamp * (k * n) + 500_000_000 * (k * d) == k * a by {
        assert timestamp * (k * n) == k * (timestamp * n);
        assert k * a == k * (timestamp * n) + k * (500_000_000 * d);
      }
      assert SECOND * (k * d) == k * b;
      QuotientScaled(a, b, k);
    }
  }

  lemma NotZero(k: nat, x: int)
    requires k > 0
    ensures k * x == 0 <==> x == 0
  {
    if x > 0 {
      Modular.Times(k, x);
    } else if x < 0 {
      Modular.Times(k, -x);
      assert k * -x == -(k * x);
    }
  }

  /** A common factor cancels in a truncating division. */
  lemma QuotientScaled(a: int, b: int, k: nat)
    requires b != 0 && k > 0
    ensures k * b != 0 && Quotient(k * a, k * b) == Quotient(a, b)
  {
    var x, y := if a < 0 then -a else a, if b < 0 then -b else b;
    Cancel(x, y, k, 0);
    assert k * -a == -(k * a) && k * -b == -(k * b);
    assert a >= 0 ==> k * a >= 0 by { Modular.Product(0, k, 0, x); }
    assert a < 0 ==> k * a < 0 by { if a < 0 { NotZero(k, a); Modular.Product(0, k, 0, x); } }
  }

  lemma ScaledPeriod(rate: Rational, k: nat)
    requires Positive(rate) && Positive(Scaled(rate, k))
    ensures Period(Scaled(rate, k)) == k * Period(rate) && Half(Scaled(rate, k)) == k * Half(rate)
  {}

  lemma ScaledTime(n: nat, q: nat, k: nat, x: nat)
    requires n > 0 && k > 0
    ensures k * n > 0 && (x * (k * q) + (k * n) / 2) / (k * n) == (x * q + n / 2) / n
  {
    var e := (k * n) / 2 - k * (n / 2);
    HalfOfProduct(k, n);
    assert x * (k * q) == k * (x * q);
    assert k * (x * q + n / 2) == k * (x * q) + k * (n / 2);
    Cancel(x * q + n / 2, n, k, e);
  }

  lemma ScaledIndex(n: nat, q: nat, h: nat, k: nat, x: nat)
    requires q > 0 && k > 0
    ensures k * q > 0 && (x * (k * n) + k * h) / (k * q) == (x * n + h) / q
  {
    assert x * (k * n) == k * (x * n);
    assert k * (x * n + h) == k * (x * n) + k * h;
    Cancel(x * n + h, q, k, 0);
  }

  lemma HalfOfProduct(k: nat, n: nat)
    requires k > 0
    ensures 0 <= (k * n) / 2 - k * (n / 2) < k
  {
    var h := n / 2;
    if n % 2 == 0 {
      assert k * n == 2 * (k * h) by { assert n == 2 * h; assert k * (2 * h) == 2 * (k * h); }
    } else {
      assert k * n == 2 * (k * h) + k by { assert n == 2 * h + 1; assert k * (2 * h + 1) == 2 * (k * h) + k; }
    }
  }

  // ---- 128-bit intermediates ------------------------------------------------------------------------------

  /** The largest intermediate results of the two conversions. */
  function IndexIntermediate(rate: Rational, timestamp: int): int {
    timestamp * rate.numerator + 500_000_000 * rate.denominator
  }

  function TimeIntermediate(rate: Rational, index: nat): int {
    index * rate.denominator * SECOND + Quotient(rate.numerator, 2)
  }

  predicate Fits128(x: int) {
    -TWO_127 <= x < TWO_127
  }

  /** For every 64-bit rate and timestamp the first one fits 128 bits. */
  lemma IndexNeverOverflows(rate: Rational, timestamp: int)
    requires -TWO_63 <= rate.numerator < TWO_63 && -TWO_63 <= rate.denominator < TWO_63 && -TWO_63 <= timestamp < TWO_63
    ensures Fits128(IndexIntermediate(rate, timestamp))
  {
    ProductBound(timestamp, rate.numerator, TWO_63);
  }

  /** The largest denominator with which every 64-bit index can be converted. */
  const MAX_DENOMINATOR: nat := 9_223_372_036

  /** The second one fits 128 bits for every 64-bit index exactly up to that denominator. */
  lemma TimeOverflowsIff(rate: Rational)
    requires Positive(rate) && rate.numerator < TWO_63
    ensures (forall index: nat :: index < WORD_LIMIT ==> Fits128(TimeIntermediate(rate, index))) <==> rate.denominator <= MAX_DENOMINATOR
  {
    var top: nat := WORD_LIMIT - 1;
    if rate.denominator <= MAX_DENOMINATOR {
      forall index: nat | index < WORD_LIMIT ensures Fits128(TimeIntermediate(rate, index)) {
        var product := Times(index, rate.denominator);
        Modular.Product(index, top, rate.denominator, MAX_DENOMINATOR);
        Bounded(product, rate.numerator);
      }
    } else {
      Modular.Product(top, top, MAX_DENOMINATOR + 1, rate.denominator);
      Beyond(top * rate.denominator, rate.numerator);
      assert !Fits128(TimeIntermediate(rate, top));
    }
  }

  lemma Bounded(product: nat, numerator: int)
    requires product <= (WORD_LIMIT - 1) * MAX_DENOMINATOR && 0 < numerator < TWO_63
    ensures Fits128(product * SECOND + Quotient(numerator, 2))
  {}

  lemma Beyond(product: int, numerator: int)
    requires (WORD_LIMIT - 1) * (MAX_DENOMINATOR + 1) <= product && 0 < numerator
    ensures !Fits128(product * SECOND + Quotient(numerator, 2))
  {}

  lemma ProductBound(a: int, b: int, m: int)
    requires 0 <= m && -m <= a <= m && -m <= b <= m
    ensures -(m * m) <= a * b <= m * m
  {
    var x, y := if a < 0 then -a else a, if b < 0 then -b else b;
    Modular.Product(x, m, y, m);
    Modular.Product(0, x, 0, y);
    assert a * b == x * y || a * b == -(x * y);
  }
}
