/** Positions in a ring.

    `Wrap(i, n)` is the remainder i % n that the code computes (`WrapIsRemainder`), written by
    repeated subtraction so that facts about slots need only linear arithmetic. */
module Modular {
  function Wrap(i: nat, n: nat): (r: nat)
    requires n > 0
    ensures r < n
    ensures r <= i
    decreases i
  {
    if i < n then i else Wrap(i - n, n)
  }

  lemma {:induction false} WrapIsRemainder(i: nat, n: nat)
    requires n > 0
    ensures Wrap(i, n) == i % n
    decreases i
  {
    if i >= n {
      WrapIsRemainder(i - n, n);
      Remainder(i, n);
    }
  }

  /** Taking one turn away does not change the remainder. */
  lemma Remainder(i: nat, n: nat)
    requires n > 0 && n <= i
    ensures i % n == (i - n) % n
  {
    var q, r := (i - n) / n, (i - n) % n;
    assert i - n == n * q + r;
    assert n * (q + 1) == n * q + n;
    Unique(i, n, q + 1, r);
  }

  /** Quotient and remainder are determined by any decomposition into turns and an offset. */
  lemma Unique(i: int, n: nat, q: int, r: nat)
    requires n > 0 && i == n * q + r && r < n
    ensures i % n == r && i / n == q
  {
    var d := i / n - q;
    assert i == n * (i / n) + i % n;
    assert n * d == r - i % n by { assert n * d == n * (i / n) - n * q; }
    if d >= 1 {
      Times(n, d);
    } else if d <= -1 {
      Times(n, -d);
    }
  }

  lemma Times(n: nat, q: int)
    requires q >= 1
    ensures n * q >= n
  {}

  /** Different positions in the same slot are at least one full turn apart. */
  lemma {:induction false} Turn(i: nat, j: nat, n: nat)
    requires n > 0 && i < j && Wrap(i, n) == Wrap(j, n)
    ensures i + n <= j
    decreases i
  {
    if n <= i {
      Turn(i - n, j - n, n);
    }
  }

  /** Consecutive positions fall in consecutive slots, wrapping at the end. */
  lemma {:induction false} Offset(i: nat, k: nat, n: nat)
    requires n > 0 && k <= n
    ensures Wrap(i + k, n) == if Wrap(i, n) + k < n then Wrap(i, n) + k else Wrap(i, n) + k - n
    decreases i
  {
    if n <= i {
      Offset(i - n, k, n);
    } else if n <= i + k {
      assert Wrap(i + k - n, n) == i + k - n;
    }
  }

  // ---- products ------------------------------------------------------------------------

  /** Rows of equal length laid one behind the other do not overlap. */
  lemma Rows(j: nat, k: nat, count: nat, stride: nat)
    requires j < k < count
    ensures j * stride + stride <= k * stride
    ensures k * stride + stride <= count * stride
  {
    Product(j + 1, k, stride, stride);
    Product(k + 1, count, stride, stride);
    assert (j + 1) * stride == j * stride + stride;
    assert (k + 1) * stride == k * stride + stride;
  }

  lemma Product(a: nat, b: nat, c: nat, d: nat)
    requires a <= b && c <= d
    ensures a * c <= b * d
  {
    assert b * d == a * c + a * (d - c) + (b - a) * d;
  }

  lemma Quotient(room: nat, count: nat, size: nat)
    requires count > 0 && size * count <= room
    ensures size <= room / count
  {
    if room / count < size {
      assert room == count * (room / count) + room % count;
      assert (room / count + 1) * count == count * (room / count) + count;
      Product(room / count + 1, size, count, count);
    }
  }
}
