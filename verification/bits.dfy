/** Integer models of the bit operations the generator performs on int64
    values: `<<` as repeated doubling, Go's `/` and `%` on non-negative
    operands as repeated subtraction, an OR of fields whose bits do not
    overlap as addition, and Go's signed 64-bit arithmetic as the
    two's-complement reading of the low 64 bits. The decoders read the
    fields back with a right shift, modelled as repeated halving, and a
    low-bit mask, modelled bit by bit. The arithmetic lemmas at the end
    connect each of these to multiplication, Euclidean division and
    remainder. */
module Bits {

  const TwoTo63: int := 0x8000_0000_0000_0000
  const TwoTo64: int := 0x1_0000_0000_0000_0000
  const MaxInt64: int := TwoTo63 - 1
  const MinInt64: int := -TwoTo63

  /** Go's int64 (and `int` on 64-bit targets, and time.Duration). */
  type Int64 = x: int | MinInt64 <= x <= MaxInt64

  /** 2^k, the value of `1 << k`. */
  function Pow2(k: nat): (r: nat)
    ensures r >= 1
  {
    if k == 0 then 1 else 2 * Pow2(k - 1)
  }

  /** `x << k` on unbounded integers: k doublings. */
  function Shl(x: int, k: nat): int
  {
    if k == 0 then x else 2 * Shl(x, k - 1)
  }

  /** `x >> k`, an arithmetic shift: k halvings, each rounding toward minus
      infinity. The generator never shifts right; the decoders use it. */
  function Shr(x: int, k: nat): int
    decreases k
  {
    if k == 0 then x else Shr(x / 2, k - 1)
  }

  /** `x & (1 << k - 1)`: the low k bits of x, lowest bit first. The
      generator takes `% maxSeq` instead; the decoders use this mask. */
  function Low(x: int, k: nat): (r: int)
    ensures 0 <= r < Pow2(k)
    decreases k
  {
    if k == 0 then 0 else 2 * Low(x / 2, k - 1) + x % 2
  }

  /** Go's `n / m` for n >= 0 and m > 0: how many times m can be taken
      from n. */
  function Div(n: nat, m: nat): nat
    requires m > 0
    decreases n
  {
    if n < m then 0 else 1 + Div(n - m, m)
  }

  /** Go's `n % m` for n >= 0 and m > 0: what is left of n once m has been
      taken from it as often as possible. */
  function Rem(n: nat, m: nat): (r: nat)
    requires m > 0
    ensures r < m && r <= n
    decreases n
  {
    if n < m then n else Rem(n - m, m)
  }

  /** The int64 that Go's arithmetic leaves of the exact value `x`: 2^64 is
      taken away or added until the value lies in the int64 range, which
      leaves the one int64 that agrees with `x` modulo 2^64. */
  function Wrap64(x: int): (r: Int64)
    ensures (r - x) % TwoTo64 == 0
    ensures MinInt64 <= x <= MaxInt64 ==> r == x
    decreases if x > MaxInt64 then x - MaxInt64 else if x < MinInt64 then MinInt64 - x else 0
  {
    if x > MaxInt64 then
      ModAddMultiple(Wrap64(x - TwoTo64) - x, 1, TwoTo64);
      Wrap64(x - TwoTo64)
    else if x < MinInt64 then
      ModAddMultiple(Wrap64(x + TwoTo64) - x, -1, TwoTo64);
      Wrap64(x + TwoTo64)
    else
      x
  }

  // ---- The shift and division models against arithmetic ----

  /** A left shift by k multiplies by 2^k. */
  lemma {:induction false} ShlIsMul(x: int, k: nat)
    ensures Shl(x, k) == x * Pow2(k)
  {
    if k > 0 {
      ShlIsMul(x, k - 1);
      MulAssoc(2, x, Pow2(k - 1));
    }
  }

  /** An arithmetic right shift by k is floor division by 2^k. */
  lemma {:induction false} ShrIsDiv(x: int, k: nat)
    ensures Shr(x, k) == x / Pow2(k)
    decreases k
  {
    if k > 0 {
      ShrIsDiv(x / 2, k - 1);
      DivSplit(x, 2, Pow2(k - 1));
    }
  }

  /** The low k bits are the remainder modulo 2^k. */
  lemma {:induction false} LowIsMod(x: int, k: nat)
    ensures Low(x, k) == x % Pow2(k)
    decreases k
  {
    if k > 0 {
      LowIsMod(x / 2, k - 1);
      DivSplit(x, 2, Pow2(k - 1));
    }
  }

  /** Repeated subtraction computes Euclidean quotient and remainder. */
  lemma {:induction false} DivRemAreEuclid(n: nat, m: nat)
    requires m > 0
    ensures Div(n, m) == n / m && Rem(n, m) == n % m
    decreases n
  {
    if n < m {
      DivModUnique(n, m, 0, n);
    } else {
      DivRemAreEuclid(n - m, m);
      DivModUnique(n, m, (n - m) / m + 1, (n - m) % m);
    }
  }

  // ---- Properties of the models used by the generator ----

  /** Unpacking: a value `hi << k | lo` with `lo` below 2^k gives back
      `hi` when shifted right by k and `lo` as its low k bits. */
  lemma ShlUnpack(hi: int, lo: int, k: nat)
    requires 0 <= lo < Pow2(k)
    ensures Shr(Shl(hi, k) + lo, k) == hi
    ensures Low(Shl(hi, k) + lo, k) == lo
  {
    ShlIsMul(hi, k);
    ShrIsDiv(Shl(hi, k) + lo, k);
    LowIsMod(Shl(hi, k) + lo, k);
    Unpack(hi, lo, k);
  }

  /** A strictly larger high part gives a strictly larger packed value,
      whatever the low parts are. */
  lemma ShlOrder(a1: int, b1: int, a2: int, b2: int, k: nat)
    requires a1 < a2 && 0 <= b1 < Pow2(k) && 0 <= b2
    ensures Shl(a1, k) + b1 < Shl(a2, k) + b2
  {
    ShlIsMul(a1, k);
    ShlIsMul(a2, k);
    PackOrder(a1, b1, a2, b2, k);
  }

  /** Over the same low part, a larger high part never packs smaller. */
  lemma ShlMonotone(a1: int, a2: int, b: int, k: nat)
    requires a1 <= a2
    ensures Shl(a1, k) + b <= Shl(a2, k) + b
  {
    ShlIsMul(a1, k);
    ShlIsMul(a2, k);
    MulMonotone(Pow2(k), a1, a2);
  }

  /** Placing `a` above the k-bit `b` and the pair above s bits puts `a`
      k + s bits up and `b` s bits up. */
  lemma ShlPair(a: int, b: int, k: nat, s: nat)
    ensures Shl(Shl(a, k) + b, s) == Shl(a, k + s) + Shl(b, s)
  {
    ShlIsMul(a, k);
    ShlIsMul(a, k + s);
    ShlIsMul(b, s);
    ShlIsMul(Shl(a, k) + b, s);
    ShiftPair(a, b, k, s);
  }

  /** A k-bit value placed above an s-bit value is a k + s bit value. */
  lemma ShlBound(a: int, b: int, k: nat, s: nat)
    requires 0 <= a < Pow2(k) && 0 <= b < Pow2(s)
    ensures 0 <= Shl(a, s) + b < Pow2(k + s)
  {
    ShlIsMul(a, s);
    PackBound(a, b, k, s);
  }

  /** Three fields packed high to low, `hi << (h + s) | mid << s | lo`
      with `mid` h bits and `lo` s bits wide: the packing nests, its low
      part is h + s bits wide, and shifts and masks give each field back. */
  lemma PackFields(hi: int, mid: int, lo: int, h: nat, s: nat)
    requires 0 <= mid < Pow2(h) && 0 <= lo < Pow2(s)
    ensures Shl(hi, h + s) + (Shl(mid, s) + lo) == Shl(Shl(hi, h) + mid, s) + lo
    ensures 0 <= Shl(mid, s) + lo < Pow2(h + s)
    ensures Shr(Shl(hi, h + s) + (Shl(mid, s) + lo), h + s) == hi
    ensures Shr(Shl(hi, h + s) + (Shl(mid, s) + lo), s) == Shl(hi, h) + mid
    ensures Low(Shr(Shl(hi, h + s) + (Shl(mid, s) + lo), s), h) == mid
    ensures Low(Shl(hi, h + s) + (Shl(mid, s) + lo), s) == lo
  {
    ShlBound(mid, lo, h, s);
    ShlPair(hi, mid, h, s);
    ShlUnpack(hi, Shl(mid, s) + lo, h + s);
    ShlUnpack(Shl(hi, h) + mid, lo, s);
    ShlUnpack(hi, mid, h);
  }

  /** A timestamp below 2^(63 - k) shifted above a k-bit value stays in
      the non-negative int64 range: the shift cannot reach the sign bit. */
  lemma PackedInRange(e: nat, low: nat, k: nat)
    requires k <= 63 && e < Pow2(63 - k) && low < Pow2(k)
    ensures 0 <= Shl(e, k) + low <= MaxInt64
  {
    ShlIsMul(e, k);
    MulNonNegative(e, Pow2(k));
    PackOrder(e, low, Pow2(63 - k), 0, k);
    Pow2Add(63 - k, k);
    Pow2Values();
  }

  /** Wrapping to 64 bits changes a packing `hi << k | low` only above bit
      k: what is left is again such a packing, over the same low part. */
  lemma WrapIsRepack(hi: int, low: int, k: nat) returns (hi': int)
    requires k <= 64
    ensures Wrap64(Shl(hi, k) + low) == Shl(hi', k) + low
  {
    var m := Wrap64Offset(Shl(hi, k) + low);
    var p, q := Pow2(64 - k), Pow2(k);
    hi' := hi + m * p;
    Pow2Values();
    Pow2Add(64 - k, k);
    ShlIsMul(hi, k);
    ShlIsMul(hi', k);
    Regroup(hi, m, p, q, TwoTo64);
  }

  /** The two low fields of a three-field packing survive the wrap to 64
      bits: the shifts and masks that read them give them back. */
  lemma WrappedLowFields(hi: int, mid: int, lo: int, h: nat, s: nat)
    requires 0 <= mid < Pow2(h) && 0 <= lo < Pow2(s) && h + s <= 64
    ensures Low(Shr(Wrap64(Shl(hi, h + s) + (Shl(mid, s) + lo)), s), h) == mid
    ensures Low(Wrap64(Shl(hi, h + s) + (Shl(mid, s) + lo)), s) == lo
  {
    var hi' := WrapIsRepack(hi, Shl(mid, s) + lo, h + s);
    PackFields(hi', mid, lo, h, s);
  }

  /** Go wraps the shifted timestamp first and ORs the low part in after;
      wrapping the sum instead gives the same int64, because a wrapped
      multiple of 2^k has room below the sign bit for any k-bit low part. */
  lemma WrapThenAdd(e: int, low: int, k: nat)
    requires 1 <= k <= 63 && 0 <= low < Pow2(k)
    ensures Wrap64(Shl(e, k)) + low == Wrap64(Shl(e, k) + low)
  {
    var x := Shl(e, k);
    WrappedMultipleRoom(e, k);
    var m := Wrap64Offset(x);
    var m' := Wrap64Offset(x + low);
    var a, b := Wrap64(x + low), Wrap64(x) + low;
    assert a - b == (m' - m) * TwoTo64;
    CongruentInRange(a, b, m' - m);
  }

  /** A wrapped multiple of 2^k lies at least 2^k below 2^63. */
  lemma WrappedMultipleRoom(e: int, k: nat)
    requires 1 <= k <= 63
    ensures Wrap64(Shl(e, k)) <= TwoTo63 - Pow2(k)
  {
    var p, q := Pow2(63 - k), Pow2(k);
    var e' := WrapIsRepack(e, 0, k);
    assert Wrap64(Shl(e, k)) == e' * q by {
      ShlIsMul(e', k);
    }
    assert p * q == TwoTo63 by {
      Pow2Values();
      Pow2Add(63 - k, k);
    }
    MultipleBelow(e', q, p);
  }

  /** A multiple of q below p * q is at most p * q - q. */
  lemma MultipleBelow(e: int, q: int, p: int)
    requires q > 0 && e * q < p * q
    ensures e * q <= p * q - q
  {
    if e >= p {
      MulMonotone(q, p, e);
    }
    MulMonotone(q, e, p - 1);
    MulDistributes(q, p, -1);
  }

  /** Two int64 values that differ by a multiple of 2^64 are equal. */
  lemma CongruentInRange(a: int, b: int, m: int)
    requires MinInt64 <= a <= MaxInt64 && MinInt64 <= b <= MaxInt64
    requires a - b == m * TwoTo64
    ensures m == 0
  {
  }

  /** Numbers less than m apart leave different remainders. */
  lemma RemDistinct(a: nat, b: nat, m: nat)
    requires m > 0 && a < b < a + m
    ensures Rem(a, m) != Rem(b, m)
  {
    DivRemAreEuclid(a, m);
    DivRemAreEuclid(b, m);
    ModDistinct(a, b, m);
  }

  /** Taking m once more leaves the same remainder. */
  lemma {:induction false} RemAddDivisor(n: nat, m: nat)
    requires m > 0
    ensures Rem(n + m, m) == Rem(n, m)
  {
    assert n + m >= m;
    assert Rem(n + m, m) == Rem(n + m - m, m);
  }

  /** More time never gives fewer whole units. */
  lemma DivIsMonotone(n1: nat, n2: nat, m: nat)
    requires m > 0 && n1 <= n2
    ensures Div(n1, m) <= Div(n2, m)
  {
    DivRemAreEuclid(n1, m);
    DivRemAreEuclid(n2, m);
    DivMonotone(n1, n2, m);
  }

  /** A larger unit never fits more often into the same amount. */
  lemma DivIsAntitone(n: nat, m1: nat, m2: nat)
    requires 0 < m1 <= m2
    ensures Div(n, m1) >= Div(n, m2)
  {
    DivRemAreEuclid(n, m1);
    DivRemAreEuclid(n, m2);
    DivAntitone(n, m1, m2);
  }

  // ---- Powers of two ----

  lemma {:induction false} Pow2Add(a: nat, b: nat)
    ensures Pow2(a + b) == Pow2(a) * Pow2(b)
  {
    if a > 0 {
      Pow2Add(a - 1, b);
      assert Pow2(a + b) == 2 * Pow2(a - 1 + b);
    }
  }

  lemma Pow2Monotone(a: nat, b: nat)
    requires a <= b
    ensures Pow2(a) <= Pow2(b)
  {
    Pow2Add(a, b - a);
    MulAtLeast(Pow2(b - a), Pow2(a));
  }

  /** The powers of two the generator's bounds are written with. */
  lemma Pow2Values()
    ensures Pow2(6) == 64 && Pow2(8) == 256 && Pow2(14) == 16384
    ensures Pow2(63) == TwoTo63 && Pow2(64) == TwoTo64
  {
    assert Pow2(6) == 64;
    assert Pow2(8) == 256 by { Pow2Add(6, 2); }
    assert Pow2(14) == 16384 by { Pow2Add(8, 6); }
    assert Pow2(16) == 65536 by { Pow2Add(8, 8); }
    assert Pow2(31) == 0x8000_0000 by { Pow2Add(14, 1); Pow2Add(16, 15); }
    assert Pow2(32) == 0x1_0000_0000 by { Pow2Add(16, 16); }
    assert Pow2(63) == TwoTo63 by { Pow2Add(32, 31); }
    assert Pow2(64) == TwoTo64 by { Pow2Add(32, 32); }
  }

  // ---- Multiplication, Euclidean division and remainder ----

  lemma MulAtLeast(x: int, p: int)
    requires x >= 1 && p >= 0
    ensures x * p >= p
  {
  }

  lemma MulNonNegative(x: int, p: int)
    requires x >= 0 && p >= 0
    ensures x * p >= 0
  {
  }

  lemma MulAssoc(a: int, b: int, c: int)
    ensures a * (b * c) == (a * b) * c
  {
  }

  /** Euclidean division has exactly one quotient/remainder pair. */
  lemma DivModUnique(n: int, p: int, q: int, r: int)
    requires p > 0 && 0 <= r < p && n == q * p + r
    ensures n / p == q && n % p == r
  {
    var q', r' := n / p, n % p;
    assert (q - q') * p == r' - r;
    assert (q' - q) * p == r - r';
    if q' < q {
      MulAtLeast(q - q', p);
    } else if q < q' {
      MulAtLeast(q' - q, p);
    }
  }

  /** Dividing by a and then by b is dividing by a * b, and the remainder
      modulo a * b is made of the two remainders. */
  lemma DivSplit(x: int, a: int, b: int)
    requires a > 0 && b > 0
    ensures (x / a) / b == x / (a * b)
    ensures x % (a * b) == a * ((x / a) % b) + x % a
  {
    var q1, r1 := x / a, x % a;
    var q2, r2 := q1 / b, q1 % b;
    DivModDefinition(x, a);
    DivModDefinition(q1, b);
    MulDistributes(a, b * q2, r2);
    MulAssoc(a, b, q2);
    assert x == (a * b) * q2 + (a * r2 + r1);
    MulMonotone(a, r2, b - 1);
    MulDistributes(a, b, -1);
    assert 0 <= a * r2 + r1 < a * b;
    DivModUnique(x, a * b, q2, a * r2 + r1);
  }

  lemma DivModDefinition(x: int, a: int)
    requires a > 0
    ensures x == a * (x / a) + x % a && 0 <= x % a < a
  {
  }

  lemma MulDistributes(a: int, b: int, c: int)
    ensures a * (b + c) == a * b + a * c
  {
  }

  lemma MulMonotone(a: int, b: int, c: int)
    requires a >= 0 && b <= c
    ensures a * b <= a * c
  {
    MulNonNegative(a, c - b);
    MulDistributes(a, b, c - b);
  }

  /** A value packed as `hi * 2^k + lo` with `lo` below 2^k gives back both
      halves. */
  lemma Unpack(hi: int, lo: int, k: nat)
    requires 0 <= lo < Pow2(k)
    ensures (hi * Pow2(k) + lo) / Pow2(k) == hi
    ensures (hi * Pow2(k) + lo) % Pow2(k) == lo
  {
    DivModUnique(hi * Pow2(k) + lo, Pow2(k), hi, lo);
  }

  lemma PackOrder(a1: int, b1: int, a2: int, b2: int, k: nat)
    requires a1 < a2 && 0 <= b1 < Pow2(k) && 0 <= b2
    ensures a1 * Pow2(k) + b1 < a2 * Pow2(k) + b2
  {
    MulAtLeast(a2 - a1, Pow2(k));
    assert a2 * Pow2(k) - a1 * Pow2(k) == (a2 - a1) * Pow2(k);
  }

  lemma PackBound(a: int, b: int, k: nat, s: nat)
    requires 0 <= a < Pow2(k) && 0 <= b < Pow2(s)
    ensures 0 <= a * Pow2(s) + b < Pow2(k + s)
  {
    MulNonNegative(a, Pow2(s));
    PackOrder(a, b, Pow2(k), 0, s);
    Pow2Add(k, s);
  }

  lemma ShiftPair(a: int, b: int, k: nat, s: nat)
    ensures (a * Pow2(k) + b) * Pow2(s) == a * Pow2(k + s) + b * Pow2(s)
  {
    Pow2Add(k, s);
    var P, Q := Pow2(k), Pow2(s);
    calc {
      (a * P + b) * Q;
      a * P * Q + b * Q;
      { MulAssoc(a, P, Q); }
      a * (P * Q) + b * Q;
    }
  }

  lemma Regroup(h: int, m: int, p: int, q: int, t: int)
    requires t == p * q
    ensures h * q + m * t == (h + m * p) * q
  {
    MulAssoc(m, p, q);
  }

  lemma ModAddMultiple(x: int, m: int, p: int)
    requires p > 0
    ensures (x + m * p) % p == x % p
  {
    assert x + m * p == (x / p + m) * p + x % p;
    DivModUnique(x + m * p, p, x / p + m, x % p);
  }

  lemma ModDistinct(a: int, b: int, p: int)
    requires p > 0 && a < b < a + p
    ensures a % p != b % p
  {
    var qa, qb := a / p, b / p;
    var t := qb - qa;
    if a % p == b % p {
      assert b - a == t * p by {
        assert qb * p - qa * p == (qb - qa) * p;
      }
      if t >= 1 {
        MulAtLeast(t, p);
      } else {
        MulNonNegative(-t, p);
      }
    }
  }

  lemma QuotientAtLeast(d: int, u: int, q: int)
    requires u > 0 && q * u <= d
    ensures d / u >= q
  {
    var q' := d / u;
    assert q * u - q' * u == (q - q') * u;
    if q' < q {
      MulAtLeast(q - q', u);
    }
  }

  lemma DivMonotone(d1: int, d2: int, u: int)
    requires u > 0 && d1 <= d2
    ensures d1 / u <= d2 / u
  {
    QuotientAtLeast(d2, u, d1 / u);
  }

  lemma DivAntitone(d: int, u1: int, u2: int)
    requires d >= 0 && 0 < u1 <= u2
    ensures d / u1 >= d / u2
  {
    var q := d / u2;
    assert q >= 0;
    assert q * u1 <= q * u2;
    QuotientAtLeast(d, u1, q);
  }

  lemma {:induction false} Wrap64Offset(x: int) returns (m: int)
    ensures Wrap64(x) == x + m * TwoTo64
    decreases if x > MaxInt64 then x - MaxInt64 else if x < MinInt64 then MinInt64 - x else 0
  {
    if x > MaxInt64 {
      var m' := Wrap64Offset(x - TwoTo64);
      m := m' - 1;
    } else if x < MinInt64 {
      var m' := Wrap64Offset(x + TwoTo64);
      m := m' + 1;
    } else {
      m := 0;
    }
  }
}
