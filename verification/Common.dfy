/** The byte type every codec of the model works on. */
module Bytes {
  import opened Powers

  type byte = b: int | 0 <= b < 256

  /** The n low-order bytes of a number, lowest or highest byte first. */
  function LittleEndian(value: nat, n: nat): (s: seq<byte>)
    ensures |s| == n
    decreases n
  {
    if n == 0 then [] else [value % 256] + LittleEndian(value / 256, n - 1)
  }

  function BigEndian(value: nat, n: nat): (s: seq<byte>)
    ensures |s| == n
    decreases n
  {
    if n == 0 then [] else BigEndian(value / 256, n - 1) + [value % 256]
  }

  function Pow256(k: nat): nat
    ensures Pow256(k) >= 1
  {
    if k == 0 then 1 else 256 * Pow256(k - 1)
  }

  lemma LowByte(high: nat, low: nat, k: nat)
    requires k > 0 && low < Pow256(k)
    ensures (high * Pow256(k) + low) / 256 == high * Pow256(k - 1) + low / 256 && low / 256 < Pow256(k - 1)
    ensures (high * Pow256(k) + low) % 256 == low % 256
  {
    var n, rest := high * Pow256(k) + low, high * Pow256(k - 1);
    assert n == 256 * rest + low;
  }

  /** The bytes of a number are those of its two parts. */
  lemma {:induction false} BigEndianConcat(high: nat, low: nat, j: nat, k: nat)
    requires low < Pow256(k)
    ensures BigEndian(high * Pow256(k) + low, j + k) == BigEndian(high, j) + BigEndian(low, k)
    decreases k
  {
    if k == 0 {
      assert Pow256(0) == 1;
    } else {
      LowByte(high, low, k);
      BigEndianConcat(high, low / 256, j, k - 1);
    }
  }

  lemma {:induction false} LittleEndianConcat(high: nat, low: nat, j: nat, k: nat)
    requires low < Pow256(k)
    ensures LittleEndian(high * Pow256(k) + low, k + j) == LittleEndian(low, k) + LittleEndian(high, j)
    decreases k
  {
    if k == 0 {
      assert Pow256(0) == 1;
    } else {
      LowByte(high, low, k);
      LittleEndianConcat(high, low / 256, j, k - 1);
    }
  }

  /** Byte k of a number, counted from the lowest. */
  function ByteOf(v: nat, k: nat): byte {
    v / Pow256(k) % 256
  }

  lemma {:induction false} LittleEndianDigit(v: nat, n: nat, k: nat)
    requires k < n
    ensures LittleEndian(v, n)[k] == ByteOf(v, k)
    decreases n
  {
    if k > 0 {
      LittleEndianDigit(v / 256, n - 1, k - 1);
      DivideTwice(v, Pow256(k - 1));
    }
  }

  lemma {:induction false} BigEndianDigit(v: nat, n: nat, k: nat)
    requires k < n
    ensures BigEndian(v, n)[n - 1 - k] == ByteOf(v, k)
    decreases n
  {
    if k > 0 {
      BigEndianDigit(v / 256, n - 1, k - 1);
      DivideTwice(v, Pow256(k - 1));
    }
  }

  lemma DivideTwice(v: nat, p: nat)
    requires p > 0
    ensures v / 256 / p == v / (256 * p)
  {
    var q := v / 256 / p;
    QuotientBounds(v / 256, p);
    assert q * (256 * p) == 256 * (q * p);
    QuotientIs(v, 256 * p, q);
  }

  lemma PrefixSlice<T>(s: seq<T>, n: nat, a: nat, b: nat)
    requires a <= b <= n <= |s|
    ensures s[..n][a..b] == s[a..b]
  {
  }

  lemma MiddleSlice<T>(a: seq<T>, b: seq<T>, c: seq<T>)
    ensures (a + b + c)[|a|..|a| + |b|] == b
  {
  }

  function Joined<T>(pieces: seq<seq<T>>): seq<T> {
    if pieces == [] then [] else Joined(pieces[..|pieces| - 1]) + pieces[|pieces| - 1]
  }

  lemma {:induction false} JoinedPrefix<T>(pieces: seq<seq<T>>, i: nat)
    requires i <= |pieces|
    ensures |Joined(pieces[..i])| <= |Joined(pieces)|
    decreases |pieces|
  {
    if i < |pieces| {
      assert pieces[..i] == pieces[..|pieces| - 1][..i];
      JoinedPrefix(pieces[..|pieces| - 1], i);
    } else {
      assert pieces[..i] == pieces;
    }
  }
}

module Wrappers {
  datatype Option<+T> = None | Some(value: T)
  datatype Result<+T> = Success(value: T) | Failure(error: string)
}

module Powers {
  function Pow2(k: nat): nat
    ensures Pow2(k) >= 1
  {
    if k == 0 then 1 else 2 * Pow2(k - 1)
  }

  lemma {:induction false} Pow2Monotone(a: nat, b: nat)
    requires a <= b
    ensures Pow2(a) <= Pow2(b)
    decreases b
  {
    if a < b { Pow2Monotone(a, b - 1); }
  }

  lemma {:induction false} Pow2Sum(a: nat, b: nat)
    ensures Pow2(a + b) == Pow2(a) * Pow2(b)
    decreases a
  {
    if a > 0 { Pow2Sum(a - 1, b); }
  }

  lemma ScaledPow2Sum(c: nat, a: nat, b: nat)
    ensures c * Pow2(a) * Pow2(b) == c * Pow2(a + b)
  {
    Pow2Sum(a, b);
    var x, y := Pow2(a), Pow2(b);
    assert c * x * y == c * (x * y);
  }

  /** The number of 1 bits of n. */
  function PopCount(n: nat): nat
  {
    if n == 0 then 0 else n % 2 + PopCount(n / 2)
  }

  /** The halves of a number and of its successor. */
  lemma Halves(n: nat)
    ensures n % 2 == 0 ==> (n + 1) % 2 == 1 && (n + 1) / 2 == n / 2
    ensures n % 2 == 1 ==> (n + 1) % 2 == 0 && (n + 1) / 2 == n / 2 + 1
  {
  }

  lemma {:induction false} PopCountPositive(n: nat)
    ensures (PopCount(n) == 0) == (n == 0)
  {
    if n > 0 && n % 2 == 0 { PopCountPositive(n / 2); }
  }

  lemma MulMonotone(a: int, b: int, c: nat)
    requires a <= b
    ensures a * c <= b * c
  {
  }

  /** q is the quotient of n by d when n lies in the q-th stretch of length d. */
  lemma QuotientIs(n: nat, d: nat, q: nat)
    requires d > 0 && q * d <= n < q * d + d
    ensures n / d == q
  {
    var other := n / d;
    assert n == other * d + n % d;
    assert (other + 1) * d == other * d + d && (q + 1) * d == q * d + d;
    if other < q { MulMonotone(other + 1, q, d); }
    if q < other { MulMonotone(q + 1, other, d); }
  }

  lemma Multiple(q: nat, d: nat)
    requires d > 0
    ensures q * d / d == q && q * d % d == 0
  {
    QuotientIs(q * d, d, q);
    assert q * d == q * d / d * d + q * d % d;
  }

  lemma QuotientBounds(n: nat, d: nat)
    requires d > 0
    ensures n / d * d <= n < n / d * d + d
  {
  }

  lemma HalfThenShift(n: nat, k: nat)
    ensures n / 2 / Pow2(k) == n / Pow2(k + 1)
  {
    var q, d := n / Pow2(k + 1), Pow2(k);
    var low := q * d;
    assert Pow2(k + 1) == 2 * d;
    QuotientBounds(n, 2 * d);
    assert q * (2 * d) == 2 * low;
    assert low <= n / 2 < low + d;
    QuotientIs(n / 2, d, q);
  }

  lemma HalfStretch(n: nat, k: nat, q: nat)
    requires k > 0 && q * Pow2(k) <= n < (q + 1) * Pow2(k)
    ensures q * Pow2(k) <= 2 * (n / 2)
    ensures q * Pow2(k - 1) <= n / 2 < (q + 1) * Pow2(k - 1)
  {
    var low, high := q * Pow2(k - 1), (q + 1) * Pow2(k - 1);
    assert q * Pow2(k) == 2 * low && (q + 1) * Pow2(k) == 2 * high;
  }
}
