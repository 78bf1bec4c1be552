/** Integer helpers shared by every tool: powers of two, the fixed-width
    conversions that C++ performs implicitly on `short`, `int32_t` and
    unsigned types, and the failure-carrying result type. */
module Common {

  /** Either a value or the error that stopped the computation; usable with `:-`. */
  datatype Result<+T, +E> = Ok(value: T) | Err(error: E) {

    predicate IsFailure() {
      Err?
    }

    function PropagateFailure<U>(): Result<U, E>
      requires Err?
    {
      Err(error)
    }

    function Extract(): T
      requires Ok?
    {
      value
    }
  }

  datatype Option<+T> = None | Some(value: T)

  /** A C++ `short` / `int16_t`. */
  type Int16 = x: int | -32768 <= x < 32768

  /** An unsigned 8-bit value. */
  type Byte = x: int | 0 <= x < 256

  function Pow2(n: nat): (r: nat)
    ensures r >= 1
  {
    if n == 0 then 1 else 2 * Pow2(n - 1)
  }

  lemma {:induction false} Pow2Add(a: nat, b: nat)
    ensures Pow2(a + b) == Pow2(a) * Pow2(b)
    decreases a
  {
    if a > 0 {
      Pow2Add(a - 1, b);
      assert Pow2(a + b) == 2 * Pow2(a - 1 + b);
    }
  }

  lemma {:induction false} Pow2Monotone(a: nat, b: nat)
    requires a <= b
    ensures Pow2(a) <= Pow2(b)
    decreases b
  {
    if a < b {
      Pow2Monotone(a, b - 1);
    }
  }

  /** The powers of two that appear as C++ type widths. */
  lemma Pow2Widths()
    ensures Pow2(8) == 256 && Pow2(15) == 32768 && Pow2(16) == 65536
    ensures Pow2(31) == 0x8000_0000 && Pow2(32) == 0x1_0000_0000
  {
    assert Pow2(4) == 16 by {
      assert Pow2(1) == 2;
      assert Pow2(2) == 4;
      assert Pow2(3) == 8;
    }
    Pow2Add(4, 4);
    Pow2Add(8, 7);
    Pow2Add(8, 8);
    Pow2Add(16, 15);
    Pow2Add(16, 16);
  }

  /** Conversion of any integer to `short`: reduction modulo 2^16 into [-32768, 32768). */
  function Wrap16(x: int): Int16
  {
    (x + 32768) % 65536 - 32768
  }

  /** Values already in range are left alone; others move by a multiple of 2^16. */
  lemma Wrap16Properties(x: int)
    ensures -32768 <= x < 32768 ==> Wrap16(x) == x
    ensures (Wrap16(x) - x) % 65536 == 0
  {
    var k := (x + 32768) / 65536;
    assert x + 32768 == 65536 * k + (x + 32768) % 65536;
    assert Wrap16(x) - x == -65536 * k;
    ModUnique(Wrap16(x) - x, 65536, -k, 0);
    if -32768 <= x < 32768 {
      ModUnique(x + 32768, 65536, 0, x + 32768);
    }
  }

  /** `static_cast<int32_t>` of an unsigned value: its low 32 bits read as two's complement. */
  function AsInt32(v: nat): (r: int)
    ensures -0x8000_0000 <= r < 0x8000_0000
  {
    var w := v % 0x1_0000_0000;
    if w >= 0x8000_0000 then w - 0x1_0000_0000 else w
  }

  /** C++ integer division by 2, which truncates toward zero. */
  function Half(x: int): (r: int)
    ensures x >= 0 ==> 2 * r <= x <= 2 * r + 1
    ensures x < 0 ==> 2 * r - 1 <= x <= 2 * r
  {
    if x >= 0 then x / 2 else -((-x) / 2)
  }

  function Abs(x: int): nat
  {
    if x < 0 then -x else x
  }

  function Max(a: int, b: int): int
  {
    if a < b then b else a
  }

  function Min(a: int, b: int): int
  {
    if a < b then a else b
  }

  /** Reading `v % (a * b)` modulo `a` is the same as reading `v` modulo `a`. */
  lemma ModMod(v: int, a: nat, b: nat)
    requires a >= 1 && b >= 1
    ensures v % (a * b) % a == v % a
  {
    var q := v / (a * b);
    var m := v % (a * b);
    assert v == (a * b) * q + m;
    assert v == a * (b * q) + m;
    var q2 := m / a;
    var m2 := m % a;
    assert m == a * q2 + m2;
    assert v == a * (b * q + q2) + m2;
    ModUnique(v, a, b * q + q2, m2);
  }

  /** Division with remainder has exactly one solution. */
  lemma ModUnique(v: int, d: int, q: int, m: int)
    requires d >= 1 && 0 <= m < d && v == d * q + m
    ensures v % d == m && v / d == q
  {
    var q' := v / d;
    var m' := v % d;
    assert v == d * q' + m';
    var k := q - q';
    assert d * k == m' - m by {
      assert d * q - d * q' == m' - m;
    }
    if k >= 1 {
      MulAtLeast(d, k);
    } else if k <= -1 {
      MulAtLeast(d, -k);
    }
  }

  lemma MulAtLeast(d: int, k: int)
    requires d >= 1 && k >= 1
    ensures d * k >= d
  {
    assert d * k == d * (k - 1) + d;
    assert d * (k - 1) >= 0;
  }

  /** Peeling one factor off a product. */
  lemma MulPeel(n: nat, m: nat)
    requires n >= 1
    ensures n * m == m + (n - 1) * m
    ensures (n - 1) * m <= n * m
  {
  }

  /** The residue of `n + 1` follows from the residue of `n`. */
  lemma ModStep(n: nat, d: nat)
    requires d >= 1
    ensures (n + 1) % d == if n % d + 1 == d then 0 else n % d + 1
  {
    assert n == d * (n / d) + n % d;
    if n % d + 1 == d {
      ModUnique(n + 1, d, n / d + 1, 0);
    } else {
      ModUnique(n + 1, d, n / d, n % d + 1);
    }
  }

  /** Indices closer together than `d` have different residues. */
  lemma ModDistinct(k: nat, i: nat, d: nat)
    requires d >= 1 && k < i < k + d
    ensures k % d != i % d
  {
    var qi, qk := i / d, k / d;
    assert i == d * qi + i % d;
    assert k == d * qk + k % d;
    if k % d == i % d {
      var m := qi - qk;
      assert i - k == d * m;
      if m <= 0 {
        MulMono(m, 0, d);
      } else {
        MulMono(1, m, d);
      }
    }
  }

  /** `count * width`, unfolded one factor at a time so that stream offsets stay linear. */
  function Span(count: nat, width: nat): nat
  {
    if count == 0 then 0 else width + Span(count - 1, width)
  }

  /** A span is the product of its count and width. */
  lemma {:induction false} SpanIsProduct(count: nat, width: nat)
    ensures Span(count, width) == count * width
    decreases count
  {
    if count > 0 {
      SpanIsProduct(count - 1, width);
      MulPeel(count, width);
    }
  }

  /** Spans of consecutive runs add up. */
  lemma {:induction false} SpanAdd(a: nat, b: nat, width: nat)
    ensures Span(a + b, width) == Span(a, width) + Span(b, width)
    decreases a
  {
    if a > 0 {
      SpanAdd(a - 1, b, width);
      assert Span(a + b, width) == width + Span(a - 1 + b, width);
    }
  }

  /** A run that starts before run `count` ends within its span. */
  lemma SpanBelow(f: nat, count: nat, width: nat)
    requires f < count
    ensures Span(f, width) + width <= Span(count, width)
  {
    SpanAdd(f + 1, count - 1 - f, width);
    SpanAdd(f, 1, width);
  }

  /** A prefix one longer is the prefix with the next element appended. */
  lemma TakeSnoc<T>(s: seq<T>, n: nat)
    requires n < |s|
    ensures s[..n + 1] == s[..n] + [s[n]]
  {
  }

  /** Past its head, a sequence built by prepending reads as its tail. */
  lemma ConsAt<T>(x: T, r: seq<T>, s: seq<T>, i: nat)
    requires s == [x] + r && 1 <= i < |s|
    ensures s[i] == r[i - 1]
  {
  }

  /** Past its first part, a concatenation reads as its second part. */
  lemma AppendAt<T>(a: seq<T>, b: seq<T>, s: seq<T>, k: nat)
    requires s == a + b && |a| <= k < |s|
    ensures s[k] == b[k - |a|]
  {
  }

  /** A slice of a suffix is a slice of the whole, shifted by the suffix's start. */
  lemma SliceOfDrop<T>(s: seq<T>, k: nat, a: nat, b: nat, c: nat, e: nat)
    requires a <= b && k + b <= |s| && c == k + a && e == k + b
    ensures s[k..][a..b] == s[c..e]
  {
  }

  /** The quotient and the remainder bracket the dividend. */
  lemma DivBounds(x: int, w: nat)
    requires w >= 1
    ensures (x / w) * w <= x < (x / w) * w + w
  {
    assert x == w * (x / w) + x % w;
  }

  /** Natural division stays within `[0, x]`. */
  lemma QuotientNat(x: nat, w: nat)
    requires w >= 1
    ensures 0 <= x / w <= x
  {
    var k := x / w;
    assert x == w * k + x % w;
    if k < 0 {
      MulMono(k, -1, w);
    } else if k > x {
      MulMono(1, w, k);
    }
  }

  /** A dividend below `p` whole divisors has a quotient below `p`. */
  lemma QuotientBelow(x: nat, w: nat, p: nat)
    requires w >= 1 && x < p * w
    ensures 0 <= x / w < p
  {
    var k := x / w;
    assert x == w * k + x % w;
    if k >= p {
      MulMono(p, k, w);
    } else if k < 0 {
      MulMono(k, -1, w);
    }
  }

  /** The odd multiples `(2i + 1) w` for `i < p` lie between `w` and `2 p w - w`. */
  lemma OddMultipleRange(i: nat, p: nat, w: nat)
    requires i < p
    ensures w <= (2 * i + 1) * w <= 2 * (p * w) - w
  {
    MulMono(1, 2 * i + 1, w);
    MulMono(2 * i + 1, 2 * p - 1, w);
    assert (2 * p - 1) * w == 2 * (p * w) - w;
  }

  /** An odd multiple of an even number is twice an odd multiple of its half. */
  lemma OddTimesEven(i: nat, h: nat)
    ensures (2 * i + 1) * (2 * h) == 2 * (i * (2 * h) + h)
  {
  }

  lemma MulMono(a: int, b: int, c: nat)
    requires a <= b
    ensures a * c <= b * c
  {
  }

  lemma MulStrict(a: int, b: int, c: nat)
    requires a < b && c >= 1
    ensures a * c < b * c
  {
  }

  /** Scaling numerator and denominator by the same factor does not change the quotient. */
  lemma DivScale(x: nat, a: nat, b: nat)
    requires a >= 1 && b >= 1
    ensures (x * a) / (a * b) == x / b
  {
    var k := x / b;
    var m := x % b;
    assert x == b * k + m;
    assert x * a == (a * b) * k + a * m by {
      assert x * a == (b * k + m) * a;
    }
    MulStrict(m, b, a);
    assert a * m < a * b;
    ModUnique(x * a, a * b, k, a * m);
  }

  lemma DivMono(x: nat, y: nat, d: nat)
    requires x <= y && d >= 1
    ensures x / d <= y / d
  {
    var kx := x / d;
    var ky := y / d;
    assert x == d * kx + x % d;
    assert y == d * ky + y % d;
    if kx > ky {
      MulMono(ky + 1, kx, d);
    }
  }
}
