/** The bit-clearing quantizer (`WAVQuant`): each 16-bit sample loses its
    `n` least significant bits by an arithmetic right shift followed by a
    left shift, and the result is appended to the stored samples. */
module WavQuant {
  import opened Common

  /** The largest multiple of `p` not above `s`: what `(s >> n) << n` computes before it is stored back in a `short`. */
  function RoundDown(s: int, p: nat): int
    requires p >= 1
  {
    (s / p) * p
  }

  /** `RoundDown` is a multiple of `p`, within `p` below `s`, and no multiple of `p` up to `s` exceeds it. */
  lemma RoundDownIsLargestMultiple(s: int, p: nat, m: int)
    requires p >= 1 && m % p == 0 && m <= s
    ensures RoundDown(s, p) <= s < RoundDown(s, p) + p
    ensures RoundDown(s, p) % p == 0
    ensures m <= RoundDown(s, p)
  {
    var q := s / p;
    assert s == p * q + s % p;
    ModUnique(q * p, p, q, 0);
    var k := m / p;
    assert m == p * k + m % p;
    if k > q {
      MulMono(q + 1, k, p);
      assert false;
    }
    MulMono(k, q, p);
  }

  /** One sample through the shift pair; the shift count is a `size_t` and a count of 32 or more is undefined. */
  function ClearLowBits(s: Int16, n: nat): Int16
    requires n < 32
  {
    Wrap16(RoundDown(s, Pow2(n)))
  }

  /** The most negative sample is a multiple of every `2^n` up to `2^15`. */
  lemma MinSampleIsMultiple(n: nat)
    requires n <= 15
    ensures -32768 % Pow2(n) == 0
  {
    var k: int := Pow2(15 - n);
    assert Pow2(n) * k == 32768 by {
      Pow2Add(n, 15 - n);
      Pow2Widths();
    }
    ModUnique(-32768, Pow2(n), -k, 0);
  }

  /** Up to 15 cleared bits the result is the largest multiple of `2^n` not above the sample: never louder, less than `2^n` below it. */
  lemma ClearLowBitsNarrow(s: Int16, n: nat, m: int)
    requires n <= 15 && m % Pow2(n) == 0 && m <= s
    ensures var r := ClearLowBits(s, n);
            && r <= s < r + Pow2(n)
            && r % Pow2(n) == 0
            && m <= r
  {
    var p := Pow2(n);
    MinSampleIsMultiple(n);
    RoundDownIsLargestMultiple(s, p, -32768);
    RoundDownIsLargestMultiple(s, p, m);
    Wrap16Properties(RoundDown(s, p));
  }

  /** From 16 cleared bits on every sample becomes silence. */
  lemma ClearLowBitsWide(s: Int16, n: nat)
    requires 16 <= n < 32
    ensures ClearLowBits(s, n) == 0
  {
    var p := Pow2(n);
    Pow2Add(16, n - 16);
    Pow2Widths();
    if s >= 0 {
      ModUnique(s, p, 0, s);
    } else {
      ModUnique(s, p, -1, s + p);
      var k: int := Pow2(n - 16);
      assert RoundDown(s, p) + 32768 == 65536 * (-k) + 32768;
      ModUnique(RoundDown(s, p) + 32768, 65536, -k, 32768);
    }
  }

  /** Clearing the same bits twice is clearing them once. */
  lemma ClearLowBitsIdempotent(s: Int16, n: nat)
    requires n < 32
    ensures ClearLowBits(ClearLowBits(s, n), n) == ClearLowBits(s, n)
  {
    var r := ClearLowBits(s, n);
    if n <= 15 {
      MinSampleIsMultiple(n);
      ClearLowBitsNarrow(s, n, -32768);
      ClearLowBitsNarrow(r, n, r);
    } else {
      ClearLowBitsWide(s, n);
      ClearLowBitsWide(r, n);
    }
  }

  /** Clearing no bits keeps every sample. */
  lemma ClearNoBits(s: Int16)
    ensures ClearLowBits(s, 0) == s
  {
    Wrap16Properties(s);
  }

  /** The `quant` member: the stored samples grow by the cleared copies of `samples`, in order. */
  method Quant(stored: seq<Int16>, samples: seq<Int16>, n: nat) returns (result: seq<Int16>)
    requires n < 32
    ensures |result| == |stored| + |samples|
    ensures result[..|stored|] == stored
    ensures forall i :: 0 <= i < |samples| ==> result[|stored| + i] == ClearLowBits(samples[i], n)
  {
    result := stored;
    var i := 0;
    while i < |samples|
      invariant 0 <= i <= |samples|
      invariant |result| == |stored| + i
      invariant result[..|stored|] == stored
      invariant forall j :: 0 <= j < i ==> result[|stored| + j] == ClearLowBits(samples[j], n)
    {
      result := result + [ClearLowBits(samples[i], n)];
      i := i + 1;
    }
  }
}
