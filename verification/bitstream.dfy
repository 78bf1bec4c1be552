/** The bit-granular stream both codecs write and read through.

    Only the observable contract of the stream is modelled: a writer appends
    the low `n` bits of a value in one fixed order (most significant first
    here) and a reader consumes `n` bits in that same order, failing when
    fewer than `n` remain. The byte-level layout and the zero padding of the
    last byte belong to bit_stream.h, which is not part of this model. */
module BitStream {
  import opened Common

  type Bits = seq<bool>

  datatype StreamError = EndOfStream

  /** The low `n` bits of `v`, most significant first. */
  function ToBits(v: nat, n: nat): (b: Bits)
    ensures |b| == n
  {
    if n == 0 then [] else ToBits(v / 2, n - 1) + [v % 2 == 1]
  }

  /** The number whose binary digits, most significant first, are `b`. */
  function FromBits(b: Bits): (v: nat)
    ensures v < Pow2(|b|)
  {
    if |b| == 0 then 0 else 2 * FromBits(b[..|b| - 1]) + (if b[|b| - 1] then 1 else 0)
  }

  /** A group of `n` bits names a value below `2^n`. */
  lemma FromBitsBelow(b: Bits, n: nat)
    requires |b| == n
    ensures FromBits(b) < Pow2(n)
  {
  }

  lemma ModDouble(v: nat, p: nat)
    requires p >= 1
    ensures v % (2 * p) == 2 * ((v / 2) % p) + v % 2
  {
    var q := v / 2;
    var a := q / p;
    var b := q % p;
    assert v == 2 * q + v % 2;
    assert q == p * a + b;
    assert v == (2 * p) * a + (2 * b + v % 2);
    ModUnique(v, 2 * p, a, 2 * b + v % 2);
  }

  /** Reading back `n` written bits yields the value reduced modulo 2^n. */
  lemma {:induction false} FromToBits(v: nat, n: nat)
    ensures FromBits(ToBits(v, n)) == v % Pow2(n)
  {
    if n > 0 {
      var b := ToBits(v, n);
      assert b[..n - 1] == ToBits(v / 2, n - 1);
      FromToBits(v / 2, n - 1);
      ModDouble(v, Pow2(n - 1));
    }
  }

  /** Writing the value of `n` bits reproduces those bits. */
  lemma {:induction false} ToFromBits(b: Bits)
    ensures ToBits(FromBits(b), |b|) == b
  {
    if |b| > 0 {
      var n := |b|;
      var v := FromBits(b);
      assert v / 2 == FromBits(b[..n - 1]);
      assert (v % 2 == 1) == b[n - 1];
      ToFromBits(b[..n - 1]);
      assert b == b[..n - 1] + [b[n - 1]];
    }
  }

  /** `write_n_bits(v, n)` on a stream that already holds `w`. */
  function Write(w: Bits, v: nat, n: nat): (w': Bits)
    ensures |w'| == |w| + n
    ensures w'[..|w|] == w
    ensures FromBits(w'[|w|..]) == v % Pow2(n)
  {
    FromToBits(v, n);
    assert (w + ToBits(v, n))[|w|..] == ToBits(v, n);
    w + ToBits(v, n)
  }

  /** `read_n_bits(n)` on a stream whose unread part is `r`: the value and what remains. */
  function Read(r: Bits, n: nat): (res: Result<(nat, Bits), StreamError>)
    ensures res.Ok? <==> n <= |r|
    ensures res.Ok? ==> res.value.0 < Pow2(n) && r == ToBits(res.value.0, n) + res.value.1
  {
    if |r| < n then Err(EndOfStream)
    else
      ToFromBits(r[..n]);
      assert r == r[..n] + r[n..];
      Ok((FromBits(r[..n]), r[n..]))
  }

  /** A value written with `n` bits is read back modulo 2^n, and the rest of the stream follows. */
  lemma ReadAfterWrite(v: nat, n: nat, rest: Bits)
    ensures Read(ToBits(v, n) + rest, n) == Ok((v % Pow2(n), rest))
  {
    var r := ToBits(v, n) + rest;
    assert r[..n] == ToBits(v, n);
    assert r[n..] == rest;
    FromToBits(v, n);
  }

  /** A value that fits in `n` bits is read back exactly. */
  lemma ReadAfterWriteFits(v: nat, n: nat, rest: Bits)
    requires v < Pow2(n)
    ensures Read(ToBits(v, n) + rest, n) == Ok((v, rest))
  {
    ReadAfterWrite(v, n, rest);
    ModUnique(v, Pow2(n), 0, v);
  }
}
