/** The container of the DCT block codec: a 104-bit header followed by
    `K` codes of `Q` bits for each block, and the block bookkeeping that the
    encoder and the decoder both derive from the header. */
module DctFormat {
  import opened Common
  import opened BitStream

  /** The five header fields, in the order they are written. */
  datatype Header = Header(sampleRate: nat, blockSize: nat, kept: nat, qbits: nat, frames: nat)

  const RATE_BITS: nat := 32
  const BLOCK_SIZE_BITS: nat := 16
  const KEPT_BITS: nat := 16
  const QBITS_BITS: nat := 8
  const FRAMES_BITS: nat := 32
  const HEADER_BITS: nat := 104

  /** Every field is small enough for its width, so writing it loses nothing. */
  predicate FitsWidths(h: Header)
  {
    && h.sampleRate < Pow2(RATE_BITS)
    && h.blockSize < Pow2(BLOCK_SIZE_BITS)
    && h.kept < Pow2(KEPT_BITS)
    && h.qbits < Pow2(QBITS_BITS)
    && h.frames < Pow2(FRAMES_BITS)
  }

  /** The header as the encoder writes it, before any coefficient. */
  function HeaderBits(h: Header): (b: Bits)
    ensures |b| == HEADER_BITS
  {
    ToBits(h.sampleRate, RATE_BITS) + ToBits(h.blockSize, BLOCK_SIZE_BITS) + ToBits(h.kept, KEPT_BITS)
    + ToBits(h.qbits, QBITS_BITS) + ToBits(h.frames, FRAMES_BITS)
  }

  /** The header as the decoder reads it: the same five fields, same order, same widths. */
  function ReadHeader(r: Bits): (res: Result<(Header, Bits), StreamError>)
    ensures res.Ok? <==> |r| >= HEADER_BITS
    ensures res.Ok? ==> FitsWidths(res.value.0) && res.value.1 == r[HEADER_BITS..]
  {
    var (rate, r1) :- Read(r, RATE_BITS);
    var (bs, r2) :- Read(r1, BLOCK_SIZE_BITS);
    var (kept, r3) :- Read(r2, KEPT_BITS);
    var (q, r4) :- Read(r3, QBITS_BITS);
    var (frames, r5) :- Read(r4, FRAMES_BITS);
    assert r5 == r[HEADER_BITS..];
    Ok((Header(rate, bs, kept, q, frames), r5))
  }

  /** A header whose fields fit their widths is read back exactly, whatever follows it. */
  lemma HeaderRoundTrip(h: Header, rest: Bits)
    requires FitsWidths(h)
    ensures ReadHeader(HeaderBits(h) + rest) == Ok((h, rest))
  {
    var r5 := rest;
    var r4 := ToBits(h.frames, FRAMES_BITS) + r5;
    var r3 := ToBits(h.qbits, QBITS_BITS) + r4;
    var r2 := ToBits(h.kept, KEPT_BITS) + r3;
    var r1 := ToBits(h.blockSize, BLOCK_SIZE_BITS) + r2;
    var r0 := ToBits(h.sampleRate, RATE_BITS) + r1;
    assert HeaderBits(h) + rest == r0;
    ReadAfterWriteFits(h.sampleRate, RATE_BITS, r1);
    ReadAfterWriteFits(h.blockSize, BLOCK_SIZE_BITS, r2);
    ReadAfterWriteFits(h.kept, KEPT_BITS, r3);
    ReadAfterWriteFits(h.qbits, QBITS_BITS, r4);
    ReadAfterWriteFits(h.frames, FRAMES_BITS, r5);
    assert Read(r0, RATE_BITS) == Ok((h.sampleRate, r1));
    assert Read(r1, BLOCK_SIZE_BITS) == Ok((h.blockSize, r2));
    assert Read(r2, KEPT_BITS) == Ok((h.kept, r3));
    assert Read(r3, QBITS_BITS) == Ok((h.qbits, r4));
    assert Read(r4, FRAMES_BITS) == Ok((h.frames, r5));
  }

  /** `ceil(frames / bs)`: the fewest blocks of `bs` samples that cover `frames` samples. */
  function NumBlocks(frames: nat, bs: nat): (nb: nat)
    requires bs >= 1
    ensures nb * bs >= frames
    ensures nb == 0 || (nb - 1) * bs < frames
  {
    var nb := (frames + bs - 1) / bs;
    assert frames + bs - 1 == bs * nb + (frames + bs - 1) % bs;
    nb
  }

  /** The Q-bit code of a rounded coefficient: its `uint64_t` bit pattern, of which the stream keeps the low Q bits. */
  function CodeBits(c: int, q: nat): (b: Bits)
    requires q <= 64
    ensures |b| == q
    ensures FromBits(b) == c % Pow2(q)
  {
    FromToBits(c % Pow2(64), q);
    Pow2Add(q, 64 - q);
    ModMod(c, Pow2(q), Pow2(64 - q));
    ToBits(c % Pow2(64), q)
  }

  /** Dequantization: the raw code read back, reinterpreted by `static_cast<int32_t>`. */
  function Dequantize(raw: nat): int
  {
    AsInt32(raw)
  }

  /** What the decoder makes of a coefficient the encoder wrote with `q` bits. */
  function Recovered(c: int, q: nat): int
  {
    Dequantize(c % Pow2(q))
  }

  /** An `int32_t` value survives any reduction that keeps its residue modulo 2^32, followed by the `int32_t` cast. */
  lemma AsInt32OfInt32(c: int, v: nat)
    requires -0x8000_0000 <= c < 0x8000_0000
    requires v % 0x1_0000_0000 == c % 0x1_0000_0000
    ensures AsInt32(v) == c
  {
    if c < 0 {
      ModUnique(c, 0x1_0000_0000, -1, c + 0x1_0000_0000);
    } else {
      ModUnique(c, 0x1_0000_0000, 0, c);
    }
  }

  /** With 32 or more bits every coefficient in `int32_t` range comes back unchanged. */
  lemma RecoveredWide(c: int, q: nat)
    requires 32 <= q
    requires -0x8000_0000 <= c < 0x8000_0000
    ensures Recovered(c, q) == c
  {
    ModModPow2(c, q, 32, q - 32);
    assert Pow2(32) == 0x1_0000_0000 by {
      Pow2Widths();
    }
    AsInt32OfInt32(c, c % Pow2(q));
  }

  /** Reducing modulo `2^n`, `n = a + b`, and then modulo `2^a` is reducing modulo `2^a`. */
  lemma ModModPow2(c: int, n: nat, a: nat, b: nat)
    requires n == a + b
    ensures c % Pow2(n) % Pow2(a) == c % Pow2(a)
  {
    Pow2Add(a, b);
    ModMod(c, Pow2(a), Pow2(b));
  }

  /** With fewer than 32 bits the codes in `[0, 2^q)` come back unchanged. */
  lemma RecoveredNarrowNonNegative(c: int, q: nat)
    requires q < 32
    requires 0 <= c < Pow2(q)
    ensures Recovered(c, q) == c
  {
    Pow2Widths();
    Pow2Monotone(q, 31);
    ModUnique(c, Pow2(q), 0, c);
    AsInt32Small(c);
  }

  /** With fewer than 32 bits a negative code is not sign-extended: it comes back 2^q larger. */
  lemma RecoveredNarrowNegative(c: int, q: nat)
    requires q < 32
    requires 0 <= c + Pow2(q) && c < 0
    ensures Recovered(c, q) == c + Pow2(q)
    ensures Recovered(c, q) >= 0
  {
    Pow2Widths();
    Pow2Monotone(q, 31);
    ModUnique(c, Pow2(q), -1, c + Pow2(q));
    AsInt32Small(c + Pow2(q));
  }

  /** The `int32_t` cast leaves non-negative values below 2^31 alone. */
  lemma AsInt32Small(v: nat)
    requires v < 0x8000_0000
    ensures AsInt32(v) == v
  {
    ModUnique(v, 0x1_0000_0000, 0, v);
  }
}
