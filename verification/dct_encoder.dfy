/** The DCT block encoder (`wav_dct_enc`), mono path.

    The forward transform, its rounding to integers (`lround`) and the
    reading of the samples are outside the model: the transform is a
    parameter `dct` that maps a block of samples to as many integer
    coefficients. */
module DctEncoder {
  import opened Common
  import opened BitStream
  import opened SoundFile
  import opened DctFormat

  datatype EncodeError = BadQBits | NotWav | NotPcm16

  const DEFAULT_QBITS: nat := 32
  const MIN_QBITS: nat := 1
  const MAX_QBITS: nat := 64

  /** The opaque transform maps a block to a coefficient vector of the same length. */
  ghost predicate PreservesLength(t: seq<int> -> seq<int>)
  {
    forall x: seq<int> :: |t(x)| == |x|
  }

  /** The `-qbits` option: 32 when absent, otherwise accepted only within 1..64. */
  function SelectQBits(requested: Option<int>): (r: Result<nat, EncodeError>)
    ensures r.Ok? <==> requested.None? || MIN_QBITS <= requested.value <= MAX_QBITS
    ensures r.Ok? ==> MIN_QBITS <= r.value <= MAX_QBITS
    ensures requested.None? ==> r == Ok(DEFAULT_QBITS)
    ensures requested.Some? && r.Ok? ==> r.value == requested.value
    ensures r.Err? ==> r.error == BadQBits
  {
    match requested
    case None => Ok(DEFAULT_QBITS)
    case Some(q) => if q < MIN_QBITS || q > MAX_QBITS then Err(BadQBits) else Ok(q as nat)
  }

  /** The sample buffer zero-extended to a whole number of blocks. */
  function Pad(samples: seq<int>, bs: nat): (p: seq<int>)
    requires bs >= 1
    ensures |p| == Span(NumBlocks(|samples|, bs), bs)
    ensures |samples| <= |p| < |samples| + bs
    ensures p[..|samples|] == samples
    ensures forall i :: |samples| <= i < |p| ==> p[i] == 0
  {
    var nb := NumBlocks(|samples|, bs);
    var len := Span(nb, bs);
    assert |samples| <= len < |samples| + bs by {
      SpanIsProduct(nb, bs);
      if nb > 0 {
        MulPeel(nb, bs);
      }
    }
    samples + seq(len - |samples|, _ => 0)
  }

  /** The buffer cut into consecutive blocks of `bs` samples. */
  function Blocks(p: seq<int>, bs: nat, nb: nat): (blocks: seq<seq<int>>)
    requires bs >= 1 && |p| == Span(nb, bs)
    ensures |blocks| == nb
    ensures forall n :: 0 <= n < nb ==> |blocks[n]| == bs
    decreases nb
  {
    if nb == 0 then [] else [p[..bs]] + Blocks(p[bs..], bs, nb - 1)
  }

  /** Block `n` holds exactly the samples `n * bs .. n * bs + bs` of the buffer. */
  lemma {:induction false} BlockContents(p: seq<int>, bs: nat, nb: nat, n: nat)
    requires bs >= 1 && |p| == Span(nb, bs) && n < nb
    ensures Span(n + 1, bs) <= |p|
    ensures Blocks(p, bs, nb)[n] == p[Span(n, bs)..Span(n + 1, bs)]
    decreases n
  {
    var rest := Blocks(p[bs..], bs, nb - 1);
    var blocks := Blocks(p, bs, nb);
    assert blocks == [p[..bs]] + rest;
    var lo, hi := Span(n, bs), Span(n + 1, bs);
    assert hi == bs + lo;
    if n == 0 {
      assert lo == 0 && p[lo..hi] == p[..bs];
    } else {
      var lo', hi' := Span(n - 1, bs), Span(n, bs);
      BlockContents(p[bs..], bs, nb - 1, n - 1);
      assert lo == bs + lo' && Span(n - 1 + 1, bs) == hi';
      assert p[bs..][lo'..hi'] == p[lo..hi];
      assert blocks[n] == rest[n - 1];
    }
  }

  /** The Q-bit codes of a run of coefficients, in order. */
  function CodesBits(cs: seq<int>, q: nat): (b: Bits)
    requires q <= 64
    ensures |b| == Span(|cs|, q)
  {
    if |cs| == 0 then [] else CodeBits(cs[0], q) + CodesBits(cs[1..], q)
  }

  lemma {:induction false} CodesBitsAppend(cs: seq<int>, c: int, q: nat)
    requires q <= 64
    ensures CodesBits(cs + [c], q) == CodesBits(cs, q) + CodeBits(c, q)
  {
    if |cs| == 0 {
      assert cs + [c] == [c];
    } else {
      assert (cs + [c])[1..] == cs[1..] + [c];
      CodesBitsAppend(cs[1..], c, q);
    }
  }

  /** The coefficients of a block that survive truncation: `0 .. kept`. */
  function KeptCoefficients(block: seq<int>, kept: nat, dct: seq<int> -> seq<int>): (cs: seq<int>)
    requires PreservesLength(dct) && kept <= |block|
    ensures |cs| == kept
  {
    dct(block)[..kept]
  }

  /** Everything the encoder writes after the header, block by block. */
  function Payload(blocks: seq<seq<int>>, kept: nat, q: nat, dct: seq<int> -> seq<int>): (b: Bits)
    requires PreservesLength(dct) && q <= 64
    requires forall n :: 0 <= n < |blocks| ==> kept <= |blocks[n]|
    ensures |b| == Span(|blocks|, Span(kept, q))
  {
    if |blocks| == 0 then []
    else CodesBits(KeptCoefficients(blocks[0], kept, dct), q) + Payload(blocks[1..], kept, q, dct)
  }

  lemma {:induction false} PayloadAppend(blocks: seq<seq<int>>, block: seq<int>, kept: nat, q: nat, dct: seq<int> -> seq<int>)
    requires PreservesLength(dct) && q <= 64
    requires forall n :: 0 <= n < |blocks| ==> kept <= |blocks[n]|
    requires kept <= |block|
    ensures Payload(blocks + [block], kept, q, dct)
         == Payload(blocks, kept, q, dct) + CodesBits(KeptCoefficients(block, kept, dct), q)
  {
    if |blocks| == 0 {
      assert blocks + [block] == [block];
    } else {
      assert (blocks + [block])[1..] == blocks[1..] + [block];
      PayloadAppend(blocks[1..], block, kept, q, dct);
    }
  }

  /** The header the encoder writes for a mono input. */
  function EncoderHeader(info: SndInfo, bs: nat, kept: nat, q: nat): Header
  {
    Header(info.sampleRate, bs, kept, q, info.frames)
  }

  /** The whole encoded stream for `samples` (the mono frames of `info`). */
  function Encode(info: SndInfo, samples: seq<Int16>, bs: nat, kept: nat, requestedQ: Option<int>,
                  dct: seq<int> -> seq<int>): (r: Result<Bits, EncodeError>)
    requires bs >= 1 && kept <= bs && PreservesLength(dct)
    requires info.channels == 1 && |samples| == info.frames
    ensures r.Ok? <==> SelectQBits(requestedQ).Ok? && IsPcm16Wav(info)
    ensures SelectQBits(requestedQ).Err? ==> r == Err(BadQBits)
    ensures SelectQBits(requestedQ).Ok? && info.container != Wav ==> r == Err(NotWav)
    ensures SelectQBits(requestedQ).Ok? && info.container == Wav && info.encoding != Pcm16 ==> r == Err(NotPcm16)
    ensures r.Ok? ==> var q := SelectQBits(requestedQ).value;
                      && |r.value| == HEADER_BITS + Span(NumBlocks(|samples|, bs), Span(kept, q))
                      && r.value[..HEADER_BITS] == HeaderBits(EncoderHeader(info, bs, kept, q))
  {
    var q :- SelectQBits(requestedQ);
    if info.container != Wav then Err(NotWav)
    else if info.encoding != Pcm16 then Err(NotPcm16)
    else
      var nb := NumBlocks(|samples|, bs);
      var blocks := Blocks(Pad(samples, bs), bs, nb);
      Ok(HeaderBits(EncoderHeader(info, bs, kept, q)) + Payload(blocks, kept, q, dct))
  }

  /** The inner loop: the codes of coefficients `0 .. kept` of one block, appended in order. */
  method EncodeBlock(coeffs: seq<int>, kept: nat, q: nat) returns (out: Bits)
    requires kept <= |coeffs| && q <= 64
    ensures |out| == Span(kept, q)
    ensures out == CodesBits(coeffs[..kept], q)
  {
    out := [];
    var k := 0;
    while k < kept
      invariant 0 <= k <= kept
      invariant out == CodesBits(coeffs[..k], q)
    {
      CodesBitsAppend(coeffs[..k], coeffs[k], q);
      TakeSnoc(coeffs, k);
      out := out + CodeBits(coeffs[k], q);
      k := k + 1;
    }
  }

  /** The block loop as the encoder runs it: each block is transformed and its kept codes appended. */
  method EncodeBlocks(padded: seq<int>, bs: nat, nb: nat, kept: nat, q: nat, dct: seq<int> -> seq<int>)
    returns (out: Bits)
    requires bs >= 1 && |padded| == Span(nb, bs) && kept <= bs && q <= 64 && PreservesLength(dct)
    ensures |out| == Span(nb, Span(kept, q))
    ensures out == Payload(Blocks(padded, bs, nb), kept, q, dct)
  {
    ghost var blocks := Blocks(padded, bs, nb);
    out := [];
    var n := 0;
    while n < nb
      invariant 0 <= n <= nb
      invariant out == Payload(blocks[..n], kept, q, dct)
    {
      BlockContents(padded, bs, nb, n);
      var x := padded[Span(n, bs)..Span(n + 1, bs)];
      var codes := EncodeBlock(dct(x), kept, q);
      PayloadAppend(blocks[..n], blocks[n], kept, q, dct);
      TakeSnoc(blocks, n);
      out := out + codes;
      n := n + 1;
    }
    assert blocks[..nb] == blocks;
  }
}
