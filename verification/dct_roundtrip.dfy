/** What the DCT decoder recovers from the DCT encoder's output: the header
    exactly, the same number of blocks, and for every block the kept
    coefficients as seen through `Q` bits and the `int32_t` cast, zero-filled
    to the block size before the inverse transform. */
module DctRoundTrip {
  import opened Common
  import opened BitStream
  import opened SoundFile
  import opened DctFormat
  import opened DctEncoder
  import opened DctDecoder

  /** The raw codes the stream holds for a run of coefficients written with `q` bits: each lies below `2^q`, a
      coefficient in `[0, 2^q)` is its own code and one in `[-2^q, 0)` is coded as itself plus `2^q`. */
  function RawCodes(cs: seq<int>, q: nat): (raw: seq<nat>)
    ensures |raw| == |cs|
    ensures forall k :: 0 <= k < |cs| ==> raw[k] < Pow2(q)
    ensures forall k :: 0 <= k < |cs| && 0 <= cs[k] < Pow2(q) ==> raw[k] == cs[k]
    ensures forall k :: 0 <= k < |cs| && 0 <= cs[k] + Pow2(q) && cs[k] < 0 ==> raw[k] == cs[k] + Pow2(q)
  {
    assert forall k :: 0 <= k < |cs| && 0 <= cs[k] + Pow2(q) && cs[k] < Pow2(q) ==>
                       cs[k] % Pow2(q) == if cs[k] < 0 then cs[k] + Pow2(q) else cs[k] by {
      forall k | 0 <= k < |cs| && 0 <= cs[k] + Pow2(q) && cs[k] < Pow2(q)
        ensures cs[k] % Pow2(q) == if cs[k] < 0 then cs[k] + Pow2(q) else cs[k]
      {
        if cs[k] < 0 {
          ModUnique(cs[k], Pow2(q), -1, cs[k] + Pow2(q));
        } else {
          ModUnique(cs[k], Pow2(q), 0, cs[k]);
        }
      }
    }
    var residue := (c: int) => (c % Pow2(q)) as nat;
    seq(|cs|, k requires 0 <= k < |cs| => residue(cs[k]))
  }

  /** The coefficients the decoder hands to the inverse transform, in front of the zero fill. Below 32 bits a
      coefficient in `[0, 2^q)` arrives unchanged and one in `[-2^q, 0)` arrives `2^q` larger. */
  function RecoveredAll(cs: seq<int>, q: nat): (rs: seq<int>)
    ensures |rs| == |cs|
    ensures forall k :: 0 <= k < |cs| ==> -0x8000_0000 <= rs[k] < 0x8000_0000
    ensures q < 32 ==> forall k :: 0 <= k < |cs| && 0 <= cs[k] < Pow2(q) ==> rs[k] == cs[k]
    ensures q < 32 ==> forall k :: 0 <= k < |cs| && 0 <= cs[k] + Pow2(q) && cs[k] < 0 ==> rs[k] == cs[k] + Pow2(q)
  {
    assert q < 32 ==> forall k :: 0 <= k < |cs| && 0 <= cs[k] + Pow2(q) && cs[k] < Pow2(q) ==>
                                  Recovered(cs[k], q) == if cs[k] < 0 then cs[k] + Pow2(q) else cs[k] by {
      if q < 32 {
        forall k | 0 <= k < |cs| && 0 <= cs[k] + Pow2(q) && cs[k] < Pow2(q)
          ensures Recovered(cs[k], q) == if cs[k] < 0 then cs[k] + Pow2(q) else cs[k]
        {
          if cs[k] < 0 {
            RecoveredNarrowNegative(cs[k], q);
          } else {
            RecoveredNarrowNonNegative(cs[k], q);
          }
        }
      }
    }
    seq(|cs|, k requires 0 <= k < |cs| => Recovered(cs[k], q))
  }

  /** The decoder's output for a sequence of encoded blocks, before the padding is dropped. */
  function Reconstruction(blocks: seq<seq<int>>, bs: nat, kept: nat, q: nat,
                          dct: seq<int> -> seq<int>, idct: seq<int> -> seq<int>): (samples: seq<Int16>)
    requires kept <= bs && PreservesLength(dct) && PreservesLength(idct)
    requires forall n :: 0 <= n < |blocks| ==> |blocks[n]| == bs
    ensures |samples| == Span(|blocks|, bs)
  {
    if |blocks| == 0 then []
    else
      ReconstructBlock(RecoveredAll(KeptCoefficients(blocks[0], kept, dct), q), bs, idct)
      + Reconstruction(blocks[1..], bs, kept, q, dct, idct)
  }

  lemma {:induction false} ReadCodesAfterWrite(cs: seq<int>, q: nat, rest: Bits)
    requires q <= 64
    ensures ReadCodes(CodesBits(cs, q) + rest, |cs|, q) == Ok((RawCodes(cs, q), rest))
  {
    if |cs| > 0 {
      var tail := CodesBits(cs[1..], q) + rest;
      assert CodesBits(cs, q) + rest == CodeBits(cs[0], q) + tail;
      ReadCode(cs[0], q, tail);
      ReadCodesAfterWrite(cs[1..], q, rest);
      RawCodesCons(cs, q);
    }
  }

  /** One code is read back as the low `q` bits of the coefficient. */
  lemma ReadCode(c: int, q: nat, tail: Bits)
    requires q <= 64
    ensures Read(CodeBits(c, q) + tail, q) == Ok((c % Pow2(q), tail))
  {
    var head := CodeBits(c, q);
    assert (head + tail)[..q] == head;
    assert (head + tail)[q..] == tail;
  }

  lemma RawCodesCons(cs: seq<int>, q: nat)
    requires |cs| > 0
    ensures RawCodes(cs, q) == [cs[0] % Pow2(q)] + RawCodes(cs[1..], q)
  {
    var a := RawCodes(cs, q);
    var b := [cs[0] % Pow2(q)] + RawCodes(cs[1..], q);
    forall k | 0 <= k < |cs|
      ensures a[k] == b[k]
    {
      if k > 0 {
        assert b[k] == RawCodes(cs[1..], q)[k - 1];
        assert cs[1..][k - 1] == cs[k];
      }
    }
  }

  lemma DequantizeRaw(cs: seq<int>, q: nat)
    ensures DequantizeAll(RawCodes(cs, q)) == RecoveredAll(cs, q)
  {
  }

  lemma {:induction false} DecodeBlocksAfterPayload(blocks: seq<seq<int>>, bs: nat, kept: nat, q: nat,
                                                    dct: seq<int> -> seq<int>, idct: seq<int> -> seq<int>, rest: Bits)
    requires kept <= bs && q <= 64 && PreservesLength(dct) && PreservesLength(idct)
    requires forall n :: 0 <= n < |blocks| ==> |blocks[n]| == bs
    ensures DecodeBlocks(Payload(blocks, kept, q, dct) + rest, |blocks|, bs, kept, q, idct)
         == Ok((Reconstruction(blocks, bs, kept, q, dct, idct), rest))
  {
    if |blocks| > 0 {
      var cs := KeptCoefficients(blocks[0], kept, dct);
      var tail := Payload(blocks[1..], kept, q, dct) + rest;
      assert Payload(blocks, kept, q, dct) + rest == CodesBits(cs, q) + tail;
      ReadCodesAfterWrite(cs, q, tail);
      DequantizeRaw(cs, q);
      DecodeBlocksAfterPayload(blocks[1..], bs, kept, q, dct, idct, rest);
    }
  }

  /** Decoding what the encoder wrote yields the original rate and exactly `frames` samples:
      the reconstruction of each padded block from its kept, dequantized coefficients. */
  lemma EncodeThenDecode(info: SndInfo, samples: seq<Int16>, bs: nat, kept: nat, requestedQ: Option<int>,
                         dct: seq<int> -> seq<int>, idct: seq<int> -> seq<int>)
    requires bs >= 1 && kept <= bs && PreservesLength(dct) && PreservesLength(idct)
    requires info.channels == 1 && |samples| == info.frames
    requires IsPcm16Wav(info) && SelectQBits(requestedQ).Ok?
    requires 0 < info.sampleRate < 0x8000_0000 && bs < 0x1_0000 && |samples| < 0x1_0000_0000
    ensures var q := SelectQBits(requestedQ).value;
            var nb := NumBlocks(|samples|, bs);
            var blocks := Blocks(Pad(samples, bs), bs, nb);
            && Encode(info, samples, bs, kept, requestedQ, dct).Ok?
            && Decode(Encode(info, samples, bs, kept, requestedQ, dct).value, idct)
               == Ok(Decoded(info.sampleRate, Reconstruction(blocks, bs, kept, q, dct, idct)[..|samples|]))
  {
    var q := SelectQBits(requestedQ).value;
    var nb := NumBlocks(|samples|, bs);
    var blocks := Blocks(Pad(samples, bs), bs, nb);
    var h := EncoderHeader(info, bs, kept, q);
    var payload := Payload(blocks, kept, q, dct);
    var r := Encode(info, samples, bs, kept, requestedQ, dct).value;
    assert r == HeaderBits(h) + payload;
    EncoderHeaderFits(info, bs, kept, q);
    HeaderRoundTrip(h, payload);
    DecodePayload(h, blocks, dct, idct);
  }

  /** After a header that passes the decoder's checks, the payload of `NumBlocks` encoded blocks decodes to the
      first `frames` samples of their reconstruction. */
  lemma DecodePayload(h: Header, blocks: seq<seq<int>>, dct: seq<int> -> seq<int>, idct: seq<int> -> seq<int>)
    requires h.blockSize >= 1 && h.kept <= h.blockSize && h.qbits <= 64 && DecodedRate(h) > 0
    requires PreservesLength(dct) && PreservesLength(idct)
    requires |blocks| == NumBlocks(h.frames, h.blockSize)
    requires forall n :: 0 <= n < |blocks| ==> |blocks[n]| == h.blockSize
    ensures var all := Reconstruction(blocks, h.blockSize, h.kept, h.qbits, dct, idct);
            h.frames <= |all|
            && DecodeAfterHeader(h, Payload(blocks, h.kept, h.qbits, dct), idct)
               == Ok(Decoded(DecodedRate(h), all[..h.frames]))
  {
    var payload := Payload(blocks, h.kept, h.qbits, dct);
    DecodeBlocksAfterPayload(blocks, h.blockSize, h.kept, h.qbits, dct, idct, []);
    assert payload + [] == payload;
    SpanIsProduct(|blocks|, h.blockSize);
  }

  /** The header of a mono file within the format's limits fits its fields, and its rate reads back unchanged. */
  lemma EncoderHeaderFits(info: SndInfo, bs: nat, kept: nat, q: nat)
    requires 0 < info.sampleRate < 0x8000_0000 && bs < 0x1_0000 && kept <= bs && q <= 64
    requires info.frames < 0x1_0000_0000
    ensures FitsWidths(EncoderHeader(info, bs, kept, q))
    ensures DecodedRate(EncoderHeader(info, bs, kept, q)) == info.sampleRate
  {
    Pow2Widths();
    Pow2Monotone(8, 16);
    ModUnique(info.sampleRate, 0x1_0000_0000, 0, info.sampleRate);
  }

  /** With 32 or more bits and coefficients in `int32_t` range, the inverse transform of every
      block receives exactly the kept coefficients, followed by zeros. */
  lemma WideCodesAreExact(cs: seq<int>, q: nat)
    requires 32 <= q
    requires forall k :: 0 <= k < |cs| ==> -0x8000_0000 <= cs[k] < 0x8000_0000
    ensures RecoveredAll(cs, q) == cs
  {
    forall k | 0 <= k < |cs|
      ensures RecoveredAll(cs, q)[k] == cs[k]
    {
      RecoveredWide(cs[k], q);
    }
  }
}
