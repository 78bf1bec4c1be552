/** The DCT block decoder (`wav_dct_dec`), mono path.

    The inverse transform, its division by `2 * bs` and the `lround` of the
    result are outside the model: they form the parameter `idct`, which maps
    a coefficient vector to as many integer samples. */
module DctDecoder {
  import opened Common
  import opened BitStream
  import opened DctFormat
  import opened DctEncoder

  /** Why decoding stops. `Truncated` is the stream running out of bits;
      `ZeroBlockSize` and `KeptExceedsBlock` are header values for which the
      decoder's own arithmetic or buffer indexing is undefined in C++. */
  datatype DecodeError = Truncated | InvalidSampleRate | ZeroBlockSize | KeptExceedsBlock

  /** The decoded mono signal and the rate it is written with. */
  datatype Decoded = Decoded(sampleRate: int, samples: seq<Int16>)

  /** Saturation of a reconstructed sample into the `short` range. */
  function Clip(v: int): (r: Int16)
    ensures -32768 <= v <= 32767 ==> r == v
    ensures v > 32767 ==> r == 32767
    ensures v < -32768 ==> r == -32768
  {
    if v > 32767 then 32767 else if v < -32768 then -32768 else v
  }

  /** The inverse-transform input: the dequantized codes in front, zeros behind. */
  function FillCoefficients(codes: seq<int>, bs: nat): (x: seq<int>)
    requires |codes| <= bs
    ensures |x| == bs
    ensures x[..|codes|] == codes
    ensures forall k :: |codes| <= k < bs ==> x[k] == 0
  {
    codes + seq(bs - |codes|, _ => 0)
  }

  /** One reconstructed block: inverse transform of the filled vector, each sample clipped. Where the transform
      stays inside the `short` range the clip changes nothing. */
  function ReconstructBlock(codes: seq<int>, bs: nat, idct: seq<int> -> seq<int>): (samples: seq<Int16>)
    requires |codes| <= bs && PreservesLength(idct)
    ensures |samples| == bs
    ensures (forall k :: 0 <= k < bs ==> -32768 <= idct(FillCoefficients(codes, bs))[k] <= 32767)
            ==> samples == idct(FillCoefficients(codes, bs))
  {
    var y := idct(FillCoefficients(codes, bs));
    seq(bs, k requires 0 <= k < bs => Clip(y[k]))
  }

  /** `count` raw codes of `q` bits and the unread rest of the stream. */
  function ReadCodes(r: Bits, count: nat, q: nat): (res: Result<(seq<nat>, Bits), StreamError>)
    ensures res.Ok? <==> Span(count, q) <= |r|
    ensures res.Ok? ==> |res.value.0| == count && res.value.1 == r[Span(count, q)..]
    decreases count
  {
    if count == 0 then Ok(([], r))
    else
      match Read(r, q)
      case Err(e) => Err(e)
      case Ok((raw, r')) =>
        match ReadCodes(r', count - 1, q)
        case Err(e) => Err(e)
        case Ok((codes, r'')) => Ok(([raw] + codes, r''))
  }

  /** The raw codes of one block, each reinterpreted as `int32_t`: every code lands in `int32_t` range, and a code
      below 2^31 is kept as it is. */
  function DequantizeAll(raw: seq<nat>): (codes: seq<int>)
    ensures |codes| == |raw|
    ensures forall k :: 0 <= k < |raw| ==> -0x8000_0000 <= codes[k] < 0x8000_0000
    ensures forall k :: 0 <= k < |raw| && raw[k] < 0x8000_0000 ==> codes[k] == raw[k]
  {
    assert forall k :: 0 <= k < |raw| && raw[k] < 0x8000_0000 ==> AsInt32(raw[k]) == raw[k] by {
      forall k | 0 <= k < |raw| && raw[k] < 0x8000_0000
        ensures AsInt32(raw[k]) == raw[k]
      {
        AsInt32Small(raw[k]);
      }
    }
    seq(|raw|, k requires 0 <= k < |raw| => Dequantize(raw[k]))
  }

  /** `nb` blocks of `kept` codes each, reconstructed one after another. */
  function DecodeBlocks(r: Bits, nb: nat, bs: nat, kept: nat, q: nat, idct: seq<int> -> seq<int>)
    : (res: Result<(seq<Int16>, Bits), StreamError>)
    requires kept <= bs && PreservesLength(idct)
    ensures res.Ok? <==> Span(nb, Span(kept, q)) <= |r|
    ensures res.Ok? ==> |res.value.0| == Span(nb, bs) && res.value.1 == r[Span(nb, Span(kept, q))..]
    decreases nb
  {
    if nb == 0 then Ok(([], r))
    else
      match ReadCodes(r, kept, q)
      case Err(e) => Err(e)
      case Ok((codes, r')) =>
        match DecodeBlocks(r', nb - 1, bs, kept, q, idct)
        case Err(e) => Err(e)
        case Ok((rest, r'')) => Ok((ReconstructBlock(DequantizeAll(codes), bs, idct) + rest, r''))
  }

  /** The sample rate field read as the decoder's `int`. */
  function DecodedRate(h: Header): int
  {
    AsInt32(h.sampleRate)
  }

  /** The header values for which the decoder's arithmetic and indexing are defined: a block size, and for a
      non-empty signal no more kept coefficients than the block holds. */
  predicate DefinedLayout(h: Header)
  {
    h.blockSize >= 1 && (NumBlocks(h.frames, h.blockSize) == 0 || h.kept <= h.blockSize)
  }

  /** The payload holds the codes of every block the header announces. */
  predicate PayloadComplete(h: Header, rest: Bits)
    requires h.blockSize >= 1
  {
    Span(NumBlocks(h.frames, h.blockSize), Span(h.kept, h.qbits)) <= |rest|
  }

  /** Everything after the header: the rate check, the block loop, the first `frames` samples. The rate is the only
      header value the decoder rejects; beyond it, decoding fails only for a layout C++ leaves undefined or a
      payload that runs out of bits. */
  function DecodeAfterHeader(h: Header, rest: Bits, idct: seq<int> -> seq<int>): (res: Result<Decoded, DecodeError>)
    requires PreservesLength(idct)
    ensures res == Err(InvalidSampleRate) <==> DecodedRate(h) <= 0
    ensures res == Err(ZeroBlockSize) <==> DecodedRate(h) > 0 && h.blockSize == 0
    ensures res == Err(KeptExceedsBlock) <==> DecodedRate(h) > 0 && h.blockSize >= 1 && !DefinedLayout(h)
    ensures res == Err(Truncated) <==> DecodedRate(h) > 0 && DefinedLayout(h) && !PayloadComplete(h, rest)
    ensures res.Ok? <==> DecodedRate(h) > 0 && DefinedLayout(h) && PayloadComplete(h, rest)
    ensures res.Ok? ==> res.value.sampleRate == DecodedRate(h) > 0 && |res.value.samples| == h.frames
  {
    var rate := DecodedRate(h);
    if rate <= 0 then Err(InvalidSampleRate)
    else if h.blockSize == 0 then Err(ZeroBlockSize)
    else
      var nb := NumBlocks(h.frames, h.blockSize);
      if nb > 0 && h.kept > h.blockSize then Err(KeptExceedsBlock)
      else if nb == 0 then Ok(Decoded(rate, []))
      else
        match DecodeBlocks(rest, nb, h.blockSize, h.kept, h.qbits, idct)
        case Err(_) => Err(Truncated)
        case Ok((samples, _)) =>
          SpanIsProduct(nb, h.blockSize);
          assert h.frames <= |samples|;
          Ok(Decoded(rate, samples[..h.frames]))
  }

  /** The whole decoder: the header, then everything after it. */
  function Decode(r: Bits, idct: seq<int> -> seq<int>): (res: Result<Decoded, DecodeError>)
    requires PreservesLength(idct)
    ensures ReadHeader(r).Err? ==> res == Err(Truncated)
    ensures res == Err(InvalidSampleRate) <==> ReadHeader(r).Ok? && DecodedRate(ReadHeader(r).value.0) <= 0
    ensures res.Ok? <==> && ReadHeader(r).Ok?
                         && var (h, rest) := ReadHeader(r).value;
                            DecodedRate(h) > 0 && DefinedLayout(h) && PayloadComplete(h, rest)
    ensures res.Ok? ==> ReadHeader(r).Ok? && var h := ReadHeader(r).value.0;
                        && res.value.sampleRate == DecodedRate(h) > 0
                        && |res.value.samples| == h.frames
  {
    match ReadHeader(r)
    case Err(_) => Err(Truncated)
    case Ok((h, rest)) => DecodeAfterHeader(h, rest, idct)
  }

  /** The only rejected rates are zero and those at or above 2^31, which read back negative. */
  lemma RateCheck(h: Header)
    requires h.sampleRate < 0x1_0000_0000
    ensures DecodedRate(h) <= 0 <==> h.sampleRate == 0 || h.sampleRate >= 0x8000_0000
  {
    ModUnique(h.sampleRate, 0x1_0000_0000, 0, h.sampleRate);
  }
}
