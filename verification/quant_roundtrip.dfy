/** What the time-domain quantizer pair guarantees end to end: decoding an
    encoded file gives back every sample at the midpoint of its bin, in a
    WAV file the encoder reads back field for field. */
module QuantRoundTrip {
  import opened Common
  import opened Bytes
  import opened BitStream
  import opened QuantEncoder
  import opened QuantDecoder

  /** Each sample replaced by the midpoint of its bin. */
  function Requantized(samples: seq<Int16>, q: nat): (r: seq<Int16>)
    requires MIN_QBITS <= q <= MAX_QBITS
    ensures |r| == |samples|
  {
    seq(|samples|, i requires 0 <= i < |samples| => Reconstruct(QuantIndex(samples[i], q), q))
  }

  /** One step of the decoding loop over an index the encoder wrote. */
  lemma DecodeStep(idx: nat, rest: Bits, total: nat, q: nat)
    requires MIN_QBITS <= q <= MAX_QBITS && idx < Pow2(q) && total >= 1
    ensures DecodeSamples(ToBits(idx, q) + rest, total, q) == [Reconstruct(idx, q)] + DecodeSamples(rest, total - 1, q)
  {
    var payload := ToBits(idx, q) + rest;
    assert payload[..q] == ToBits(idx, q);
    assert payload[q..] == rest;
    FromToBits(idx, q);
    ModUnique(idx, Pow2(q), 0, idx);
  }

  /** The decoding loop reads back every index the encoding loop wrote. */
  lemma {:induction false} DecodeIndexBits(samples: seq<Int16>, q: nat)
    requires MIN_QBITS <= q <= MAX_QBITS
    ensures DecodeSamples(IndexBits(samples, q), |samples|, q) == Requantized(samples, q)
  {
    if |samples| > 0 {
      var idx := QuantIndex(samples[0], q);
      assert IndexBits(samples, q) == ToBits(idx, q) + IndexBits(samples[1..], q);
      DecodeStep(idx, IndexBits(samples[1..], q), |samples|, q);
      DecodeIndexBits(samples[1..], q);
      RequantizedCons(samples, q);
    }
  }

  lemma RequantizedCons(samples: seq<Int16>, q: nat)
    requires MIN_QBITS <= q <= MAX_QBITS && |samples| > 0
    ensures Requantized(samples, q) == [Reconstruct(QuantIndex(samples[0], q), q)] + Requantized(samples[1..], q)
  {
    var r, rest := Requantized(samples, q), Requantized(samples[1..], q);
    var t := [Reconstruct(QuantIndex(samples[0], q), q)] + rest;
    forall i | 1 <= i < |samples|
      ensures r[i] == t[i]
    {
      ConsAt(Reconstruct(QuantIndex(samples[0], q), q), rest, t, i);
      RequantizedShift(samples, q, i);
    }
  }

  lemma RequantizedShift(samples: seq<Int16>, q: nat, i: nat)
    requires MIN_QBITS <= q <= MAX_QBITS && 1 <= i < |samples|
    ensures Requantized(samples, q)[i] == Requantized(samples[1..], q)[i - 1]
  {
    assert samples[1..][i - 1] == samples[i];
  }

  /** Two bytes per sample, in order. */
  lemma {:induction false} SampleBytesAt(samples: seq<Int16>, i: nat)
    requires i < |samples|
    ensures SampleBytes(samples)[2 * i..2 * i + 2] == S16Bytes(samples[i])
  {
    if i > 0 {
      SampleBytesAt(samples[1..], i - 1);
      assert SampleBytes(samples) == S16Bytes(samples[0]) + SampleBytes(samples[1..]);
    }
  }

  /** The encoder's parse of a file the decoder wrote finds the header fields the decoder wrote. */
  lemma DecodedHeaderReads(channels: nat, sampleRate: nat, samples: seq<Int16>)
    requires 1 <= channels < 0x1_0000 && sampleRate < 0x1_0000_0000
    requires 2 * |samples| < 0x1_0000_0000
    ensures ParseWavHeader(WavFile(channels, sampleRate, samples)) == Ok(WavFields(channels, sampleRate, 16, 2 * |samples|))
  {
    var h := WavHeader(channels, sampleRate, |samples|);
    var sb := SampleBytes(samples);
    var file := h + sb;
    assert file == WavFile(channels, sampleRate, samples);
    var dataSize := 2 * |samples|;
    WavHeaderLayout(channels, sampleRate, |samples|);
    ModUnique(dataSize, 0x1_0000_0000, 0, dataSize);
    FieldsOfPrefix(h, sb, 22);
    FieldsOfPrefix(h, sb, 24);
    FieldsOfPrefix(h, sb, 34);
    FieldsOfPrefix(h, sb, 40);
    assert ParseWavHeader(file) == Ok(WavFields(U16At(h, 22), U32At(h, 24), U16At(h, 34), U32At(h, 40)));
  }

  /** The encoder's sample buffer for a file the decoder wrote holds the samples the decoder wrote. */
  lemma DecodedSamplesRead(channels: nat, sampleRate: nat, samples: seq<Int16>)
    requires channels < 0x1_0000 && sampleRate < 0x1_0000_0000 && 2 * |samples| < 0x1_0000_0000
    ensures FileSamples(WavFile(channels, sampleRate, samples), |samples|) == samples
  {
    var file := WavFile(channels, sampleRate, samples);
    var read := FileSamples(file, |samples|);
    forall i | 0 <= i < |samples|
      ensures read[i] == samples[i]
    {
      SampleBytesAt(samples, i);
      SampleSlice(channels, sampleRate, samples, i);
      S16Read(file, WAV_HEADER_SIZE + 2 * i, samples[i]);
    }
  }

  lemma SampleSlice(channels: nat, sampleRate: nat, samples: seq<Int16>, i: nat)
    requires channels < 0x1_0000 && sampleRate < 0x1_0000_0000 && 2 * |samples| < 0x1_0000_0000 && i < |samples|
    ensures var file := WavFile(channels, sampleRate, samples);
            file[WAV_HEADER_SIZE + 2 * i..WAV_HEADER_SIZE + 2 * i + 2] == SampleBytes(samples)[2 * i..2 * i + 2]
  {
    var h := WavHeader(channels, sampleRate, |samples|);
    var sb := SampleBytes(samples);
    var lo := 2 * i;
    assert |h| == WAV_HEADER_SIZE;
    assert WavFile(channels, sampleRate, samples) == h + sb;
    SliceAfter(h, sb, lo, lo + 2);
  }

  lemma SliceAfter<T>(a: seq<T>, b: seq<T>, lo: nat, hi: nat)
    requires lo <= hi <= |b|
    ensures (a + b)[|a| + lo..|a| + hi] == b[lo..hi]
  {
  }

  /** Decoding an encoded file yields the WAV file of the midpoint reconstructions of the samples the encoder read. */
  lemma EncodeThenDecode(wav: seq<Byte>, q: nat)
    requires Encode(wav, q).Ok?
    requires var f := ParseWavHeader(wav).value;
             f.channels <= MAX_CHANNELS && 1 <= FrameCount(f) <= MAX_FRAMES
    ensures var f := ParseWavHeader(wav).value;
            var samples := FileSamples(wav, FrameCount(f) * f.channels);
            Decode(Encode(wav, q).value) == Ok(WavFile(f.channels, f.sampleRate, Requantized(samples, q)))
  {
    var f := ParseWavHeader(wav).value;
    var frames := FrameCount(f);
    var samples := FileSamples(wav, frames * f.channels);
    WqHeaderRoundTrip(f.sampleRate, f.channels, q, frames);
    DecodeIndexBits(samples, q);
  }

  /** A file the encoder wrote has exactly the size its header promises, so decoding it never warns of truncation. */
  lemma EncodedFileNotTruncated(wav: seq<Byte>, q: nat)
    requires Encode(wav, q).Ok?
    requires var f := ParseWavHeader(wav).value;
             f.channels <= MAX_CHANNELS && 1 <= FrameCount(f) <= MAX_FRAMES
    ensures var file := Encode(wav, q).value;
            && ReadWqHeader(file.header).Ok?
            && FileBytes(file) == ExpectedFileBytes(ReadWqHeader(file.header).value)
            && !SeemsTruncated(FileBytes(file), ReadWqHeader(file.header).value)
  {
    var f := ParseWavHeader(wav).value;
    WqHeaderRoundTrip(f.sampleRate, f.channels, q, FrameCount(f));
  }

  /** Below 16 bits a reconstructed sample falls back into its own bin, so quantizing a decoded file again changes nothing. */
  lemma MidpointStaysInBin(idx: nat, q: nat)
    requires MIN_QBITS <= q < MAX_QBITS && idx < Pow2(q)
    ensures QuantIndex(Reconstruct(idx, q), q) == idx
  {
    ReconstructNarrow(idx, q);
    assert Pow2(16 - q) == 2 * Pow2(15 - q);
    QuantIndexOf(Reconstruct(idx, q), q, idx, Pow2(15 - q));
  }

  /** At 16 bits a negative sample moves up by one on every pass through the pair, unlike any narrower setting. */
  lemma SixteenBitDrifts()
    ensures Reconstruct(QuantIndex(-2, 16), 16) == -1
    ensures Reconstruct(QuantIndex(-1, 16), 16) == 0
  {
    SixteenBitOffByOne(-2);
    SixteenBitOffByOne(-1);
  }
}
