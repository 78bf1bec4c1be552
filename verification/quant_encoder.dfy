/** The time-domain uniform quantizer encoder (`wav_quant_enc`): it reads the
    fields of a canonical 44-byte WAV header at fixed offsets, writes the
    15-byte WQ01 header, then one `Q`-bit bin index per interleaved sample.

    The float expressions of the index computation are exact here (integers
    below 2^17 scaled by powers of two), so they are stated in integers. */
module QuantEncoder {
  import opened Common
  import opened Bytes
  import opened BitStream

  datatype EncodeError = BadQBits | ShortWavHeader | Not16Bit | NoChannels | BufferOverrun

  const WAV_HEADER_SIZE: nat := 44
  const WQ_HEADER_SIZE: nat := 15
  const MIN_QBITS: nat := 1
  const MAX_QBITS: nat := 16

  /** The container tag "WQ01". */
  const MAGIC: seq<Byte> := Ascii("WQ01")

  /** The fields the encoder takes from the WAV header. */
  datatype WavFields = WavFields(channels: nat, sampleRate: nat, bitsPerSample: nat, dataSize: nat)

  /** The fixed-offset parse: channels at 22, rate at 24, bit depth at 34, data size at 40. */
  function ParseWavHeader(file: seq<Byte>): (r: Result<WavFields, EncodeError>)
    ensures r.Ok? <==> |file| >= WAV_HEADER_SIZE
    ensures r.Err? ==> r.error == ShortWavHeader
  {
    if |file| < WAV_HEADER_SIZE then Err(ShortWavHeader)
    else Ok(WavFields(U16At(file, 22), U32At(file, 24), U16At(file, 34), U32At(file, 40)))
  }

  /** The `2^q` bins of width `2^(16 - q)` tile the 16-bit range. */
  lemma BinWidth(q: nat)
    requires MIN_QBITS <= q <= MAX_QBITS
    ensures Pow2(q) * Pow2(16 - q) == 0x1_0000
  {
    Pow2Add(q, 16 - q);
    Pow2Widths();
  }

  /** The bin of a sample among 2^q equal bins of the 16-bit range, computed as `(s + 32768) >> (16 - q)`. */
  function QuantIndex(s: Int16, q: nat): (idx: nat)
    requires MIN_QBITS <= q <= MAX_QBITS
    ensures idx < Pow2(q)
  {
    var w := Pow2(16 - q);
    BinWidth(q);
    QuotientBelow(s + 32768, w, Pow2(q));
    (s + 32768) / w
  }

  /** A sample `k` whole bins and `m` steps above the bottom of the range lies in bin `k`. */
  lemma QuantIndexOf(s: Int16, q: nat, k: nat, m: nat)
    requires MIN_QBITS <= q <= MAX_QBITS && m < Pow2(16 - q)
    requires s + 32768 == k * Pow2(16 - q) + m
    ensures QuantIndex(s, q) == k
  {
    ModUnique(s + 32768, Pow2(16 - q), k, m);
  }

  /** The index is the source's float formula `(int)(((s + 32768) / 65536) * 2^q)`, i.e. the floor of `(s + 32768) * 2^q / 65536`. */
  lemma IndexIsScaledFloor(s: Int16, q: nat)
    requires MIN_QBITS <= q <= MAX_QBITS
    ensures QuantIndex(s, q) == ((s + 32768) * Pow2(q)) / 0x1_0000
  {
    BinWidth(q);
    DivScale(s + 32768, Pow2(q), Pow2(16 - q));
  }

  /** The encoder's clamp of the index into `[0, levels - 1]`. */
  function ClampIndex(i: int, levels: nat): (r: int)
    requires levels >= 1
    ensures 0 <= r < levels
    ensures 0 <= i < levels ==> r == i
  {
    if i >= levels then levels - 1 else if i < 0 then 0 else i
  }

  /** The clamp never changes an index of a 16-bit sample. */
  lemma ClampIsIdentity(s: Int16, q: nat)
    requires MIN_QBITS <= q <= MAX_QBITS
    ensures ClampIndex(QuantIndex(s, q), Pow2(q)) == QuantIndex(s, q)
  {
  }

  /** A louder sample never falls in a lower bin. */
  lemma IndexMonotone(a: Int16, b: Int16, q: nat)
    requires MIN_QBITS <= q <= MAX_QBITS && a <= b
    ensures QuantIndex(a, q) <= QuantIndex(b, q)
  {
    DivMono(a + 32768, b + 32768, Pow2(16 - q));
  }

  /** The `int16_t` buffer of `count` samples: byte `j` is file byte `44 + j`, or zero when the file is shorter. */
  function FileSamples(file: seq<Byte>, count: nat): (samples: seq<Int16>)
    ensures |samples| == count
    ensures forall i :: 0 <= i < count && WAV_HEADER_SIZE + 2 * i + 2 <= |file| ==> samples[i] == S16At(file, WAV_HEADER_SIZE + 2 * i)
  {
    seq(count, i requires 0 <= i < count =>
      var lo := WAV_HEADER_SIZE + 2 * i;
      if lo + 2 <= |file| then S16At(file, lo)
      else if lo < |file| then (file[lo] as int)
      else 0)
  }

  /** The 15-byte container header: magic, rate (4), channels (2), bits (1), frames (4). */
  function WqHeader(sampleRate: nat, channels: nat, q: nat, frames: nat): (h: seq<Byte>)
    requires sampleRate < 0x1_0000_0000 && channels < 0x1_0000 && q < 256 && frames < 0x1_0000_0000
    ensures |h| == WQ_HEADER_SIZE
  {
    MAGIC + LE32(sampleRate) + LE16(channels) + [q] + LE32(frames)
  }

  /** The indices of all samples, `q` bits each, in sample order. */
  function IndexBits(samples: seq<Int16>, q: nat): (b: Bits)
    requires MIN_QBITS <= q <= MAX_QBITS
    ensures |b| == Span(|samples|, q)
  {
    if |samples| == 0 then []
    else ToBits(ClampIndex(QuantIndex(samples[0], q), Pow2(q)), q) + IndexBits(samples[1..], q)
  }

  /** The encoder's output: the byte header and the bit payload that follows it. */
  datatype WqFile = WqFile(header: seq<Byte>, payload: Bits)

  /** A file on disk seen as a header and a payload: the header is its first 15 bytes, or the whole file when it
      is shorter than that. */
  predicate WellSplit(file: WqFile)
  {
    |file.header| == WQ_HEADER_SIZE || (|file.header| < WQ_HEADER_SIZE && |file.payload| == 0)
  }

  /** What the encoder reports as the expected output size, in bytes. */
  function ExpectedBytes(sampleCount: nat, q: nat): nat
  {
    (sampleCount * q + 7) / 8 + WQ_HEADER_SIZE
  }

  /** The expected size is the header plus the payload rounded up to whole bytes. */
  lemma ExpectedBytesIsCeiling(sampleCount: nat, q: nat)
    ensures var payloadBytes := ExpectedBytes(sampleCount, q) - WQ_HEADER_SIZE;
            && payloadBytes * 8 >= sampleCount * q
            && (payloadBytes == 0 || (payloadBytes - 1) * 8 < sampleCount * q)
  {
  }

  /** The interleaved frame count the header promises: `data_size / (2 * channels)`. */
  function FrameCount(fields: WavFields): nat
    requires fields.channels >= 1
  {
    QuotientNat(fields.dataSize, 2 * fields.channels);
    fields.dataSize / (2 * fields.channels)
  }

  /** The sample read copies `data_size` bytes, or as many as the file still holds, into a buffer of
      `2 * frames * channels` bytes. It writes past the buffer when more bytes arrive than fit. */
  predicate ReadOverruns(wav: seq<Byte>, f: WavFields)
    requires |wav| >= WAV_HEADER_SIZE && f.channels >= 1
  {
    Min(f.dataSize, |wav| - WAV_HEADER_SIZE) > 2 * (FrameCount(f) * f.channels)
  }

  /** Only a data size that ends in a partial frame can overrun the buffer. */
  lemma OverrunNeedsPartialFrame(wav: seq<Byte>, f: WavFields)
    requires |wav| >= WAV_HEADER_SIZE && f.channels >= 1 && ReadOverruns(wav, f)
    ensures f.dataSize % (2 * f.channels) != 0
  {
    var w := 2 * f.channels;
    var frames := FrameCount(f);
    assert f.dataSize == w * frames + f.dataSize % w;
    assert w * frames == 2 * (frames * f.channels);
  }

  /** Two channels and a data size of 6 make a buffer of one frame, 4 bytes; a file with 6 data bytes overruns it. */
  lemma OverrunExample(wav: seq<Byte>)
    requires |wav| == 50
    ensures ReadOverruns(wav, WavFields(2, 44100, 16, 6))
  {
    assert FrameCount(WavFields(2, 44100, 16, 6)) == 1;
  }

  /** The whole encoder, from the WAV file's bytes and the `quant_bits` argument. */
  function Encode(wav: seq<Byte>, quantBits: int): (r: Result<WqFile, EncodeError>)
    ensures quantBits < MIN_QBITS || quantBits > MAX_QBITS ==> r == Err(BadQBits)
    ensures MIN_QBITS <= quantBits <= MAX_QBITS && |wav| < WAV_HEADER_SIZE ==> r == Err(ShortWavHeader)
    ensures r == Err(BufferOverrun) <==> && MIN_QBITS <= quantBits <= MAX_QBITS && ParseWavHeader(wav).Ok?
                                         && ParseWavHeader(wav).value.bitsPerSample == 16
                                         && ParseWavHeader(wav).value.channels >= 1
                                         && ReadOverruns(wav, ParseWavHeader(wav).value)
    ensures r == Err(Not16Bit) <==> && MIN_QBITS <= quantBits <= MAX_QBITS && ParseWavHeader(wav).Ok?
                                    && ParseWavHeader(wav).value.bitsPerSample != 16
    ensures r == Err(NoChannels) <==> && MIN_QBITS <= quantBits <= MAX_QBITS && ParseWavHeader(wav).Ok?
                                      && ParseWavHeader(wav).value.bitsPerSample == 16
                                      && ParseWavHeader(wav).value.channels == 0
    ensures r.Ok? <==> && MIN_QBITS <= quantBits <= MAX_QBITS && ParseWavHeader(wav).Ok?
                       && var f := ParseWavHeader(wav).value;
                          f.bitsPerSample == 16 && f.channels >= 1 && !ReadOverruns(wav, f)
    ensures r.Ok? ==> ParseWavHeader(wav).Ok? && var f := ParseWavHeader(wav).value;
                      && f.bitsPerSample == 16 && f.channels >= 1 && !ReadOverruns(wav, f)
                      && r.value.header == WqHeader(f.sampleRate, f.channels, quantBits, FrameCount(f))
                      && |r.value.payload| == FrameCount(f) * f.channels * quantBits
                      && r.value.payload == IndexBits(FileSamples(wav, FrameCount(f) * f.channels), quantBits)
  {
    if quantBits < MIN_QBITS || quantBits > MAX_QBITS then Err(BadQBits)
    else
      var f :- ParseWavHeader(wav);
      if f.bitsPerSample != 16 then Err(Not16Bit)
      else if f.channels == 0 then Err(NoChannels)
      else if ReadOverruns(wav, f) then Err(BufferOverrun)
      else
        var frames := FrameCount(f);
        assert frames < 0x1_0000_0000;
        var samples := FileSamples(wav, frames * f.channels);
        SpanIsProduct(frames * f.channels, quantBits);
        Ok(WqFile(WqHeader(f.sampleRate, f.channels, quantBits, frames), IndexBits(samples, quantBits)))
  }
}
