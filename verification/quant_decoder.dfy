/** The time-domain uniform quantizer decoder (`wav_quant_dec`): it
    validates the WQ01 header, reads one `Q`-bit index per sample until the
    promised count or the end of the stream, reconstructs each sample at the
    middle of its bin, and writes a canonical 44-byte WAV header followed by
    the samples. */
module QuantDecoder {
  import opened Common
  import opened Bytes
  import opened BitStream
  import opened QuantEncoder

  datatype DecodeError = TooSmall | BadMagic | QBitsOutOfRange | BadChannels | BadFrameCount

  const MAX_CHANNELS: nat := 8
  const MAX_FRAMES: nat := 1_000_000_000

  /** The header fields the decoder accepts. */
  datatype WqParams = WqParams(sampleRate: nat, channels: nat, qbits: nat, frames: nat)

  /** Size and magic checks, then the fields in the encoder's order and widths, then their ranges. */
  function ReadWqHeader(header: seq<Byte>): (r: Result<WqParams, DecodeError>)
    ensures r == Err(TooSmall) <==> |header| < WQ_HEADER_SIZE
    ensures r == Err(BadMagic) <==> |header| >= WQ_HEADER_SIZE && header[..4] != MAGIC
    ensures r.Ok? ==> && MIN_QBITS <= r.value.qbits <= MAX_QBITS
                      && 1 <= r.value.channels <= MAX_CHANNELS
                      && 1 <= r.value.frames <= MAX_FRAMES
                      && r.value.sampleRate < 0x1_0000_0000
  {
    if |header| < WQ_HEADER_SIZE then Err(TooSmall)
    else if header[..4] != MAGIC then Err(BadMagic)
    else
      var rate := U32At(header, 4);
      var channels := U16At(header, 8);
      var q := header[10];
      var frames := U32At(header, 11);
      if q == 0 || q > MAX_QBITS then Err(QBitsOutOfRange)
      else if channels == 0 || channels > MAX_CHANNELS then Err(BadChannels)
      else if frames == 0 || frames > MAX_FRAMES then Err(BadFrameCount)
      else Ok(WqParams(rate, channels, q, frames))
  }

  /** The header the encoder writes is read back field for field. */
  lemma WqHeaderRoundTrip(sampleRate: nat, channels: nat, q: nat, frames: nat)
    requires sampleRate < 0x1_0000_0000 && 1 <= channels <= MAX_CHANNELS
    requires MIN_QBITS <= q <= MAX_QBITS && 1 <= frames <= MAX_FRAMES
    ensures ReadWqHeader(WqHeader(sampleRate, channels, q, frames)) == Ok(WqParams(sampleRate, channels, q, frames))
  {
    var h := WqHeader(sampleRate, channels, q, frames);
    assert h[..4] == MAGIC;
    assert h[4..8] == LE32(sampleRate);
    assert h[8..10] == LE16(channels);
    assert h[10] == q;
    assert h[11..15] == LE32(frames);
    LE32Read(h, 4, sampleRate);
    LE16Read(h, 8, channels);
    LE32Read(h, 11, frames);
  }

  /** The midpoint of bin `idx`, `(idx + 0.5) / 2^q * 65536 - 32768`, truncated toward zero by the `int16_t` cast.
      The exact value is half of `(2 * idx + 1) * 2^(16 - q) - 65536`. */
  function Reconstruct(idx: nat, q: nat): Int16
    requires MIN_QBITS <= q <= MAX_QBITS && idx < Pow2(q)
  {
    var w := Pow2(16 - q);
    BinWidth(q);
    OddMultipleRange(idx, Pow2(q), w);
    Half((2 * idx + 1) * w - 0x1_0000)
  }

  /** Below 16 bits the midpoint is exact: `idx * 2^(16-q) + 2^(15-q) - 32768`. */
  lemma ReconstructNarrow(idx: nat, q: nat)
    requires MIN_QBITS <= q < MAX_QBITS && idx < Pow2(q)
    ensures Reconstruct(idx, q) == idx * Pow2(16 - q) + Pow2(15 - q) - 32768
  {
    var h := Pow2(15 - q);
    assert Pow2(16 - q) == 2 * h;
    OddTimesEven(idx, h);
  }

  /** At 16 bits the midpoint is `idx - 32767.5`, which the cast truncates toward zero. */
  lemma ReconstructSixteen(idx: nat)
    requires idx < Pow2(16)
    ensures Reconstruct(idx, 16) == if idx >= 32768 then idx - 32768 else idx - 32767
  {
    Pow2Widths();
  }

  /** Below 16 bits every sample comes back within half a bin of itself. */
  lemma MidpointError(s: Int16, q: nat)
    requires MIN_QBITS <= q < MAX_QBITS
    ensures var r := Reconstruct(QuantIndex(s, q), q);
            0 - Pow2(15 - q) < r - s <= Pow2(15 - q)
  {
    var w := Pow2(16 - q);
    ReconstructNarrow(QuantIndex(s, q), q);
    assert w == 2 * Pow2(15 - q);
    DivBounds(s + 32768, w);
  }

  /** At 16 bits non-negative samples come back exactly and negative ones one higher. */
  lemma SixteenBitOffByOne(s: Int16)
    ensures Reconstruct(QuantIndex(s, 16), 16) == if s >= 0 then s else s + 1
  {
    Pow2Widths();
    ReconstructSixteen(QuantIndex(s, 16));
  }

  /** The decoding loop: one index per sample, at most `total` samples, stopping when fewer than `q` bits remain. */
  function DecodeSamples(payload: Bits, total: nat, q: nat): (samples: seq<Int16>)
    requires MIN_QBITS <= q <= MAX_QBITS
    ensures |samples| <= total
    decreases total
  {
    if total == 0 || |payload| < q then []
    else
      var idx := FromBits(payload[..q]);
      [Reconstruct(ClampIndex(idx, Pow2(q)), q)] + DecodeSamples(payload[q..], total - 1, q)
  }

  /** The loop yields all `total` samples when the payload holds enough bits, and stops early only when fewer
      than `q` bits remain for the next one. */
  lemma {:induction false} DecodedLength(payload: Bits, total: nat, q: nat)
    requires MIN_QBITS <= q <= MAX_QBITS
    ensures Span(total, q) <= |payload| ==> |DecodeSamples(payload, total, q)| == total
    ensures var n := |DecodeSamples(payload, total, q)|;
            n < total ==> |payload| < Span(n + 1, q)
    decreases total
  {
    if total > 0 && |payload| >= q {
      var m := |DecodeSamples(payload[q..], total - 1, q)|;
      DecodedLength(payload[q..], total - 1, q);
      assert |DecodeSamples(payload, total, q)| == m + 1;
      assert Span(total, q) == q + Span(total - 1, q);
      assert Span(m + 2, q) == q + Span(m + 1, q);
    } else {
      assert |DecodeSamples(payload, total, q)| == 0;
      assert Span(1, q) == q;
      if total > 0 {
        assert Span(total, q) == q + Span(total - 1, q);
      }
    }
  }

  /** Sample `i` is the midpoint of the bin named by the `i`-th group of `q` payload bits: a read index is always
      below `2^q`, so the clamp that guards against invalid indices never changes one. */
  lemma {:induction false} DecodedSampleAt(payload: Bits, total: nat, q: nat, i: nat)
    requires MIN_QBITS <= q <= MAX_QBITS && i < |DecodeSamples(payload, total, q)|
    ensures Span(i, q) + q <= |payload|
    ensures DecodeSamples(payload, total, q)[i] == Reconstruct(GroupAt(payload, i, q), q)
    decreases i
  {
    DecodeSamplesCons(payload, total, q);
    if i > 0 {
      DecodedSampleAt(payload[q..], total - 1, q, i - 1);
      assert Span(i, q) == q + Span(i - 1, q);
    }
  }

  /** One turn of the decoding loop: the first index, then the loop over the remaining bits. */
  lemma DecodeSamplesCons(payload: Bits, total: nat, q: nat)
    requires MIN_QBITS <= q <= MAX_QBITS && |DecodeSamples(payload, total, q)| > 0
    ensures total > 0 && |payload| >= q
    ensures var rest := DecodeSamples(payload[q..], total - 1, q);
            && |DecodeSamples(payload, total, q)| == 1 + |rest|
            && DecodeSamples(payload, total, q)[0] == Reconstruct(GroupAt(payload, 0, q), q)
            && forall k :: 1 <= k <= |rest| ==> DecodeSamples(payload, total, q)[k] == rest[k - 1]
  {
    var idx := FromBits(payload[..q]);
    assert ClampIndex(idx, Pow2(q)) == idx;
  }

  /** The `i`-th group of `q` bits, read as an index. */
  function GroupAt(payload: Bits, i: nat, q: nat): (idx: nat)
    requires Span(i, q) + q <= |payload|
    ensures idx < Pow2(q)
    decreases i
  {
    if i == 0 then
      FromBitsBelow(payload[..q], q);
      FromBits(payload[..q])
    else GroupAt(payload[q..], i - 1, q)
  }

  /** Group `i` occupies bits `i * q .. i * q + q` of the payload. */
  lemma {:induction false} GroupAtSlice(payload: Bits, i: nat, q: nat)
    requires Span(i, q) + q <= |payload|
    ensures GroupAt(payload, i, q) == FromBits(payload[Span(i, q)..Span(i, q) + q])
    decreases i
  {
    if i > 0 {
      var lo' := Span(i - 1, q);
      GroupAtSlice(payload[q..], i - 1, q);
      SliceOfDrop(payload, q, lo', lo' + q, q + lo', q + lo' + q);
    }
  }

  /** The size in bytes the header promises: 15 header bytes and `frames * channels * q` bits rounded up. */
  function ExpectedFileBytes(p: WqParams): nat
  {
    ExpectedBytes(p.frames * p.channels, p.qbits)
  }

  /** The decoder's truncation warning: the file is more than ten bytes short of the promised size.
      The warning does not stop decoding. */
  predicate SeemsTruncated(fileBytes: nat, p: WqParams)
  {
    fileBytes + 10 < ExpectedFileBytes(p)
  }

  /** The size of a WQ01 file on disk: the header, then the payload padded with zero bits to a whole byte. */
  function FileBytes(file: WqFile): nat
  {
    |file.header| + (|file.payload| + 7) / 8
  }

  /** The canonical 44-byte RIFF/WAVE header for 16-bit PCM: the RIFF header, the `fmt ` chunk and the header of
      the `data` chunk. */
  function WavHeader(channels: nat, sampleRate: nat, sampleCount: nat): (h: seq<Byte>)
    requires channels < 0x1_0000 && sampleRate < 0x1_0000_0000
    ensures |h| == WAV_HEADER_SIZE
  {
    var dataSize := (2 * sampleCount) % 0x1_0000_0000;
    var riffSize := (36 + dataSize) % 0x1_0000_0000;
    var byteRate := (sampleRate * channels * 2) % 0x1_0000_0000;
    var blockAlign := (channels * 2) % 0x1_0000;
    RiffHeader(riffSize) + FmtChunk(channels, sampleRate, byteRate, blockAlign) + DataChunkHeader(dataSize)
  }

  /** `RIFF`, the size of the rest of the file, `WAVE`. */
  function RiffHeader(riffSize: nat): (b: seq<Byte>)
    requires riffSize < 0x1_0000_0000
    ensures |b| == 12
  {
    Ascii("RIFF") + LE32(riffSize) + Ascii("WAVE")
  }

  /** The 16-byte PCM format chunk: format 1, the channel count, the rates, the block align and 16 bits per sample. */
  function FmtChunk(channels: nat, sampleRate: nat, byteRate: nat, blockAlign: nat): (b: seq<Byte>)
    requires channels < 0x1_0000 && sampleRate < 0x1_0000_0000 && byteRate < 0x1_0000_0000 && blockAlign < 0x1_0000
    ensures |b| == 24
  {
    Ascii("fmt ") + LE32(16) + LE16(1) + LE16(channels) + LE32(sampleRate) + LE32(byteRate) + LE16(blockAlign) + LE16(16)
  }

  /** `data` and the number of sample bytes that follow. */
  function DataChunkHeader(dataSize: nat): (b: seq<Byte>)
    requires dataSize < 0x1_0000_0000
    ensures |b| == 8
  {
    Ascii("data") + LE32(dataSize)
  }

  /** The header's fields sit where a reader of canonical WAV files looks for them, and its derived fields agree
      with the ones they derive from: the RIFF size is 36 plus the data size, the byte rate is rate times block
      align, the block align is two bytes per channel. Each is truncated to its field's width. */
  lemma WavHeaderLayout(channels: nat, sampleRate: nat, sampleCount: nat)
    requires channels < 0x1_0000 && sampleRate < 0x1_0000_0000
    ensures var h := WavHeader(channels, sampleRate, sampleCount);
            && h[..4] == Ascii("RIFF") && h[8..12] == Ascii("WAVE")
            && h[12..16] == Ascii("fmt ") && h[36..40] == Ascii("data")
            && U32At(h, 16) == 16 && U16At(h, 20) == 1
            && U16At(h, 22) == channels && U32At(h, 24) == sampleRate
            && U32At(h, 40) == (2 * sampleCount) % 0x1_0000_0000
            && U32At(h, 4) == (36 + U32At(h, 40)) % 0x1_0000_0000
            && U32At(h, 28) == (U32At(h, 24) * U16At(h, 22) * 2) % 0x1_0000_0000
            && U16At(h, 32) == (U16At(h, 22) * 2) % 0x1_0000
            && U16At(h, 34) == 16
  {
    WavHeaderRiff(channels, sampleRate, sampleCount);
    WavHeaderFmt(channels, sampleRate, sampleCount);
    WavHeaderData(channels, sampleRate, sampleCount);
  }

  /** The header opens with its RIFF header, then the format chunk, then the header of the data chunk. */
  lemma WavHeaderChunks(channels: nat, sampleRate: nat, sampleCount: nat)
    requires channels < 0x1_0000 && sampleRate < 0x1_0000_0000
    ensures var h := WavHeader(channels, sampleRate, sampleCount);
            var dataSize := (2 * sampleCount) % 0x1_0000_0000;
            && h[..12] == RiffHeader((36 + dataSize) % 0x1_0000_0000)
            && h[12..36] == FmtChunk(channels, sampleRate, (sampleRate * channels * 2) % 0x1_0000_0000, (channels * 2) % 0x1_0000)
            && h[36..44] == DataChunkHeader(dataSize)
  {
  }

  lemma WavHeaderRiff(channels: nat, sampleRate: nat, sampleCount: nat)
    requires channels < 0x1_0000 && sampleRate < 0x1_0000_0000
    ensures var h := WavHeader(channels, sampleRate, sampleCount);
            && h[..4] == Ascii("RIFF") && h[8..12] == Ascii("WAVE")
            && U32At(h, 4) == (36 + (2 * sampleCount) % 0x1_0000_0000) % 0x1_0000_0000
  {
    var h := WavHeader(channels, sampleRate, sampleCount);
    var riffSize := (36 + (2 * sampleCount) % 0x1_0000_0000) % 0x1_0000_0000;
    var riff := RiffHeader(riffSize);
    WavHeaderChunks(channels, sampleRate, sampleCount);
    RiffHeaderLayout(riffSize);
    SliceWithin(h, 0, riff, 0, 4);
    SliceWithin(h, 0, riff, 8, 12);
    U32Within(h, 0, riff, 4);
  }

  lemma WavHeaderFmt(channels: nat, sampleRate: nat, sampleCount: nat)
    requires channels < 0x1_0000 && sampleRate < 0x1_0000_0000
    ensures var h := WavHeader(channels, sampleRate, sampleCount);
            && h[12..16] == Ascii("fmt ")
            && U32At(h, 16) == 16 && U16At(h, 20) == 1
            && U16At(h, 22) == channels && U32At(h, 24) == sampleRate
            && U32At(h, 28) == (sampleRate * channels * 2) % 0x1_0000_0000
            && U16At(h, 32) == (channels * 2) % 0x1_0000
            && U16At(h, 34) == 16
  {
    var h := WavHeader(channels, sampleRate, sampleCount);
    var fmt := FmtChunk(channels, sampleRate, (sampleRate * channels * 2) % 0x1_0000_0000, (channels * 2) % 0x1_0000);
    WavHeaderChunks(channels, sampleRate, sampleCount);
    FmtChunkLayout(channels, sampleRate, (sampleRate * channels * 2) % 0x1_0000_0000, (channels * 2) % 0x1_0000);
    SliceWithin(h, 12, fmt, 0, 4);
    U32Within(h, 12, fmt, 4);
    U16Within(h, 12, fmt, 8);
    U16Within(h, 12, fmt, 10);
    U32Within(h, 12, fmt, 12);
    U32Within(h, 12, fmt, 16);
    U16Within(h, 12, fmt, 20);
    U16Within(h, 12, fmt, 22);
  }

  lemma WavHeaderData(channels: nat, sampleRate: nat, sampleCount: nat)
    requires channels < 0x1_0000 && sampleRate < 0x1_0000_0000
    ensures var h := WavHeader(channels, sampleRate, sampleCount);
            h[36..40] == Ascii("data") && U32At(h, 40) == (2 * sampleCount) % 0x1_0000_0000
  {
    var h := WavHeader(channels, sampleRate, sampleCount);
    var data := DataChunkHeader((2 * sampleCount) % 0x1_0000_0000);
    WavHeaderChunks(channels, sampleRate, sampleCount);
    DataChunkHeaderLayout((2 * sampleCount) % 0x1_0000_0000);
    SliceWithin(h, 36, data, 0, 4);
    U32Within(h, 36, data, 4);
  }

  lemma RiffHeaderLayout(riffSize: nat)
    requires riffSize < 0x1_0000_0000
    ensures var b := RiffHeader(riffSize);
            b[..4] == Ascii("RIFF") && b[8..12] == Ascii("WAVE") && U32At(b, 4) == riffSize
  {
    var b := RiffHeader(riffSize);
    assert b[4..8] == LE32(riffSize);
    LE32Read(b, 4, riffSize);
  }

  lemma FmtChunkLayout(channels: nat, sampleRate: nat, byteRate: nat, blockAlign: nat)
    requires channels < 0x1_0000 && sampleRate < 0x1_0000_0000 && byteRate < 0x1_0000_0000 && blockAlign < 0x1_0000
    ensures var b := FmtChunk(channels, sampleRate, byteRate, blockAlign);
            && b[..4] == Ascii("fmt ") && U32At(b, 4) == 16 && U16At(b, 8) == 1 && U16At(b, 10) == channels
            && U32At(b, 12) == sampleRate && U32At(b, 16) == byteRate && U16At(b, 20) == blockAlign
            && U16At(b, 22) == 16
  {
    FmtChunkFormat(channels, sampleRate, byteRate, blockAlign);
    FmtChunkRates(channels, sampleRate, byteRate, blockAlign);
  }

  /** The first half of the format chunk: tag, chunk size, PCM format code and channel count. */
  lemma FmtChunkFormat(channels: nat, sampleRate: nat, byteRate: nat, blockAlign: nat)
    requires channels < 0x1_0000 && sampleRate < 0x1_0000_0000 && byteRate < 0x1_0000_0000 && blockAlign < 0x1_0000
    ensures var b := FmtChunk(channels, sampleRate, byteRate, blockAlign);
            b[..4] == Ascii("fmt ") && U32At(b, 4) == 16 && U16At(b, 8) == 1 && U16At(b, 10) == channels
  {
    var b := FmtChunk(channels, sampleRate, byteRate, blockAlign);
    assert b[4] == LE32(16)[0] && b[5] == LE32(16)[1] && b[6] == LE32(16)[2] && b[7] == LE32(16)[3];
    assert b[8] == LE16(1)[0] && b[9] == LE16(1)[1];
    assert b[10] == LE16(channels)[0] && b[11] == LE16(channels)[1];
    LE32Read(b, 4, 16);
    LE16Read(b, 8, 1);
    LE16Read(b, 10, channels);
  }

  /** The second half of the format chunk: sample rate, byte rate, block align and bits per sample. */
  lemma FmtChunkRates(channels: nat, sampleRate: nat, byteRate: nat, blockAlign: nat)
    requires channels < 0x1_0000 && sampleRate < 0x1_0000_0000 && byteRate < 0x1_0000_0000 && blockAlign < 0x1_0000
    ensures var b := FmtChunk(channels, sampleRate, byteRate, blockAlign);
            U32At(b, 12) == sampleRate && U32At(b, 16) == byteRate && U16At(b, 20) == blockAlign && U16At(b, 22) == 16
  {
    var b := FmtChunk(channels, sampleRate, byteRate, blockAlign);
    assert b[12] == LE32(sampleRate)[0] && b[13] == LE32(sampleRate)[1];
    assert b[14] == LE32(sampleRate)[2] && b[15] == LE32(sampleRate)[3];
    assert b[16] == LE32(byteRate)[0] && b[17] == LE32(byteRate)[1];
    assert b[18] == LE32(byteRate)[2] && b[19] == LE32(byteRate)[3];
    assert b[20] == LE16(blockAlign)[0] && b[21] == LE16(blockAlign)[1];
    assert b[22] == LE16(16)[0] && b[23] == LE16(16)[1];
    LE32Read(b, 12, sampleRate);
    LE32Read(b, 16, byteRate);
    LE16Read(b, 20, blockAlign);
    LE16Read(b, 22, 16);
  }

  lemma DataChunkHeaderLayout(dataSize: nat)
    requires dataSize < 0x1_0000_0000
    ensures var b := DataChunkHeader(dataSize);
            b[..4] == Ascii("data") && U32At(b, 4) == dataSize
  {
    var b := DataChunkHeader(dataSize);
    assert b[4..8] == LE32(dataSize);
    LE32Read(b, 4, dataSize);
  }

  /** The sample data in memory order. */
  function SampleBytes(samples: seq<Int16>): (b: seq<Byte>)
    ensures |b| == 2 * |samples|
  {
    if |samples| == 0 then [] else S16Bytes(samples[0]) + SampleBytes(samples[1..])
  }

  /** The decoder's output file: the header, then as many sample bytes as the `uint32_t` data size counts. That is
      every sample byte unless there are 2^32 or more of them. */
  function WavFile(channels: nat, sampleRate: nat, samples: seq<Int16>): (file: seq<Byte>)
    requires channels < 0x1_0000 && sampleRate < 0x1_0000_0000
    ensures |file| == WAV_HEADER_SIZE + (2 * |samples|) % 0x1_0000_0000
    ensures file[..WAV_HEADER_SIZE] == WavHeader(channels, sampleRate, |samples|)
    ensures 2 * |samples| < 0x1_0000_0000 ==> file == WavHeader(channels, sampleRate, |samples|) + SampleBytes(samples)
  {
    var sb := SampleBytes(samples);
    var written := |sb| % 0x1_0000_0000;
    DataSizeBounds(|sb|);
    assert written == |sb| ==> sb[..written] == sb;
    WavHeader(channels, sampleRate, |samples|) + sb[..written]
  }

  /** The `uint32_t` data size never exceeds the byte count, and equals it below 2^32. */
  lemma DataSizeBounds(n: nat)
    ensures n % 0x1_0000_0000 <= n
    ensures n < 0x1_0000_0000 ==> n % 0x1_0000_0000 == n
  {
    if n < 0x1_0000_0000 {
      ModUnique(n, 0x1_0000_0000, 0, n);
    }
  }

  /** The whole decoder, from the WQ01 file to the bytes of the WAV file it writes. The size check covers the whole
      file, and at most 2^32 - 1 sample bytes are written. */
  function Decode(file: WqFile): (r: Result<seq<Byte>, DecodeError>)
    requires WellSplit(file)
    ensures r.Ok? <==> ReadWqHeader(file.header).Ok?
    ensures r == Err(TooSmall) <==> FileBytes(file) < WQ_HEADER_SIZE
    ensures r.Ok? ==> var p := ReadWqHeader(file.header).value;
                      && |r.value| <= WAV_HEADER_SIZE + 2 * (p.frames * p.channels)
                      && |r.value| < WAV_HEADER_SIZE + 0x1_0000_0000
  {
    var p :- ReadWqHeader(file.header);
    var samples := DecodeSamples(file.payload, p.frames * p.channels, p.qbits);
    DataSizeBounds(2 * |samples|);
    Ok(WavFile(p.channels, p.sampleRate, samples))
  }
}
