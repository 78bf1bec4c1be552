# 16-bit PCM audio tools, modelled in Dafny

This project models the integer and format logic of a set of small command-line tools for 16-bit PCM audio:

- **The DCT block codec** (`wav_dct_enc` / `wav_dct_dec`). A 104-bit header (rate 32, block size 16, kept
  coefficients 16, code width 8, frames 32) is followed by `K` codes of `Q` bits per block. The encoder pads the
  mono signal to whole blocks and keeps the first `K` rounded transform coefficients of each block. The decoder
  checks the sample rate, reads the codes back through `static_cast<int32_t>` and zero-fills each block. It then
  runs the inverse transform, clips to `short` and writes exactly `nFrames` samples.
- **The time-domain uniform quantizer** (`wav_quant_enc` / `wav_quant_dec`). The encoder parses the canonical
  44-byte WAV header at fixed offsets. It writes a 15-byte little-endian `WQ01` header, then one `Q`-bit bin
  index per interleaved sample. The decoder validates that header and reads the indices until the promised
  count or the end of the stream. It reconstructs each sample at its bin midpoint and writes a 44-byte WAV
  header followed by the samples.
- **The sample utilities**:
  - the bit-clearing quantizer `WAVQuant`;
  - the histogram class `WAVHist`, with per-channel maps and mid/side maps;
  - the error accumulation of `wav_cmp`;
  - the stereo downmix of `wav_mono`;
  - the argument checks, echo ring buffer and frame reversal of `wav_effects`.
- **The string helpers of the two data-collection harnesses**: `escape_shell`, the token scan of
  `extract_number`, and the two base-name extractions.

The modules follow the program's structure:

- `Common`: C++ integer conversions and the `Result` type.
- `Bytes`: little-endian fields.
- `BitStream`: an abstract bit sequence.
- `SoundFile`: what libsndfile reports about an input.
- `DctFormat`, `DctEncoder`, `DctDecoder` and `DctRoundTrip`: the DCT codec.
- `QuantEncoder`, `QuantDecoder` and `QuantRoundTrip`: the uniform quantizer.
- `WavQuant`, `WavHist`, `WavCmp`, `WavMono` and `WavEffects`: the utilities.
- `CollectData`: the harness strings.

Every tool is a pure function of what it reads. A file is a sequence of bytes, a bit stream is a `seq<bool>`, and
a sound file is an `SndInfo` record plus its interleaved samples. The forward and inverse DCT are function
parameters.

Four behaviours of the code shape the model:

- The DCT decoder does not sign-extend a `Q`-bit code. It casts the raw value to `int32_t`, so below 32 bits a
  negative coefficient comes back `2^Q` larger (`DctFormat.RecoveredNarrowNegative`).
- The DCT decoder does not validate `Q`, `K`, the block size or the frame count. It rejects only a sample rate
  that reads as a non-positive `int` (`DctDecoder.RateCheck`).
- A block size of zero, or `K` above the block size, makes the decoder's own arithmetic or indexing undefined.
  The model reports these as `ZeroBlockSize` and `KeptExceedsBlock` rather than inventing a result.
- The quantizer decoder does not treat a short stream as fatal. It stops early and still writes the shorter file
  (`QuantDecoder.DecodeSamples`).

## Model

| member | source | states |
|---|---|---|
| BitStream.FromToBits | Lab_1/sndfile-example/src/wav_dct_dec.cpp:41-49 | reading back `n` bits written from `v` gives `v mod 2^n` |
| BitStream.ToFromBits | Lab_1/sndfile-example/src/wav_dct_dec.cpp:95 | writing the value of a bit group reproduces the group |
| BitStream.Read | Lab_1/sndfile-example/src/wav_dct_dec.cpp:95 | a read succeeds exactly when `n` bits remain; the value is below `2^n` and the stream is those bits followed by the rest |
| BitStream.Write | Lab_1/sndfile-example/src/wav_dct_enc.cpp:148 | a write appends exactly `n` bits, leaves the earlier bits alone, and the new bits hold `v mod 2^n` |
| BitStream.ReadAfterWrite | Lab_1/sndfile-example/src/wav_dct_enc.cpp:105-109 | a read after a write of the same width returns the value modulo `2^n` and leaves the following bits |
| BitStream.ReadAfterWriteFits | Lab_1/sndfile-example/src/wav_dct_dec.cpp:41-49 | a value that fits its width is read back exactly |
| Bytes.LE16Read | bit_stream/src/wav_quant_enc.cpp:39 | a `uint16_t` written little-endian is read back by the fixed-offset parse |
| Bytes.LE32Read | bit_stream/src/wav_quant_enc.cpp:38 | a `uint32_t` written little-endian is read back by the fixed-offset parse |
| Bytes.S16Read | bit_stream/src/wav_quant_enc.cpp:57 | an `int16_t` written in memory order is read back as the same sample |
| DctFormat.HeaderBits | Lab_1/sndfile-example/src/wav_dct_enc.cpp:105-109 | the header is 104 bits |
| DctFormat.ReadHeader | Lab_1/sndfile-example/src/wav_dct_dec.cpp:41-49 | the header read succeeds exactly when 104 bits are present; it yields fields that fit their widths and leaves the stream after bit 104 |
| DctFormat.HeaderRoundTrip | Lab_1/sndfile-example/src/wav_dct_dec.cpp:41-49 | a header whose fields fit 32/16/16/8/32 bits is read back field for field, whatever follows it |
| DctFormat.NumBlocks | Lab_1/sndfile-example/src/wav_dct_enc.cpp:119 | the block count is the least `nb` with `nb * bs >= frames` |
| DctFormat.CodeBits | Lab_1/sndfile-example/src/wav_dct_enc.cpp:146-148 | a coefficient's code is `Q` bits whose value is the coefficient modulo `2^Q`, i.e. the low bits of its `uint64_t` pattern |
| DctFormat.AsInt32OfInt32 | Lab_1/sndfile-example/src/wav_dct_dec.cpp:100 | the `int32_t` cast gives back an `int32_t` value from any number with the same residue modulo `2^32` |
| DctFormat.RecoveredWide | Lab_1/sndfile-example/src/wav_dct_dec.cpp:95-103 | with `Q >= 32`, every coefficient in `int32_t` range is recovered exactly |
| DctFormat.RecoveredNarrowNonNegative | Lab_1/sndfile-example/src/wav_dct_dec.cpp:95-103 | with `Q < 32`, codes in `[0, 2^Q)` are recovered exactly |
| DctFormat.RecoveredNarrowNegative | Lab_1/sndfile-example/src/wav_dct_dec.cpp:95-103 | with `Q < 32`, a negative coefficient is not sign-extended and comes back as `c + 2^Q >= 0` |
| DctEncoder.SelectQBits | Lab_1/sndfile-example/src/wav_dct_enc.cpp:21-57 | `-qbits` is accepted exactly within 1..64, keeping the requested value; the default is 32 and anything else is `BadQBits` |
| DctEncoder.Pad | Lab_1/sndfile-example/src/wav_dct_enc.cpp:119-122 | the padded buffer is `NumBlocks * bs` long, less than one block longer than the input, keeps the input as its prefix and is zero beyond it |
| DctEncoder.Blocks | Lab_1/sndfile-example/src/wav_dct_enc.cpp:132-136 | the buffer is cut into `nb` blocks of `bs` samples |
| DctEncoder.BlockContents | Lab_1/sndfile-example/src/wav_dct_enc.cpp:135-136 | block `n` is exactly samples `n*bs .. n*bs+bs` |
| DctEncoder.CodesBitsAppend | Lab_1/sndfile-example/src/wav_dct_enc.cpp:143-149 | the codes of a run followed by one more coefficient are the run's codes followed by that coefficient's code |
| DctEncoder.KeptCoefficients | Lab_1/sndfile-example/src/wav_dct_enc.cpp:143-144 | exactly `K` coefficients of each block are kept |
| DctEncoder.Payload | Lab_1/sndfile-example/src/wav_dct_enc.cpp:132-151 | the payload is `nBlocks * K * Q` bits |
| DctEncoder.PayloadAppend | Lab_1/sndfile-example/src/wav_dct_enc.cpp:132-151 | one more block appends exactly that block's kept codes |
| DctEncoder.EncodeBlock | Lab_1/sndfile-example/src/wav_dct_enc.cpp:143-149 | the coefficient loop writes the codes of coefficients `0 .. K` in order, `K * Q` bits |
| DctEncoder.EncodeBlocks | Lab_1/sndfile-example/src/wav_dct_enc.cpp:132-151 | the block loop over the padded buffer writes the payload of its blocks in order |
| DctEncoder.Encode | Lab_1/sndfile-example/src/wav_dct_enc.cpp:50-74 | encoding succeeds exactly for an accepted `-qbits` and PCM_16 WAV input, with the qbits error reported first, then `NotWav` for another container, then `NotPcm16` for WAV of another encoding; the output is the 104-bit header followed by `nBlocks * K * Q` bits |
| DctDecoder.Clip | Lab_1/sndfile-example/src/wav_dct_dec.cpp:118-122 | values in the `short` range pass unchanged, larger ones saturate to 32767 and smaller ones to -32768 |
| DctDecoder.FillCoefficients | Lab_1/sndfile-example/src/wav_dct_dec.cpp:89-104 | the transform input has `bs` entries: the dequantized codes first, zeros at positions `K .. bs` |
| DctDecoder.DequantizeAll | Lab_1/sndfile-example/src/wav_dct_dec.cpp:93-100 | every `int32_t` cast of a raw code lies in the `int32_t` range, and a code below `2^31` keeps its value |
| DctDecoder.ReconstructBlock | Lab_1/sndfile-example/src/wav_dct_dec.cpp:106-123 | a block has `bs` samples, and where the inverse transform of the zero-filled codes stays in the `short` range the block is exactly that transform |
| DctDecoder.ReadCodes | Lab_1/sndfile-example/src/wav_dct_dec.cpp:93-104 | reading `count` codes succeeds exactly when `count * Q` bits remain, and consumes exactly those bits |
| DctDecoder.DecodeBlocks | Lab_1/sndfile-example/src/wav_dct_dec.cpp:83-125 | the block loop succeeds exactly when `nb * K * Q` bits remain; it produces `nb * bs` samples and consumes exactly those bits |
| DctDecoder.DecodeAfterHeader | Lab_1/sndfile-example/src/wav_dct_dec.cpp:63-153 | each error has its exact condition: a rate that reads as `int <= 0`, then `bs == 0`, then `K > bs` with at least one block, then a payload shorter than `nBlocks * K * Q` bits; decoding succeeds exactly when none holds and then writes `frames` samples at the decoded rate |
| DctDecoder.Decode | Lab_1/sndfile-example/src/wav_dct_dec.cpp:41-153 | a missing header is `Truncated`; the rate check is the only header rejection; decoding succeeds exactly when the header is present with a positive rate, a defined block layout and a complete payload, and then yields `frames` samples |
| DctDecoder.RateCheck | Lab_1/sndfile-example/src/wav_dct_dec.cpp:41-66 | the rates rejected are exactly 0 and those at or above `2^31` |
| DctRoundTrip.Reconstruction | Lab_1/sndfile-example/src/wav_dct_dec.cpp:79-125 | the reconstruction of `nb` blocks has `nb * bs` samples |
| DctRoundTrip.ReadCodesAfterWrite | Lab_1/sndfile-example/src/wav_dct_dec.cpp:93-104 | reading codes after the encoder wrote them yields each coefficient's residue and leaves the rest of the stream |
| DctRoundTrip.RawCodes | Lab_1/sndfile-example/src/wav_dct_enc.cpp:142-148 | the codes written for a run of coefficients are each below `2^Q`; a coefficient in `[0, 2^Q)` is its own code and one in `[-2^Q, 0)` is coded as itself plus `2^Q` |
| DctRoundTrip.RecoveredAll | Lab_1/sndfile-example/src/wav_dct_dec.cpp:93-103 | the values handed to the inverse transform lie in the `int32_t` range; below 32 bits a coefficient in `[0, 2^Q)` arrives unchanged and one in `[-2^Q, 0)` arrives `2^Q` larger |
| DctRoundTrip.DecodeBlocksAfterPayload | Lab_1/sndfile-example/src/wav_dct_dec.cpp:83-125 | the decoder's block loop over the encoder's payload reconstructs every block from its kept coefficients as recovered |
| DctRoundTrip.EncoderHeaderFits | Lab_1/sndfile-example/src/wav_dct_enc.cpp:105-109 | for a positive rate below `2^31`, a block size below `2^16` and `Q <= 64`, the encoder's header fits its field widths and its rate passes the decoder's check unchanged |
| DctRoundTrip.DecodePayload | Lab_1/sndfile-example/src/wav_dct_dec.cpp:63-153 | after an accepted header, the payload of `NumBlocks` encoded blocks decodes to the first `frames` samples of their reconstruction |
| DctRoundTrip.EncodeThenDecode | Lab_1/sndfile-example/src/wav_dct_dec.cpp:41-153 | decoding the encoder's output yields the original rate and exactly `frames` samples, each block reconstructed from its kept, dequantized coefficients |
| DctRoundTrip.WideCodesAreExact | Lab_1/sndfile-example/src/wav_dct_dec.cpp:97-103 | with `Q >= 32` and coefficients in `int32_t` range, the inverse transform receives exactly the kept coefficients |
| QuantEncoder.ParseWavHeader | bit_stream/src/wav_quant_enc.cpp:31-41 | the fixed-offset parse succeeds exactly on at least 44 bytes, otherwise `ShortWavHeader` |
| QuantEncoder.QuantIndex | bit_stream/src/wav_quant_enc.cpp:83-92 | the index lies in `[0, 2^Q)` |
| QuantEncoder.IndexIsScaledFloor | bit_stream/src/wav_quant_enc.cpp:87-89 | the shifted index equals `floor((s + 32768) * 2^Q / 65536)`, the float formula's value |
| QuantEncoder.ClampIndex | bit_stream/src/wav_quant_enc.cpp:91-92 | the clamp lands in `[0, levels)` and leaves an index already there unchanged |
| QuantEncoder.ClampIsIdentity | bit_stream/src/wav_quant_enc.cpp:91-92 | the clamp never changes the index of a 16-bit sample |
| QuantEncoder.IndexMonotone | bit_stream/src/wav_quant_enc.cpp:87-89 | a louder sample never gets a lower index |
| QuantEncoder.FileSamples | bit_stream/src/wav_quant_enc.cpp:56-57 | the sample buffer has `frames * channels` entries, each the 16-bit value at its place after the header where the file holds it |
| QuantEncoder.WqHeader | bit_stream/src/wav_quant_enc.cpp:67-72 | the container header is 15 bytes |
| QuantEncoder.IndexBits | bit_stream/src/wav_quant_enc.cpp:86-95 | one `Q`-bit code per sample: `|samples| * Q` bits |
| QuantEncoder.ExpectedBytesIsCeiling | bit_stream/src/wav_quant_enc.cpp:105-106 | the expected size is 15 plus the payload rounded up to whole bytes |
| QuantEncoder.ReadOverruns | bit_stream/src/wav_quant_enc.cpp:48-57 | the sample read overruns its buffer exactly when more than `2 * frames * channels` bytes arrive |
| QuantEncoder.OverrunNeedsPartialFrame | bit_stream/src/wav_quant_enc.cpp:48-57 | only a data size that is not a whole number of frames can overrun the buffer |
| QuantEncoder.OverrunExample | bit_stream/src/wav_quant_enc.cpp:48-57 | two channels with a data size of 6 in a 50-byte file overrun the 4-byte buffer |
| QuantEncoder.Encode | bit_stream/src/wav_quant_enc.cpp:19-95 | `Q` outside 1..16 is `BadQBits`, and a short header is rejected next; `BufferOverrun` exactly when a valid 16-bit header's read would overrun; success means 16-bit input, the header written with `data_size / (2*channels)` frames, and `frames * channels * Q` payload bits; `Not16Bit`, `NoChannels` and success each hold exactly under their condition, and the payload is the clamped `Q`-bit index of each of the first `frames * channels` samples of the file, in order |
| QuantDecoder.ReadWqHeader | Lab_1/bit_stream/src/wav_quant_dec.cpp:34-76 | `TooSmall` exactly below 15 bytes and `BadMagic` exactly for a wrong tag; an accepted header has `Q` in 1..16, 1..8 channels and 1..10^9 frames |
| QuantDecoder.WqHeaderRoundTrip | Lab_1/bit_stream/src/wav_quant_dec.cpp:53-56 | the decoder reads back every field the encoder writes, in the same order and widths |
| QuantDecoder.ReconstructNarrow | Lab_1/bit_stream/src/wav_quant_dec.cpp:118-119 | below 16 bits the midpoint is `idx * 2^(16-Q) + 2^(15-Q) - 32768` |
| QuantDecoder.ReconstructSixteen | Lab_1/bit_stream/src/wav_quant_dec.cpp:118-119 | at 16 bits the cast truncates `idx - 32767.5` toward zero |
| QuantDecoder.MidpointError | Lab_1/bit_stream/src/wav_quant_dec.cpp:118-119 | below 16 bits every reconstructed sample is within `2^(15-Q)` of the encoded one |
| QuantDecoder.SixteenBitOffByOne | Lab_1/bit_stream/src/wav_quant_dec.cpp:118-119 | at 16 bits non-negative samples return exactly and negative ones one higher |
| QuantDecoder.DecodedLength | Lab_1/bit_stream/src/wav_quant_dec.cpp:105-124 | all `frames * channels` samples when the payload holds enough bits; an early stop after `n` samples only when fewer than `(n + 1) * Q` bits were there |
| QuantDecoder.DecodedSampleAt | Lab_1/bit_stream/src/wav_quant_dec.cpp:111-119 | sample `i` is the midpoint of the bin named by the `i`-th group of `Q` bits, so the clamp never fires |
| QuantDecoder.GroupAtSlice | Lab_1/bit_stream/src/wav_quant_dec.cpp:111-114 | the `i`-th group the loop reads is bits `i * Q .. i * Q + Q` of the payload |
| QuantDecoder.WavHeader | Lab_1/bit_stream/src/wav_quant_dec.cpp:143-164 | the written header is 44 bytes |
| QuantDecoder.WavHeaderLayout | Lab_1/bit_stream/src/wav_quant_dec.cpp:143-164 | tags and fields at canonical offsets; RIFF size = 36 + data size, data size = 2 * count, byte rate = rate * ch * 2, block align = ch * 2, 16 bits, each truncated to its field width |
| QuantDecoder.Reconstruct | Lab_1/bit_stream/src/wav_quant_dec.cpp:118-119 | the midpoint formula; its value is stated by `ReconstructNarrow` and `ReconstructSixteen`, its error by `MidpointError` |
| QuantDecoder.DecodeSamples | Lab_1/bit_stream/src/wav_quant_dec.cpp:105-124 | the decoding loop yields at most `frames * channels` samples; `DecodedLength` and `DecodedSampleAt` state how many and which |
| QuantDecoder.SeemsTruncated | Lab_1/bit_stream/src/wav_quant_dec.cpp:87-89 | the truncation warning's condition; `QuantRoundTrip.EncodedFileNotTruncated` shows it never holds for a file the encoder wrote |
| QuantDecoder.WavFile | Lab_1/bit_stream/src/wav_quant_dec.cpp:143-167 | the header followed by `(2 * count) mod 2^32` sample bytes, the `uint32_t` data size; below 2^32 bytes that is every sample |
| QuantDecoder.DataSizeBounds | Lab_1/bit_stream/src/wav_quant_dec.cpp:144 | the `uint32_t` data size never exceeds the sample byte count and equals it below 2^32 |
| QuantDecoder.Decode | Lab_1/bit_stream/src/wav_quant_dec.cpp:34-167 | decoding succeeds exactly when the header is accepted; `TooSmall` exactly for a file below 15 bytes; the output is at most `44 + 2 * frames * channels` bytes and below `44 + 2^32` |
| QuantRoundTrip.DecodeIndexBits | Lab_1/bit_stream/src/wav_quant_dec.cpp:105-124 | the decoding loop reads back every index the encoding loop wrote, giving the midpoint of each sample's bin |
| QuantRoundTrip.DecodedHeaderReads | Lab_1/bit_stream/src/wav_quant_dec.cpp:147-164 | the encoder's fixed-offset parse of a decoded file finds the channels, rate, 16 bits and data size the decoder wrote |
| QuantRoundTrip.DecodedSamplesRead | Lab_1/bit_stream/src/wav_quant_dec.cpp:167 | the encoder's sample buffer for a decoded file holds exactly the decoded samples |
| QuantRoundTrip.EncodeThenDecode | Lab_1/bit_stream/src/wav_quant_dec.cpp:34-167 | decoding an encoded file yields the WAV file of the bin midpoints of the samples the encoder read |
| QuantRoundTrip.EncodedFileNotTruncated | Lab_1/bit_stream/src/wav_quant_dec.cpp:79-89 | an encoded file has exactly the size its header promises, so the truncation warning never fires on it |
| QuantRoundTrip.MidpointStaysInBin | Lab_1/bit_stream/src/wav_quant_dec.cpp:118-119 | below 16 bits a midpoint falls back into its own bin, so re-encoding a decoded file is stable |
| QuantRoundTrip.SixteenBitDrifts | Lab_1/bit_stream/src/wav_quant_dec.cpp:118-119 | at 16 bits -2 decodes to -1 and -1 to 0 |
| WavQuant.RoundDownIsLargestMultiple | Lab_1/sndfile-example/src/wav_quant.h:21-22 | the shift pair gives a multiple of `2^n` at most the sample, less than `2^n` below it, and no smaller than any multiple at most the sample |
| WavQuant.MinSampleIsMultiple | Lab_1/sndfile-example/src/wav_quant.h:21-22 | -32768 is a multiple of every `2^n` up to `2^15`, so the result never leaves the `short` range |
| WavQuant.ClearLowBits | Lab_1/sndfile-example/src/wav_quant.h:21-22 | the shift pair on one sample; `ClearLowBitsNarrow`, `ClearLowBitsWide` and `ClearLowBitsIdempotent` state its value |
| WavQuant.ClearLowBitsNarrow | Lab_1/sndfile-example/src/wav_quant.h:21-22 | up to 15 bits, the stored value is the largest multiple of `2^n` not above the sample |
| WavQuant.ClearLowBitsWide | Lab_1/sndfile-example/src/wav_quant.h:21-22 | clearing 16 to 31 bits stores 0 |
| WavQuant.ClearLowBitsIdempotent | Lab_1/sndfile-example/src/wav_quant.h:21-22 | quantizing a stored value again leaves it unchanged |
| WavQuant.ClearNoBits | Lab_1/sndfile-example/src/wav_quant.h:21-22 | with `n = 0` samples are stored unchanged |
| WavQuant.Quant | Lab_1/sndfile-example/src/wav_quant.h:19-24 | exactly `|samples|` values are appended in input order, each the cleared sample, and earlier stored values are untouched |
| WavHist.Bump | Lab_1/sndfile-example/src/wav_hist.h:23 | one increment adds the key if missing, raises its count by one and leaves the other entries alone |
| WavHist.AddAllCounts | Lab_1/sndfile-example/src/wav_hist.h:22-23 | counting a sequence raises each value's count by its multiplicity; the keys become exactly the old keys plus the values seen |
| WavHist.Init | Lab_1/sndfile-example/src/wav_hist.h:13-18 | a new object has one empty map per channel and empty mid and side maps |
| WavHist.Update | Lab_1/sndfile-example/src/wav_hist.h:20-24 | `update` keeps the channel count and the mid and side maps, and an empty block changes nothing, even without channels |
| WavHist.UpdateFromPerChannel | Lab_1/sndfile-example/src/wav_hist.h:21-23 | sample `i` goes to map `(n + i) mod channels`: each map counts exactly its channel's samples |
| WavHist.UpdateCounts | Lab_1/sndfile-example/src/wav_hist.h:20-24 | after `update`, the count of `v` in channel `c` rose by the multiplicity of `v` among that channel's samples |
| WavHist.SharesPartition | Lab_1/sndfile-example/src/wav_hist.h:21-23 | the channels' shares of a block add up to the whole block, so `update` adds `|block|` counts in all |
| WavHist.ChannelFromShift | Lab_1/sndfile-example/src/wav_hist.h:23 | where a sample lands depends on its running index only modulo the channel count |
| WavHist.ChannelFromAppend | Lab_1/sndfile-example/src/wav_hist.h:22-23 | splitting a block splits each channel's share at the same place |
| WavHist.UpdateWholeFrames | Lab_1/sndfile-example/src/wav_hist.h:21-23 | when the first block holds whole frames, two `update` calls count like one over the concatenation |
| WavHist.AddAllConcat | Lab_1/sndfile-example/src/wav_hist.h:22-23 | counting two sequences in turn is counting their concatenation |
| WavHist.UpdateSplitFrame | Lab_1/sndfile-example/src/wav_hist.h:21 | the index restarts at zero on each call, so a block that splits a frame sends the next block's samples to other channels |
| WavHist.MidValues | Lab_1/sndfile-example/src/wav_hist.h:32-33 | one mid value per whole frame, `|block| / 2` of them |
| WavHist.SideValues | Lab_1/sndfile-example/src/wav_hist.h:43-44 | one side value per whole frame, `|block| / 2` of them |
| WavHist.UpdateMid | Lab_1/sndfile-example/src/wav_hist.h:26-35 | nothing changes unless there are two channels; with two, the count of every mid value rises by its multiplicity, an odd trailing sample ignored |
| WavHist.UpdateSide | Lab_1/sndfile-example/src/wav_hist.h:37-46 | nothing changes unless there are two channels; with two, the count of every side value rises by its multiplicity, an odd trailing sample ignored |
| WavHist.MidBetween | Lab_1/sndfile-example/src/wav_hist.h:33 | the truncated mid value lies between the two samples |
| WavHist.SideAntisymmetric | Lab_1/sndfile-example/src/wav_hist.h:44 | swapping the channels negates the truncated side value |
| WavHist.SideZero | Lab_1/sndfile-example/src/wav_hist.h:44 | the side value is zero exactly when the samples differ by at most one |
| WavHist.ListFromComplete | Lab_1/sndfile-example/src/wav_hist.h:49-50 | the listing holds exactly the map's entries |
| WavHist.ListFromSorted | Lab_1/sndfile-example/src/wav_hist.h:49-50 | the listing's keys strictly increase |
| WavHist.DumpChannel | Lab_1/sndfile-example/src/wav_hist.h:48-51 | `dump` lists exactly the channel's `(value, count)` pairs, in ascending order of value as `std::map` iterates |
| WavHist.MidDump | Lab_1/sndfile-example/src/wav_hist.h:53-60 | `mid_dump` reports no data exactly when the map is empty, and otherwise lists exactly its entries in ascending order of value |
| WavHist.SideDump | Lab_1/sndfile-example/src/wav_hist.h:62-69 | `side_dump` reports no data exactly when the map is empty, and otherwise lists exactly its entries in ascending order of value |
| WavCmp.Validate | Lab_1/sndfile-example/src/wav_cmp.cpp:13-50 | comparison proceeds exactly when there are at least two arguments (the last two naming the files), both files open, both are PCM_16 WAV, and frames and channels agree; too few arguments is `Usage`, and two open files of which one is not WAV is `NotWav` |
| WavCmp.Accumulate | Lab_1/sndfile-example/src/wav_cmp.cpp:58-86 | the processing loop leaves each channel's accumulators equal to that channel's statistics |
| WavCmp.NoiseZeroIffEqual | Lab_1/sndfile-example/src/wav_cmp.cpp:80-102 | a channel's noise energy is zero, i.e. its SNR infinite, exactly when the files agree on every one of its samples |
| WavCmp.MaxErrorIsMaximum | Lab_1/sndfile-example/src/wav_cmp.cpp:60-84 | the maximum error bounds every absolute difference in the channel, is attained or zero, and is at most 65535 |
| WavCmp.EnergiesAreSums | Lab_1/sndfile-example/src/wav_cmp.cpp:71-80 | the signal and noise energies are the sums of squares of the channel's samples and differences |
| WavCmp.CombineAdd | Lab_1/sndfile-example/src/wav_cmp.cpp:110-114 | accumulating a sample into one channel accumulates it into the totals |
| WavCmp.CombineIsWholeSignal | Lab_1/sndfile-example/src/wav_cmp.cpp:110-114 | the totals are the statistics of all samples taken as one channel |
| WavCmp.ZeroCombine | Lab_1/sndfile-example/src/wav_cmp.cpp:97-99 | the totals start at zero |
| WavCmp.RowOf | Lab_1/sndfile-example/src/wav_cmp.cpp:102-108 | the SNR is infinite exactly when the noise is zero; the MSE and maximum come from the accumulators |
| WavCmp.Report | Lab_1/sndfile-example/src/wav_cmp.cpp:101-127 | one row per channel over the frame count, plus an average row over all samples when there is more than one channel |
| WavCmp.Compare | Lab_1/sndfile-example/src/wav_cmp.cpp:13-127 | the tool succeeds exactly when validation does, and then reports the per-channel statistics |
| WavCmp.AverageRowIsWholeSignal | Lab_1/sndfile-example/src/wav_cmp.cpp:118-127 | the average row reports the energies of all samples and the largest error anywhere |
| WavMono.DownmixFrameAsWritten | Lab_1/sndfile-example/src/wav_mono.cpp:55-63 | one output sample from the 16-bit accumulator; a mono frame is copied, since a single sample never wraps |
| WavMono.AsWrittenOverflows | Lab_1/sndfile-example/src/wav_mono.cpp:56-62 | two channels at 20000 downmix to -12768 as written, and to 20000 with the sum in `int` |
| WavMono.DownmixFrame | Lab_1/sndfile-example/src/wav_mono.cpp:56-62 | the corrected frame of the Findings row, with the sum in `int`: a mono frame is copied and a stereo frame gives a value between its two samples |
| WavMono.AsWrittenAgreesWithoutOverflow | Lab_1/sndfile-example/src/wav_mono.cpp:56-62 | the accumulator as written gives the corrected value exactly when the stereo sum fits a `short` |
| WavMono.Downmix | Lab_1/sndfile-example/src/wav_mono.cpp:52-63 | the frame loop as written yields one output sample per frame |
| WavMono.MapFramesAt | Lab_1/sndfile-example/src/wav_mono.cpp:52-63 | output `i` of the frame loop depends on the samples `i * channels .. (i + 1) * channels` alone |
| WavMono.DownmixAt | Lab_1/sndfile-example/src/wav_mono.cpp:52-63 | output `i` is the accumulator's value for frame `i`, the samples `i * channels .. (i + 1) * channels` |
| WavMono.DownmixCorrected | Lab_1/sndfile-example/src/wav_mono.cpp:52-63 | the corrected frame loop of the Findings row yields one output sample per frame |
| WavMono.StereoBetween | Lab_1/sndfile-example/src/wav_mono.cpp:58-62 | in the corrected loop every stereo output lies between the two samples of its frame |
| WavMono.MonoIsIdentity | Lab_1/sndfile-example/src/wav_mono.cpp:55-63 | the loop as written copies a mono input unchanged |
| WavMono.DownmixMatchesCorrected | Lab_1/sndfile-example/src/wav_mono.cpp:52-63 | the loop as written equals the corrected loop exactly when no stereo frame's sum overflows a `short` |
| WavMono.Run | Lab_1/sndfile-example/src/wav_mono.cpp:16-63 | usage, then open, then more than two channels are rejected, in that order; success yields exactly `nFrames` samples |
| WavMono.RunAveragesIffNoOverflow | Lab_1/sndfile-example/src/wav_mono.cpp:16-63 | the tool writes the per-frame average exactly when no stereo frame's sum overflows its accumulator |
| WavEffects.EffectNamed | Lab_1/sndfile-example/src/wav_effects.cpp:42-74 | a name selects an effect only if it is that effect's name |
| WavEffects.NamesSelectEffects | Lab_1/sndfile-example/src/wav_effects.cpp:42-74 | each effect is selected by its own name and by no other |
| WavEffects.ParseInvocation | Lab_1/sndfile-example/src/wav_effects.cpp:13-74 | an invocation is accepted exactly when it has at least four arguments, the input is PCM_16 WAV, the output opens, the effect is known, the argument count is 6/6/5/4, and the numbers parse (reverse takes none) |
| WavEffects.RingRead | Lab_1/sndfile-example/src/wav_effects.cpp:88 | the slot under the cursor holds the sample `d` positions back, or silence |
| WavEffects.RingWrite | Lab_1/sndfile-example/src/wav_effects.cpp:95-98 | writing the wet sample for multiple echo, or the dry one for single echo, under the cursor keeps the ring's meaning one sample later |
| WavEffects.EchoExtend | Lab_1/sndfile-example/src/wav_effects.cpp:87-99 | appending the mix of the next input with its delayed sample keeps every earlier output's meaning |
| WavEffects.Echo | Lab_1/sndfile-example/src/wav_effects.cpp:82-101 | every output is the mix of its input with the feedback `d` samples earlier, or with silence in the first `d`; its loop keeps the cursor at `i mod d` |
| WavEffects.ReversedAt | Lab_1/sndfile-example/src/wav_effects.cpp:123 | position `k` of the reversal holds position `n - 1 - k` of the original |
| WavEffects.ReversedPermutes | Lab_1/sndfile-example/src/wav_effects.cpp:123 | reversing keeps the multiset of samples |
| WavEffects.ReverseEachFramePermutes | Lab_1/sndfile-example/src/wav_effects.cpp:126-130 | reversing each frame keeps the multiset of samples |
| WavEffects.ReverseEffect | Lab_1/sndfile-example/src/wav_effects.cpp:119-130 | the reverse effect keeps the length; `ReverseFrameOrder` and `ReverseTwice` state its content |
| WavEffects.ReverseEffectPermutes | Lab_1/sndfile-example/src/wav_effects.cpp:119-130 | the reverse effect keeps length and the multiset of samples |
| WavEffects.ReverseEachFrameAt | Lab_1/sndfile-example/src/wav_effects.cpp:127-129 | within frame `f`, channel `c` takes channel `channels - 1 - c` |
| WavEffects.ReverseFrameOrder | Lab_1/sndfile-example/src/wav_effects.cpp:123-130 | output frame `f` is input frame `F - 1 - f` with its channels in the original order |
| WavEffects.FrameOf | Lab_1/sndfile-example/src/wav_effects.cpp:127 | every sample index lies in exactly one frame |
| WavEffects.ReverseTwiceAt | Lab_1/sndfile-example/src/wav_effects.cpp:119-130 | sample `c` of frame `f` is back in its place after two passes of the reverse effect |
| WavEffects.ReverseTwice | Lab_1/sndfile-example/src/wav_effects.cpp:119-130 | applying the reverse effect twice restores the file |
| CollectData.EscapeShell | bit_stream/src/collect_data.cpp:40-51 | the escaped name starts and ends with a single quote |
| CollectData.EscapeShellLength | bit_stream/src/collect_data.cpp:41-49 | the escaped length is `|s| + 2 + 3 * (number of quotes)` |
| CollectData.EscapeBodyLength | Lab_1/sndfile-example/src/collect_data.cpp:58-64 | each quote costs three extra characters, every other character one |
| CollectData.EscapeShellRoundTrip | Lab_1/sndfile-example/src/collect_data.cpp:56-67 | a POSIX shell reads the escaped name back as exactly the name, whatever quotes it holds |
| CollectData.QuotedRoundTrip | bit_stream/src/collect_data.cpp:42-48 | inside the quotes every character is copied verbatim and every quote is closed, escaped and reopened |
| CollectData.FirstNumberIndex | bit_stream/src/collect_data.cpp:70-75 | the scan skips exactly the characters before the first digit, `.` or `-` |
| CollectData.RunEnd | bit_stream/src/collect_data.cpp:70-75 | the run of number characters extends to the first other character |
| CollectData.NumberToken | bit_stream/src/collect_data.cpp:69-76 | the token the scan collects; `NumberTokenIsFirstRun` states it is the first maximal run of number characters |
| CollectData.NumberTokenIsFirstRun | bit_stream/src/collect_data.cpp:69-76 | the token is exactly the first maximal run of digits, `.` and `-` |
| CollectData.SkipThenCollect | bit_stream/src/collect_data.cpp:70-76 | the scan skips to the first number character and then collects its run |
| CollectData.Collect | bit_stream/src/collect_data.cpp:71-74 | once collecting, the scan takes the rest of the run and stops at its end |
| CollectData.FindLastOf | bit_stream/src/collect_data.cpp:369-373 | the position found holds the character and none after it does; none found means it does not occur |
| CollectData.LastOfUnique | bit_stream/src/collect_data.cpp:369-373 | any position holding the last occurrence is the one found |
| CollectData.StripDirectory | Lab_1/sndfile-example/src/collect_data.cpp:311-314 | the directory strip leaves no `/` |
| CollectData.BaseNameExtensionFirst | bit_stream/src/collect_data.cpp:368-376 | the base name, extension stripped first, contains no `/` |
| CollectData.BaseNameDirectoryFirst | Lab_1/sndfile-example/src/collect_data.cpp:310-318 | the base name, directory stripped first, contains no `/` and is a prefix of the last path component |
| CollectData.BaseNamesDiverge | Lab_1/sndfile-example/src/collect_data.cpp:310-318 | on `a.b/c` one harness gives `a` and the other `c` |
| CollectData.BaseNamesAgree | bit_stream/src/collect_data.cpp:368-376 | when no `.` precedes the last `/`, both orders give the same base name |
| CollectData.AgreeBoth | Lab_1/sndfile-example/src/collect_data.cpp:310-318 | with a directory and a later extension, both orders keep the text between the last `/` and the last `.` |

## Left out

- The forward and inverse DCT (FFTW), the division by `2 * bs` and `lround` are floating-point numerics. They are opaque, length-preserving parameters `dct` and `idct`.
- The byte layout of `BitStream` is not modelled, because bit_stream.h is not part of this model. That covers bit order within bytes, the zero padding of the last byte, and what `read_n_bits` returns past the end. A read needs `n` remaining bits, and the DCT decoder reports `Truncated` otherwise.
- `QuantDecoder.DecodeSamples`: the early stop is modelled as "fewer than `Q` bits remain". The source tests the file stream's end-of-file flag, whose timing depends on the stream's buffering.
- `QuantRoundTrip.EncodedFileNotTruncated`: assumes the stream pads the last byte, so the file is 15 bytes plus the payload rounded up. The model does not check this, because bit_stream.h is not part of this model.
- libsndfile and fstream I/O are given as inputs: `SndInfo` plus the interleaved samples, or the file's bytes. This covers opening, reading, seeking, `tellg` and writing. An output file that cannot be created appears only as the `outputOpens` flag of `WavEffects.ParseInvocation`.
- The multi-channel path of the DCT encoder is not modelled. It reads `nFrames` frames into an `nFrames`-sample buffer, which is only sound for mono, so only mono input is modelled.
- `DctEncoder.Encode`: requires `bs >= 1` and `K <= bs`. With a zero block size the block count divides by zero, and with `K > bs` the coefficient loop reads past the block, so the source has no defined behaviour to model.
- `WavQuant.ClearLowBits`: requires a shift count below 32. A larger `size_t` shift of an `int` is undefined in C++.
- `WavEffects.Echo`: requires a delay of at least one sample. With zero the cursor update divides by zero.
- `WavHist.DumpChannel`: requires a channel the object has. `counts[channel]` outside the vector is undefined.
- `QuantEncoder.Encode`: the `quant_bits` argument is converted by `stoi`, which throws on a non-number and reads a numeric prefix such as "3x" as 3; the model takes the converted integer, and the check for exactly three arguments is not modelled, since both concern the command line rather than the encoding.
- The usage checks of the codec tools are not modelled, because they concern only the command line: `argc < 3` in `wav_dct_enc` (Lab_1/sndfile-example/src/wav_dct_enc.cpp:23) and `wav_dct_dec` (Lab_1/sndfile-example/src/wav_dct_dec.cpp:20), and `argc != 3` in `wav_quant_dec` (Lab_1/bit_stream/src/wav_quant_dec.cpp:10). `DctEncoder.Encode`, `DctDecoder.Decode` and `QuantDecoder.Decode` start after them.
- `QuantEncoder.Encode`: a header claiming zero channels divides by zero in the source. The model reports it as `NoChannels`.
- `QuantEncoder.Encode`: when the data size is not a whole number of frames and the file holds the extra bytes, the source reads past its sample buffer, which C++ leaves undefined. The model reports it as `BufferOverrun`.
- `QuantDecoder.Decode`: the decoder's input is a header and a payload. It requires the header to be the file's first 15 bytes, or the whole file when the file is shorter, so that the size check sees the whole file.
- `DctEncoder.SelectQBits`: `-qbits` goes through `atof` and an implicit conversion to `int`, which truncates toward zero. The model takes the resulting integer. The decimal parse and the conversion of a value outside `int` range, which is undefined, are not modelled.
- `DctEncoder.Encode`: the kept count `K = static_cast<size_t>(bs * dctFrac)` is a floating-point product, so `K` is the parameter `kept`. The `-frac` parse is not modelled.
- `DctDecoder.Decode`: the 8-bit `Q` field admits widths up to 255. The model reads `Q` bits for any width and keeps the low 32 bits through the `int32_t` cast. What `read_n_bits` returns in its `uint64_t` for more than 64 bits is not modelled, because bit_stream.h is not part of this model.
- Echo gain mixing is a parameter `mix`, because it is float arithmetic. The delay in samples is a parameter, because it is computed from milliseconds in floating point.
- Amplitude modulation is not modelled, because it multiplies by `cos` in floating point. Only its argument checks are modelled.
- `WavCmp.RowOf`: SNR is kept as the pair of energies and MSE as the pair (noise, count). The `log10` and the double divisions are not modelled.
- The energies and maximum error of `wav_cmp` are exact integers. The source accumulates them in `double`, which is exact below 2^53, and the model does not track that bound.
- Stdout and stderr messages are not modelled: progress output, the decoder's warnings, the compression ratio and the verbose flags. The decoder's truncation warning is modelled as the predicate `QuantDecoder.SeemsTruncated` only.
- Reading in chunks of 65536 frames (`wav_cmp`, `wav_effects`) is not modelled. Each loop runs over the whole interleaved signal, which gives the same per-sample result because the channel of sample `i` is `i mod channels` in every chunk.
- In the harnesses, `popen`/`system`, timing, regex parsing of tool output, CSV and summary writing, and the `double` parse at the end of `extract_number` are not modelled. Only the token the scan collects is modelled.
- plot_histograms.py only draws plots and is not modelled.

## Findings

| source | as written | input that shows it | evidently intended | confidence | as-written member | corrected member |
|---|---|---|---|---|---|---|
| Lab_1/sndfile-example/src/wav_mono.cpp:56-62 | the stereo sum is accumulated in a `short`, so it wraps modulo 2^16 before the division by two | a frame with both channels at 20000 gives -12768 | the average of the two channels, (20000 + 20000) / 2 = 20000, always between the two samples | high (not executed) | WavMono.DownmixFrameAsWritten, WavMono.AsWrittenOverflows, WavMono.Run | WavMono.DownmixFrame, WavMono.DownmixCorrected, WavMono.StereoBetween |
