/** The downmix tool (`wav_mono`): mono or stereo input becomes one channel
    whose samples are the per-frame average of the input channels. */
module WavMono {
  import opened Common
  import opened SoundFile

  datatype MonoError = Usage | CannotOpen | TooManyChannels

  /** The frame loop's `short` accumulator: each `+=` is computed in `int` and stored back into 16 bits. */
  function AccumulateAsWritten(frame: seq<Int16>): Int16
  {
    if |frame| == 0 then 0 else Wrap16(AccumulateAsWritten(frame[..|frame| - 1]) + frame[|frame| - 1])
  }

  /** One output sample as the loop computes it: the wrapped sum, halved toward zero when there are two channels.
      A mono frame never wraps, so it is copied. */
  function DownmixFrameAsWritten(frame: seq<Int16>): (m: Int16)
    ensures |frame| == 1 ==> m == frame[0]
  {
    var acc := AccumulateAsWritten(frame);
    if |frame| > 1 then Half(acc)
    else
      MonoAccumulates(frame);
      acc
  }

  lemma MonoAccumulates(frame: seq<Int16>)
    requires |frame| <= 1
    ensures |frame| == 1 ==> AccumulateAsWritten(frame) == frame[0]
  {
    if |frame| == 1 {
      assert frame[..0] == [];
      Wrap16Properties(frame[0]);
    }
  }

  /** Two loud samples of the same sign overflow the 16-bit accumulator, and their "average" has the opposite sign. */
  lemma AsWrittenOverflows()
    ensures DownmixFrameAsWritten([20000, 20000]) == -12768
    ensures DownmixFrame([20000, 20000]) == 20000
  {
    assert [20000, 20000][..1] == [20000];
    assert [20000][..0] == [];
  }

  /** One output sample with the sum kept in `int`, as the loop evidently intends: the channel itself for mono,
      the mid value for stereo. */
  function DownmixFrame(frame: seq<Int16>): (m: Int16)
    ensures |frame| == 1 ==> m == frame[0]
    ensures |frame| == 2 ==> Min(frame[0], frame[1]) <= m <= Max(frame[0], frame[1])
  {
    if |frame| == 0 then 0
    else if |frame| == 1 then frame[0]
    else Half(frame[0] as int + frame[1] as int)
  }

  /** The stereo sum of a frame fits in a `short`. */
  predicate SumFits(a: Int16, b: Int16)
  {
    -32768 <= a as int + b as int <= 32767
  }

  /** The loop as written computes the intended sample exactly when the stereo sum fits in 16 bits; otherwise the
      wrapped sum lands on the other side of zero. */
  lemma AsWrittenAgreesWithoutOverflow(frame: seq<Int16>)
    requires |frame| <= 2
    ensures DownmixFrameAsWritten(frame) == DownmixFrame(frame) <==> (|frame| == 2 ==> SumFits(frame[0], frame[1]))
  {
    if |frame| == 2 {
      var sum := frame[0] as int + frame[1] as int;
      assert frame[..1][..0] == [];
      Wrap16Properties(frame[0]);
      assert AccumulateAsWritten(frame[..1]) == frame[0];
      assert AccumulateAsWritten(frame) == Wrap16(sum);
      if sum > 32767 {
        ModUnique(sum + 32768, 65536, 1, sum - 32768);
        assert Wrap16(sum) == sum - 65536;
      } else if sum < -32768 {
        ModUnique(sum + 32768, 65536, -1, sum + 98304);
        assert Wrap16(sum) == sum + 65536;
      } else {
        Wrap16Properties(sum);
      }
    }
  }

  /** One output sample per frame, each computed by `f` from the frame's `channels` interleaved samples. */
  function MapFrames(f: seq<Int16> -> Int16, samples: seq<Int16>, channels: nat, frames: nat): (out: seq<Int16>)
    requires |samples| == Span(frames, channels)
    ensures |out| == frames
    decreases frames
  {
    if frames == 0 then []
    else [f(samples[..channels])] + MapFrames(f, samples[channels..], channels, frames - 1)
  }

  /** Output sample `i` depends on input frame `i` alone. */
  lemma {:induction false} MapFramesAt(f: seq<Int16> -> Int16, samples: seq<Int16>, channels: nat, frames: nat, i: nat)
    requires |samples| == Span(frames, channels) && i < frames
    ensures Span(i + 1, channels) <= |samples|
    ensures MapFrames(f, samples, channels, frames)[i] == f(samples[Span(i, channels)..Span(i + 1, channels)])
    decreases i
  {
    var rest := MapFrames(f, samples[channels..], channels, frames - 1);
    var out := MapFrames(f, samples, channels, frames);
    assert out == [f(samples[..channels])] + rest;
    var lo, hi := Span(i, channels), Span(i + 1, channels);
    assert hi == channels + lo;
    if i == 0 {
      assert lo == 0 && samples[lo..hi] == samples[..channels];
    } else {
      var lo', hi' := Span(i - 1, channels), Span(i, channels);
      MapFramesAt(f, samples[channels..], channels, frames - 1, i - 1);
      assert lo == channels + lo' && Span(i - 1 + 1, channels) == hi';
      SliceOfDrop(samples, channels, lo', hi', lo, hi);
      assert out[i] == rest[i - 1];
    }
  }

  /** The frame loop as written: one output sample per frame, from the 16-bit accumulator. */
  function Downmix(samples: seq<Int16>, channels: nat, frames: nat): (out: seq<Int16>)
    requires channels <= 2 && |samples| == Span(frames, channels)
    ensures |out| == frames
  {
    MapFrames(DownmixFrameAsWritten, samples, channels, frames)
  }

  /** The frame loop with the sum kept in `int`. */
  function DownmixCorrected(samples: seq<Int16>, channels: nat, frames: nat): (out: seq<Int16>)
    requires channels <= 2 && |samples| == Span(frames, channels)
    ensures |out| == frames
  {
    MapFrames(DownmixFrame, samples, channels, frames)
  }

  /** Output sample `i` is the accumulator's value for input frame `i` alone. */
  lemma DownmixAt(samples: seq<Int16>, channels: nat, frames: nat, i: nat)
    requires channels <= 2 && |samples| == Span(frames, channels) && i < frames
    ensures Span(i + 1, channels) <= |samples|
    ensures Downmix(samples, channels, frames)[i] == DownmixFrameAsWritten(samples[Span(i, channels)..Span(i + 1, channels)])
  {
    MapFramesAt(DownmixFrameAsWritten, samples, channels, frames, i);
  }

  /** With the sum in `int`, every stereo output sample lies between the two samples of its frame. */
  lemma StereoBetween(samples: seq<Int16>, frames: nat, i: nat)
    requires |samples| == Span(frames, 2) && i < frames
    ensures 2 * i + 1 < |samples|
    ensures var m := DownmixCorrected(samples, 2, frames)[i];
            Min(samples[2 * i], samples[2 * i + 1]) <= m <= Max(samples[2 * i], samples[2 * i + 1])
  {
    MapFramesAt(DownmixFrame, samples, 2, frames, i);
    SpanIsProduct(i, 2);
    SpanIsProduct(i + 1, 2);
    var frame := samples[2 * i..2 * i + 2];
    assert frame[0] == samples[2 * i] && frame[1] == samples[2 * i + 1];
  }

  /** A mono file is copied unchanged. */
  lemma {:induction false} MonoIsIdentity(samples: seq<Int16>, frames: nat)
    requires |samples| == Span(frames, 1)
    ensures Downmix(samples, 1, frames) == samples
    decreases frames
  {
    if frames > 0 {
      MonoIsIdentity(samples[1..], frames - 1);
      assert samples[..1] == [samples[0]];
      assert samples == [samples[0]] + samples[1..];
    }
  }

  /** Every stereo frame of an interleaved stereo buffer has a sum that fits in a `short`. */
  predicate StereoSumsFit(samples: seq<Int16>)
    decreases |samples|
  {
    |samples| < 2 || (SumFits(samples[0], samples[1]) && StereoSumsFit(samples[2..]))
  }

  lemma ConsEqual(a: Int16, x: seq<Int16>, b: Int16, y: seq<Int16>)
    ensures [a] + x == [b] + y <==> a == b && x == y
  {
    if [a] + x == [b] + y {
      assert ([a] + x)[0] == a && ([b] + y)[0] == b;
      assert ([a] + x)[1..] == x && ([b] + y)[1..] == y;
    }
  }

  /** The loop as written writes the per-frame average exactly when no stereo frame overflows the accumulator. */
  lemma {:induction false} DownmixMatchesCorrected(samples: seq<Int16>, channels: nat, frames: nat)
    requires channels <= 2 && |samples| == Span(frames, channels)
    ensures Downmix(samples, channels, frames) == DownmixCorrected(samples, channels, frames)
            <==> (channels == 2 ==> StereoSumsFit(samples))
    decreases frames
  {
    if frames > 0 {
      var head, tail := samples[..channels], samples[channels..];
      AsWrittenAgreesWithoutOverflow(head);
      DownmixMatchesCorrected(tail, channels, frames - 1);
      assert Downmix(samples, channels, frames) == [DownmixFrameAsWritten(head)] + Downmix(tail, channels, frames - 1);
      assert DownmixCorrected(samples, channels, frames) == [DownmixFrame(head)] + DownmixCorrected(tail, channels, frames - 1);
      ConsEqual(DownmixFrameAsWritten(head), Downmix(tail, channels, frames - 1),
                DownmixFrame(head), DownmixCorrected(tail, channels, frames - 1));
      if channels == 2 {
        assert head[0] == samples[0] && head[1] == samples[1];
        assert StereoSumsFit(samples) == (SumFits(samples[0], samples[1]) && StereoSumsFit(tail));
      }
    }
  }

  /** Usage, opening and the channel limit are checked in this order; the verbose flag only changes diagnostics. */
  function Run(argc: int, input: Option<SndInfo>, samples: seq<Int16>): (r: Result<seq<Int16>, MonoError>)
    requires input.Some? && input.value.channels <= 2 ==> |samples| == Span(input.value.frames, input.value.channels)
    ensures argc < 3 ==> r == Err(Usage)
    ensures argc >= 3 && input.None? ==> r == Err(CannotOpen)
    ensures argc >= 3 && input.Some? && input.value.channels > 2 ==> r == Err(TooManyChannels)
    ensures r.Ok? <==> argc >= 3 && input.Some? && input.value.channels <= 2
    ensures r.Ok? ==> |r.value| == input.value.frames
  {
    if argc < 3 then Err(Usage)
    else if input.None? then Err(CannotOpen)
    else if input.value.channels > 2 then Err(TooManyChannels)
    else Ok(Downmix(samples, input.value.channels, input.value.frames))
  }

  /** The tool writes the per-frame average exactly when no stereo frame's sum overflows its accumulator. */
  lemma RunAveragesIffNoOverflow(argc: int, info: SndInfo, samples: seq<Int16>)
    requires argc >= 3 && info.channels <= 2 && |samples| == Span(info.frames, info.channels)
    ensures Run(argc, Some(info), samples) == Ok(DownmixCorrected(samples, info.channels, info.frames))
            <==> (info.channels == 2 ==> StereoSumsFit(samples))
  {
    DownmixMatchesCorrected(samples, info.channels, info.frames);
  }
}
