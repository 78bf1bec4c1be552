/** The comparison tool (`wav_cmp`): after checking that both files are
    16-bit PCM WAV with the same shape, it accumulates per channel the
    signal energy of the first file, the energy of the difference, and the
    largest absolute difference, and reports SNR, MSE and maximum error per
    channel and, for multichannel files, over all channels together. */
module WavCmp {
  import opened Common
  import opened SoundFile

  datatype CompareError = Usage | InvalidFirst | InvalidSecond | NotWav | NotPcm16 | FrameMismatch | ChannelMismatch

  /** The checks before any sample is read; `None` is a file libsndfile could not open. */
  function Validate(argc: int, first: Option<SndInfo>, second: Option<SndInfo>): (r: Result<SndInfo, CompareError>)
    ensures r.Ok? <==> && argc >= 3 && first.Some? && second.Some?
                       && IsPcm16Wav(first.value) && IsPcm16Wav(second.value)
                       && first.value.frames == second.value.frames
                       && first.value.channels == second.value.channels
    ensures r.Ok? ==> r.value == first.value
    ensures argc < 3 ==> r == Err(Usage)
    ensures argc >= 3 && first.Some? && second.Some? && (first.value.container != Wav || second.value.container != Wav) ==> r == Err(NotWav)
  {
    if argc < 3 then Err(Usage)
    else if first.None? then Err(InvalidFirst)
    else if second.None? then Err(InvalidSecond)
    else
      var f1 := first.value;
      var f2 := second.value;
      if f1.container != Wav || f2.container != Wav then Err(NotWav)
      else if f1.encoding != Pcm16 || f2.encoding != Pcm16 then Err(NotPcm16)
      else if f1.frames != f2.frames then Err(FrameMismatch)
      else if f1.channels != f2.channels then Err(ChannelMismatch)
      else Ok(f1)
  }

  /** The three accumulators of one channel. */
  datatype ChannelStats = ChannelStats(signal: nat, noise: nat, maxError: nat)

  /** The loop body for one pair of samples: squares in 64-bit integers, and the maximum taken only on a strict increase. */
  function Add(s: ChannelStats, x: Int16, y: Int16): (r: ChannelStats)
  {
    var d: int := x as int - y as int;
    ChannelStats(s.signal + x * x, s.noise + d * d, if Abs(d) > s.maxError then Abs(d) else s.maxError)
  }

  /** The accumulators of channel `c` over the interleaved samples `a` (first file) and `b` (second file). */
  function Stats(a: seq<Int16>, b: seq<Int16>, channels: nat, c: nat): ChannelStats
    requires |a| == |b| && channels >= 1
  {
    if |a| == 0 then ChannelStats(0, 0, 0)
    else
      var n := |a| - 1;
      var s := Stats(a[..n], b[..n], channels, c);
      if n % channels == c then Add(s, a[n], b[n]) else s
  }

  /** The per-channel accumulators after the processing loop. */
  function PerChannel(a: seq<Int16>, b: seq<Int16>, channels: nat): (ss: seq<ChannelStats>)
    requires |a| == |b| && channels >= 1
    ensures |ss| == channels
  {
    seq(channels, c requires 0 <= c < channels => Stats(a, b, channels, c))
  }

  /** The processing loop over the interleaved samples of both files. */
  method Accumulate(a: seq<Int16>, b: seq<Int16>, channels: nat) returns (stats: seq<ChannelStats>)
    requires |a| == |b| && channels >= 1
    ensures stats == PerChannel(a, b, channels)
  {
    stats := seq(channels, _ => ChannelStats(0, 0, 0));
    var i := 0;
    while i < |a|
      invariant 0 <= i <= |a|
      invariant |stats| == channels
      invariant forall c :: 0 <= c < channels ==> stats[c] == Stats(a[..i], b[..i], channels, c)
    {
      var c := i % channels;
      stats := stats[c := Add(stats[c], a[i], b[i])];
      assert a[..i + 1][..i] == a[..i] && b[..i + 1][..i] == b[..i];
      i := i + 1;
    }
    assert a[..i] == a && b[..i] == b;
  }

  /** A channel has no noise exactly when the two files agree on every one of its samples. */
  lemma {:induction false} NoiseZeroIffEqual(a: seq<Int16>, b: seq<Int16>, channels: nat, c: nat)
    requires |a| == |b| && channels >= 1
    ensures Stats(a, b, channels, c).noise == 0 <==> forall i :: 0 <= i < |a| && i % channels == c ==> a[i] == b[i]
  {
    if |a| > 0 {
      var n := |a| - 1;
      var s := Stats(a[..n], b[..n], channels, c);
      NoiseZeroIffEqual(a[..n], b[..n], channels, c);
      assert forall i :: 0 <= i < n ==> a[..n][i] == a[i] && b[..n][i] == b[i];
      var before := forall i :: 0 <= i < n && i % channels == c ==> a[i] == b[i];
      var all := forall i :: 0 <= i < |a| && i % channels == c ==> a[i] == b[i];
      assert s.noise == 0 <==> before;
      if n % channels == c {
        AddNoiseZero(s, a[n], b[n]);
        assert all <==> before && a[n] == b[n];
      } else {
        assert all <==> before;
      }
    }
  }

  /** A pair adds no noise exactly when its samples agree. */
  lemma AddNoiseZero(s: ChannelStats, x: Int16, y: Int16)
    ensures Add(s, x, y).noise == 0 <==> s.noise == 0 && x == y
  {
    var d: int := x as int - y as int;
    if d != 0 {
      assert d * d > 0;
    }
  }

  /** The maximum error is the largest absolute difference over the channel's samples, or zero when it has none. */
  lemma {:induction false} MaxErrorIsMaximum(a: seq<Int16>, b: seq<Int16>, channels: nat, c: nat)
    requires |a| == |b| && channels >= 1
    ensures var m := Stats(a, b, channels, c).maxError;
            && m <= 65535
            && (forall i :: 0 <= i < |a| && i % channels == c ==> Abs(a[i] as int - b[i] as int) <= m)
            && (m == 0 || exists i :: 0 <= i < |a| && i % channels == c && Abs(a[i] as int - b[i] as int) == m)
  {
    if |a| > 0 {
      var n := |a| - 1;
      MaxErrorIsMaximum(a[..n], b[..n], channels, c);
      assert forall i :: 0 <= i < n ==> a[..n][i] == a[i] && b[..n][i] == b[i];
    }
  }

  /** The energies of the difference and of the signal are the sums of squares over the channel's samples. */
  lemma {:induction false} EnergiesAreSums(a: seq<Int16>, b: seq<Int16>, channels: nat, c: nat)
    requires |a| == |b| && channels >= 1
    ensures Stats(a, b, channels, c).signal == SumSquares(a, channels, c)
    ensures Stats(a, b, channels, c).noise == SumSquares(Difference(a, b), channels, c)
  {
    if |a| > 0 {
      var n := |a| - 1;
      EnergiesAreSums(a[..n], b[..n], channels, c);
      assert Difference(a, b)[..n] == Difference(a[..n], b[..n]);
    }
  }

  /** The sample-wise difference of the two files. */
  function Difference(a: seq<Int16>, b: seq<Int16>): (d: seq<int>)
    requires |a| == |b|
    ensures |d| == |a|
  {
    seq(|a|, i requires 0 <= i < |a| => a[i] as int - b[i] as int)
  }

  /** The sum of squares of the samples of channel `c`. */
  function SumSquares(x: seq<int>, channels: nat, c: nat): nat
    requires channels >= 1
  {
    if |x| == 0 then 0
    else
      var n := |x| - 1;
      SumSquares(x[..n], channels, c) + (if n % channels == c then x[n] * x[n] else 0)
  }

  /** The combined accumulators: summed energies and the largest maximum, as the output loop totals them. */
  function Combine(ss: seq<ChannelStats>): ChannelStats
  {
    if |ss| == 0 then ChannelStats(0, 0, 0)
    else
      var t := Combine(ss[..|ss| - 1]);
      var s := ss[|ss| - 1];
      ChannelStats(t.signal + s.signal, t.noise + s.noise, if s.maxError > t.maxError then s.maxError else t.maxError)
  }

  /** Accumulating one more sample into one channel accumulates it into the combination. */
  lemma {:induction false} CombineAdd(ss: seq<ChannelStats>, k: nat, x: Int16, y: Int16)
    requires k < |ss|
    ensures Combine(ss[k := Add(ss[k], x, y)]) == Add(Combine(ss), x, y)
  {
    var n := |ss| - 1;
    var ss' := ss[k := Add(ss[k], x, y)];
    if k < n {
      assert ss'[..n] == ss[..n][k := Add(ss[..n][k], x, y)];
      CombineAdd(ss[..n], k, x, y);
    } else {
      assert ss'[..n] == ss[..n];
    }
  }

  /** The combined figures are the figures of all samples taken as a single channel. */
  lemma {:induction false} CombineIsWholeSignal(a: seq<Int16>, b: seq<Int16>, channels: nat)
    requires |a| == |b| && channels >= 1
    ensures Combine(PerChannel(a, b, channels)) == Stats(a, b, 1, 0)
  {
    if |a| == 0 {
      assert PerChannel(a, b, channels) == seq(channels, _ => ChannelStats(0, 0, 0));
      ZeroCombine(channels);
    } else {
      var n := |a| - 1;
      var k := n % channels;
      CombineIsWholeSignal(a[..n], b[..n], channels);
      var before := PerChannel(a[..n], b[..n], channels);
      assert PerChannel(a, b, channels) == before[k := Add(before[k], a[n], b[n])];
      CombineAdd(before, k, a[n], b[n]);
    }
  }

  /** Channels with nothing accumulated combine to nothing. */
  lemma {:induction false} ZeroCombine(channels: nat)
    ensures Combine(seq(channels, _ => ChannelStats(0, 0, 0))) == ChannelStats(0, 0, 0)
  {
    if channels > 0 {
      assert seq(channels, _ => ChannelStats(0, 0, 0))[..channels - 1] == seq(channels - 1, _ => ChannelStats(0, 0, 0));
      ZeroCombine(channels - 1);
    }
  }

  /** An SNR figure: infinite when there is no noise, otherwise `10 * log10(signal / noise)` decibels of this ratio. */
  datatype Snr = Infinite | Decibels(signal: nat, noise: nat)

  /** One output row: SNR, MSE as the noise energy over a sample count, and the maximum error. */
  datatype Row = Row(snr: Snr, noise: nat, count: nat, maxError: nat)

  function RowOf(s: ChannelStats, count: nat): (r: Row)
    ensures r.snr == Infinite <==> s.noise == 0
    ensures r.noise == s.noise && r.count == count && r.maxError == s.maxError
  {
    Row(if s.noise == 0 then Infinite else Decibels(s.signal, s.noise), s.noise, count, s.maxError)
  }

  /** The table: one row per channel over the frame count, then an average row over all samples when there is more than one channel. */
  function Report(ss: seq<ChannelStats>, frames: nat): (rows: seq<Row>)
    ensures |rows| == |ss| + (if |ss| > 1 then 1 else 0)
    ensures forall c :: 0 <= c < |ss| ==> rows[c] == RowOf(ss[c], frames)
    ensures |ss| > 1 ==> rows[|ss|] == RowOf(Combine(ss), frames * |ss|)
  {
    seq(|ss|, c requires 0 <= c < |ss| => RowOf(ss[c], frames))
    + (if |ss| > 1 then [RowOf(Combine(ss), frames * |ss|)] else [])
  }

  /** The whole tool on two opened files and their interleaved samples. */
  function Compare(argc: int, first: Option<SndInfo>, second: Option<SndInfo>, a: seq<Int16>, b: seq<Int16>): (r: Result<seq<Row>, CompareError>)
    requires first.Some? ==> |a| == first.value.frames * first.value.channels
    requires second.Some? ==> |b| == second.value.frames * second.value.channels
    ensures r.Ok? <==> Validate(argc, first, second).Ok?
    ensures r.Ok? && first.value.channels >= 1 ==> r.value == Report(PerChannel(a, b, first.value.channels), first.value.frames)
  {
    var info :- Validate(argc, first, second);
    if info.channels == 0 then Ok([])
    else Ok(Report(PerChannel(a, b, info.channels), info.frames))
  }

  /** The average row reports the whole signal: the energies of all samples and the largest error anywhere. */
  lemma AverageRowIsWholeSignal(a: seq<Int16>, b: seq<Int16>, channels: nat, frames: nat)
    requires |a| == |b| && channels > 1
    ensures var rows := Report(PerChannel(a, b, channels), frames);
            rows[channels] == RowOf(Stats(a, b, 1, 0), frames * channels)
  {
    CombineIsWholeSignal(a, b, channels);
  }
}
