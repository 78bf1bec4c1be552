/** The effects tool (`wav_effects`): argument and format checks, the
    single and multiple echo over a circular delay buffer, and the reverse
    effect that plays the frames backwards with their channel order kept.
    The echo's `sample + gain * delayed` is float arithmetic converted back to
    `short`; it is the parameter `mix` here. */
module WavEffects {
  import opened Common
  import opened SoundFile

  datatype Effect = SingleEcho | MultipleEcho | AmplitudeModulation | Reverse

  datatype EffectsError = Usage | InvalidInput | NotPcm16Wav | InvalidOutput | UnknownEffect | EffectUsage | InvalidNumber

  /** The command-line name of each effect. */
  function Name(e: Effect): string
  {
    match e
    case SingleEcho => "single_echo"
    case MultipleEcho => "multiple_echo"
    case AmplitudeModulation => "amplitude_modulation"
    case Reverse => "reverse"
  }

  /** The effect a command-line name selects, if any. */
  function EffectNamed(name: string): (e: Option<Effect>)
    ensures e.Some? ==> Name(e.value) == name
  {
    if name == "single_echo" then Some(SingleEcho)
    else if name == "multiple_echo" then Some(MultipleEcho)
    else if name == "amplitude_modulation" then Some(AmplitudeModulation)
    else if name == "reverse" then Some(Reverse)
    else None
  }

  /** Every effect is selected by its own name and by no other. */
  lemma NamesSelectEffects(e: Effect, name: string)
    ensures EffectNamed(Name(e)) == Some(e)
    ensures EffectNamed(name) == Some(e) <==> name == Name(e)
  {
  }

  /** The exact argument count each effect takes, program name included. */
  function ArgCount(e: Effect): nat
  {
    match e
    case SingleEcho => 6
    case MultipleEcho => 6
    case AmplitudeModulation => 5
    case Reverse => 4
  }

  /** The checks before any processing. `outputOpens` is whether the output file could be created, and
      `numbersParse` whether the numeric arguments convert. */
  function ParseInvocation(argc: int, input: Option<SndInfo>, outputOpens: bool, name: string, numbersParse: bool): (r: Result<Effect, EffectsError>)
    ensures argc < 4 ==> r == Err(Usage)
    ensures r.Ok? <==> && argc >= 4 && input.Some? && IsPcm16Wav(input.value) && outputOpens
                       && EffectNamed(name).Some? && argc == ArgCount(EffectNamed(name).value)
                       && (EffectNamed(name).value == Reverse || numbersParse)
    ensures r.Ok? ==> Name(r.value) == name
  {
    if argc < 4 then Err(Usage)
    else if input.None? then Err(InvalidInput)
    else if !IsPcm16Wav(input.value) then Err(NotPcm16Wav)
    else if !outputOpens then Err(InvalidOutput)
    else
      match EffectNamed(name)
      case None => Err(UnknownEffect)
      case Some(e) =>
        if argc != ArgCount(e) then Err(EffectUsage)
        else if e != Reverse && !numbersParse then Err(InvalidNumber)
        else Ok(e)
  }

  /** What is written back into the delay line for sample `k`: the output for the multiple echo, the input for the single one. */
  function Feedback(x: seq<Int16>, out: seq<Int16>, multiple: bool, k: nat): Int16
    requires k < |x| && k < |out|
  {
    if multiple then out[k] else x[k]
  }

  /** The delayed sample heard with sample `i`: silence for the first `d` samples, then the feedback of sample `i - d`. */
  function Delayed(x: seq<Int16>, out: seq<Int16>, d: nat, multiple: bool, i: nat): Int16
    requires d >= 1 && i < |x| && i <= |out|
  {
    if i < d then 0 else Feedback(x, out, multiple, i - d)
  }

  /** What the ring buffer holds after `i` samples: slot `k % d` keeps the feedback of each of the last `d` samples,
      and the slots not yet written are still silent. */
  ghost predicate RingHolds(x: seq<Int16>, out: seq<Int16>, ring: seq<Int16>, d: nat, multiple: bool, i: nat)
    requires d >= 1 && |out| == i <= |x| && |ring| == d
  {
    && (forall k :: 0 <= k < i && i <= k + d ==> ring[k % d] == Feedback(x, out, multiple, k))
    && (forall j :: i <= j < d ==> ring[j] == 0)
  }

  /** The slot under the cursor holds the delayed sample. */
  lemma RingRead(x: seq<Int16>, out: seq<Int16>, ring: seq<Int16>, d: nat, multiple: bool, i: nat)
    requires d >= 1 && |out| == i < |x| && |ring| == d
    requires RingHolds(x, out, ring, d, multiple, i)
    ensures ring[i % d] == Delayed(x, out, d, multiple, i)
  {
    if i >= d {
      var k := i - d;
      assert k == d * (k / d) + k % d;
      ModUnique(i, d, k / d + 1, k % d);
    }
  }

  /** Overwriting the slot under the cursor with the new feedback keeps the ring's meaning one sample later. */
  lemma RingWrite(x: seq<Int16>, out: seq<Int16>, ring: seq<Int16>, d: nat, multiple: bool, i: nat, y: Int16)
    requires d >= 1 && |out| == i < |x| && |ring| == d
    requires RingHolds(x, out, ring, d, multiple, i)
    ensures RingHolds(x, out + [y], ring[i % d := if multiple then y else x[i]], d, multiple, i + 1)
  {
    var out' := out + [y];
    var ring' := ring[i % d := if multiple then y else x[i]];
    forall k | 0 <= k < i + 1 && i + 1 <= k + d
      ensures ring'[k % d] == Feedback(x, out', multiple, k)
    {
      if k < i {
        ModDistinct(k, i, d);
      }
    }
    forall j | i + 1 <= j < d
      ensures ring'[j] == 0
    {
      ModUnique(i, d, 0, i);
    }
  }

  /** Every output so far is the mix of its input with its delayed sample. */
  ghost predicate Echoed(x: seq<Int16>, out: seq<Int16>, d: nat, multiple: bool, mix: (Int16, Int16) -> Int16)
    requires d >= 1 && |out| <= |x|
  {
    forall k :: 0 <= k < |out| ==> out[k] == mix(x[k], Delayed(x, out, d, multiple, k))
  }

  /** Appending the mix of the next input with its delayed sample keeps every earlier output's meaning. */
  lemma EchoExtend(x: seq<Int16>, out: seq<Int16>, d: nat, multiple: bool, mix: (Int16, Int16) -> Int16, y: Int16)
    requires d >= 1 && |out| < |x| && Echoed(x, out, d, multiple, mix)
    requires y == mix(x[|out|], Delayed(x, out, d, multiple, |out|))
    ensures Echoed(x, out + [y], d, multiple, mix)
  {
    var out' := out + [y];
    forall k | 0 <= k < |out'|
      ensures out'[k] == mix(x[k], Delayed(x, out', d, multiple, k))
    {
      assert Delayed(x, out', d, multiple, k) == Delayed(x, out, d, multiple, k);
    }
  }

  /** The echo loop. Every output is the mix of the input with the sample `d` positions earlier (input for the single
      echo, output for the multiple echo), however the ring buffer of `d` slots and its cursor got there. A delay of
      zero samples indexes an empty buffer and is undefined in the source. */
  method Echo(x: seq<Int16>, d: nat, multiple: bool, mix: (Int16, Int16) -> Int16) returns (out: seq<Int16>)
    requires d >= 1
    ensures |out| == |x|
    ensures forall i :: 0 <= i < |x| ==> out[i] == mix(x[i], Delayed(x, out, d, multiple, i))
  {
    var ring: seq<Int16> := seq(d, _ => 0);
    var cursor := 0;
    ModUnique(0, d, 0, 0);
    out := [];
    var i := 0;
    while i < |x|
      invariant 0 <= i <= |x| && |out| == i && |ring| == d
      invariant cursor == i % d
      invariant Echoed(x, out, d, multiple, mix)
      invariant RingHolds(x, out, ring, d, multiple, i)
    {
      RingRead(x, out, ring, d, multiple, i);
      var y := mix(x[i], ring[cursor]);
      RingWrite(x, out, ring, d, multiple, i, y);
      EchoExtend(x, out, d, multiple, mix, y);
      ring := ring[cursor := if multiple then y else x[i]];
      out := out + [y];
      ModStep(i, d);
      if cursor + 1 == d {
        ModUnique(cursor + 1, d, 1, 0);
      } else {
        ModUnique(cursor + 1, d, 0, cursor + 1);
      }
      cursor := (cursor + 1) % d;
      i := i + 1;
    }
  }

  /** `std::reverse` over a whole range: element `i` comes from position `|s| - 1 - i`. */
  function Reversed<T>(s: seq<T>): (r: seq<T>)
    ensures |r| == |s|
  {
    seq(|s|, i requires 0 <= i < |s| => s[|s| - 1 - i])
  }

  /** The reversal of a non-empty range is the reversal of its tail followed by its head. */
  lemma ReversedCons<T>(s: seq<T>)
    requires |s| > 0
    ensures Reversed(s) == Reversed(s[1..]) + [s[0]]
  {
    var r, t := Reversed(s), Reversed(s[1..]) + [s[0]];
    forall i | 0 <= i < |s|
      ensures r[i] == t[i]
    {
      if i < |s| - 1 {
        assert t[i] == s[1..][|s| - 2 - i];
      }
    }
  }

  /** Position `k` of the reversal holds position `j` of the original when `j` mirrors `k`. */
  lemma ReversedAt<T>(s: seq<T>, k: nat, j: nat)
    requires k < |s| && j == |s| - 1 - k
    ensures Reversed(s)[k] == s[j]
  {
  }

  /** Reversing permutes. */
  lemma {:induction false} ReversedPermutes<T>(s: seq<T>)
    ensures multiset(Reversed(s)) == multiset(s)
  {
    if |s| > 0 {
      ReversedPermutes(s[1..]);
      ReversedCons(s);
      assert s == [s[0]] + s[1..];
    }
  }

  /** The frame loop of the reverse effect: each run of `channels` samples reversed in place. */
  function ReverseEachFrame(s: seq<Int16>, channels: nat, frames: nat): (r: seq<Int16>)
    requires |s| == Span(frames, channels)
    ensures |r| == |s|
    decreases frames
  {
    if frames == 0 then [] else Reversed(s[..channels]) + ReverseEachFrame(s[channels..], channels, frames - 1)
  }

  /** Reversing each frame permutes. */
  lemma {:induction false} ReverseEachFramePermutes(s: seq<Int16>, channels: nat, frames: nat)
    requires |s| == Span(frames, channels)
    ensures multiset(ReverseEachFrame(s, channels, frames)) == multiset(s)
    decreases frames
  {
    if frames > 0 {
      ReverseEachFramePermutes(s[channels..], channels, frames - 1);
      ReversedPermutes(s[..channels]);
      assert s == s[..channels] + s[channels..];
    }
  }

  /** The reverse effect on the whole interleaved file: reverse every sample, then, for more than one channel,
      reverse each frame again so that the channels are back in their places. */
  function ReverseEffect(s: seq<Int16>, channels: nat, frames: nat): (r: seq<Int16>)
    requires |s| == Span(frames, channels)
    ensures |r| == |s|
  {
    var all := Reversed(s);
    if channels > 1 then ReverseEachFrame(all, channels, frames) else all
  }

  /** The reverse effect keeps every sample value, as many times as it occurs. */
  lemma ReverseEffectPermutes(s: seq<Int16>, channels: nat, frames: nat)
    requires |s| == Span(frames, channels)
    ensures multiset(ReverseEffect(s, channels, frames)) == multiset(s)
  {
    ReversedPermutes(s);
    if channels > 1 {
      ReverseEachFramePermutes(Reversed(s), channels, frames);
    }
  }

  /** Within frame `f`, the frame loop takes channel `c` from channel `channels - 1 - c`. */
  lemma {:induction false} ReverseEachFrameAt(s: seq<Int16>, channels: nat, frames: nat, f: nat, c: nat)
    requires |s| == Span(frames, channels) && f < frames && c < channels
    ensures Span(f, channels) + channels <= |s|
    ensures ReverseEachFrame(s, channels, frames)[Span(f, channels) + c] == s[Span(f, channels) + channels - 1 - c]
    decreases f
  {
    var e := ReverseEachFrame(s, channels, frames);
    var head := Reversed(s[..channels]);
    var rest := ReverseEachFrame(s[channels..], channels, frames - 1);
    assert e == head + rest;
    if f == 0 {
      assert e[c] == head[c];
    } else {
      var at := Span(f - 1, channels);
      ReverseEachFrameAt(s[channels..], channels, frames - 1, f - 1, c);
      assert Span(f, channels) == channels + at;
      AppendAt(head, rest, e, channels + at + c);
      assert s[channels..][at + channels - 1 - c] == s[channels + at + channels - 1 - c];
    }
  }

  /** Sample `c` of output frame `f` is sample `c` of input frame `frames - 1 - f`: the frames play backwards and no
      channel moves. */
  lemma ReverseFrameOrder(s: seq<Int16>, channels: nat, frames: nat, f: nat, g: nat, c: nat)
    requires |s| == Span(frames, channels) && f + g + 1 == frames && c < channels
    requires Span(f, channels) + channels <= |s| && Span(g, channels) + channels <= |s|
    ensures ReverseEffect(s, channels, frames)[Span(f, channels) + c] == s[Span(g, channels) + c]
  {
    FrameLayout(channels, frames, f, g);
    if channels > 1 {
      ReverseEachFrameOfReversed(s, channels, frames, f, Span(f, channels), Span(g, channels), c);
    }
  }

  /** Frame `f` has `f` frames before it and `g` after it. */
  lemma FrameLayout(channels: nat, frames: nat, f: nat, g: nat)
    requires f + g + 1 == frames
    ensures Span(frames, channels) == Span(f, channels) + channels + Span(g, channels)
  {
    SpanAdd(f + 1, g, channels);
    assert Span(f + 1, channels) == channels + Span(f, channels);
  }

  /** Reversing the whole range and then each frame puts the sample at offset `b + c` at offset `a + c`, where `a`
      samples precede the frame and `b` follow it. */
  lemma ReverseEachFrameOfReversed(s: seq<Int16>, channels: nat, frames: nat, f: nat, a: nat, b: nat, c: nat)
    requires |s| == Span(frames, channels) && f < frames && c < channels
    requires a == Span(f, channels) && |s| == a + channels + b
    ensures ReverseEachFrame(Reversed(s), channels, frames)[a + c] == s[b + c]
  {
    ReversedAt(s, a + channels - 1 - c, b + c);
    ReverseEachFrameAt(Reversed(s), channels, frames, f, c);
  }

  /** Every sample index lies in exactly one frame. */
  lemma FrameOf(i: nat, channels: nat, frames: nat)
    requires i < Span(frames, channels)
    ensures channels >= 1 && i / channels < frames && i == Span(i / channels, channels) + i % channels
  {
    SpanIsProduct(frames, channels);
    if channels == 0 {
      assert false;
    }
    SpanIsProduct(i / channels, channels);
    assert i == channels * (i / channels) + i % channels;
    if i / channels >= frames {
      MulMono(frames, i / channels, channels);
    }
  }

  /** Reversing twice restores the file. */
  lemma ReverseTwice(s: seq<Int16>, channels: nat, frames: nat)
    requires |s| == Span(frames, channels)
    ensures ReverseEffect(ReverseEffect(s, channels, frames), channels, frames) == s
  {
    var twice := ReverseEffect(ReverseEffect(s, channels, frames), channels, frames);
    forall i | 0 <= i < |s|
      ensures twice[i] == s[i]
    {
      FrameOf(i, channels, frames);
      ReverseTwiceAt(s, channels, frames, i / channels, i % channels);
    }
  }

  /** Sample `c` of frame `f` comes back to its place after two reversals. */
  lemma ReverseTwiceAt(s: seq<Int16>, channels: nat, frames: nat, f: nat, c: nat)
    requires |s| == Span(frames, channels) && f < frames && c < channels
    ensures Span(f, channels) + c < |s|
    ensures ReverseEffect(ReverseEffect(s, channels, frames), channels, frames)[Span(f, channels) + c]
         == s[Span(f, channels) + c]
  {
    var once := ReverseEffect(s, channels, frames);
    var g := frames - 1 - f;
    SpanBelow(f, frames, channels);
    SpanBelow(g, frames, channels);
    ReverseFrameOrder(once, channels, frames, f, g, c);
    ReverseFrameOrder(s, channels, frames, g, f, c);
  }
}
