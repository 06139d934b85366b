/** Mixing an interleaved multi-channel buffer down to mono (`decode_audio_file`, lines 110-117).
    Samples are modelled as reals: the f32 rounding of the sum and the division is not modelled. */
module Mixdown {
  import opened Arith

  /** `frame.iter().sum()`: a left fold with `+`, starting from zero. */
  function Sum(frame: seq<real>): real
  {
    if frame == [] then 0.0 else Sum(frame[..|frame| - 1]) + frame[|frame| - 1]
  }

  /** The arithmetic mean of one frame: its sum divided by the channel count. */
  function Mean(frame: seq<real>): real
    requires |frame| > 0
  {
    Sum(frame) / |frame| as real
  }

  /** `chunks_exact(channels).map(mean).collect()`: one mean per whole frame, in order; a
      trailing partial frame is dropped. */
  function FrameMeans(x: seq<real>, channels: nat): (mono: seq<real>)
    requires channels > 0
    ensures |mono| == |x| / channels
    decreases |x|
  {
    if |x| < channels then []
    else
      DivStep(|x|, channels);
      [Mean(x[..channels])] + FrameMeans(x[channels..], channels)
  }

  /** Slicing a suffix is slicing the whole at shifted bounds. */
  lemma SliceOfSuffix(x: seq<real>, start: nat, lo: nat, hi: nat)
    requires start <= |x| && lo <= hi <= |x| - start
    ensures x[start..][lo..hi] == x[start + lo .. start + hi]
  {
  }

  /** Mono sample i is the mean of the i-th whole frame `x[i*C .. i*C+C)`. */
  lemma {:induction false} FrameMeansAt(x: seq<real>, channels: nat, i: nat)
    requires channels > 0 && i < |FrameMeans(x, channels)|
    ensures i * channels + channels <= |x|
    ensures FrameMeans(x, channels)[i] == Mean(x[i * channels .. i * channels + channels])
    decreases i
  {
    if i > 0 {
      var rest, off := x[channels..], (i - 1) * channels;
      FrameMeansAt(rest, channels, i - 1);
      assert i * channels == off + channels by { MulStep(i - 1, channels); }
      SliceOfSuffix(x, channels, off, off + channels);
    } else {
      assert x[0 .. channels] == x[..channels];
    }
  }

  /** The mono buffer of `decode_audio_file`: frame means when there is more than one channel,
      the interleaved buffer itself otherwise (including a channel count of zero). */
  function MixDown(interleaved: seq<real>, channels: nat): (mono: seq<real>)
    ensures channels <= 1 ==> mono == interleaved
    ensures channels > 1 ==> |mono| == |interleaved| / channels
    ensures channels > 1 ==> forall i :: 0 <= i < |mono| ==>
              i * channels + channels <= |interleaved| &&
              mono[i] == Mean(interleaved[i * channels .. i * channels + channels])
  {
    if channels > 1 then
      var mono := FrameMeans(interleaved, channels);
      forall i | 0 <= i < |mono|
        ensures i * channels + channels <= |interleaved|
        ensures mono[i] == Mean(interleaved[i * channels .. i * channels + channels])
      {
        FrameMeansAt(interleaved, channels, i);
      }
      mono
    else interleaved
  }

  /** `n` copies of `v`. */
  function Repeat(v: real, n: nat): (r: seq<real>)
    ensures |r| == n
  {
    if n == 0 then [] else Repeat(v, n - 1) + [v]
  }

  lemma {:induction false} SumRepeat(v: real, n: nat)
    ensures Sum(Repeat(v, n)) == n as real * v
  {
    if n > 0 {
      assert Repeat(v, n)[..n - 1] == Repeat(v, n - 1);
      SumRepeat(v, n - 1);
    }
  }

  /** A frame whose channels all carry the same value mixes down to that value. */
  lemma MeanOfEqualChannels(v: real, n: nat)
    requires n > 0
    ensures Mean(Repeat(v, n)) == v
  {
    SumRepeat(v, n);
  }

  /** Every sample repeated on `channels` channels: the interleaving of identical channels. */
  function Upmix(mono: seq<real>, channels: nat): (x: seq<real>)
    ensures |x| == |mono| * channels
  {
    if mono == [] then [] else Repeat(mono[0], channels) + Upmix(mono[1..], channels)
  }

  /** Mixing down a signal played identically on every channel gives the signal back. */
  lemma {:induction false} MixDownUpmix(mono: seq<real>, channels: nat)
    requires channels > 0
    ensures MixDown(Upmix(mono, channels), channels) == mono
  {
    if channels > 1 {
      UpmixFrames(mono, channels);
    } else {
      UpmixOne(mono);
    }
  }

  lemma {:induction false} UpmixFrames(mono: seq<real>, channels: nat)
    requires channels > 0
    ensures FrameMeans(Upmix(mono, channels), channels) == mono
  {
    if mono != [] {
      var x := Upmix(mono, channels);
      assert x[..channels] == Repeat(mono[0], channels);
      assert x[channels..] == Upmix(mono[1..], channels);
      MeanOfEqualChannels(mono[0], channels);
      UpmixFrames(mono[1..], channels);
    }
  }

  lemma {:induction false} UpmixOne(mono: seq<real>)
    ensures Upmix(mono, 1) == mono
  {
    if mono != [] {
      assert Repeat(mono[0], 1) == [mono[0]];
      UpmixOne(mono[1..]);
    }
  }

  /** Whole frames mix down independently: the mono buffer of `a + b` is that of `a` followed by
      that of `b` when `a` ends on a frame boundary. */
  lemma {:induction false} FrameMeansAppend(a: seq<real>, b: seq<real>, channels: nat)
    requires channels > 0 && |a| % channels == 0
    ensures FrameMeans(a + b, channels) == FrameMeans(a, channels) + FrameMeans(b, channels)
    decreases |a|
  {
    if a == [] {
      assert a + b == b;
    } else {
      assert |a| >= channels;
      assert (a + b)[..channels] == a[..channels];
      assert (a + b)[channels..] == a[channels..] + b;
      assert |a[channels..]| % channels == 0 by { DivStep(|a|, channels); }
      FrameMeansAppend(a[channels..], b, channels);
    }
  }

  /** A trailing partial frame (fewer samples than channels) contributes nothing. */
  lemma PartialFrameDropped(a: seq<real>, tail: seq<real>, channels: nat)
    requires channels > 1 && |a| % channels == 0 && |tail| < channels
    ensures MixDown(a + tail, channels) == MixDown(a, channels)
  {
    FrameMeansAppend(a, tail, channels);
    assert FrameMeans(a, channels) + [] == FrameMeans(a, channels);
  }
}
