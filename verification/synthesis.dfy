/**
 * The inverse transform: take the real part of each row's inverse FFT and
 * overlap-add the results, one hop apart, into a zeroed output buffer.
 */
module Synthesis {
  import opened Results
  import opened Signals
  import opened Spectral
  import opened Progress

  datatype SynthesisError =
    | EmptyFrame  // the inverse FFT is asked for a transform of zero points

  /** The output buffer holds one hop per frame plus one whole frame. */
  function BufferLength(frames: nat, hop: nat, nfft: nat): nat
  {
    Offset(frames, hop) + nfft
  }

  /** `buf` with `v` added, sample by sample, onto the samples from `off` on. */
  function AddAt(buf: seq<real>, off: nat, v: seq<real>): (r: seq<real>)
    requires off + |v| <= |buf|
    ensures |r| == |buf|
    ensures forall k :: 0 <= k < |r| ==> r[k] == buf[k] + Tap(v, off, k)
  {
    buf[..off] + seq(|v|, j requires 0 <= j < |v| => buf[off + j] + v[j]) + buf[off + |v|..]
  }

  /** The real part of each row's inverse FFT, one waveform piece per frame. */
  function Contributions(x: Spectrogram, ifft: seq<Complex> -> seq<Complex>): (c: seq<seq<real>>)
    requires x.Valid()
    requires PreservesLength(ifft)
    ensures |c| == |x.rows|
    ensures forall i :: 0 <= i < |c| ==> |c[i]| == x.nfft
  {
    seq(|x.rows|, i requires 0 <= i < |x.rows| => RealPart(ifft(x.rows[i])))
  }

  /** `buf` after the first `m` pieces of `fr` have been added, piece `i` at `Offset(i, hop)`, in frame order. */
  function Accumulate(buf: seq<real>, fr: seq<seq<real>>, m: nat, hop: nat, nfft: nat): (r: seq<real>)
    requires m <= |fr|
    requires forall i :: 0 <= i < m ==> |fr[i]| == nfft
    requires m > 0 ==> Offset(m - 1, hop) + nfft <= |buf|
    ensures |r| == |buf|
    ensures forall k :: m > 0 && Offset(m - 1, hop) + nfft <= k < |r| ==> r[k] == buf[k]
  {
    if m == 0 then buf
    else
      OffsetMonotone(if m > 1 then m - 2 else 0, m - 1, hop);
      AddAt(Accumulate(buf, fr, m - 1, hop, nfft), Offset(m - 1, hop), fr[m - 1])
  }

  /** Adding the pieces one after another yields, at every sample, the overlap-add sum of what covers it. */
  lemma {:induction false} AccumulateIsOla(buf: seq<real>, fr: seq<seq<real>>, m: nat, hop: nat, nfft: nat)
    requires m <= |fr|
    requires forall i :: 0 <= i < m ==> |fr[i]| == nfft
    requires m > 0 ==> Offset(m - 1, hop) + nfft <= |buf|
    ensures forall k :: 0 <= k < |buf| ==> Accumulate(buf, fr, m, hop, nfft)[k] == buf[k] + OlaAt(fr, m, hop, k)
  {
    if m > 0 {
      OffsetMonotone(if m > 1 then m - 2 else 0, m - 1, hop);
      AccumulateIsOla(buf, fr, m - 1, hop, nfft);
      forall k | 0 <= k < |buf|
        ensures Accumulate(buf, fr, m, hop, nfft)[k] == buf[k] + OlaAt(fr, m, hop, k)
      {
        OlaStep(fr, m, hop, k);
      }
    }
  }

  /** Every frame fits in the buffer. */
  lemma FramesFit(frames: nat, hop: nat, nfft: nat)
    ensures frames > 0 ==> Offset(frames - 1, hop) + nfft <= BufferLength(frames, hop, nfft)
    ensures frames > 0 ==> BufferLength(frames, hop, nfft) == Offset(frames - 1, hop) + nfft + hop
  {
    if frames > 0 {
      OffsetNext(frames - 1, hop);
    }
  }

  /**
   * The waveform rebuilt from `x`: the overlap-add of every row's inverse
   * FFT, cut to `trunc` samples when `trunc` is positive. Fails when there
   * is a row but rows hold no bins.
   */
  function Istft(x: Spectrogram, hop: nat := 512, trunc: nat := 0, ifft: seq<Complex> -> seq<Complex>): (r: Result<seq<real>, SynthesisError>)
    requires x.Valid()
    requires PreservesLength(ifft)
    ensures r.Err? <==> |x.rows| > 0 && x.nfft == 0
    ensures r.Ok? && trunc == 0 ==> |r.value| == BufferLength(|x.rows|, hop, x.nfft)
    ensures r.Ok? && trunc > 0 ==> |r.value| == Min(trunc, BufferLength(|x.rows|, hop, x.nfft))
    ensures r.Ok? ==> forall k :: 0 <= k < |r.value| ==> r.value[k] == OlaAt(Contributions(x, ifft), |x.rows|, hop, k)
  {
    if |x.rows| > 0 && x.nfft == 0 then Err(EmptyFrame)
    else
      FramesFit(|x.rows|, hop, x.nfft);
      AccumulateIsOla(Zeros(BufferLength(|x.rows|, hop, x.nfft)), Contributions(x, ifft), |x.rows|, hop, x.nfft);
      var wav := Accumulate(Zeros(BufferLength(|x.rows|, hop, x.nfft)), Contributions(x, ifft), |x.rows|, hop, x.nfft);
      Ok(if 0 < trunc < |wav| then wav[..trunc] else wav)
  }

  /**
   * Untruncated, the buffer ends with one hop of silence that no frame
   * reaches; with no frames at all it is `nfft` zeros rather than empty.
   */
  lemma IstftTrailingSilence(x: Spectrogram, hop: nat, ifft: seq<Complex> -> seq<Complex>)
    requires x.Valid()
    requires PreservesLength(ifft)
    requires Istft(x, hop, 0, ifft).Ok?
    ensures |x.rows| > 0 ==> forall k :: BufferLength(|x.rows|, hop, x.nfft) - hop <= k < BufferLength(|x.rows|, hop, x.nfft) ==>
      Istft(x, hop, 0, ifft).value[k] == 0.0
    ensures |x.rows| == 0 ==> Istft(x, hop, 0, ifft).value == Zeros(x.nfft)
  {
    FramesFit(|x.rows|, hop, x.nfft);
    forall k | 0 <= k < BufferLength(|x.rows|, hop, x.nfft) && (|x.rows| > 0 ==> BufferLength(|x.rows|, hop, x.nfft) - hop <= k)
      ensures OlaAt(Contributions(x, ifft), |x.rows|, hop, k) == 0.0
    {
      OlaBeyond(Contributions(x, ifft), |x.rows|, hop, x.nfft, k);
    }
  }

  /**
   * `Istft` with its progress notifications. The observer, when present, is
   * told the frame count and started before the first frame; a failure on
   * the first frame leaves it there, and otherwise it sees one update per
   * frame and a finish.
   */
  method IstftObserved(x: Spectrogram, hop: nat := 512, trunc: nat := 0, ifft: seq<Complex> -> seq<Complex>, progress: bool := false)
      returns (r: Result<seq<real>, SynthesisError>, events: seq<Event>)
    requires x.Valid()
    requires PreservesLength(ifft)
    ensures r == Istft(x, hop, trunc, ifft)
    ensures events == if !progress then [] else if r.Err? then Opening(|x.rows|) else Trace(|x.rows|)
  {
    var frames, nfft := |x.rows|, x.nfft;
    ghost var zeros := Zeros(BufferLength(frames, hop, nfft));
    var wav := Zeros(BufferLength(frames, hop, nfft));
    events := if progress then Opening(frames) else [];
    FramesFit(frames, hop, nfft);
    for i := 0 to frames
      invariant wav == Accumulate(zeros, Contributions(x, ifft), i, hop, nfft)
      invariant events == if progress then Opening(frames) + Updates(i) else []
      invariant i > 0 ==> nfft > 0
    {
      if nfft == 0 {
        UpdatesGrow(i);
        return Err(EmptyFrame), events;
      }
      var piece := RealPart(ifft(x.rows[i]));
      assert piece == Contributions(x, ifft)[i];
      OffsetMonotone(i, frames - 1, hop);
      wav := AddAt(wav, Offset(i, hop), piece);
      if progress {
        UpdatesGrow(i);
        events := events + [Update(i + 1)];
      }
    }
    if trunc > 0 && trunc < |wav| {
      wav := wav[..trunc];
    }
    if progress {
      events := events + [Finish];
    }
    r := Ok(wav);
  }
}
