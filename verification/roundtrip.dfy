/**
 * What the inverse transform gives back from the forward one: each output
 * sample is the input sample scaled by how much window weight covers it.
 *
 * The lemmas name the spectrogram `x` that the forward transform returns,
 * its frame count `n` and the window `w` it used, and state their facts
 * about those.
 */
module RoundTrip {
  import opened Results
  import opened Signals
  import opened Spectral
  import opened Analysis
  import opened Synthesis

  /** A window at least one hop wide always lets the forward transform succeed. */
  lemma StftSucceeds(s: seq<real>, nfft: nat, hop: nat, winfun: nat -> seq<real>, fft: seq<real> -> seq<Complex>)
    requires 0 < hop <= nfft
    requires |winfun(nfft)| == nfft
    requires PreservesLength(fft)
    ensures Stft(s, nfft, hop, winfun, fft).Ok?
  {
    PadCountSign(|s|, nfft, hop);
  }

  /** Inverting each row of the STFT `x` of `s` and keeping the real part gives back the windowed frames. */
  lemma ContributionsAreWindowedPieces(s: seq<real>, nfft: nat, hop: nat, winfun: nat -> seq<real>,
                                       fft: seq<real> -> seq<Complex>, ifft: seq<Complex> -> seq<Complex>, x: Spectrogram)
    requires |winfun(nfft)| == nfft
    requires PreservesLength(fft) && PreservesLength(ifft) && InversePair(fft, ifft)
    requires Stft(s, nfft, hop, winfun, fft) == Ok(x)
    ensures hop > 0 && x.Valid() && x.nfft == nfft > 0 && |x.rows| == FrameCount(|s|, hop)
    ensures Contributions(x, ifft) == WindowedPieces(s, winfun(nfft), FrameCount(|s|, hop), hop)
  {
    PadCountSign(|s|, nfft, hop);
    forall i | 0 <= i < |x.rows|
      ensures Contributions(x, ifft)[i] == WindowedPieces(s, winfun(nfft), FrameCount(|s|, hop), hop)[i]
    {
      RealOfLift(Mul(Segment(s, Offset(i, hop), nfft), winfun(nfft)));
    }
  }

  /** Synthesis from any spectrogram whose `n` rows invert to the windowed frames of `s`. */
  lemma SynthesisOfWindowed(x: Spectrogram, s: seq<real>, w: seq<real>, n: nat, hop: nat, trunc: nat,
                            ifft: seq<Complex> -> seq<Complex>)
    requires x.Valid() && x.nfft > 0 && |x.rows| == n
    requires PreservesLength(ifft)
    requires Contributions(x, ifft) == WindowedPieces(s, w, n, hop)
    ensures Istft(x, hop, trunc, ifft).Ok?
    ensures forall k :: 0 <= k < |Istft(x, hop, trunc, ifft).value| ==>
      Istft(x, hop, trunc, ifft).value[k] == SampleAt(s, k) * Coverage(w, n, hop, k)
  {
    forall k: nat
      ensures OlaAt(WindowedPieces(s, w, n, hop), n, hop, k) == SampleAt(s, k) * Coverage(w, n, hop, k)
    {
      OlaOfWindowed(s, w, n, hop, k);
    }
  }

  /**
   * Analysis followed by synthesis: whatever the truncation, synthesis from
   * the STFT `x` of `s` succeeds, and every sample of the result is the
   * input sample (zero past the end of the input) times the coverage, at
   * that sample, of the `n` copies of the window `w`.
   */
  lemma AnalysisSynthesis(s: seq<real>, nfft: nat, hop: nat, trunc: nat, winfun: nat -> seq<real>,
                          fft: seq<real> -> seq<Complex>, ifft: seq<Complex> -> seq<Complex>,
                          x: Spectrogram, n: nat, w: seq<real>)
    requires |winfun(nfft)| == nfft
    requires PreservesLength(fft) && PreservesLength(ifft) && InversePair(fft, ifft)
    requires Stft(s, nfft, hop, winfun, fft) == Ok(x)
    requires n == |x.rows| && w == winfun(nfft)
    ensures Istft(x, hop, trunc, ifft).Ok?
    ensures forall k :: 0 <= k < |Istft(x, hop, trunc, ifft).value| ==>
      Istft(x, hop, trunc, ifft).value[k] == SampleAt(s, k) * Coverage(w, n, hop, k)
  {
    ContributionsAreWindowedPieces(s, nfft, hop, winfun, fft, ifft, x);
    SynthesisOfWindowed(x, s, w, n, hop, trunc, ifft);
  }

  /**
   * Both transforms called with their default arguments: the forward
   * transform takes 1024-sample frames 512 samples apart, and the inverse
   * transform, also defaulting to a 512-sample hop and no truncation, puts
   * each frame back where it came from.
   */
  lemma DefaultRoundTrip(s: seq<real>, winfun: nat -> seq<real>,
                         fft: seq<real> -> seq<Complex>, ifft: seq<Complex> -> seq<Complex>,
                         x: Spectrogram, n: nat, w: seq<real>)
    requires |winfun(1024)| == 1024
    requires PreservesLength(fft) && PreservesLength(ifft) && InversePair(fft, ifft)
    requires Stft(s, winfun := winfun, fft := fft) == Ok(x)
    requires n == |x.rows| && w == winfun(1024)
    ensures Istft(x, ifft := ifft).Ok?
    ensures |Istft(x, ifft := ifft).value| == Offset(n, 512) + 1024
    ensures forall k :: 0 <= k < |Istft(x, ifft := ifft).value| ==>
      Istft(x, ifft := ifft).value[k] == SampleAt(s, k) * Coverage(w, n, 512, k)
  {
    AnalysisSynthesis(s, 1024, 512, 0, winfun, fft, ifft, x, n, w);
  }

  /** Cut to the input's length, the synthesis output is exactly as long as the input. */
  lemma TruncatedLength(s: seq<real>, nfft: nat, hop: nat, winfun: nat -> seq<real>,
                        fft: seq<real> -> seq<Complex>, ifft: seq<Complex> -> seq<Complex>, x: Spectrogram)
    requires |s| > 0
    requires |winfun(nfft)| == nfft
    requires PreservesLength(fft) && PreservesLength(ifft) && InversePair(fft, ifft)
    requires Stft(s, nfft, hop, winfun, fft) == Ok(x)
    ensures Istft(x, hop, |s|, ifft).Ok?
    ensures |Istft(x, hop, |s|, ifft).value| == |s|
  {
    ContributionsAreWindowedPieces(s, nfft, hop, winfun, fft, ifft, x);
    FramesFit(|x.rows|, hop, nfft);
  }

  /** A signal whose every sample is `c` times the matching sample of `s`, where the coverage is `c`. */
  lemma ScaledCopy(out: seq<real>, s: seq<real>, w: seq<real>, n: nat, hop: nat, c: real)
    requires |out| == |s|
    requires forall k :: 0 <= k < |out| ==> out[k] == SampleAt(s, k) * Coverage(w, n, hop, k)
    requires forall k :: 0 <= k < |s| ==> Coverage(w, n, hop, k) == c
    ensures out == seq(|s|, k requires 0 <= k < |s| => c * s[k])
  {
    forall k | 0 <= k < |s|
      ensures out[k] == seq(|s|, k requires 0 <= k < |s| => c * s[k])[k]
    {
      assert out[k] == s[k] * c;
    }
  }

  /**
   * When the `n` copies of the window overlap-add to the same weight `c` at
   * every sample of the input, cutting the output to the input's length
   * gives back the input scaled by `c`.
   */
  lemma ConstantOverlapAdd(s: seq<real>, nfft: nat, hop: nat, c: real, winfun: nat -> seq<real>,
                           fft: seq<real> -> seq<Complex>, ifft: seq<Complex> -> seq<Complex>,
                           x: Spectrogram, n: nat, w: seq<real>)
    requires |s| > 0
    requires |winfun(nfft)| == nfft
    requires PreservesLength(fft) && PreservesLength(ifft) && InversePair(fft, ifft)
    requires Stft(s, nfft, hop, winfun, fft) == Ok(x)
    requires n == |x.rows| && w == winfun(nfft)
    requires forall k :: 0 <= k < |s| ==> Coverage(w, n, hop, k) == c
    ensures Istft(x, hop, |s|, ifft) == Ok(seq(|s|, k requires 0 <= k < |s| => c * s[k]))
  {
    AnalysisSynthesis(s, nfft, hop, |s|, winfun, fft, ifft, x, n, w);
    TruncatedLength(s, nfft, hop, winfun, fft, ifft, x);
    ScaledCopy(Istft(x, hop, |s|, ifft).value, s, w, n, hop, c);
  }

  /** A rectangular window of ones as wide as the hop covers each sample before the `n`th hop exactly once. */
  lemma RectangularCoversInput(s: seq<real>, hop: nat, n: nat)
    requires hop > 0 && n == FrameCount(|s|, hop)
    ensures forall k :: 0 <= k < |s| ==> Coverage(Ones(hop), n, hop, k) == 1.0
    ensures forall k: nat :: SampleAt(s, k) * Coverage(Ones(hop), n, hop, k) == SampleAt(s, k)
  {
    forall k: nat
      ensures Coverage(Ones(hop), n, hop, k) == if k < Offset(n, hop) then 1.0 else 0.0
    {
      RectangularCoverage(Ones(hop), n, n, hop, k);
    }
  }

  /**
   * A rectangular window of ones with a hop equal to the frame size: the
   * output, however truncated, is the input followed by silence, and cut to
   * the input's length it is the input itself.
   */
  lemma PerfectReconstruction(s: seq<real>, nfft: nat, trunc: nat, winfun: nat -> seq<real>,
                              fft: seq<real> -> seq<Complex>, ifft: seq<Complex> -> seq<Complex>, x: Spectrogram)
    requires winfun(nfft) == Ones(nfft)
    requires PreservesLength(fft) && PreservesLength(ifft) && InversePair(fft, ifft)
    requires Stft(s, nfft, nfft, winfun, fft) == Ok(x)
    ensures Istft(x, nfft, trunc, ifft).Ok?
    ensures forall k :: 0 <= k < |Istft(x, nfft, trunc, ifft).value| ==> Istft(x, nfft, trunc, ifft).value[k] == SampleAt(s, k)
    ensures |s| > 0 ==> Istft(x, nfft, |s|, ifft) == Ok(s)
  {
    ContributionsAreWindowedPieces(s, nfft, nfft, winfun, fft, ifft, x);
    RectangularCoversInput(s, nfft, |x.rows|);
    AnalysisSynthesis(s, nfft, nfft, trunc, winfun, fft, ifft, x, |x.rows|, Ones(nfft));
    if |s| > 0 {
      ConstantOverlapAdd(s, nfft, nfft, 1.0, winfun, fft, ifft, x, |x.rows|, Ones(nfft));
      assert seq(|s|, k requires 0 <= k < |s| => 1.0 * s[k]) == s;
    }
  }

  /**
   * An empty signal with a window at least one hop wide yields a spectrogram
   * with no rows, and that spectrogram synthesises, untruncated, to `nfft`
   * zeros rather than to an empty signal.
   */
  lemma EmptySignal(nfft: nat, hop: nat, winfun: nat -> seq<real>,
                    fft: seq<real> -> seq<Complex>, ifft: seq<Complex> -> seq<Complex>)
    requires 0 < hop <= nfft
    requires |winfun(nfft)| == nfft
    requires PreservesLength(fft) && PreservesLength(ifft)
    ensures Stft([], nfft, hop, winfun, fft) == Ok(Spectrogram(nfft, []))
    ensures Istft(Spectrogram(nfft, []), hop, 0, ifft) == Ok(Zeros(nfft))
  {
    PadCountSign(0, nfft, hop);
    FrameCountIsCeiling(0, hop, 0);
    IstftTrailingSilence(Spectrogram(nfft, []), hop, ifft);
  }
}
