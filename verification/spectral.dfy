/**
 * Complex spectra, spectrograms, and the properties this model takes from the
 * FFT library without modelling its arithmetic.
 */
module Spectral {

  datatype Complex = Complex(re: real, im: real)

  /** A real signal viewed as complex values with zero imaginary part. */
  function Lift(v: seq<real>): seq<Complex>
  {
    seq(|v|, j requires 0 <= j < |v| => Complex(v[j], 0.0))
  }

  /** numpy's `np.real`: the real part of each value. */
  function RealPart(z: seq<Complex>): seq<real>
  {
    seq(|z|, j requires 0 <= j < |z| => z[j].re)
  }

  /** Taking the real part undoes lifting a real signal. */
  lemma RealOfLift(v: seq<real>)
    ensures RealPart(Lift(v)) == v
  {
  }

  /** A transform that returns as many bins as it is given samples. */
  ghost predicate PreservesLength<T(!new), U>(f: seq<T> -> seq<U>)
  {
    forall v :: |f(v)| == |v|
  }

  /** The inverse transform undoes the forward one on every real signal. */
  ghost predicate InversePair(fft: seq<real> -> seq<Complex>, ifft: seq<Complex> -> seq<Complex>)
  {
    forall v :: ifft(fft(v)) == Lift(v)
  }

  /**
   * An `n x nfft` matrix of complex bins, one row per frame. The width is kept
   * even when there are no rows, as a numpy array of shape `(0, nfft)` keeps it.
   */
  datatype Spectrogram = Spectrogram(nfft: nat, rows: seq<seq<Complex>>)
  {
    /** Every row holds exactly `nfft` bins. */
    predicate Valid()
    {
      forall i :: 0 <= i < |rows| ==> |rows[i]| == nfft
    }
  }
}
