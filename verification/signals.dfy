/**
 * Real-valued waveforms and the overlap-add sum that rebuilds a waveform from
 * hop-spaced pieces.
 */
module Signals {

  /** The sample of `s` at index `k`, reading past either end as silence. */
  function SampleAt(s: seq<real>, k: int): real
  {
    if 0 <= k < |s| then s[k] else 0.0
  }

  /** `len` consecutive samples of `s` from `start` on, zero past its end. */
  function Segment(s: seq<real>, start: nat, len: nat): seq<real>
  {
    seq(len, j => SampleAt(s, start + j))
  }

  function Zeros(n: nat): seq<real>
  {
    seq(n, _ => 0.0)
  }

  function Ones(n: nat): seq<real>
  {
    seq(n, _ => 1.0)
  }

  /** Element-wise product, as numpy's `*` on two arrays of equal length. */
  function Mul(a: seq<real>, b: seq<real>): seq<real>
    requires |a| == |b|
  {
    seq(|a|, j requires 0 <= j < |a| => a[j] * b[j])
  }

  /** The smaller of two counts. */
  function Min(a: nat, b: nat): nat
  {
    if a < b then a else b
  }

  /** Index of the first sample of frame `i` when frames are `hop` samples apart. */
  function Offset(i: nat, hop: nat): nat
  {
    i * hop
  }

  lemma OffsetMonotone(i: nat, j: nat, hop: nat)
    requires i <= j
    ensures Offset(i, hop) <= Offset(j, hop)
  {
    assert j * hop == i * hop + (j - i) * hop;
  }

  /** Consecutive frames start exactly one hop apart. */
  lemma OffsetNext(i: nat, hop: nat)
    ensures Offset(i + 1, hop) == Offset(i, hop) + hop
  {
    assert (i + 1) * hop == i * hop + hop;
  }

  /** What piece `v`, placed at `off`, contributes to output sample `k`. */
  function Tap(v: seq<real>, off: nat, k: nat): real
  {
    if off <= k < off + |v| then v[k - off] else 0.0
  }

  /** The sum of the first `m` elements of `xs`, added front to back. */
  function SumTo(xs: seq<real>, m: nat): real
    requires m <= |xs|
  {
    if m == 0 then 0.0 else SumTo(xs, m - 1) + xs[m - 1]
  }

  function Sum(xs: seq<real>): real
  {
    SumTo(xs, |xs|)
  }

  /** What each of the first `m` pieces, piece `i` placed at `Offset(i, hop)`, contributes to sample `k`. */
  function Taps(fr: seq<seq<real>>, m: nat, hop: nat, k: nat): seq<real>
    requires m <= |fr|
  {
    seq(m, i requires 0 <= i < m => Tap(fr[i], Offset(i, hop), k))
  }

  /**
   * Overlap-add reference: output sample `k` is the sum, over the first `m`
   * pieces, of what each piece holds at `k`. Pieces that do not cover `k`
   * contribute nothing.
   */
  function OlaAt(fr: seq<seq<real>>, m: nat, hop: nat, k: nat): real
    requires m <= |fr|
  {
    Sum(Taps(fr, m, hop, k))
  }

  function Repeat(w: seq<real>, n: nat): seq<seq<real>>
  {
    seq(n, _ => w)
  }

  /**
   * The window's own overlap-add: the sum of the weights `w[k - Offset(i, hop)]`
   * over the first `n` frames `i` that cover sample `k`.
   */
  function Coverage(w: seq<real>, n: nat, hop: nat, k: nat): real
  {
    OlaAt(Repeat(w, n), n, hop, k)
  }

  /** Sums of the first `m` elements agree when those elements do. */
  lemma {:induction false} SumToAgree(xs: seq<real>, ys: seq<real>, m: nat)
    requires m <= |xs| && m <= |ys|
    requires forall i :: 0 <= i < m ==> xs[i] == ys[i]
    ensures SumTo(xs, m) == SumTo(ys, m)
  {
    if m > 0 {
      SumToAgree(xs, ys, m - 1);
    }
  }

  /** Multiplying every summand by `a` multiplies the sum by `a`. */
  lemma {:induction false} SumToScaled(xs: seq<real>, ys: seq<real>, a: real, m: nat)
    requires m <= |xs| && m <= |ys|
    requires forall i :: 0 <= i < m ==> xs[i] == a * ys[i]
    ensures SumTo(xs, m) == a * SumTo(ys, m)
  {
    if m > 0 {
      SumToScaled(xs, ys, a, m - 1);
      var c, t := SumTo(ys, m - 1), ys[m - 1];
      assert a * c + a * t == a * (c + t);
    }
  }

  lemma {:induction false} SumToZeros(xs: seq<real>, m: nat)
    requires m <= |xs|
    requires forall i :: 0 <= i < m ==> xs[i] == 0.0
    ensures SumTo(xs, m) == 0.0
  {
    if m > 0 {
      SumToZeros(xs, m - 1);
    }
  }

  /** Adding one more piece adds exactly its own contribution. */
  lemma OlaStep(fr: seq<seq<real>>, m: nat, hop: nat, k: nat)
    requires 0 < m <= |fr|
    ensures OlaAt(fr, m, hop, k) == OlaAt(fr, m - 1, hop, k) + Tap(fr[m - 1], Offset(m - 1, hop), k)
  {
    SumToAgree(Taps(fr, m, hop, k), Taps(fr, m - 1, hop, k), m - 1);
  }

  /** No piece reaches past `Offset(m - 1, hop) + len`, so the samples there stay silent. */
  lemma OlaBeyond(fr: seq<seq<real>>, m: nat, hop: nat, len: nat, k: nat)
    requires m <= |fr|
    requires forall i :: 0 <= i < m ==> |fr[i]| <= len
    requires m > 0 ==> Offset(m - 1, hop) + len <= k
    ensures OlaAt(fr, m, hop, k) == 0.0
  {
    forall i | 0 <= i < m
      ensures Taps(fr, m, hop, k)[i] == 0.0
    {
      OffsetMonotone(i, m - 1, hop);
    }
    SumToZeros(Taps(fr, m, hop, k), m);
  }

  /** The first `n` hop-spaced stretches of `s`, each multiplied by the window `w`. */
  function WindowedPieces(s: seq<real>, w: seq<real>, n: nat, hop: nat): seq<seq<real>>
  {
    seq(n, (i: nat) => Mul(Segment(s, Offset(i, hop), |w|), w))
  }

  /** One windowed stretch of `s` placed where it was cut from contributes `s[k]` times its weight. */
  lemma TapOfWindowed(s: seq<real>, w: seq<real>, off: nat, k: nat)
    ensures Tap(Mul(Segment(s, off, |w|), w), off, k) == SampleAt(s, k) * Tap(w, off, k)
  {
    if off <= k < off + |w| {
      assert Mul(Segment(s, off, |w|), w)[k - off] == SampleAt(s, off + (k - off)) * w[k - off];
    }
  }

  /** Overlap-adding pieces that each contribute `a` times what other pieces do gives `a` times their sum. */
  lemma OlaScaled(fr: seq<seq<real>>, gr: seq<seq<real>>, n: nat, hop: nat, k: nat, a: real)
    requires n <= |fr| && n <= |gr|
    requires forall i :: 0 <= i < n ==> Tap(fr[i], Offset(i, hop), k) == a * Tap(gr[i], Offset(i, hop), k)
    ensures OlaAt(fr, n, hop, k) == a * OlaAt(gr, n, hop, k)
  {
    SumToScaled(Taps(fr, n, hop, k), Taps(gr, n, hop, k), a, n);
  }

  /** Each windowed piece contributes `s[k]` times what the bare window, placed alike, does. */
  lemma WindowedTaps(s: seq<real>, w: seq<real>, n: nat, hop: nat, k: nat)
    ensures forall i :: 0 <= i < n ==>
      Tap(WindowedPieces(s, w, n, hop)[i], Offset(i, hop), k) == SampleAt(s, k) * Tap(Repeat(w, n)[i], Offset(i, hop), k)
  {
    forall i | 0 <= i < n
      ensures Tap(WindowedPieces(s, w, n, hop)[i], Offset(i, hop), k) == SampleAt(s, k) * Tap(Repeat(w, n)[i], Offset(i, hop), k)
    {
      TapOfWindowed(s, w, Offset(i, hop), k);
    }
  }

  /**
   * When every piece is a zero-extended stretch of `s` multiplied by the
   * window `w`, the overlap-add at `k` is `s`'s sample at `k` times the
   * window's coverage of `k`.
   */
  lemma OlaOfWindowed(s: seq<real>, w: seq<real>, n: nat, hop: nat, k: nat)
    ensures OlaAt(WindowedPieces(s, w, n, hop), n, hop, k) == SampleAt(s, k) * Coverage(w, n, hop, k)
  {
    WindowedTaps(s, w, n, hop, k);
    OlaScaled(WindowedPieces(s, w, n, hop), Repeat(w, n), n, hop, k, SampleAt(s, k));
  }

  /**
   * A rectangular window of weight one whose length equals the hop tiles the
   * time axis: each sample before `Offset(m, hop)` is covered exactly once.
   */
  lemma {:induction false} RectangularCoverage(w: seq<real>, n: nat, m: nat, hop: nat, k: nat)
    requires m <= n
    requires w == Ones(hop)
    ensures OlaAt(Repeat(w, n), m, hop, k) == if k < Offset(m, hop) then 1.0 else 0.0
  {
    if m > 0 {
      RectangularCoverage(w, n, m - 1, hop, k);
      OlaStep(Repeat(w, n), m, hop, k);
      OffsetNext(m - 1, hop);
    }
  }
}
