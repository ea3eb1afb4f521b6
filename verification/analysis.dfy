/**
 * The forward transform: cut the waveform into hop-spaced frames, zero-pad
 * the last one, multiply each frame by the window and take its FFT.
 */
module Analysis {
  import opened Results
  import opened Signals
  import opened Spectral
  import opened Progress

  datatype AnalysisError =
    | ZeroHop          // the frame count divides the length by a zero hop
    | NegativePadding  // the zero padding would need a negative number of samples

  lemma CeilingBounds(len: nat, hop: nat)
    requires hop > 0
    ensures ((len + hop - 1) / hop) * hop >= len
    ensures (len + hop - 1) / hop > 0 ==> ((len + hop - 1) / hop - 1) * hop < len
  {
    var q, r := (len + hop - 1) / hop, (len + hop - 1) % hop;
    assert len + hop - 1 == q * hop + r;
    assert (q - 1) * hop == q * hop - hop;
  }

  /**
   * The number of frames: the smallest count whose hops reach the end of
   * the signal, that is the length divided by the hop and rounded up.
   */
  function FrameCount(len: nat, hop: nat): (n: nat)
    requires hop > 0
    ensures Offset(n, hop) >= len
    ensures n > 0 ==> Offset(n - 1, hop) < len
  {
    CeilingBounds(len, hop);
    (len + hop - 1) / hop
  }

  /** The two bounds pin the frame count down: no other count meets both. */
  lemma FrameCountIsCeiling(len: nat, hop: nat, m: nat)
    requires hop > 0
    requires Offset(m, hop) >= len
    requires m > 0 ==> Offset(m - 1, hop) < len
    ensures m == FrameCount(len, hop)
    ensures m == 0 <==> len == 0
  {
    var n := FrameCount(len, hop);
    if m < n {
      OffsetMonotone(m, n - 1, hop);
    } else if m > n {
      OffsetMonotone(n, m - 1, hop);
    }
  }

  /** How many zeros are appended so that the last frame has `nfft` samples; negative when no padding can do that. */
  function PadCount(len: nat, nfft: nat, hop: nat): int
    requires hop > 0
  {
    Offset(FrameCount(len, hop), hop) + (nfft - hop) - len
  }

  /**
   * A window at least one hop wide always leaves room to pad; a window of
   * zero samples never does; and an empty signal can be padded exactly when
   * the window is at least one hop wide.
   */
  lemma PadCountSign(len: nat, nfft: nat, hop: nat)
    requires hop > 0
    ensures hop <= nfft ==> PadCount(len, nfft, hop) >= 0
    ensures PadCount(len, nfft, hop) >= 0 ==> nfft > 0
    ensures len == 0 ==> (PadCount(len, nfft, hop) >= 0 <==> hop <= nfft)
  {
    var n := FrameCount(len, hop);
    if n > 0 {
      OffsetNext(n - 1, hop);
    } else {
      FrameCountIsCeiling(len, hop, n);
    }
  }

  /** The signal followed by `PadCount` zeros. */
  function Pad(s: seq<real>, nfft: nat, hop: nat): (p: seq<real>)
    requires hop > 0
    requires PadCount(|s|, nfft, hop) >= 0
    ensures |p| == Offset(FrameCount(|s|, hop), hop) + nfft - hop
    ensures |s| <= |p|
    ensures forall j :: 0 <= j < |p| ==> p[j] == SampleAt(s, j)
  {
    s + Zeros(PadCount(|s|, nfft, hop))
  }

  /** The `nfft` samples of `p` starting at frame `i`'s offset. */
  function Frame(p: seq<real>, i: nat, nfft: nat, hop: nat): seq<real>
    requires Offset(i, hop) + nfft <= |p|
  {
    p[Offset(i, hop)..Offset(i, hop) + nfft]
  }

  /**
   * Every frame lies inside the padded signal, the last one ends exactly at
   * its end, and each frame is the signal's `nfft` samples from the frame's
   * offset, zero past the signal's end.
   */
  lemma FramesAreSegments(s: seq<real>, nfft: nat, hop: nat, i: nat)
    requires hop > 0
    requires PadCount(|s|, nfft, hop) >= 0
    requires i < FrameCount(|s|, hop)
    ensures Offset(i, hop) + nfft <= |Pad(s, nfft, hop)|
    ensures i == FrameCount(|s|, hop) - 1 ==> Offset(i, hop) + nfft == |Pad(s, nfft, hop)|
    ensures Frame(Pad(s, nfft, hop), i, nfft, hop) == Segment(s, Offset(i, hop), nfft)
  {
    var n := FrameCount(|s|, hop);
    OffsetMonotone(i, n - 1, hop);
    OffsetNext(n - 1, hop);
  }

  /** Frame `i` of the signal, multiplied by the window. */
  function WindowedFrame(s: seq<real>, nfft: nat, hop: nat, window: seq<real>, i: nat): (v: seq<real>)
    requires hop > 0
    requires PadCount(|s|, nfft, hop) >= 0
    requires |window| == nfft
    requires i < FrameCount(|s|, hop)
    ensures |v| == nfft
    ensures v == Mul(Segment(s, Offset(i, hop), nfft), window)
  {
    FramesAreSegments(s, nfft, hop, i);
    Mul(Frame(Pad(s, nfft, hop), i, nfft, hop), window)
  }

  /**
   * The STFT matrix of `s`: one row per frame, each the FFT of the frame
   * times `winfun(nfft)`. Fails when the hop is zero, or when the window is
   * too narrow for the zero padding to reach the hop.
   */
  function Stft(s: seq<real>, nfft: nat := 1024, hop: nat := 512,
                winfun: nat -> seq<real>, fft: seq<real> -> seq<Complex>): (r: Result<Spectrogram, AnalysisError>)
    requires |winfun(nfft)| == nfft
    requires PreservesLength(fft)
    ensures r == Err(ZeroHop) <==> hop == 0
    ensures r == Err(NegativePadding) <==> hop > 0 && PadCount(|s|, nfft, hop) < 0
    ensures r.Ok? ==> r.value.nfft == nfft && r.value.Valid()
    ensures r.Ok? ==> |r.value.rows| == FrameCount(|s|, hop)
    ensures r.Ok? ==> forall i :: 0 <= i < |r.value.rows| ==>
      r.value.rows[i] == fft(Mul(Segment(s, Offset(i, hop), nfft), winfun(nfft)))
  {
    if hop == 0 then Err(ZeroHop)
    else if PadCount(|s|, nfft, hop) < 0 then Err(NegativePadding)
    else
      var rows := seq(FrameCount(|s|, hop), i requires 0 <= i < FrameCount(|s|, hop) =>
        fft(WindowedFrame(s, nfft, hop, winfun(nfft), i)));
      assert forall i :: 0 <= i < |rows| ==> rows[i] == fft(WindowedFrame(s, nfft, hop, winfun(nfft), i));
      Ok(Spectrogram(nfft, rows))
  }

  /**
   * `Stft` with its progress notifications: nothing is reported when the call
   * fails before the first frame, and otherwise the observer, when present,
   * sees the frame count, a start, one update per frame and a finish.
   */
  method StftObserved(s: seq<real>, nfft: nat := 1024, hop: nat := 512,
                      winfun: nat -> seq<real>, fft: seq<real> -> seq<Complex>, progress: bool := false)
      returns (r: Result<Spectrogram, AnalysisError>, events: seq<Event>)
    requires |winfun(nfft)| == nfft
    requires PreservesLength(fft)
    ensures r == Stft(s, nfft, hop, winfun, fft)
    ensures r.Err? ==> events == []
    ensures r.Ok? ==> events == if progress then Trace(|r.value.rows|) else []
  {
    if hop == 0 {
      return Err(ZeroHop), [];
    }
    var n := FrameCount(|s|, hop);
    var window := winfun(nfft);
    if PadCount(|s|, nfft, hop) < 0 {
      return Err(NegativePadding), [];
    }
    var padded := Pad(s, nfft, hop);
    events := if progress then Opening(n) else [];
    var rows: seq<seq<Complex>> := [];
    for i := 0 to n
      invariant |rows| == i
      invariant forall j :: 0 <= j < i ==> rows[j] == fft(Mul(Segment(s, Offset(j, hop), nfft), window))
      invariant events == if progress then Opening(n) + Updates(i) else []
    {
      FramesAreSegments(s, nfft, hop, i);
      var offset := Offset(i, hop);
      var frame := padded[offset..offset + nfft];
      assert frame == Segment(s, offset, nfft);
      rows := rows + [fft(Mul(frame, window))];
      if progress {
        UpdatesGrow(i);
        events := events + [Update(i + 1)];
      }
    }
    if progress {
      events := events + [Finish];
    }
    r := Ok(Spectrogram(nfft, rows));
    ghost var expected := Stft(s, nfft, hop, winfun, fft);
    assert expected.Ok? && expected.value.nfft == nfft;
    assert expected.value.rows == rows;
  }
}
