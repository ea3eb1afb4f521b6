# STFT / ISTFT framing and overlap-add, in Dafny

This project models the short-time Fourier transform pair of the envmixer
recordings code (`recordings/STFT.py`).

`STFT` does the forward transform, which the model calls analysis:
- it counts frames as the signal length divided by the hop, rounded up;
- it zero-pads the signal so the last frame is full;
- it cuts hop-spaced frames of `nfft` samples;
- it multiplies each frame by one window `winfun(nfft)` and stores the FFT of the product as a row.

`ISTFT` does the inverse transform, which the model calls synthesis:
- it allocates a zeroed buffer of `frames * nhop + nfft` samples;
- it adds the real part of each row's inverse FFT into the buffer at offset `i * nhop`;
- it cuts the result to `trunc` samples when `trunc` is non-zero.

Both report progress to an optional observer.

Samples are `real`, so the model has no floating point. The FFT, the inverse
FFT and the window function are passed in as function values. The model
assumes only two library facts about them, stated as ghost predicates:
- `PreservesLength`: each transform returns as many values as it is given.
- `InversePair`: the inverse FFT of the FFT of a real vector is that vector with zero imaginary parts.

Under these assumptions the model proves the round trip. Each output sample is
the input sample times the window's overlap-add coverage at that sample. With a
rectangular window and a hop equal to the frame size, the round trip is exact.

Files:
- `results.dfy`: the `Result` type for the source's exceptions.
- `signals.dfy`: waveforms, zero-extended segments, and the overlap-add reference sum `OlaAt`.
- `spectral.dfy`: complex values, the spectrogram, and the library properties.
- `progress.dfy`: the progress observer, modelled as a trace of events.
- `analysis.dfy`: `STFT`.
- `synthesis.dfy`: `ISTFT`.
- `roundtrip.dfy`: analysis followed by synthesis.

Errors follow the code:
- A zero hop divides by zero at `recordings/STFT.py:63`. This is `ZeroHop`.
- The padding length at `:67` can be negative. `np.zeros` rejects that, and the model returns `NegativePadding`. This happens whenever `nfft == 0`. It also happens when `nhop > nfft` and the signal is empty, or when its length leaves too little room.
- An inverse FFT of a zero-length row fails at `:37`. This is `EmptyFrame`. By then the observer has already been given the frame count and started, so the model keeps those two notifications.

Three behaviours of the code that a reader might not expect:
- **No parameter validation.** The code checks no parameter up front; it fails only where listed above. A hop wider than the window is not rejected as such.
- **Empty input to synthesis.** A spectrogram with no rows synthesises, untruncated, to `nfft` zeros. A numpy array of shape `(0, nfft)` keeps its width, and `:30` allocates `nfft` samples. `Spectrogram` therefore keeps `nfft` even with zero rows.
- **Trailing silence.** The untruncated synthesis buffer is one hop longer than the last frame reaches, so it ends in `nhop` zeros.

Default arguments follow the code: `Stft` and `StftObserved` default to `nfft = 1024` and `hop = 512` (`:50`); `Istft` and `IstftObserved` default to `hop = 512` and `trunc = 0` (`:15`). Progress defaults to off in both.

Small helpers that model single source lines carry no contract of their own:
`Synthesis.BufferLength` is the buffer size at `:30`, `Analysis.PadCount` the
padding length at `:67`, `Analysis.Frame` the slice at `:77`, and
`Spectral.RealPart` numpy's `np.real` at `:37`.

## Model

| member | source | states |
|---|---|---|
| Analysis.FrameCount | recordings/STFT.py:63 | the frame count is a ceiling: its hops reach at least the signal length, and one hop fewer falls short of it |
| Analysis.FrameCountIsCeiling | recordings/STFT.py:63 | no other count meets both ceiling bounds, and the count is zero exactly for an empty signal |
| Analysis.PadCountSign | recordings/STFT.py:67 | padding is possible whenever `nhop <= nfft`, never when `nfft == 0`, and for an empty signal exactly when `nhop <= nfft` |
| Analysis.Pad | recordings/STFT.py:67 | the padded signal has length `n*nhop + nfft - nhop`, starts with the signal unchanged, and every added sample is zero |
| Analysis.FramesAreSegments | recordings/STFT.py:74-78 | every frame slice is in bounds, the last ends exactly at the padded length, and frame `i` is the signal's `nfft` samples from `i*nhop`, zero past its end |
| Analysis.WindowedFrame | recordings/STFT.py:76-78 | the product of frame `i` and the window has `nfft` samples and equals the zero-extended segment times the window |
| Analysis.Stft | recordings/STFT.py:50-86 | fails exactly on a zero hop or a negative pad count; otherwise has `nfft` bins per row, `ceil(len/nhop)` rows, and row `i` is the FFT of the segment at `i*nhop` times the one shared window |
| Analysis.StftObserved | recordings/STFT.py:63-86 | the loop computes the same matrix as `Stft` whether or not progress is observed; an observer sees `maxval = n`, `start`, `update(1..n)` and `finish`, and sees nothing when the call fails |
| Progress.TraceIsOrdered | recordings/STFT.py:70-84 | the trace starts with the frame count, has `start` exactly once and second, `finish` exactly once and last, and updates strictly increasing from 1 to `n` |
| Synthesis.AddAt | recordings/STFT.py:37 | adding a piece at an offset changes each buffer sample by exactly what the piece holds there, and keeps the buffer length |
| Synthesis.Contributions | recordings/STFT.py:36-37 | each row's real inverse FFT is a piece of `nfft` samples, one per row |
| Synthesis.Accumulate | recordings/STFT.py:30-37 | adding the first `m` pieces keeps the buffer length and leaves every sample past the end of the `m`th frame as it was |
| Synthesis.AccumulateIsOla | recordings/STFT.py:36-37 | adding the pieces one after another in frame order gives, at every sample, the sum over the frames covering it of that frame's value there |
| Synthesis.FramesFit | recordings/STFT.py:29-37 | every frame's write lies inside the `frames*nhop + nfft` buffer, which is one hop longer than the last frame's end |
| Synthesis.Istft | recordings/STFT.py:15-48 | fails exactly when rows exist but hold no bins; otherwise the length is the buffer length, or `min(trunc, buffer length)` when `trunc > 0`, and sample `k` is the overlap-add of the rows' real inverse FFTs |
| Synthesis.IstftTrailingSilence | recordings/STFT.py:29-37 | untruncated, the last `nhop` samples are zero, and a spectrogram with no rows gives `nfft` zeros |
| Synthesis.IstftObserved | recordings/STFT.py:29-48 | the loop computes the same waveform as `Istft` whether or not progress is observed; an observer sees the full trace, or only `maxval` and `start` when the first frame fails |
| Signals.OlaStep | recordings/STFT.py:36-37 | adding one more frame adds exactly that frame's value at the sample |
| Signals.OlaBeyond | recordings/STFT.py:30-37 | samples past the last frame's end receive nothing |
| Signals.OlaOfWindowed | recordings/STFT.py:76-78 | overlap-adding windowed stretches of a signal gives, at each sample, the signal sample times the window's coverage there |
| Signals.RectangularCoverage | recordings/STFT.py:36-37 | a window of ones as wide as the hop covers each sample before the `m`th hop exactly once and later samples not at all |
| RoundTrip.StftSucceeds | recordings/STFT.py:63-67 | with `0 < nhop <= nfft` the forward transform does not fail |
| RoundTrip.ContributionsAreWindowedPieces | recordings/STFT.py:76-78 | the real inverse FFT of each STFT row is the windowed frame it came from |
| RoundTrip.AnalysisSynthesis | recordings/STFT.py:36-37 | synthesis from the STFT succeeds for every truncation, and sample `k` is the input's sample `k` times the window coverage at `k` |
| RoundTrip.DefaultRoundTrip | recordings/STFT.py:15-50 | with every argument left at its default, synthesis from the STFT succeeds, has `n*512 + 1024` samples, and sample `k` is the input's sample `k` times the coverage of `n` windows 512 samples apart |
| RoundTrip.TruncatedLength | recordings/STFT.py:42-43 | cutting to the input's length gives exactly that many samples |
| RoundTrip.ConstantOverlapAdd | recordings/STFT.py:36-43 | if the window's hop-shifted copies sum to `c` over the input, cutting to the input's length gives back `c` times the input |
| RoundTrip.PerfectReconstruction | recordings/STFT.py:15-48 | with a window of ones and `nhop == nfft`, every output sample is the input sample, or zero past its end, and cutting to the input's length gives back the input exactly |
| RoundTrip.EmptySignal | recordings/STFT.py:29-30 | an empty signal gives a spectrogram of zero rows, which synthesises untruncated to `nfft` zeros |

## Left out

- FFT arithmetic: `np.fft.fft` and `scipy.fftpack.ifft` are foreign library calls. They are parameters, and only their length and their inverse property are assumed.
- The single-precision narrowing of the spectrogram at `recordings/STFT.py:74` is a floating-point matter, and samples are `real`.
- The float division in the frame count at `:63` is modelled as exact integer ceiling division. Rounding for lengths beyond 2^53 is not modelled.
- The window values, such as `np.hanning`, are not modelled; the window is a parameter. That a Hann window with `nhop = nfft/2` sums to a constant is therefore not proved. `RoundTrip.ConstantOverlapAdd` takes constant coverage as a hypothesis.
- Negative `nfft`, `nhop` and `trunc` are left out: all three are `nat`. Python's negative slicing has no meaning here.
- Analysis.Stft: requires the window to hold `nfft` weights. A window of another length fails at `:78` once a frame exists, and that failure is not modelled. Two inputs the code accepts are excluded as well: a one-weight window, which numpy broadcasts against the frame, and a call with no frames, which never reaches `:78`.
- The default window `np.hanning` at `:50` is not a default here: the window is a function parameter with no modelled values, so `winfun` must always be given.
- Synthesis.Istft: requires every row to hold `nfft` bins (`Spectrogram.Valid`). A two-dimensional numpy array cannot be ragged, so no other input reaches `:29`.
- The imaginary part of each inverse FFT is discarded, as at `:37`. Whether it is negligible is not checked.
- The progress object is a flag plus the returned list of notifications. Its display is not modelled.
- `studies/crowdflower/baryplot.py`, `mturk/captcha.py` and `Recording/FigureGround.py` are not part of this model. They are plotting, CSV and WAV-file glue with no contract of their own.
