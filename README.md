# realfft repacking engine, modelled in Dafny

`realfft` computes the spectrum of a real signal of `length` samples with a complex FFT of half
the size. `RealToComplex` turns `length` real samples into the `length/2+1` non-redundant
spectrum bins. `ComplexToReal` turns such a half-spectrum back into `length` real samples.

For an even length, the forward transform reads the real buffer as `length/2` complex pairs and
runs the inner FFT on them. It then post-processes the `N = length/2` bins in place:

- bins 0 and N are set from the first value;
- mirrored pairs `k` and `N-k` are walked inwards, sharing one twiddle per pair;
- an unpaired centre bin has its imaginary part negated.

The inverse transform pre-processes the half-spectrum in the mirror-image way. It then
inverse-transforms the first N bins straight into the real output, read as complex pairs.

Odd lengths use a full-length transform: zero extension and truncation for the forward
direction, Hermitian extension and taking real parts for the inverse.

`src/lib.rs` is a single file with no modules apart from its `tests` module. The model splits it into eight modules of its own:

- `complex.dfy` (`ComplexArith`): complex values as pairs of exact reals.
- `engine.dfy` (`Engine`): the inner FFT (`PlannedFft`) as a planned size, a direction and an uninterpreted
  bin function. Running it replaces a buffer by its bins.
- `views.dfy` (`Views`): the aliased real/complex view (`Pack`, `Unpack`), zero extension,
  real parts, and Hermitian extension.
- `twiddles.dfy` (`Twiddles`): `twiddle_count`, the two tables, and the `zip3` iteration count.
- `validation.dfy` (`Validation`): the length checks and the error value.
- `repacking.dfy` (`Repacking`): the per-bin formulas of the even path, and the textbook
  split-radix formulas they are proved equal to.
- `real_to_complex.dfy` (`ForwardRepacker`), `complex_to_real.dfy` (`InverseRepacker`): the two
  structs as classes. `process` is a method over arrays, and the edge/pair/centre passes are
  `while` loops.

How the proofs fit together:

- `Process` ties its outputs to `Unfolded` / `Folded` applied to the engine's bins. It reads
  and changes buffers, so its contract is stated with `old`/`unchanged`. The per-bin and
  reference properties are proved about `Unfolded` / `Folded` instead.
- The rotation hypotheses are `w[0] = 1`, `w[N] = -1`, `w[N-k] = -conj(w[k])` for
  `1 <= k < (N+1)/2`, and `w[N/2] = -i` when N is even.
- `UnfoldedIsRecombination` shows that, under these hypotheses, forward post-processing equals
  the textbook recombination `E_k + w_k O_k` in every bin `0..N`.
- `FoldedIsRefolding` shows that inverse pre-processing equals the textbook folding
  `E_k + i O_k` in every input `0..N-1` (bin N is not handed to the inverse FFT). It needs the
  same hypotheses and, in addition, real bins 0 and N (imaginary parts zero). With a complex
  DC or Nyquist bin, input 0 differs from the textbook folding.
- `ForwardTableIsIdeal` and `InverseTableIsIdeal` show that the constructors' tables meet
  those hypotheses whenever `compute_twiddle` returns such rotations.
- `ForwardTableRecombines` and `InverseTableRefolds` chain the two steps: with the table a
  constructor builds from such rotations, post-processing (pre-processing) is the textbook
  recombination (folding).

## Model

| member | source | states |
|---|---|---|
| `Validation.CheckLengths` | src/lib.rs:220-239 | success exactly when input and output have the configured lengths; otherwise the input is checked first, and the error names the buffer and the expected length. The length reported as found is the input's length for both errors, as in the code |
| `Twiddles.PairCount` | src/lib.rs:284-288 | the number of `zip3` iterations is bounded by the table, the chopped left half and the chopped right half, and equals one of them |
| `Twiddles.TableMatchesPairs` | src/lib.rs:195-202 | for even lengths ≥ 2, the table has exactly one entry per mirrored pair: `zip3` drops nothing, and the right half has exactly one bin left over (the centre) when `length/2+1` is odd |
| `ForwardRepacker.RealToComplex.constructor` | src/lib.rs:177-215 | every length is accepted; even lengths plan a forward FFT of `length/2`, allocate `length/2+1` zero bins and hold `rotation(i+1, length) * 0.5` for `i < twiddle_count-1`; odd lengths plan a forward FFT of `length`, allocate `length` zero bins and hold no table |
| `ForwardRepacker.RealToComplex.Process` | src/lib.rs:219-339 | wrong lengths give the `CheckLengths` error and change no buffer. Even path: output is the post-processing of the FFT of the input's complex pairs, with bins 0 and `length/2` purely real. Odd path: `bufferOut` is the FFT of the zero-extended input, the output is its first `length/2+1` bins, and the input is untouched |
| `ForwardRepacker.RealToComplex.Postprocess` | src/lib.rs:258-323 | the buffer becomes `Unfolded`: edges from the first value, pairs `k` / `N-k` from their old values and `twiddles[k-1]`, centre with only its imaginary part negated, nothing else changed |
| `InverseRepacker.ComplexToReal.constructor` | src/lib.rs:344-383 | as the forward constructor, with an inverse FFT, `conj(rotation(i+1, length))` entries and a `length/2` (even) or `length` (odd) buffer |
| `InverseRepacker.ComplexToReal.Process` | src/lib.rs:386-499 | wrong lengths give the `CheckLengths` error and change no buffer. Even path: the output is the inverse transform of the first `length/2` bins of the pre-processed (`Folded`) input, unpacked into real/imaginary pairs; the last input bin keeps its value. Odd path: `bufferIn` is the inverse FFT of the Hermitian extension of the input, the output is its real parts, and the input is untouched |
| `InverseRepacker.ComplexToReal.Preprocess` | src/lib.rs:408-467 | the buffer becomes `Folded`: bin 0 from the old bins 0 and N, bin N not rewritten, pairs from their old values and `twiddles[k-1]`, centre doubled and conjugated |
| `InverseRepacker.ComplexToReal.Extend` | src/lib.rs:483-488 | for an odd length, the work buffer becomes the Hermitian extension of the half-spectrum: bins `0..=length/2` copied, bin `length-1-j` set to the conjugate of input bin `1+j` |
| `Views.UnpackPack` | src/lib.rs:245-249 | reading an even-length real buffer as complex pairs and writing it back gives the same buffer |
| `Views.PackUnpack` | src/lib.rs:470-474 | writing complex values through the aliased real view and reading them back gives the same values |
| `Views.RealPartsOfToComplex` | src/lib.rs:326-328 | taking real parts undoes zero extension |
| `Views.HermitianExtensionIsHermitian` | src/lib.rs:483-488 | the rebuilt odd-length spectrum keeps the half-spectrum as its first `length/2+1` bins and satisfies bin `n-k` = conj(bin `k`) |
| `Views.HermitianExtensionOfTruncation` | src/lib.rs:335-336 | an odd-length Hermitian spectrum is rebuilt exactly from the first `length/2+1` bins that the forward odd path keeps |
| `Repacking.ForwardPairIsRecombination` | src/lib.rs:289-315 | the folded pair formulas with one twiddle `t` equal the textbook recombination for bin `k` with rotation `2t`, and for bin `N-k` with rotation `-conj(2t)` |
| `Repacking.ForwardEdgesAreRecombination` | src/lib.rs:264-272 | the two edge bins are the recombinations of the first value with rotations 1 and -1 |
| `Repacking.UnfoldedAtIsRecombination` | src/lib.rs:261-323 | with an ideal table, each post-processed bin is the textbook recombination of the N-periodic FFT output |
| `Repacking.UnfoldedIsRecombination` | src/lib.rs:258-323 | with an ideal table, every bin 0..N of the post-processed buffer is the textbook recombination |
| `Repacking.InversePairIsRefolding` | src/lib.rs:435-459 | the inverse pair formulas with one twiddle `t` equal the textbook folding for bin `k` with rotation `t`, and for bin `N-k` with rotation `-conj(t)` |
| `Repacking.InverseFirstIsRefolding` | src/lib.rs:412-420 | for real DC and Nyquist bins, the new bin 0 is their textbook folding with rotation 1 |
| `Repacking.FoldedAtIsRefolding` | src/lib.rs:412-467 | with an ideal table and real edge bins, each pre-processed input is the textbook folding |
| `Repacking.FoldedIsRefolding` | src/lib.rs:408-467 | with an ideal table and real edge bins, every input 0..N-1 handed to the inverse FFT is the textbook folding of bins `k` and `N-k` |
| `Repacking.ForwardTableIsIdeal` | src/lib.rs:195-202 | the forward constructor's table built from ideal rotations meets the hypotheses of `UnfoldedIsRecombination` |
| `Repacking.InverseTableIsIdeal` | src/lib.rs:362-369 | the inverse constructor's table built from ideal rotations meets the hypotheses of `FoldedIsRefolding` |
| `Engine.Plan` | src/lib.rs:204 | no contract of its own; its body records the size and direction planned for and the planner's bin function (`plan_fft_forward` / `plan_fft_inverse`) |
| `Engine.Transform` | src/lib.rs:253-257 | running the planned engine (`process_with_scratch`, `process_outofplace_with_scratch`) replaces a buffer of the planned size by as many bins |
| `Twiddles.TwiddleCount` | src/lib.rs:195-199 | `twiddle_count` is `length/4` rounded up |
| `Twiddles.TableSize` | src/lib.rs:195-202 | for even lengths ≥ 2 the range `1..twiddle_count` has one entry per mirrored pair of the `length/2+1` bins, edges excluded: `(length/2+1)/2 - 1` entries |
| `Twiddles.ForwardTable` | src/lib.rs:200-202 | the forward table: entry `i` is `compute_twiddle(i+1, length) * 0.5`, one per entry of `1..twiddle_count` |
| `Twiddles.InverseTable` | src/lib.rs:367-369 | the inverse table: entry `i` is `compute_twiddle(i+1, length).conj()`, one per entry of `1..twiddle_count` |
| `Views.Pack` | src/lib.rs:245-249 | the real buffer read as `len/2` complex values, entry `j` being `(x[2j], x[2j+1])` |
| `Views.Unpack` | src/lib.rs:470-474 | complex values written through the real view: twice as many reals, value `j` at `2j` and `2j+1` |
| `Views.ToComplex` | src/lib.rs:326-328 | each real sample becomes `Complex::new(x, 0)`, one value per sample |
| `Views.RealParts` | src/lib.rs:494-496 | the real part of each bin, one real per bin |
| `Views.HermitianExtension` | src/lib.rs:483-488 | the odd-length spectrum of `n` bins rebuilt from `n/2+1`: bins `0..=n/2` copied, bin `n-j` the conjugate of bin `j` |
| `Repacking.Twiddled` | src/lib.rs:296-304 | the twiddled term of a pair is the product of the twiddle with `(sum.im, -diff.re)`, the pair's odd part up to a factor |
| `Repacking.ForwardLow` | src/lib.rs:264-268 | new bin 0 is `re + im` of the first value, with zero imaginary part |
| `Repacking.ForwardHigh` | src/lib.rs:269-272 | new bin N is `re - im` of the first value, with zero imaginary part |
| `Repacking.ForwardPair` | src/lib.rs:289-315 | the new pair `(out, out_rev)` keeps the pair's half sum in the real parts and half difference in the imaginary parts: `out.re + out_rev.re = a.re + b.re` and `out.im - out_rev.im = a.im - b.im` |
| `Repacking.ForwardCentre` | src/lib.rs:319-323 | negating the centre bin's imaginary part is its textbook recombination with itself as mirror and rotation -i |
| `Repacking.UnfoldedAt` | src/lib.rs:261-323 | bin `i` of the post-processed buffer, by case (edges, pair, mirror, centre, untouched); the edge bins are real |
| `Repacking.Unfolded` | src/lib.rs:258-323 | the post-processed buffer has the buffer's length, with real bins 0 and N |
| `Repacking.InverseFirst` | src/lib.rs:412-420 | new bin 0 from the old bins 0 and N; for real bins it is `(a + b, a - b)` |
| `Repacking.InversePair` | src/lib.rs:435-459 | the new pair `(fft_input, fft_input_rev)` keeps twice the pair's sum in the real parts and twice its difference in the imaginary parts |
| `Repacking.InverseCentre` | src/lib.rs:463-467 | doubling and conjugating the centre bin is its textbook folding with itself as mirror and conjugated rotation i |
| `Repacking.FoldedAt` | src/lib.rs:412-467 | input `i` of the pre-processed half-spectrum, by case; bin N is not rewritten |
| `Repacking.Folded` | src/lib.rs:408-467 | the pre-processed half-spectrum has the same length, and bin N keeps its value |
| `Repacking.ForwardTableRecombines` | src/lib.rs:195-323 | with the forward constructor's table built from ideal rotations, every post-processed bin `0..N` is the textbook recombination |
| `Repacking.InverseTableRefolds` | src/lib.rs:362-467 | with the inverse constructor's table built from ideal rotations and real bins 0 and N, every pre-processed input `0..N-1` is the textbook folding |

Where the documentation and the code disagree, or the code's messages say something unexpected:

- The doc comment at src/lib.rs:176 says odd lengths are rejected, but both constructors accept
  every length (including 0) and give odd lengths their own path.
- The output-length error messages at src/lib.rs:235 and src/lib.rs:402 print `input.len()` as
  the length found, not the output's length. The model keeps this: the `got` field of an
  output error is the input's length. The message text itself is not modelled.

## Left out

- `compute_twiddle` (src/lib.rs:130-140) computes cos/sin in `f64`. It is a constructor parameter `rotation`. Only the table's length, indexing, scaling and conjugation are modelled. The ideal-rotation facts the recombination lemmas assume are hypotheses, not proved from trigonometry.
- The rustfft engine (`FftPlanner`, `plan_fft_forward/inverse`, `process_with_scratch`, `process_outofplace_with_scratch`) is a foreign library. It is an uninterpreted bin function supplied through a `planner` parameter. Scratch buffers and their length queries are not modelled.
- The `unsafe` slice reinterpretation is modelled as the explicit `Pack`/`Unpack` functions. The model copies values, not memory.
- `ForwardRepacker.RealToComplex.Process`, even path: the engine may use the input as scratch. The contract says nothing about the input afterwards, and the model never writes it.
- `InverseRepacker.ComplexToReal.Process`, even path: the out-of-place inverse FFT may use `input[..length/2]` as scratch (src/lib.rs:476-480). The contract says nothing about those bins afterwards. It promises only that the last bin, which the FFT does not see, keeps its value. The model itself never writes them after pre-processing.
- `RealToComplex.Process` and `ComplexToReal.Process` require the caller's complex buffer to be a different array from the struct's own buffer. Rust's exclusive borrows guarantee this.
- Floating-point rounding is not modelled: all arithmetic is on exact reals.
- The `T = f32/f64` genericity, `Arc`, `Box<dyn Error>`, `Display`/`Error` for `FftError`, and the `dummyfft` feature are not modelled. With `dummyfft` the FFT calls are compiled out.
- The tests (src/lib.rs:522-580) check each direction against a full-length complex FFT within `1e-9`: lengths 2..63 forward, lengths 5 and 6 inverse. That needs real trigonometry and the inner FFT's semantics, not only the repacking logic. The `length * x` round trip is what the scaling note (src/lib.rs:52-53) describes; it is not modelled either.
