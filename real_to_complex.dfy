/** The forward repacker: a real signal of `length` samples to its length/2+1 spectrum bins. */
module ForwardRepacker {
  import opened ComplexArith
  import opened Engine
  import opened Views
  import opened Twiddles
  import opened Repacking
  import opened Validation

  /** `RealToComplex`: every field is fixed by the constructor; only buffer contents change. */
  class RealToComplex {
    const twiddles: seq<Complex>
    const length: nat
    const fft: PlannedFft
    const bufferOut: array<Complex>
    const isEven: bool

    /** Even lengths use a half-length transform and a twiddle table; odd lengths a full-length one. */
    ghost predicate Valid()
    {
      && isEven == (length % 2 == 0)
      && fft.direction == FftForward
      && fft.size == (if isEven then length / 2 else length)
      && |twiddles| == (if isEven then TableSize(length) else 0)
      && bufferOut.Length == (if isEven then length / 2 + 1 else length)
    }

    /**
     * `new`: `rotation(i, n)` is the unit rotation `compute_twiddle(i, n)`; the forward table
     * holds half of the rotations for indices 1..twiddle_count-1. Every length is accepted.
     */
    constructor (length: nat, rotation: (nat, nat) -> Complex, planner: Planner)
      ensures Valid() && this.length == length
      ensures fft == Plan(planner, fft.size, FftForward)
      ensures fresh(bufferOut) && forall i :: 0 <= i < bufferOut.Length ==> bufferOut[i] == Zero
      ensures twiddles == if isEven then ForwardTable(length, rotation) else []
    {
      this.length := length;
      if length % 2 > 0 {
        bufferOut := new Complex[length](_ => Zero);
        twiddles := [];
        fft := Plan(planner, length, FftForward);
        isEven := false;
      } else {
        bufferOut := new Complex[length / 2 + 1](_ => Zero);
        twiddles := ForwardTable(length, rotation);
        fft := Plan(planner, length / 2, FftForward);
        isEven := true;
      }
    }

    /**
     * `process`. Wrong buffer lengths are reported before anything is touched. For an even
     * length the input is read as length/2 complex pairs, transformed into the first length/2
     * output bins and post-processed in place; its own contents are left unspecified, since the
     * engine may use it as scratch space. For an odd length the input is zero-extended into
     * `bufferOut`, transformed there, and the first length/2+1 bins are copied out.
     */
    method Process(input: array<real>, output: array<Complex>) returns (r: Outcome)
      requires Valid() && output != bufferOut
      modifies input, output, bufferOut
      ensures r == CheckLengths(length, input.Length, length / 2 + 1, output.Length)
      ensures r.Err? ==> unchanged(input) && unchanged(output) && unchanged(bufferOut)
      ensures r.Ok? && isEven ==>
        && unchanged(bufferOut)
        && output[..] == Unfolded(Transform(fft, Pack(old(input[..]))) + [old(output[length / 2])], twiddles)
      ensures r.Ok? && isEven && length > 0 ==> output[0].im == 0.0 && output[length / 2].im == 0.0
      ensures r.Ok? && !isEven ==>
        && unchanged(input)
        && bufferOut[..] == Transform(fft, ToComplex(old(input[..])))
        && output[..] == bufferOut[..length / 2 + 1]
    {
      r := CheckLengths(length, input.Length, length / 2 + 1, output.Length);
      if r.Err? {
        return;
      }
      if isEven {
        var fftLen := length / 2;
        var spectrum := Transform(fft, Pack(input[..]));
        forall i | 0 <= i < fftLen {
          output[i] := spectrum[i];
        }
        assert output[..] == spectrum + [old(output[fftLen])];
        if output.Length / 2 == 0 {
          return;
        }
        Postprocess(output);
      } else {
        for i := 0 to length
          invariant unchanged(input)
          invariant forall j :: 0 <= j < i ==> bufferOut[j] == Complex(input[j], 0.0)
        {
          bufferOut[i] := Complex(input[i], 0.0);
        }
        assert bufferOut[..] == ToComplex(old(input[..]));
        var spectrum := Transform(fft, bufferOut[..]);
        forall i | 0 <= i < length {
          bufferOut[i] := spectrum[i];
        }
        assert bufferOut[..] == spectrum;
        forall i | 0 <= i < length / 2 + 1 {
          output[i] := bufferOut[i];
        }
        assert output[..] == bufferOut[..length / 2 + 1];
      }
    }

    /**
     * The post-processing of `process` for an even length: bins 0 and N from the first value,
     * then mirrored pairs k and N-k walked inwards with `twiddles[k-1]`, then the unpaired
     * centre bin when the buffer length is odd.
     */
    method Postprocess(output: array<Complex>)
      requires output.Length >= 2
      modifies output
      ensures output[..] == Unfolded(old(output[..]), twiddles)
    {
      ghost var z := output[..];
      var n := output.Length;
      var firstValue := output[0];
      output[0] := ForwardLow(firstValue);
      output[n - 1] := ForwardHigh(firstValue);
      var pairs := PairCount(|twiddles|, n);
      var k := 1;
      while k <= pairs
        invariant 1 <= k <= pairs + 1
        invariant UnfoldedUpTo(z, twiddles, output[..], k)
      {
        ghost var before := output[..];
        UnfoldStep(z, twiddles, before, k);
        var (out, outRev) := ForwardPair(output[k], output[n - 1 - k], twiddles[k - 1]);
        output[k] := out;
        output[n - 1 - k] := outRev;
        assert output[..] == before[k := out][n - 1 - k := outRev];
        k := k + 1;
      }
      ghost var paired := output[..];
      UnfoldFinish(z, twiddles, paired);
      if n % 2 == 1 {
        output[n / 2] := ForwardCentre(output[n / 2]);
        assert output[..] == paired[n / 2 := ForwardCentre(paired[n / 2])];
      }
    }
  }
}
