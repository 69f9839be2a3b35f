/** The inverse repacker: length/2+1 spectrum bins back to a real signal of `length` samples. */
module InverseRepacker {
  import opened ComplexArith
  import opened Engine
  import opened Views
  import opened Twiddles
  import opened Repacking
  import opened Validation

  /** `ComplexToReal`: every field is fixed by the constructor; only buffer contents change. */
  class ComplexToReal {
    const twiddles: seq<Complex>
    const length: nat
    const fft: PlannedFft
    const bufferIn: array<Complex>
    const isEven: bool

    /** Even lengths use a half-length inverse transform and a twiddle table; odd lengths a full-length one. */
    ghost predicate Valid()
    {
      && isEven == (length % 2 == 0)
      && fft.direction == FftInverse
      && fft.size == (if isEven then length / 2 else length)
      && |twiddles| == (if isEven then TableSize(length) else 0)
      && bufferIn.Length == (if isEven then length / 2 else length)
    }

    /**
     * `new`: `rotation(i, n)` is the unit rotation `compute_twiddle(i, n)`; the inverse table
     * holds the conjugated rotations for indices 1..twiddle_count-1. Every length is accepted.
     */
    constructor (length: nat, rotation: (nat, nat) -> Complex, planner: Planner)
      ensures Valid() && this.length == length
      ensures fft == Plan(planner, fft.size, FftInverse)
      ensures fresh(bufferIn) && forall i :: 0 <= i < bufferIn.Length ==> bufferIn[i] == Zero
      ensures twiddles == if isEven then InverseTable(length, rotation) else []
    {
      this.length := length;
      if length % 2 > 0 {
        bufferIn := new Complex[length](_ => Zero);
        twiddles := [];
        fft := Plan(planner, length, FftInverse);
        isEven := false;
      } else {
        bufferIn := new Complex[length / 2](_ => Zero);
        twiddles := InverseTable(length, rotation);
        fft := Plan(planner, length / 2, FftInverse);
        isEven := true;
      }
    }

    /**
     * `process`. Wrong buffer lengths are reported before anything is touched. For an even
     * length the half-spectrum is pre-processed in place and its first length/2 bins are
     * inverse-transformed straight into the output, read as length/2 complex pairs; the engine
     * may use those length/2 input bins as scratch, so only the last input bin is promised to
     * keep its value. For an odd
     * length the full Hermitian spectrum is rebuilt in `bufferIn`, inverse-transformed there,
     * and the real parts are copied out.
     */
    method Process(input: array<Complex>, output: array<real>) returns (r: Outcome)
      requires Valid() && input != bufferIn
      modifies input, output, bufferIn
      ensures r == CheckLengths(length / 2 + 1, input.Length, length, output.Length)
      ensures r.Err? ==> unchanged(input) && unchanged(output) && unchanged(bufferIn)
      ensures r.Ok? && isEven ==>
        && unchanged(bufferIn)
        && input[length / 2] == old(input[length / 2])
        && output[..] == Unpack(Transform(fft, Folded(old(input[..]), twiddles)[..length / 2]))
      ensures r.Ok? && !isEven ==>
        && unchanged(input)
        && bufferIn[..] == Transform(fft, HermitianExtension(old(input[..]), length))
        && output[..] == RealParts(bufferIn[..])
    {
      r := CheckLengths(length / 2 + 1, input.Length, length, output.Length);
      if r.Err? {
        return;
      }
      if isEven {
        if input.Length / 2 == 0 {
          return;
        }
        Preprocess(input);
        var signal := Unpack(Transform(fft, input[..output.Length / 2]));
        forall i | 0 <= i < output.Length {
          output[i] := signal[i];
        }
        assert output[..] == signal;
      } else {
        Extend(input);
        var spectrum := Transform(fft, bufferIn[..]);
        forall i | 0 <= i < length {
          bufferIn[i] := spectrum[i];
        }
        assert bufferIn[..] == spectrum;
        for i := 0 to length
          invariant unchanged(input) && bufferIn[..] == spectrum
          invariant forall k :: 0 <= k < i ==> output[k] == bufferIn[k].re
        {
          output[i] := bufferIn[i].re;
        }
        assert output[..] == RealParts(bufferIn[..]);
      }
    }

    /**
     * The odd-length path's spectrum rebuild: `input` is copied into the first length/2+1 bins
     * of `bufferIn`, and the last length/2 bins, walked backwards, get the conjugates of
     * input[1..].
     */
    method Extend(input: array<Complex>)
      requires Valid() && !isEven && input.Length == length / 2 + 1 && input != bufferIn
      modifies bufferIn
      ensures bufferIn[..] == HermitianExtension(input[..], length)
    {
      forall i | 0 <= i < input.Length {
        bufferIn[i] := input[i];
      }
      var mirrored := Min(length / 2, input.Length - 1);
      var j := 0;
      while j < mirrored
        invariant 0 <= j <= mirrored
        invariant forall i :: 0 <= i <= length / 2 ==> bufferIn[i] == input[i]
        invariant forall i :: length - j <= i < length ==> bufferIn[i] == Conj(input[length - i])
      {
        bufferIn[length - 1 - j] := Conj(input[1 + j]);
        j := j + 1;
      }
      assert bufferIn[..] == HermitianExtension(input[..], length);
    }

    /**
     * The pre-processing of `process` for an even length: bin 0 from the old bins 0 and N (bin N
     * itself is not rewritten), then mirrored pairs k and N-k walked inwards with
     * `twiddles[k-1]`, then the unpaired centre bin when the buffer length is odd.
     */
    method Preprocess(input: array<Complex>)
      requires input.Length >= 2
      modifies input
      ensures input[..] == Folded(old(input[..]), twiddles)
    {
      ghost var x := input[..];
      var n := input.Length;
      input[0] := InverseFirst(input[0], input[n - 1]);
      var pairs := PairCount(|twiddles|, n);
      var k := 1;
      while k <= pairs
        invariant 1 <= k <= pairs + 1
        invariant FoldedUpTo(x, twiddles, input[..], k)
      {
        ghost var before := input[..];
        FoldStep(x, twiddles, before, k);
        var (fftInput, fftInputRev) := InversePair(input[k], input[n - 1 - k], twiddles[k - 1]);
        input[k] := fftInput;
        input[n - 1 - k] := fftInputRev;
        assert input[..] == before[k := fftInput][n - 1 - k := fftInputRev];
        k := k + 1;
      }
      ghost var paired := input[..];
      FoldFinish(x, twiddles, paired);
      if n % 2 == 1 {
        input[n / 2] := InverseCentre(input[n / 2]);
        assert input[..] == paired[n / 2 := InverseCentre(paired[n / 2])];
      }
    }
  }
}
