/** The size of the twiddle table and how it lines up with the mirrored pairs of the spectrum. */
module Twiddles {
  import opened ComplexArith

  /** `twiddle_count` in both constructors (src/lib.rs): pair positions, counting index 0. */
  function TwiddleCount(length: nat): (count: nat)
    ensures length <= 4 * count < length + 4
  {
    if length % 4 == 0 then length / 4 else length / 4 + 1
  }

  /**
   * Number of entries of the table collected from the range `1..twiddle_count`. For an even
   * length it is the number of mirrored pairs of the length/2+1 spectrum bins, not counting
   * the edge bins.
   */
  function TableSize(length: nat): (size: nat)
    ensures length % 2 == 0 && length >= 2 ==>
      size == TwiddleCount(length) - 1 && size == (length / 2 + 1) / 2 - 1
  {
    var count := TwiddleCount(length);
    if count > 0 then count - 1 else 0
  }

  /**
   * The forward table: `(1..twiddle_count).map(|i| compute_twiddle(i, length) * 0.5)`, where
   * `rotation(i, n)` stands for `compute_twiddle(i, n)`.
   */
  function ForwardTable(length: nat, rotation: (nat, nat) -> Complex): (t: seq<Complex>)
    ensures |t| == TableSize(length)
  {
    seq(TableSize(length), i requires 0 <= i < TableSize(length) => Scale(rotation(i + 1, length), 0.5))
  }

  /** The inverse table: `(1..twiddle_count).map(|i| compute_twiddle(i, length).conj())`. */
  function InverseTable(length: nat, rotation: (nat, nat) -> Complex): (t: seq<Complex>)
    ensures |t| == TableSize(length)
  {
    seq(TableSize(length), i requires 0 <= i < TableSize(length) => Conj(rotation(i + 1, length)))
  }

  function Min(a: nat, b: nat): nat {
    if a <= b then a else b
  }

  /**
   * Iterations of `zip3(twiddles, left, right.rev())`: a buffer of n >= 2 bins is split at n/2,
   * the first bin is chopped from the left half and the last from the right half, and zip3 stops
   * at the shortest of the three.
   */
  function PairCount(twiddles: nat, n: nat): (p: nat)
    requires n >= 2
    ensures p <= twiddles && p <= n / 2 - 1 && p <= n - n / 2 - 1
    ensures p == twiddles || p == n / 2 - 1 || p == n - n / 2 - 1
  {
    Min(twiddles, Min(n / 2 - 1, n - n / 2 - 1))
  }

  /**
   * For an even length the table has exactly one entry per mirrored pair: zip3 exhausts the
   * table and the left half together, and the right half has one bin left over exactly when
   * the spectrum length length/2+1 is odd (the centre bin).
   */
  lemma TableMatchesPairs(length: nat)
    requires length % 2 == 0 && length >= 2
    ensures PairCount(TableSize(length), length / 2 + 1) == TableSize(length)
    ensures TableSize(length) == (length / 2 + 1) / 2 - 1
    ensures (length / 2 + 1) - (length / 2 + 1) / 2 - 1
            == TableSize(length) + (if (length / 2 + 1) % 2 == 1 then 1 else 0)
  {
    var half := length / 2;
    if half % 2 == 0 {
      assert length % 4 == 0;
    } else {
      assert length % 4 == 2;
    }
  }
}
