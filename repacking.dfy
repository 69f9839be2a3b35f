/**
 * The even-length repacking formulas. The forward post-processing turns the N bins of a
 * half-length transform into N+1 bins of the real signal's spectrum; the inverse
 * pre-processing folds N+1 spectrum bins back into N bins for a half-length inverse transform.
 * Buffers here hold n = N+1 bins; the mirror of bin k is bin N-k = n-1-k.
 */
module Repacking {
  import opened ComplexArith
  import opened Twiddles

  /**
   * The twiddled term both pair loops share, as computed from one twiddle t for a pair with
   * sum `sum` and difference `diff` (output_twiddled_real, output_twiddled_im).
   */
  function Twiddled(sum: Complex, diff: Complex, t: Complex): (r: Complex)
    ensures r == Mul(t, Complex(sum.im, -diff.re))
  {
    Complex(Scale(sum, t.re).im + Scale(diff, t.im).re, Scale(sum, t.im).im - Scale(diff, t.re).re)
  }

  // ---------------------------------------------------------------- forward post-processing

  /** New bin 0 from the first transformed value. */
  function ForwardLow(v: Complex): (r: Complex)
    ensures r.im == 0.0
  {
    Complex(v.re + v.im, 0.0)
  }

  /** New bin N from the first transformed value. */
  function ForwardHigh(v: Complex): (r: Complex)
    ensures r.im == 0.0
  {
    Complex(v.re - v.im, 0.0)
  }

  /** New values (out, out_rev) of a mirrored pair a = bin k, b = bin N-k, with twiddle t. */
  function ForwardPair(a: Complex, b: Complex, t: Complex): (r: (Complex, Complex))
    ensures r.0.re + r.1.re == a.re + b.re && r.0.im - r.1.im == a.im - b.im
  {
    var sum := Add(a, b);
    var diff := Sub(a, b);
    var halfSumRe := 0.5 * sum.re;
    var halfDiffIm := 0.5 * diff.im;
    var o := Twiddled(sum, diff, t);
    (Complex(halfSumRe + o.re, halfDiffIm + o.im), Complex(halfSumRe - o.re, o.im - halfDiffIm))
  }

  /**
   * The unpaired centre bin: only its imaginary part is negated. The centre bin N/2 is its own
   * mirror and its rotation is -i, so this is its textbook recombination.
   */
  function ForwardCentre(c: Complex): (r: Complex)
    ensures r == Recombined(c, c, Complex(0.0, -1.0))
  {
    Complex(c.re, -c.im)
  }

  /** Bin i after post-processing the buffer z with the forward table tw. */
  function UnfoldedAt(z: seq<Complex>, tw: seq<Complex>, i: nat): (r: Complex)
    requires 2 <= |z| && i < |z|
    ensures i == 0 || i == |z| - 1 ==> r.im == 0.0
  {
    var n := |z|;
    var p := PairCount(|tw|, n);
    if i == 0 then ForwardLow(z[0])
    else if i == n - 1 then ForwardHigh(z[0])
    else if i <= p then ForwardPair(z[i], z[n - 1 - i], tw[i - 1]).0
    else if n - 1 - p <= i then ForwardPair(z[n - 1 - i], z[i], tw[n - 2 - i]).1
    else if n % 2 == 1 && i == n / 2 then ForwardCentre(z[i])
    else z[i]
  }

  /**
   * The whole post-processed buffer. A buffer of fewer than two bins has an empty left half
   * and is left as it is.
   */
  function Unfolded(z: seq<Complex>, tw: seq<Complex>): (r: seq<Complex>)
    ensures |r| == |z|
    ensures |z| >= 2 ==> r[0].im == 0.0 && r[|z| - 1].im == 0.0
  {
    if |z| < 2 then z else seq(|z|, i requires 0 <= i < |z| => UnfoldedAt(z, tw, i))
  }

  /** s is z once the edge bins and the pairs 1..k-1 have been post-processed. */
  ghost predicate UnfoldedUpTo(z: seq<Complex>, tw: seq<Complex>, s: seq<Complex>, k: nat)
    requires 2 <= |z|
  {
    var n := |z|;
    && |s| == n
    && forall i :: 0 <= i < n ==>
         s[i] == if i == 0 || i == n - 1 || i < k || n - 1 - k < i then UnfoldedAt(z, tw, i) else z[i]
  }

  /** One iteration of the pair loop post-processes pair k from the still untouched bins k and N-k. */
  lemma UnfoldStep(z: seq<Complex>, tw: seq<Complex>, s: seq<Complex>, k: nat)
    requires 2 <= |z| && 1 <= k <= PairCount(|tw|, |z|) && UnfoldedUpTo(z, tw, s, k)
    ensures var pair := ForwardPair(s[k], s[|z| - 1 - k], tw[k - 1]);
            UnfoldedUpTo(z, tw, s[k := pair.0][|z| - 1 - k := pair.1], k + 1)
  {
  }

  /** After the loop only the centre bin, when there is one, is left to do. */
  lemma UnfoldFinish(z: seq<Complex>, tw: seq<Complex>, s: seq<Complex>)
    requires 2 <= |z| && UnfoldedUpTo(z, tw, s, PairCount(|tw|, |z|) + 1)
    ensures |z| % 2 == 1 ==> s[|z| / 2 := ForwardCentre(s[|z| / 2])] == Unfolded(z, tw)
    ensures |z| % 2 == 0 ==> s == Unfolded(z, tw)
  {
    var n := |z|;
    var r := if n % 2 == 1 then s[n / 2 := ForwardCentre(s[n / 2])] else s;
    forall i | 0 <= i < n
      ensures r[i] == Unfolded(z, tw)[i]
    {
    }
  }

  // ---------------------------------------------------------------- inverse pre-processing

  /** New bin 0 from the old bins 0 and N. */
  function InverseFirst(a: Complex, b: Complex): (r: Complex)
    ensures a.im == 0.0 && b.im == 0.0 ==> r == Complex(a.re + b.re, a.re - b.re)
  {
    var s := Add(a, b);
    var d := Sub(a, b);
    Complex(s.re - s.im, d.re - d.im)
  }

  /** New values (fft_input, fft_input_rev) of a mirrored pair a = bin k, b = bin N-k. */
  function InversePair(a: Complex, b: Complex, t: Complex): (r: (Complex, Complex))
    ensures r.0.re + r.1.re == 2.0 * (a.re + b.re) && r.0.im - r.1.im == 2.0 * (a.im - b.im)
  {
    var sum := Add(a, b);
    var diff := Sub(a, b);
    var o := Twiddled(sum, diff, t);
    (Complex(sum.re - o.re, diff.im - o.im), Complex(sum.re + o.re, -o.im - diff.im))
  }

  /**
   * The unpaired centre bin is doubled and conjugated. The centre bin N/2 is its own mirror and
   * its conjugated rotation is i, so this is its textbook folding.
   */
  function InverseCentre(c: Complex): (r: Complex)
    ensures r == Refolded(c, c, I)
  {
    Conj(Add(c, c))
  }

  /** Bin i after pre-processing the half-spectrum x with the inverse table tw. */
  function FoldedAt(x: seq<Complex>, tw: seq<Complex>, i: nat): (r: Complex)
    requires 2 <= |x| && i < |x|
    ensures i == |x| - 1 ==> r == x[i]
  {
    var n := |x|;
    var p := PairCount(|tw|, n);
    if i == 0 then InverseFirst(x[0], x[n - 1])
    else if i == n - 1 then x[i]
    else if i <= p then InversePair(x[i], x[n - 1 - i], tw[i - 1]).0
    else if n - 1 - p <= i then InversePair(x[n - 1 - i], x[i], tw[n - 2 - i]).1
    else if n % 2 == 1 && i == n / 2 then InverseCentre(x[i])
    else x[i]
  }

  /** The whole pre-processed half-spectrum; fewer than two bins are left as they are. */
  function Folded(x: seq<Complex>, tw: seq<Complex>): (r: seq<Complex>)
    ensures |r| == |x|
    ensures |x| >= 1 ==> r[|x| - 1] == x[|x| - 1]
  {
    if |x| < 2 then x else seq(|x|, i requires 0 <= i < |x| => FoldedAt(x, tw, i))
  }

  /** s is x once bin 0 and the pairs 1..k-1 have been pre-processed. */
  ghost predicate FoldedUpTo(x: seq<Complex>, tw: seq<Complex>, s: seq<Complex>, k: nat)
    requires 2 <= |x|
  {
    var n := |x|;
    && |s| == n
    && forall i :: 0 <= i < n ==>
         s[i] == if i == 0 || i == n - 1 || i < k || n - 1 - k < i then FoldedAt(x, tw, i) else x[i]
  }

  /** One iteration of the pair loop pre-processes pair k from the still untouched bins k and N-k. */
  lemma FoldStep(x: seq<Complex>, tw: seq<Complex>, s: seq<Complex>, k: nat)
    requires 2 <= |x| && 1 <= k <= PairCount(|tw|, |x|) && FoldedUpTo(x, tw, s, k)
    ensures var pair := InversePair(s[k], s[|x| - 1 - k], tw[k - 1]);
            FoldedUpTo(x, tw, s[k := pair.0][|x| - 1 - k := pair.1], k + 1)
  {
  }

  /** After the loop only the centre bin, when there is one, is left to do. */
  lemma FoldFinish(x: seq<Complex>, tw: seq<Complex>, s: seq<Complex>)
    requires 2 <= |x| && FoldedUpTo(x, tw, s, PairCount(|tw|, |x|) + 1)
    ensures |x| % 2 == 1 ==> s[|x| / 2 := InverseCentre(s[|x| / 2])] == Folded(x, tw)
    ensures |x| % 2 == 0 ==> s == Folded(x, tw)
  {
    var n := |x|;
    var r := if n % 2 == 1 then s[n / 2 := InverseCentre(s[n / 2])] else s;
    forall i | 0 <= i < n
      ensures r[i] == Folded(x, tw)[i]
    {
    }
  }

  // ---------------------------------------------------------------- reference formulas

  /**
   * Textbook recombination of a half-length transform z of packed samples into bin k of the
   * real signal's spectrum: X_k = E_k + w * O_k, with E_k = (z_k + conj z_{N-k}) / 2 the
   * spectrum of the even samples, O_k = (z_k - conj z_{N-k}) / (2i) that of the odd samples,
   * and w the rotation for bin k.
   */
  function Recombined(zk: Complex, zMirror: Complex, w: Complex): Complex {
    var even := Scale(Add(zk, Conj(zMirror)), 0.5);
    var odd := Mul(Complex(0.0, -0.5), Sub(zk, Conj(zMirror)));
    Add(even, Mul(w, odd))
  }

  /**
   * Textbook folding of spectrum bins X_k, X_{N-k} into input k of a half-length inverse
   * transform: Z_k = E_k + i * O_k with E_k = X_k + conj X_{N-k} and
   * O_k = (X_k - conj X_{N-k}) * v, v the conjugated rotation for bin k.
   */
  function Refolded(xk: Complex, xMirror: Complex, v: Complex): Complex {
    var even := Add(xk, Conj(xMirror));
    var odd := Mul(Sub(xk, Conj(xMirror)), v);
    Add(even, Mul(I, odd))
  }

  /**
   * The folding trick of the forward pair loop: one twiddle t = w/2 serves both bins of a pair,
   * because the rotation for the mirror bin N-k is -conj(w).
   */
  lemma ForwardPairIsRecombination(a: Complex, b: Complex, t: Complex)
    ensures ForwardPair(a, b, t).0 == Recombined(a, b, Scale(t, 2.0))
    ensures ForwardPair(a, b, t).1 == Recombined(b, a, Neg(Conj(Scale(t, 2.0))))
  {
    var sum, diff := Add(a, b), Sub(a, b);
    var o := Twiddled(sum, diff, t);
    var odd := Mul(Complex(0.0, -0.5), Sub(a, Conj(b)));
    assert odd == Complex(0.5 * sum.im, -0.5 * diff.re);
    assert Mul(Scale(t, 2.0), odd) == o;
    var oddMirror := Mul(Complex(0.0, -0.5), Sub(b, Conj(a)));
    assert oddMirror == Complex(0.5 * sum.im, 0.5 * diff.re);
    assert Mul(Neg(Conj(Scale(t, 2.0))), oddMirror) == Complex(-o.re, o.im);
  }

  /** The same folding trick for the inverse pair loop, with t the conjugated rotation for bin k. */
  lemma InversePairIsRefolding(a: Complex, b: Complex, t: Complex)
    ensures InversePair(a, b, t).0 == Refolded(a, b, t)
    ensures InversePair(a, b, t).1 == Refolded(b, a, Neg(Conj(t)))
  {
    var sum, diff := Add(a, b), Sub(a, b);
    var o := Twiddled(sum, diff, t);
    var odd := Mul(Sub(a, Conj(b)), t);
    assert Sub(a, Conj(b)) == Complex(diff.re, sum.im);
    assert odd == Complex(-o.im, o.re);
    var oddMirror := Mul(Sub(b, Conj(a)), Neg(Conj(t)));
    assert Sub(b, Conj(a)) == Complex(-diff.re, sum.im);
    assert oddMirror == Complex(-o.im, -o.re);
  }

  /**
   * w holds the ideal rotations for bins 0..N of a length-2N real transform,
   * w[k] = e^{-2 pi i k / 2N}, as far as the repacker relies on them: w[0] = 1, w[N] = -1,
   * w[N/2] = -i when N is even, and w[N-k] = -conj(w[k]).
   */
  ghost predicate IdealRotations(w: seq<Complex>)
  {
    var n := |w|;
    && n >= 2 && w[0] == One && w[n - 1] == Neg(One)
    && (n % 2 == 1 ==> w[n / 2] == Complex(0.0, -1.0))
    && (forall k :: 1 <= k < n / 2 ==> w[n - 1 - k] == Neg(Conj(w[k])))
  }

  /** The forward table holds w[k]/2 for every paired bin k (the source scales each entry by one half). */
  ghost predicate IdealForwardTable(tw: seq<Complex>, w: seq<Complex>)
  {
    && IdealRotations(w) && |tw| >= |w| / 2 - 1
    && (forall k :: 1 <= k < |w| / 2 ==> tw[k - 1] == Scale(w[k], 0.5))
  }

  /** The inverse table holds conj(w[k]) for every paired bin k. */
  ghost predicate IdealInverseTable(tw: seq<Complex>, w: seq<Complex>)
  {
    && IdealRotations(w) && |tw| >= |w| / 2 - 1
    && (forall k :: 1 <= k < |w| / 2 ==> tw[k - 1] == Conj(w[k]))
  }

  /** The table the forward constructor builds from ideal rotations meets IdealForwardTable. */
  lemma ForwardTableIsIdeal(length: nat, rotation: (nat, nat) -> Complex, w: seq<Complex>)
    requires length % 2 == 0 && |w| == length / 2 + 1 && IdealRotations(w)
    requires forall k :: 1 <= k < |w| / 2 ==> w[k] == rotation(k, length)
    ensures IdealForwardTable(ForwardTable(length, rotation), w)
  {
    TableMatchesPairs(length);
  }

  /** The table the inverse constructor builds from ideal rotations meets IdealInverseTable. */
  lemma InverseTableIsIdeal(length: nat, rotation: (nat, nat) -> Complex, w: seq<Complex>)
    requires length % 2 == 0 && |w| == length / 2 + 1 && IdealRotations(w)
    requires forall k :: 1 <= k < |w| / 2 ==> w[k] == rotation(k, length)
    ensures IdealInverseTable(InverseTable(length, rotation), w)
  {
    TableMatchesPairs(length);
  }

  /** Bin k of the half-length transform z taken with period N = |z|-1: bin N is bin 0 again. */
  function Periodic(z: seq<Complex>, k: nat): Complex
    requires 2 <= |z| && k < |z|
  {
    if k == |z| - 1 then z[0] else z[k]
  }

  /** Bins 0 and N need no twiddle: they are the recombinations with rotations 1 and -1. */
  lemma ForwardEdgesAreRecombination(v: Complex)
    ensures ForwardLow(v) == Recombined(v, v, One)
    ensures ForwardHigh(v) == Recombined(v, v, Neg(One))
  {
  }

  /** One bin of the forward post-processing, case by case: edges, pairs, their mirrors, centre. */
  lemma UnfoldedAtIsRecombination(z: seq<Complex>, tw: seq<Complex>, w: seq<Complex>, k: nat)
    requires IdealForwardTable(tw, w) && |w| == |z| && k < |z|
    ensures UnfoldedAt(z, tw, k) == Recombined(Periodic(z, k), Periodic(z, |z| - 1 - k), w[k])
  {
    var n := |z|;
    var p := PairCount(|tw|, n);
    assert p == n / 2 - 1;
    if k == 0 || k == n - 1 {
      ForwardEdgesAreRecombination(z[0]);
    } else if k <= p {
      ForwardPairIsRecombination(z[k], z[n - 1 - k], tw[k - 1]);
      assert Scale(tw[k - 1], 2.0) == w[k];
    } else if n - 1 - p <= k {
      var j := n - 1 - k;
      ForwardPairIsRecombination(z[j], z[k], tw[j - 1]);
      assert Scale(tw[j - 1], 2.0) == w[j];
    } else {
      assert n % 2 == 1 && k == n / 2;
    }
  }

  /**
   * With an ideal table, forward post-processing produces, for every bin k of 0..N, the
   * textbook recombination of the half-length transform z (taken with period N, so bin N reads
   * z_0 again and the stale entry z[N] is ignored).
   */
  lemma {:induction false} UnfoldedIsRecombination(z: seq<Complex>, tw: seq<Complex>, w: seq<Complex>)
    requires IdealForwardTable(tw, w) && |w| == |z|
    ensures forall k :: 0 <= k < |z| ==>
      Unfolded(z, tw)[k] == Recombined(Periodic(z, k), Periodic(z, |z| - 1 - k), w[k])
  {
    forall k | 0 <= k < |z|
      ensures Unfolded(z, tw)[k] == Recombined(Periodic(z, k), Periodic(z, |z| - 1 - k), w[k])
    {
      UnfoldedAtIsRecombination(z, tw, w, k);
    }
  }

  /** Input 0 combines the real bins 0 and N with rotation 1. */
  lemma InverseFirstIsRefolding(a: Complex, b: Complex)
    requires a.im == 0.0 && b.im == 0.0
    ensures InverseFirst(a, b) == Refolded(a, b, One)
  {
  }

  /** One input of the inverse pre-processing, case by case: bin 0, pairs, their mirrors, centre. */
  lemma FoldedAtIsRefolding(x: seq<Complex>, tw: seq<Complex>, w: seq<Complex>, k: nat)
    requires IdealInverseTable(tw, w) && |w| == |x| && k < |x| - 1
    requires x[0].im == 0.0 && x[|x| - 1].im == 0.0
    ensures FoldedAt(x, tw, k) == Refolded(x[k], x[|x| - 1 - k], Conj(w[k]))
  {
    var n := |x|;
    var p := PairCount(|tw|, n);
    assert p == n / 2 - 1;
    if k == 0 {
      InverseFirstIsRefolding(x[0], x[n - 1]);
    } else if k <= p {
      InversePairIsRefolding(x[k], x[n - 1 - k], tw[k - 1]);
    } else if n - 1 - p <= k {
      var j := n - 1 - k;
      InversePairIsRefolding(x[j], x[k], tw[j - 1]);
      assert tw[j - 1] == Conj(w[j]) && w[n - 1 - j] == Neg(Conj(w[j]));
    } else {
      assert n % 2 == 1 && k == n / 2;
    }
  }

  /**
   * With an ideal table and a half-spectrum whose bins 0 and N are real (the DC and Nyquist
   * bins of a real signal), inverse pre-processing produces, for every input k of 0..N-1 of
   * the half-length inverse transform, the textbook folding of bins k and N-k with the
   * conjugated rotation.
   */
  lemma {:induction false} FoldedIsRefolding(x: seq<Complex>, tw: seq<Complex>, w: seq<Complex>)
    requires IdealInverseTable(tw, w) && |w| == |x|
    requires x[0].im == 0.0 && x[|x| - 1].im == 0.0
    ensures forall k :: 0 <= k < |x| - 1 ==> Folded(x, tw)[k] == Refolded(x[k], x[|x| - 1 - k], Conj(w[k]))
  {
    forall k | 0 <= k < |x| - 1
      ensures Folded(x, tw)[k] == Refolded(x[k], x[|x| - 1 - k], Conj(w[k]))
    {
      FoldedAtIsRefolding(x, tw, w, k);
    }
  }

  /**
   * End to end for the forward direction: with the table the forward constructor builds from
   * ideal rotations, post-processing any half-length transform z yields the textbook
   * recombination in every bin 0..N.
   */
  lemma {:induction false} ForwardTableRecombines(length: nat, rotation: (nat, nat) -> Complex, w: seq<Complex>, z: seq<Complex>)
    requires length % 2 == 0 && |w| == length / 2 + 1 && IdealRotations(w)
    requires forall k :: 1 <= k < |w| / 2 ==> w[k] == rotation(k, length)
    requires |z| == |w|
    ensures forall k :: 0 <= k < |z| ==>
      Unfolded(z, ForwardTable(length, rotation))[k] == Recombined(Periodic(z, k), Periodic(z, |z| - 1 - k), w[k])
  {
    ForwardTableIsIdeal(length, rotation, w);
    UnfoldedIsRecombination(z, ForwardTable(length, rotation), w);
  }

  /**
   * End to end for the inverse direction: with the table the inverse constructor builds from
   * ideal rotations, pre-processing a half-spectrum with real DC and Nyquist bins yields the
   * textbook folding in every input 0..N-1 of the half-length inverse transform.
   */
  lemma {:induction false} InverseTableRefolds(length: nat, rotation: (nat, nat) -> Complex, w: seq<Complex>, x: seq<Complex>)
    requires length % 2 == 0 && |w| == length / 2 + 1 && IdealRotations(w)
    requires forall k :: 1 <= k < |w| / 2 ==> w[k] == rotation(k, length)
    requires |x| == |w| && x[0].im == 0.0 && x[|x| - 1].im == 0.0
    ensures forall k :: 0 <= k < |x| - 1 ==>
      Folded(x, InverseTable(length, rotation))[k] == Refolded(x[k], x[|x| - 1 - k], Conj(w[k]))
  {
    InverseTableIsIdeal(length, rotation, w);
    FoldedIsRefolding(x, InverseTable(length, rotation), w);
  }
}
