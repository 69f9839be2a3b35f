/**
 * The ways the repacker moves between real and complex buffers: the aliased view of a real
 * buffer as complex pairs, zero extension, taking real parts, and Hermitian extension of a
 * half-spectrum.
 */
module Views {
  import opened ComplexArith

  /** A real buffer seen as complex pairs: entry j is (x[2j], x[2j+1]). */
  function Pack(x: seq<real>): (z: seq<Complex>)
    ensures |z| == |x| / 2
  {
    seq(|x| / 2, j requires 0 <= j < |x| / 2 => Complex(x[2 * j], x[2 * j + 1]))
  }

  /** A complex buffer written through the aliased view: entry j lands in x[2j] and x[2j+1]. */
  function Unpack(z: seq<Complex>): (x: seq<real>)
    ensures |x| == 2 * |z|
  {
    seq(2 * |z|, i requires 0 <= i < 2 * |z| => if i % 2 == 0 then z[i / 2].re else z[i / 2].im)
  }

  lemma {:induction false} UnpackPack(x: seq<real>)
    requires |x| % 2 == 0
    ensures Unpack(Pack(x)) == x
  {
    var y := Unpack(Pack(x));
    forall i | 0 <= i < |x|
      ensures y[i] == x[i]
    {
      if i % 2 == 0 {
        assert 2 * (i / 2) == i;
      } else {
        assert 2 * (i / 2) + 1 == i;
      }
    }
  }

  lemma {:induction false} PackUnpack(z: seq<Complex>)
    ensures Pack(Unpack(z)) == z
  {
    var y := Pack(Unpack(z));
    forall j | 0 <= j < |z|
      ensures y[j] == z[j]
    {
      assert (2 * j) / 2 == j && (2 * j + 1) / 2 == j;
      assert (2 * j) % 2 == 0 && (2 * j + 1) % 2 == 1;
    }
  }

  /** Zero extension of real samples into complex values: `Complex::new(x, 0)`. */
  function ToComplex(x: seq<real>): (z: seq<Complex>)
    ensures |z| == |x|
  {
    seq(|x|, i requires 0 <= i < |x| => Complex(x[i], 0.0))
  }

  /** The real component of every bin. */
  function RealParts(z: seq<Complex>): (x: seq<real>)
    ensures |x| == |z|
  {
    seq(|z|, i requires 0 <= i < |z| => z[i].re)
  }

  lemma RealPartsOfToComplex(x: seq<real>)
    ensures RealParts(ToComplex(x)) == x
  {
  }

  /** A full spectrum of length n is Hermitian when bin n-k is the conjugate of bin k. */
  ghost predicate Hermitian(s: seq<Complex>)
  {
    forall k :: 1 <= k < |s| ==> s[|s| - k] == Conj(s[k])
  }

  /**
   * The full length-n spectrum rebuilt from its first n/2+1 bins: bins 0..n/2 are copied,
   * bin n-j is the conjugate of bin j for 1 <= j <= n/2.
   */
  function HermitianExtension(h: seq<Complex>, n: nat): (s: seq<Complex>)
    requires n % 2 == 1 && |h| == n / 2 + 1
    ensures |s| == n
  {
    seq(n, i requires 0 <= i < n => if i <= n / 2 then h[i] else Conj(h[n - i]))
  }

  /** The extension keeps the half-spectrum as its prefix and is Hermitian. */
  lemma {:induction false} HermitianExtensionIsHermitian(h: seq<Complex>, n: nat)
    requires n % 2 == 1 && |h| == n / 2 + 1
    ensures HermitianExtension(h, n)[..n / 2 + 1] == h
    ensures Hermitian(HermitianExtension(h, n))
  {
    var s := HermitianExtension(h, n);
    forall k | 1 <= k < n
      ensures s[n - k] == Conj(s[k])
    {
      if k <= n / 2 {
        assert s[n - k] == Conj(h[k]);
      } else {
        assert s[k] == Conj(h[n - k]);
      }
    }
  }

  /** A Hermitian spectrum of odd length is determined by its first n/2+1 bins. */
  lemma {:induction false} HermitianExtensionOfTruncation(s: seq<Complex>)
    requires |s| % 2 == 1 && Hermitian(s)
    ensures HermitianExtension(s[..|s| / 2 + 1], |s|) == s
  {
    var n := |s|;
    var t := HermitianExtension(s[..n / 2 + 1], n);
    forall i | 0 <= i < n
      ensures t[i] == s[i]
    {
      if i > n / 2 {
        assert s[n - (n - i)] == Conj(s[n - i]);
      }
    }
  }
}
