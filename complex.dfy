/** Complex numbers over exact reals: the `Complex<T>` values the repacker reads and writes. */
module ComplexArith {

  /** A complex value as a (re, im) pair. */
  datatype Complex = Complex(re: real, im: real)

  const Zero := Complex(0.0, 0.0)
  const One := Complex(1.0, 0.0)
  const I := Complex(0.0, 1.0)

  function Add(a: Complex, b: Complex): Complex {
    Complex(a.re + b.re, a.im + b.im)
  }

  function Sub(a: Complex, b: Complex): Complex {
    Complex(a.re - b.re, a.im - b.im)
  }

  function Neg(a: Complex): Complex {
    Complex(-a.re, -a.im)
  }

  function Mul(a: Complex, b: Complex): Complex {
    Complex(a.re * b.re - a.im * b.im, a.re * b.im + a.im * b.re)
  }

  /** A complex value times a real scalar (`Complex<T> * T`). */
  function Scale(a: Complex, s: real): Complex {
    Complex(a.re * s, a.im * s)
  }

  function Conj(a: Complex): Complex {
    Complex(a.re, -a.im)
  }
}
