/** Complex numbers over exact reals, with the ring facts the transforms need. */
module ComplexNumbers {

  datatype Complex = Complex(re: real, im: real)

  const ZERO := Complex(0.0, 0.0)
  const ONE := Complex(1.0, 0.0)

  function Add(a: Complex, b: Complex): Complex { Complex(a.re + b.re, a.im + b.im) }

  function Sub(a: Complex, b: Complex): Complex { Complex(a.re - b.re, a.im - b.im) }

  function Neg(a: Complex): Complex { Complex(-a.re, -a.im) }

  function Mul(a: Complex, b: Complex): Complex {
    Complex(a.re * b.re - a.im * b.im, a.re * b.im + a.im * b.re)
  }

  function Scale(c: real, a: Complex): Complex { Complex(c * a.re, c * a.im) }

  function Pow(x: Complex, e: nat): Complex {
    if e == 0 then ONE else Mul(x, Pow(x, e - 1))
  }

  lemma MulComm(a: Complex, b: Complex)
    ensures Mul(a, b) == Mul(b, a)
  {}

  lemma MulAssoc(a: Complex, b: Complex, c: Complex)
    ensures Mul(Mul(a, b), c) == Mul(a, Mul(b, c))
  {}

  lemma MulAdd(a: Complex, b: Complex, c: Complex)
    ensures Mul(a, Add(b, c)) == Add(Mul(a, b), Mul(a, c))
    ensures Mul(a, Sub(b, c)) == Sub(Mul(a, b), Mul(a, c))
  {
    MulPlus(a, b, c);
    MulMinus(a, b, c);
    hide Mul, Add, Sub;
  }

  lemma MulPlus(a: Complex, b: Complex, c: Complex)
    ensures Mul(a, Add(b, c)) == Add(Mul(a, b), Mul(a, c))
  {}

  lemma MulMinus(a: Complex, b: Complex, c: Complex)
    ensures Mul(a, Sub(b, c)) == Sub(Mul(a, b), Mul(a, c))
  {}

  lemma MulNeg(a: Complex, b: Complex)
    ensures Mul(Neg(a), b) == Neg(Mul(a, b)) == Mul(a, Neg(b))
  {}

  lemma MulScale(c: real, a: Complex, b: Complex)
    ensures Mul(a, Scale(c, b)) == Scale(c, Mul(a, b))
  {}

  lemma MulOne(a: Complex)
    ensures Mul(ONE, a) == a == Mul(a, ONE)
    ensures Mul(a, ZERO) == ZERO
  {}

  /** Exchanges the middle factors of a product of products. */
  lemma MulSwap(a: Complex, b: Complex, c: Complex, d: Complex)
    ensures Mul(Mul(a, b), Mul(c, d)) == Mul(Mul(a, c), Mul(b, d))
  {
    MulAssoc(a, b, Mul(c, d));
    MulAssoc(b, c, d);
    MulComm(b, c);
    MulAssoc(c, b, d);
    MulAssoc(a, c, Mul(b, d));
    hide Mul;
  }

  lemma {:induction false} PowAdd(x: Complex, e: nat, f: nat)
    ensures Pow(x, e + f) == Mul(Pow(x, e), Pow(x, f))
  {
    if e == 0 {
      MulOne(Pow(x, f));
    } else {
      PowAdd(x, e - 1, f);
      MulAssoc(x, Pow(x, e - 1), Pow(x, f));
      hide Mul;
    }
  }

  lemma {:induction false} PowMul(x: Complex, y: Complex, e: nat)
    ensures Pow(Mul(x, y), e) == Mul(Pow(x, e), Pow(y, e))
  {
    if e == 0 {
      MulOne(ONE);
    } else {
      PowMul(x, y, e - 1);
      MulSwap(x, y, Pow(x, e - 1), Pow(y, e - 1));
      hide Mul;
    }
  }

  lemma {:induction false} PowPow(x: Complex, e: nat, f: nat)
    ensures Pow(Pow(x, e), f) == Pow(x, e * f)
  {
    hide Mul;
    if f == 0 {
    } else {
      PowPow(x, e, f - 1);
      PowAdd(x, e, e * (f - 1));
      assert e + e * (f - 1) == e * f;
    }
  }

  lemma {:induction false} PowOfOne(e: nat)
    ensures Pow(ONE, e) == ONE
  {
    hide Mul;
    if e > 0 {
      PowOfOne(e - 1);
      MulOne(ONE);
    }
  }
}
