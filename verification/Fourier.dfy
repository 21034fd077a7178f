/**
  The discrete Fourier transform as a mathematical object: DFT sums, their
  even/odd and low/high splittings, and the inversion theorem.
 */
module Fourier {
  import opened ComplexNumbers

  /** The sum of s[j] * w^(j*k) over j < m. */
  function DirectSum(s: seq<Complex>, w: Complex, k: nat, m: nat): Complex
    requires m <= |s|
  {
    if m == 0 then ZERO
    else Add(DirectSum(s, w, k, m - 1), Mul(s[m - 1], Pow(w, (m - 1) * k)))
  }

  /** The DFT of s with root w: entry k is the direct sum over all of s. */
  function Dft(s: seq<Complex>, w: Complex): (r: seq<Complex>)
    ensures |r| == |s|
  {
    seq(|s|, k requires 0 <= k < |s| => DirectSum(s, w, k, |s|))
  }

  ghost predicate IsPow2(n: nat) {
    n == 1 || (n > 0 && n % 2 == 0 && IsPow2(n / 2))
  }

  /** What makes w a principal n-th root for a power of two n. */
  ghost predicate IsRoot(w: Complex, n: nat) {
    n == 1 || (n > 0 && n % 2 == 0 && Pow(w, n / 2) == Neg(ONE))
  }

  function Evens(s: seq<Complex>): (r: seq<Complex>)
    ensures |r| == |s| / 2
  {
    seq(|s| / 2, k requires 0 <= k < |s| / 2 => s[2 * k])
  }

  function Odds(s: seq<Complex>): (r: seq<Complex>)
    ensures |r| == |s| / 2
  {
    seq(|s| / 2, k requires 0 <= k < |s| / 2 => s[2 * k + 1])
  }

  // ----- polynomial evaluation -----

  /** The polynomial with coefficients s, evaluated at x by Horner's rule. */
  function Eval(s: seq<Complex>, x: Complex): Complex {
    if s == [] then ZERO else Add(s[0], Mul(x, Eval(s[1..], x)))
  }

  lemma {:induction false} EvalAppend(s: seq<Complex>, t: seq<Complex>, x: Complex)
    ensures Eval(s + t, x) == Add(Eval(s, x), Mul(Pow(x, |s|), Eval(t, x)))
  {
    if s == [] {
      assert s + t == t;
      MulOne(Eval(t, x));
    } else {
      assert (s + t)[1..] == s[1..] + t;
      EvalAppend(s[1..], t, x);
      MulAdd(x, Eval(s[1..], x), Mul(Pow(x, |s| - 1), Eval(t, x)));
      MulAssoc(x, Pow(x, |s| - 1), Eval(t, x));
    }
    hide Mul;
  }

  /** The direct sum is the polynomial at w^k. */
  lemma {:induction false} DirectSumIsEval(s: seq<Complex>, w: Complex, k: nat, m: nat)
    requires m <= |s|
    ensures DirectSum(s, w, k, m) == Eval(s[..m], Pow(w, k))
  {
    hide Mul;
    if m > 0 {
      var x := Pow(w, k);
      DirectSumIsEval(s, w, k, m - 1);
      assert s[..m] == s[..m - 1] + [s[m - 1]];
      EvalAppend(s[..m - 1], [s[m - 1]], x);
      EvalSingle(s[m - 1], x);
      PowPow(w, k, m - 1);
      assert k * (m - 1) == (m - 1) * k;
      MulComm(s[m - 1], Pow(w, (m - 1) * k));
    }
  }

  lemma EvalSingle(c: Complex, x: Complex)
    ensures Eval([c], x) == c
  {
    assert [c][1..] == [];
    MulOne(x);
    hide Mul;
  }

  lemma DftIsEval(s: seq<Complex>, w: Complex, k: nat)
    requires k < |s|
    ensures Dft(s, w)[k] == Eval(s, Pow(w, k))
  {
    DirectSumIsEval(s, w, k, |s|);
    assert s[..|s|] == s;
  }

  /** a + x*(b + x*(p + x*q)) regrouped by even and odd powers of x. */
  lemma RegroupParity(a: Complex, b: Complex, p: Complex, q: Complex, x: Complex)
    ensures Add(a, Mul(x, Add(b, Mul(x, Add(p, Mul(x, q))))))
         == Add(Add(a, Mul(Mul(x, x), p)), Mul(x, Add(b, Mul(Mul(x, x), q))))
  {
    hide Mul;
    var xq := Mul(x, q);
    MulAdd(x, p, xq);
    MulAdd(x, b, Add(Mul(x, p), Mul(x, xq)));
    MulAdd(x, Mul(x, p), Mul(x, xq));
    MulAssoc(x, x, p);
    MulAssoc(x, x, q);
    MulAdd(x, b, Mul(Mul(x, x), q));
  }

  /** Splitting a polynomial into its even and odd coefficients. */
  lemma {:induction false} EvalEvenOdd(s: seq<Complex>, x: Complex)
    requires |s| % 2 == 0
    ensures Eval(s, x) == Add(Eval(Evens(s), Mul(x, x)), Mul(x, Eval(Odds(s), Mul(x, x))))
  {
    hide Mul, Add, Eval, Evens, Odds;
    if s == [] {
      EvalNothing(x);
      EvalNothing(Mul(x, x));
    } else {
      var t, xx := s[2..], Mul(x, x);
      EvalEvenOdd(t, x);
      EvalTwo(s, x);
      EvensOddsRest(s);
      EvalStep(Evens(s), Evens(t), xx);
      EvalStep(Odds(s), Odds(t), xx);
      RegroupParity(s[0], s[1], Eval(Evens(t), xx), Eval(Odds(t), xx), x);
    }
  }

  lemma EvalNothing(x: Complex)
    ensures Eval([], x) == ZERO && Evens([]) == Odds([]) == [] && Add(ZERO, Mul(x, ZERO)) == ZERO
  {
    MulOne(x);
  }

  lemma EvalTwo(s: seq<Complex>, x: Complex)
    requires |s| >= 2
    ensures Eval(s, x) == Add(s[0], Mul(x, Add(s[1], Mul(x, Eval(s[2..], x)))))
  {
    hide Mul, Add;
    assert s[1..][1..] == s[2..];
  }

  lemma EvensOddsRest(s: seq<Complex>)
    requires |s| >= 2 && |s| % 2 == 0
    ensures Evens(s)[1..] == Evens(s[2..]) && Evens(s)[0] == s[0]
    ensures Odds(s)[1..] == Odds(s[2..]) && Odds(s)[0] == s[1]
  {}

  lemma EvalStep(s: seq<Complex>, t: seq<Complex>, x: Complex)
    requires s != [] && s[1..] == t
    ensures Eval(s, x) == Add(s[0], Mul(x, Eval(t, x)))
  {}

  lemma {:induction false} EvalLinear(s: seq<Complex>, t: seq<Complex>, u: seq<Complex>, x: Complex)
    requires |s| == |t| == |u|
    requires forall i :: 0 <= i < |s| ==> u[i] == Add(s[i], t[i])
    ensures Eval(u, x) == Add(Eval(s, x), Eval(t, x))
  {
    hide Mul;
    if s != [] {
      EvalLinear(s[1..], t[1..], u[1..], x);
      MulAdd(x, Eval(s[1..], x), Eval(t[1..], x));
    } else {
      assert Eval(u, x) == Eval(s, x) == Eval(t, x) == ZERO;
    }
  }

  lemma {:induction false} EvalNeg(s: seq<Complex>, u: seq<Complex>, x: Complex)
    requires |s| == |u|
    requires forall i :: 0 <= i < |s| ==> u[i] == Neg(s[i])
    ensures Eval(u, x) == Neg(Eval(s, x))
  {
    hide Mul;
    if s != [] {
      EvalNeg(s[1..], u[1..], x);
      MulNeg(x, Eval(s[1..], x));
    }
  }

  /** Multiplying coefficient i by c*w^i moves the evaluation point from x to w*x. */
  lemma {:induction false} EvalTwist(s: seq<Complex>, u: seq<Complex>, c: Complex, w: Complex, x: Complex)
    requires |s| == |u|
    requires forall i :: 0 <= i < |s| ==> u[i] == Mul(Mul(c, Pow(w, i)), s[i])
    ensures Eval(u, x) == Mul(c, Eval(s, Mul(w, x)))
  {
    hide Mul;
    if s == [] {
      MulOne(c);
    } else {
      forall i | 0 <= i < |s| - 1
        ensures u[1..][i] == Mul(Mul(Mul(c, w), Pow(w, i)), s[1..][i])
      {
        MulAssoc(c, w, Pow(w, i));
      }
      EvalTwist(s[1..], u[1..], Mul(c, w), w, x);
      var e := Eval(s[1..], Mul(w, x));
      MulOne(c);
      MulAdd(c, s[0], Mul(Mul(w, x), e));
      MulAssoc(x, Mul(c, w), e);
      MulComm(x, Mul(c, w));
      MulAssoc(c, w, x);
      MulAssoc(c, Mul(w, x), e);
    }
  }

  // ----- splitting the transform -----

  /** Low half plus high half. */
  function HalfSum(s: seq<Complex>): (r: seq<Complex>)
    ensures |r| == |s| / 2
  {
    seq(|s| / 2, i requires 0 <= i < |s| / 2 => Add(s[i], s[i + |s| / 2]))
  }

  /** Low half minus high half. */
  function HalfDiff(s: seq<Complex>): (r: seq<Complex>)
    ensures |r| == |s| / 2
  {
    seq(|s| / 2, i requires 0 <= i < |s| / 2 => Sub(s[i], s[i + |s| / 2]))
  }

  /** Entry i multiplied by w^i. */
  function Twist(s: seq<Complex>, w: Complex): (r: seq<Complex>)
    ensures |r| == |s|
  {
    seq(|s|, i requires 0 <= i < |s| => Mul(Pow(w, i), s[i]))
  }

  lemma RootSquared(w: Complex, n: nat)
    requires n % 2 == 0 && IsPow2(n) && IsRoot(w, n)
    ensures IsRoot(Mul(w, w), n / 2)
    ensures Pow(w, n) == ONE
  {
    MinusOneSquared();
    hide Mul, Pow;
    var h := n / 2;
    PowAdd(w, h, h);
    if h > 1 {
      SquareIsPow(w);
      PowPow(w, 2, h / 2);
      assert 2 * (h / 2) == h;
    }
  }

  lemma MinusOneSquared()
    ensures Mul(Neg(ONE), Neg(ONE)) == ONE
  {}

  lemma SquareIsPow(w: Complex)
    ensures Mul(w, w) == Pow(w, 2)
  {
    MulOne(w);
    hide Mul;
    assert Pow(w, 2) == Mul(w, Pow(w, 1));
    assert Pow(w, 1) == Mul(w, Pow(w, 0));
  }

  /** (w^k)^2 == (w^2)^k == w^(2k). */
  lemma SquareOfPow(w: Complex, k: nat)
    ensures Mul(Pow(w, k), Pow(w, k)) == Pow(Mul(w, w), k) == Pow(w, 2 * k)
  {
    hide Mul;
    PowMul(w, w, k);
    PowAdd(w, k, k);
  }

  /** Decimation in time: one butterfly of the transform. */
  lemma DftButterfly(s: seq<Complex>, w: Complex, k: nat)
    requires |s| % 2 == 0 && IsPow2(|s|) && IsRoot(w, |s|) && k < |s| / 2
    ensures var e, o := Dft(Evens(s), Mul(w, w)), Dft(Odds(s), Mul(w, w));
            && Dft(s, w)[k] == Add(e[k], Mul(Pow(w, k), o[k]))
            && Dft(s, w)[k + |s| / 2] == Sub(e[k], Mul(Pow(w, k), o[k]))
  {
    hide Mul;
    var h, x, ww := |s| / 2, Pow(w, k), Mul(w, w);
    var y := Pow(w, k + h);
    PowAdd(w, k, h);
    MulNeg(x, ONE);
    MulOne(x);
    assert y == Neg(x);
    MulNeg(x, x);
    MulNeg(x, Neg(x));
    assert Mul(y, y) == Mul(x, x);
    SquareOfPow(w, k);
    DftIsEval(s, w, k);
    DftIsEval(s, w, k + h);
    DftIsEval(Evens(s), ww, k);
    DftIsEval(Odds(s), ww, k);
    EvalEvenOdd(s, x);
    EvalEvenOdd(s, y);
    MulNeg(x, Eval(Odds(s), Mul(x, x)));
  }

  /** Decimation in frequency: the even and odd outputs are transforms of half-length inputs. */
  lemma DftEvenOddOutputs(s: seq<Complex>, w: Complex)
    requires |s| % 2 == 0 && IsPow2(|s|) && IsRoot(w, |s|)
    ensures Evens(Dft(s, w)) == Dft(HalfSum(s), Mul(w, w))
    ensures Odds(Dft(s, w)) == Dft(Twist(HalfDiff(s), w), Mul(w, w))
  {
    hide Mul, Add, Pow, DirectSum, Dft, HalfSum, HalfDiff, Twist;
    var f, ww := Dft(s, w), Mul(w, w);
    forall k | 0 <= k < |s| / 2 ensures Evens(f)[k] == Dft(HalfSum(s), ww)[k] {
      DftEvenOutput(s, w, k);
    }
    forall k | 0 <= k < |s| / 2 ensures Odds(f)[k] == Dft(Twist(HalfDiff(s), w), ww)[k] {
      DftOddOutput(s, w, k);
    }
  }

  lemma DftEvenOutput(s: seq<Complex>, w: Complex, k: nat)
    requires |s| % 2 == 0 && IsPow2(|s|) && IsRoot(w, |s|) && k < |s| / 2
    ensures Dft(s, w)[2 * k] == Dft(HalfSum(s), Mul(w, w))[k]
  {
    hide Mul, Pow, Eval, DirectSum;
    var h, x := |s| / 2, Pow(w, 2 * k);
    SquareOfPow(w, k);
    DftIsEval(s, w, 2 * k);
    DftIsEval(HalfSum(s), Mul(w, w), k);
    assert s == s[..h] + s[h..];
    EvalAppend(s[..h], s[h..], x);
    EvenPowerOfRoot(w, |s|, k);
    MulOne(Eval(s[h..], x));
    EvalLinear(s[..h], s[h..], HalfSum(s), x);
  }

  /** Where x^h is -1, a polynomial is the one of its half differences. */
  lemma EvalHalves(s: seq<Complex>, x: Complex)
    requires |s| % 2 == 0 && Pow(x, |s| / 2) == Neg(ONE)
    ensures Eval(s, x) == Eval(HalfDiff(s), x)
  {
    hide Mul, Pow, Eval;
    var h := |s| / 2;
    var lo, hi := s[..h], s[h..];
    assert s == lo + hi;
    EvalAppend(lo, hi, x);
    MulNeg(ONE, Eval(hi, x));
    MulOne(Eval(hi, x));
    EvalSub(lo, hi, HalfDiff(s), x);
  }

  /** Twisting the coefficients scales the argument. */
  lemma EvalTwisted(d: seq<Complex>, w: Complex, y: Complex)
    ensures Eval(Twist(d, w), y) == Eval(d, Mul(w, y))
  {
    hide Mul, Pow, Eval;
    forall i | 0 <= i < |d| ensures Twist(d, w)[i] == Mul(Mul(ONE, Pow(w, i)), d[i]) {
      MulOne(Pow(w, i));
    }
    EvalTwist(d, Twist(d, w), ONE, w, y);
    MulOne(Eval(d, Mul(w, y)));
  }

  lemma DftOddOutput(s: seq<Complex>, w: Complex, k: nat)
    requires |s| % 2 == 0 && IsPow2(|s|) && IsRoot(w, |s|) && k < |s| / 2
    ensures Dft(s, w)[2 * k + 1] == Dft(Twist(HalfDiff(s), w), Mul(w, w))[k]
  {
    hide Mul, Pow, Eval, DirectSum, Dft, Twist, HalfDiff, IsPow2;
    OddPowerIsTwisted(w, k);
    OddPowerOfRoot(w, |s| / 2, k);
    DftIsEval(s, w, 2 * k + 1);
    DftIsEval(Twist(HalfDiff(s), w), Mul(w, w), k);
    EvalHalves(s, Pow(w, 2 * k + 1));
    EvalTwisted(HalfDiff(s), w, Pow(Mul(w, w), k));
  }

  lemma EvalSub(s: seq<Complex>, t: seq<Complex>, u: seq<Complex>, x: Complex)
    requires |s| == |t| == |u|
    requires forall i :: 0 <= i < |s| ==> u[i] == Sub(s[i], t[i])
    ensures Eval(u, x) == Sub(Eval(s, x), Eval(t, x))
  {
    hide Mul, Eval;
    var neg := seq(|t|, i requires 0 <= i < |t| => Neg(t[i]));
    EvalNeg(t, neg, x);
    EvalLinear(s, neg, u, x);
  }

  /** w^(2k+1) == w * (w^2)^k. */
  lemma OddPowerIsTwisted(w: Complex, k: nat)
    ensures Pow(w, 2 * k + 1) == Mul(w, Pow(Mul(w, w), k))
  {
    hide Mul;
    SquareOfPow(w, k);
  }

  /** (w^(2k))^(n/2) == 1 when w is a root of order n. */
  lemma EvenPowerOfRoot(w: Complex, n: nat, k: nat)
    requires n % 2 == 0 && IsPow2(n) && IsRoot(w, n)
    ensures Pow(Pow(w, 2 * k), n / 2) == ONE
  {
    hide Mul, Pow;
    var h := n / 2;
    RootSquared(w, n);
    PowPow(w, n, k);
    PowPow(w, 2 * k, h);
    assert 2 * k * h == 2 * h * k;
    PowOfOne(k);
  }

  /** (w^(2k+1))^h == -1 when w^h == -1. */
  lemma OddPowerOfRoot(w: Complex, h: nat, k: nat)
    requires Pow(w, h) == Neg(ONE)
    ensures Pow(Pow(w, 2 * k + 1), h) == Neg(ONE)
  {
    MinusOneSquared();
    MulOne(Neg(ONE));
    hide Mul, Pow;
    PowAdd(w, h, h);
    PowPow(w, 2 * k + 1, h);
    assert (2 * k + 1) * h == 2 * h * k + h;
    PowAdd(w, 2 * h * k, h);
    PowPow(w, 2 * h, k);
    PowOfOne(k);
  }

  /**
    The inversion theorem: transforming with w and then with its inverse wi
    multiplies every entry by the length.
   */
  lemma {:induction false} Inversion(s: seq<Complex>, w: Complex, wi: Complex)
    requires IsPow2(|s|) && IsRoot(w, |s|) && IsRoot(wi, |s|) && Mul(w, wi) == ONE
    ensures forall i :: 0 <= i < |s| ==> Dft(Dft(s, w), wi)[i] == Scale(|s| as real, s[i])
    decreases |s|
  {
    hide Mul, Pow, DirectSum;
    if |s| == 1 {
      SingletonDft(s, w);
      SingletonDft(Dft(s, w), wi);
    } else {
      var n, h, ww, wwi := |s|, |s| / 2, Mul(w, w), Mul(wi, wi);
      RootSquared(w, n);
      RootSquared(wi, n);
      MulSwap(w, w, wi, wi);
      MulOne(ONE);
      Inversion(HalfSum(s), ww, wwi);
      Inversion(Twist(HalfDiff(s), w), ww, wwi);
      DftEvenOddOutputs(s, w);
      var f, c := Dft(s, w), h as real;
      assert n as real == 2.0 * c;
      forall i | 0 <= i < n ensures Dft(f, wi)[i] == Scale(n as real, s[i]) {
        var k := if i < h then i else i - h;
        DftButterfly(f, wi, k);
        var e, o := Dft(Evens(f), wwi)[k], Dft(Odds(f), wwi)[k];
        InversionPair(s[k], s[k + h], e, o, w, wi, k, c);
      }
    }
  }

  /** One output pair of the inverse transform, from the inverses of the two halves. */
  lemma InversionPair(a: Complex, b: Complex, e: Complex, o: Complex, w: Complex, wi: Complex, k: nat, c: real)
    requires Mul(w, wi) == ONE
    requires e == Scale(c, Add(a, b)) && o == Scale(c, Mul(Pow(w, k), Sub(a, b)))
    ensures Add(e, Mul(Pow(wi, k), o)) == Scale(2.0 * c, a)
    ensures Sub(e, Mul(Pow(wi, k), o)) == Scale(2.0 * c, b)
  {
    hide Mul, Pow, Add, Sub, Scale;
    UndoTwist(Sub(a, b), w, wi, k, c);
    AddSubHalves(a, b, c);
  }

  lemma AddSubHalves(a: Complex, b: Complex, c: real)
    ensures Add(Scale(c, Add(a, b)), Scale(c, Sub(a, b))) == Scale(2.0 * c, a)
    ensures Sub(Scale(c, Add(a, b)), Scale(c, Sub(a, b))) == Scale(2.0 * c, b)
  {}

  /** wi^k * (c * (w^k * d)) == c * d for inverse roots. */
  lemma UndoTwist(d: Complex, w: Complex, wi: Complex, k: nat, c: real)
    requires Mul(w, wi) == ONE
    ensures Mul(Pow(wi, k), Scale(c, Mul(Pow(w, k), d))) == Scale(c, d)
  {
    hide Mul;
    var p, q := Pow(w, k), Pow(wi, k);
    PowMul(w, wi, k);
    PowOfOne(k);
    MulScale(c, q, Mul(p, d));
    MulComm(p, q);
    MulAssoc(q, p, d);
    MulOne(d);
  }

  lemma SingletonDft(s: seq<Complex>, w: Complex)
    requires |s| == 1
    ensures Dft(s, w) == s
  {
    DftIsEval(s, w, 0);
    assert s == [s[0]];
    EvalSingle(s[0], Pow(w, 0));
    hide Mul;
  }
}
