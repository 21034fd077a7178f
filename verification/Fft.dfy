/**
  The radix-2 transform of zc/src/ZC_DataProperty.c. The twin functions fft and
  ifft differ only in the sign of the twiddle factor's imaginary part, so they
  are one method here with that sign as a parameter.
 */
module FastFourier {
  import opened ComplexNumbers
  import opened Fourier
  import Moments

  /** cos(m, n) and sin(m, n) stand for the cosine and sine of 2*pi*m/n. */
  datatype Trig = Trig(cos: (nat, nat) -> real, sin: (nat, nat) -> real)

  /** The sum formulas for m/n and k/n of a turn. */
  ghost predicate AngleSum(t: Trig, m: nat, k: nat, n: nat) {
    && t.cos(m + k, n) == t.cos(m, n) * t.cos(k, n) - t.sin(m, n) * t.sin(k, n)
    && t.sin(m + k, n) == t.sin(m, n) * t.cos(k, n) + t.cos(m, n) * t.sin(k, n)
  }

  /** The same angle written with a reduced fraction, and its point is on the unit circle. */
  ghost predicate AngleCircle(t: Trig, m: nat, n: nat) {
    && t.cos(2 * m, 2 * n) == t.cos(m, n) && t.sin(2 * m, 2 * n) == t.sin(m, n)
    && t.cos(m, n) * t.cos(m, n) + t.sin(m, n) * t.sin(m, n) == 1.0
  }

  /** The sine is positive below half a turn. */
  ghost predicate AngleSign(t: Trig, m: nat, n: nat) {
    0 < 2 * m < n ==> t.sin(m, n) > 0.0
  }

  /** The facts about sine and cosine that the transform relies on. */
  ghost predicate IsTrig(t: Trig) {
    && (forall m: nat, k: nat, n: nat :: n > 0 ==> AngleSum(t, m, k, n))
    && (forall m: nat, n: nat :: n > 0 ==> AngleCircle(t, m, n))
    && (forall m: nat, n: nat :: n > 0 ==> AngleSign(t, m, n))
    && (forall n: nat :: n > 0 ==> t.cos(0, n) == 1.0 && t.sin(0, n) == 0.0)
    && t.cos(1, 2) == -1.0 && t.sin(1, 2) == 0.0
  }

  /** The twiddle factor: conjugated for the forward transform. */
  function Twiddle(t: Trig, forward: bool, m: nat, n: nat): Complex {
    Complex(t.cos(m, n), if forward then -t.sin(m, n) else t.sin(m, n))
  }

  function Root(t: Trig, forward: bool, n: nat): Complex {
    Twiddle(t, forward, 1, n)
  }

  /** What the recursion computes, for any length; a leftover last entry of an odd length stays put. */
  function Radix2(s: seq<Complex>, t: Trig, forward: bool): (r: seq<Complex>)
    ensures |r| == |s|
    decreases |s|
  {
    if |s| <= 1 then s
    else
      var h := |s| / 2;
      Butterflies(s, Radix2(Evens(s), t, forward), Radix2(Odds(s), t, forward), t, forward)
  }

  function Butterflies(s: seq<Complex>, e: seq<Complex>, o: seq<Complex>, t: Trig, forward: bool): (r: seq<Complex>)
    requires |e| == |o| == |s| / 2
    ensures |r| == |s|
  {
    var h := |s| / 2;
    seq(|s|, i requires 0 <= i < |s| =>
      if i < h then Add(e[i], Mul(Twiddle(t, forward, i, |s|), o[i]))
      else if i < 2 * h then Sub(e[i - h], Mul(Twiddle(t, forward, i - h, |s|), o[i - h]))
      else s[i])
  }

  lemma ButterfliesAt(s: seq<Complex>, e: seq<Complex>, o: seq<Complex>, t: Trig, forward: bool, m: nat)
    requires |e| == |o| == |s| / 2 && m < |s| / 2
    ensures var z, r := Mul(Twiddle(t, forward, m, |s|), o[m]), Butterflies(s, e, o, t, forward);
            r[m] == Add(e[m], z) && r[m + |s| / 2] == Sub(e[m], z)
  {
    hide Mul, Add, Sub;
  }

  lemma ButterfliesTail(s: seq<Complex>, e: seq<Complex>, o: seq<Complex>, t: Trig, forward: bool)
    requires |e| == |o| == |s| / 2
    ensures |s| % 2 == 1 ==> Butterflies(s, e, o, t, forward)[|s| - 1] == s[|s| - 1]
  {}

  lemma Radix2Step(s: seq<Complex>, t: Trig, forward: bool)
    requires |s| > 1
    ensures Radix2(s, t, forward)
         == Butterflies(s, Radix2(Evens(s), t, forward), Radix2(Odds(s), t, forward), t, forward)
  {
    hide Butterflies;
  }

  lemma Radix2Short(s: seq<Complex>, t: Trig, forward: bool)
    requires |s| <= 1
    ensures Radix2(s, t, forward) == s
  {}

  lemma EvensOddsAt(s: seq<Complex>, k: nat)
    requires k < |s| / 2
    ensures Evens(s)[k] == s[2 * k] && Odds(s)[k] == s[2 * k + 1]
  {}

  /** Only entries lo..hi of the array have changed. */
  twostate predicate OnlyChanged(v: array<Complex>, lo: nat, hi: nat)
    reads v
  {
    forall i :: 0 <= i < v.Length && !(lo <= i < hi) ==> v[i] == old(v[i])
  }

  /**
    fft and ifft: transforms v[a..a+n] in place with tmp[b..b+n] as scratch.
    The recursive calls swap the roles of the two buffers.
   */
  method Transform(v: array<Complex>, a: nat, n: nat, tmp: array<Complex>, b: nat, t: Trig, forward: bool)
    requires v != tmp
    requires a + n <= v.Length && b + n <= tmp.Length
    modifies v, tmp
    ensures v[a..a + n] == Radix2(old(v[a..a + n]), t, forward)
    ensures IsTrig(t) && IsPow2(n) ==> IsSpectrum(v[a..a + n], old(v[a..a + n]), t, forward)
    ensures OnlyChanged(v, a, a + n)
    ensures OnlyChanged(tmp, b, b + n)
    decreases n
  {
    hide Butterflies, Radix2, Evens, Odds, Twiddle, IsTrig, IsPow2, IsSpectrum;
    SpectrumOf(v[a..a + n], t, forward);
    if n > 1 {
      var h := n / 2;
      ghost var s := v[a..a + n];
      Deinterleave(v, a, n, tmp, b);
      label L0:
      Transform(tmp, b, h, v, a, t, forward);
      label L1:
      Transform(tmp, b + h, h, v, a, t, forward);
      ghost var e, o := Radix2(Evens(s), t, forward), Radix2(Odds(s), t, forward);
      assert old@L1(tmp[b + h..b + 2 * h]) == old@L0(tmp[b + h..b + 2 * h]);
      assert tmp[b..b + h] == old@L1(tmp[b..b + h]);
      assert n % 2 == 1 ==> v[a + n - 1] == s[n - 1];
      Combine(v, a, n, tmp, b, t, forward, s, e, o);
      Radix2Step(s, t, forward);
    } else {
      Radix2Short(v[a..a + n], t, forward);
    }
  }

  /** Copies the even-indexed entries to the low half of the scratch and the odd ones to the high half. */
  method Deinterleave(v: array<Complex>, a: nat, n: nat, tmp: array<Complex>, b: nat)
    requires v != tmp
    requires a + n <= v.Length && b + n <= tmp.Length
    modifies tmp
    ensures tmp[b..b + n / 2] == Evens(v[a..a + n])
    ensures tmp[b + n / 2..b + 2 * (n / 2)] == Odds(v[a..a + n])
    ensures OnlyChanged(tmp, b, b + n)
  {
    hide Evens, Odds;
    var h := n / 2;
    ghost var s := v[a..a + n];
    ghost var e, o := Evens(s), Odds(s);
    for k := 0 to h
      invariant forall i :: 0 <= i < k ==> tmp[b + i] == e[i]
      invariant forall i :: 0 <= i < k ==> tmp[b + h + i] == o[i]
      invariant OnlyChanged(tmp, b, b + n)
    {
      EvensOddsAt(s, k);
      tmp[b + k] := v[a + 2 * k];
      tmp[b + h + k] := v[a + 2 * k + 1];
    }
  }

  /** The butterfly loop: combines the two half transforms held in the scratch buffer. */
  method Combine(v: array<Complex>, a: nat, n: nat, tmp: array<Complex>, b: nat, t: Trig, forward: bool,
                 ghost s: seq<Complex>, ghost e: seq<Complex>, ghost o: seq<Complex>)
    requires v != tmp
    requires a + n <= v.Length && b + n <= tmp.Length
    requires |s| == n && |e| == |o| == n / 2
    requires tmp[b..b + n / 2] == e && tmp[b + n / 2..b + 2 * (n / 2)] == o
    requires n % 2 == 1 ==> v[a + n - 1] == s[n - 1]
    modifies v
    ensures v[a..a + n] == Butterflies(s, e, o, t, forward)
    ensures OnlyChanged(v, a, a + n)
  {
    hide Mul, Add, Sub, Twiddle, Butterflies;
    var h := n / 2;
    ghost var goal := Butterflies(s, e, o, t, forward);
    ButterfliesTail(s, e, o, t, forward);
    for m := 0 to h
      invariant forall i :: 0 <= i < m ==> v[a + i] == goal[i]
      invariant forall i :: h <= i < h + m ==> v[a + i] == goal[i]
      invariant n % 2 == 1 ==> v[a + n - 1] == s[n - 1]
      invariant OnlyChanged(v, a, a + n)
    {
      assert tmp[b + m] == e[m] && tmp[b + h + m] == o[m];
      ButterfliesAt(s, e, o, t, forward, m);
      var lower, upper := Butterfly(tmp[b + m], tmp[b + h + m], t, forward, m, n);
      v[a + m] := lower;
      v[a + m + h] := upper;
    }
    assert forall i :: 0 <= i < n ==> v[a + i] == goal[i];
  }

  lemma MulIs(re: real, im: real, o: Complex, zRe: real, zIm: real)
    requires zRe == re * o.re - im * o.im && zIm == re * o.im + im * o.re
    ensures Mul(Complex(re, im), o) == Complex(zRe, zIm)
  {}

  /** The body of the butterfly loop: fft takes the sine with a minus sign, ifft without. */
  method Butterfly(ve: Complex, vo: Complex, t: Trig, forward: bool, m: nat, n: nat)
    returns (lower: Complex, upper: Complex)
    ensures lower == Add(ve, Mul(Twiddle(t, forward, m, n), vo)) && upper == Sub(ve, Mul(Twiddle(t, forward, m, n), vo))
  {
    hide Mul;
    var wRe, wIm := t.cos(m, n), t.sin(m, n);
    if forward {
      wIm := -wIm;
    }
    var zRe := wRe * vo.re - wIm * vo.im;
    var zIm := wRe * vo.im + wIm * vo.re;
    MulIs(wRe, wIm, vo, zRe, zIm);
    lower := Complex(ve.re + zRe, ve.im + zIm);
    upper := Complex(ve.re - zRe, ve.im - zIm);
  }

  // ----- what the transform computes -----

  lemma AngleFacts(t: Trig, m: nat, k: nat, n: nat)
    requires IsTrig(t) && n > 0
    ensures AngleSum(t, m, k, n) && AngleCircle(t, m, n)
  {}

  lemma TwiddleStep(t: Trig, forward: bool, m: nat, n: nat)
    requires AngleSum(t, m, 1, n)
    ensures Twiddle(t, forward, m + 1, n) == Mul(Root(t, forward, n), Twiddle(t, forward, m, n))
  {}

  /** de Moivre: the twiddle factor for m is the m-th power of the root. */
  lemma {:induction false} TwiddleIsPow(t: Trig, forward: bool, m: nat, n: nat)
    requires IsTrig(t) && n > 0
    ensures Twiddle(t, forward, m, n) == Pow(Root(t, forward, n), m)
  {
    hide Mul;
    if m > 0 {
      TwiddleIsPow(t, forward, m - 1, n);
      AngleFacts(t, m - 1, 1, n);
      hide IsTrig, AngleSum, Twiddle, Root;
      TwiddleStep(t, forward, m - 1, n);
    }
  }

  /** Half a turn, whatever power of two the circle is divided into. */
  lemma {:induction false} HalfTurn(t: Trig, h: nat)
    requires IsTrig(t) && IsPow2(h)
    ensures t.cos(h, 2 * h) == -1.0 && t.sin(h, 2 * h) == 0.0
  {
    if h > 1 {
      HalfTurn(t, h / 2);
      AngleFacts(t, h / 2, 0, h);
      assert 2 * (h / 2) == h;
    }
  }

  lemma ConjugateRoot(t: Trig, forward: bool, n: nat)
    requires AngleCircle(t, 1, n)
    ensures Mul(Root(t, forward, n), Root(t, !forward, n)) == ONE
  {}

  /** The root of the circle divided into n parts is a principal n-th root, and squares to the next one. */
  lemma RootFacts(t: Trig, forward: bool, n: nat)
    requires IsTrig(t) && IsPow2(n)
    ensures IsRoot(Root(t, forward, n), n)
    ensures n > 1 ==> Mul(Root(t, forward, n), Root(t, forward, n)) == Root(t, forward, n / 2)
    ensures Mul(Root(t, forward, n), Root(t, !forward, n)) == ONE
  {
    hide Mul, Pow, AngleSum;
    AngleFacts(t, 1, 1, n);
    ConjugateRoot(t, forward, n);
    if n > 1 {
      var h := n / 2;
      assert 2 * h == n;
      HalfTurn(t, h);
      TwiddleIsPow(t, forward, h, n);
      TwiddleIsPow(t, forward, 2, n);
      SquareIsPow(Root(t, forward, n));
      AngleFacts(t, 1, 0, h);
    }
  }

  /** For every power of two the in-place algorithm computes the direct DFT sums. */
  lemma {:induction false} Radix2IsDft(s: seq<Complex>, t: Trig, forward: bool)
    requires IsTrig(t) && IsPow2(|s|)
    ensures Radix2(s, t, forward) == Dft(s, Root(t, forward, |s|))
    decreases |s|
  {
    hide Mul, Pow, Twiddle, Root, IsTrig, Dft, Butterflies, IsRoot, Evens, Odds;
    var n, w := |s|, Root(t, forward, |s|);
    if n == 1 {
      SingletonDft(s, w);
    } else {
      var h := n / 2;
      RootFacts(t, forward, n);
      Radix2IsDft(Evens(s), t, forward);
      Radix2IsDft(Odds(s), t, forward);
      var r, e, o := Radix2(s, t, forward), Radix2(Evens(s), t, forward), Radix2(Odds(s), t, forward);
      forall i | 0 <= i < n ensures r[i] == Dft(s, w)[i] {
        var k := if i < h then i else i - h;
        ButterfliesAt(s, e, o, t, forward, k);
        TwiddleIsPow(t, forward, k, n);
        DftButterfly(s, w, k);
      }
    }
  }

  /** ifft after fft multiplies every entry by n; likewise in the other order. */
  lemma RoundTrip(s: seq<Complex>, t: Trig, forward: bool)
    requires IsTrig(t) && IsPow2(|s|)
    ensures var r := Radix2(Radix2(s, t, forward), t, !forward);
            |r| == |s| && forall i :: 0 <= i < |s| ==> r[i] == Scale(|s| as real, s[i])
  {
    hide Mul, Root, Dft, Radix2, IsRoot, Scale, IsTrig;
    var w, wi := Root(t, forward, |s|), Root(t, !forward, |s|);
    Radix2IsDft(s, t, forward);
    Radix2IsDft(Dft(s, w), t, !forward);
    RootFacts(t, forward, |s|);
    RootFacts(t, !forward, |s|);
    Inversion(s, w, wi);
  }

  // ----- the sums in terms of sine and cosine -----

  /** The sum of x[j] times the cosine of j*k/n turns over j < m; likewise for the sine. */
  function CosSum(x: seq<real>, t: Trig, k: nat, m: nat): real
    requires m <= |x|
  {
    if m == 0 then 0.0 else CosSum(x, t, k, m - 1) + x[m - 1] * t.cos((m - 1) * k, |x|)
  }

  function SinSum(x: seq<real>, t: Trig, k: nat, m: nat): real
    requires m <= |x|
  {
    if m == 0 then 0.0 else SinSum(x, t, k, m - 1) + x[m - 1] * t.sin((m - 1) * k, |x|)
  }

  function Res(s: seq<Complex>): (x: seq<real>)
    ensures |x| == |s|
  {
    seq(|s|, i requires 0 <= i < |s| => s[i].re)
  }

  function Ims(s: seq<Complex>): (x: seq<real>)
    ensures |x| == |s|
  {
    seq(|s|, i requires 0 <= i < |s| => s[i].im)
  }

  /**
    r is the spectrum of s: r[k] is the sum of s[j] * exp(-2*pi*i*j*k/n) in the forward direction,
    and of s[j] * exp(+2*pi*i*j*k/n) in the other, written out in real and imaginary parts.
   */
  ghost predicate IsSpectrum(r: seq<Complex>, s: seq<Complex>, t: Trig, forward: bool) {
    var n, x, y := |s|, Res(s), Ims(s);
    && |r| == n
    && forall k :: 0 <= k < n ==>
         if forward then
           && r[k].re == CosSum(x, t, k, n) + SinSum(y, t, k, n)
           && r[k].im == CosSum(y, t, k, n) - SinSum(x, t, k, n)
         else
           && r[k].re == CosSum(x, t, k, n) - SinSum(y, t, k, n)
           && r[k].im == CosSum(y, t, k, n) + SinSum(x, t, k, n)
  }

  /** A quarter turn is up, so the two directions are told apart. */
  lemma QuarterTurn(t: Trig)
    requires IsTrig(t)
    ensures t.sin(1, 4) == 1.0 && t.cos(1, 4) == 0.0
  {
    AngleFacts(t, 1, 1, 4);
    AngleFacts(t, 1, 0, 2);
    assert AngleSign(t, 1, 4);
    UnitPoint(t.cos(1, 4), t.sin(1, 4));
  }

  lemma UnitPoint(c: real, s: real)
    requires c * c + s * s == 1.0 && c * c - s * s == -1.0 && s > 0.0
    ensures s == 1.0 && c == 0.0
  {
    Moments.SquarePositive(c, c * c);
    assert (s + 1.0) * (s - 1.0) == 0.0;
    Moments.PositiveFactor(s + 1.0, s - 1.0);
    Moments.PositiveFactor(s + 1.0, 1.0 - s);
  }

  /** One term of a DFT sum in parts. */
  lemma TermParts(z: Complex, t: Trig, forward: bool, e: nat, n: nat)
    ensures var p := Mul(z, Twiddle(t, forward, e, n));
            && (forward ==> p.re == z.re * t.cos(e, n) + z.im * t.sin(e, n)
                            && p.im == z.im * t.cos(e, n) - z.re * t.sin(e, n))
            && (!forward ==> p.re == z.re * t.cos(e, n) - z.im * t.sin(e, n)
                             && p.im == z.im * t.cos(e, n) + z.re * t.sin(e, n))
  {}

  lemma NoSums(s: seq<Complex>, t: Trig, k: nat)
    ensures CosSum(Res(s), t, k, 0) == SinSum(Res(s), t, k, 0) == 0.0
    ensures CosSum(Ims(s), t, k, 0) == SinSum(Ims(s), t, k, 0) == 0.0
  {}

  /** One more term: the four products that it adds to the sums, and how its parts are made of them. */
  lemma SumSteps(s: seq<Complex>, t: Trig, forward: bool, k: nat, m: nat)
    returns (xc: real, xs: real, yc: real, ys: real)
    requires 0 < m <= |s|
    ensures CosSum(Res(s), t, k, m) == CosSum(Res(s), t, k, m - 1) + xc
    ensures SinSum(Res(s), t, k, m) == SinSum(Res(s), t, k, m - 1) + xs
    ensures CosSum(Ims(s), t, k, m) == CosSum(Ims(s), t, k, m - 1) + yc
    ensures SinSum(Ims(s), t, k, m) == SinSum(Ims(s), t, k, m - 1) + ys
    ensures Mul(s[m - 1], Twiddle(t, forward, (m - 1) * k, |s|))
         == if forward then Complex(xc + ys, yc - xs) else Complex(xc - ys, yc + xs)
  {
    var z, c, d := s[m - 1], t.cos((m - 1) * k, |s|), t.sin((m - 1) * k, |s|);
    xc, xs, yc, ys := z.re * c, z.re * d, z.im * c, z.im * d;
    TermParts(z, t, forward, (m - 1) * k, |s|);
    hide Mul, Twiddle;
  }

  lemma {:induction false} DirectParts(s: seq<Complex>, t: Trig, forward: bool, k: nat, m: nat)
    requires IsTrig(t) && m <= |s|
    ensures var d := DirectSum(s, Root(t, forward, |s|), k, m);
            var x, y := Res(s), Ims(s);
            && (forward ==> d.re == CosSum(x, t, k, m) + SinSum(y, t, k, m)
                            && d.im == CosSum(y, t, k, m) - SinSum(x, t, k, m))
            && (!forward ==> d.re == CosSum(x, t, k, m) - SinSum(y, t, k, m)
                             && d.im == CosSum(y, t, k, m) + SinSum(x, t, k, m))
  {
    hide IsTrig, Root, Mul, Pow, Twiddle, CosSum, SinSum, Res, Ims;
    if m > 0 {
      DirectParts(s, t, forward, k, m - 1);
      TwiddleIsPow(t, forward, (m - 1) * k, |s|);
      var xc, xs, yc, ys := SumSteps(s, t, forward, k, m);
    } else {
      NoSums(s, t, k);
    }
  }

  lemma SpectrumOf(s: seq<Complex>, t: Trig, forward: bool)
    ensures IsTrig(t) && IsPow2(|s|) ==> IsSpectrum(Radix2(s, t, forward), s, t, forward)
  {
    if IsTrig(t) && IsPow2(|s|) {
      hide IsTrig, IsPow2, Radix2, Root, DirectSum, CosSum, SinSum, Res, Ims;
      Radix2IsDft(s, t, forward);
      forall k | 0 <= k < |s| ensures Radix2(s, t, forward)[k] == DirectSum(s, Root(t, forward, |s|), k, |s|) {}
      forall k: nat | k < |s| {
        DirectParts(s, t, forward, k, |s|);
      }
    }
  }

  // ----- the caller -----

  function Lift(data: seq<real>): (r: seq<Complex>)
    ensures |r| == |data|
  {
    seq(|data|, i requires 0 <= i < |data| => Complex(data[i], 0.0))
  }

  /** The square of a coefficient's amplitude. */
  function Power(c: Complex): (r: real)
    ensures r >= 0.0
  {
    Moments.Square(c.re) + Moments.Square(c.im)
  }

  /** ZC_computeFFT: the coefficients of real data, whose length the code does not check, and their amplitudes. */
  method ComputeFft(data: seq<real>, t: Trig, sqrt: real -> real) returns (coeff: array<Complex>, amp: array<real>)
    requires IsTrig(t) && Moments.IsSqrt(sqrt)
    ensures fresh(coeff) && coeff[..] == Radix2(Lift(data), t, true)
    ensures IsPow2(|data|) ==> coeff[..] == Dft(Lift(data), Root(t, true, |data|))
    ensures IsPow2(|data|) ==> forall k :: 0 <= k < |data| ==>
              coeff[k] == Complex(CosSum(data, t, k, |data|), -SinSum(data, t, k, |data|))
    ensures fresh(amp) && amp.Length == coeff.Length == |data|
    ensures forall i :: 0 <= i < amp.Length ==> amp[i] >= 0.0 && amp[i] * amp[i] == Power(coeff[i])
  {
    hide Radix2, Dft, Root, IsTrig, Power, Moments.IsSqrt, IsPow2, CosSum, SinSum, Lift;
    coeff := Coefficients(data, t);
    RealSpectrum(data, t);
    amp := new real[|data|];
    ghost var c := coeff[..];
    for i := 0 to |data|
      invariant coeff[..] == c
      invariant forall j :: 0 <= j < i ==> amp[j] >= 0.0 && amp[j] * amp[j] == Power(coeff[j])
    {
      amp[i] := Amplitude(coeff[i], sqrt);
    }
  }

  /** The spectrum of real data. */
  lemma RealSpectrum(data: seq<real>, t: Trig)
    ensures IsTrig(t) && IsPow2(|data|) ==> forall k :: 0 <= k < |data| ==>
              Radix2(Lift(data), t, true)[k] == Complex(CosSum(data, t, k, |data|), -SinSum(data, t, k, |data|))
  {
    hide IsTrig, IsPow2, Radix2, CosSum, SinSum;
    SpectrumOf(Lift(data), t, true);
    assert Res(Lift(data)) == data;
    var zeros := Ims(Lift(data));
    forall k: nat | k < |data| {
      ZeroSums(zeros, t, k, |data|);
    }
  }

  lemma {:induction false} ZeroSums(x: seq<real>, t: Trig, k: nat, m: nat)
    requires m <= |x| && forall i :: 0 <= i < |x| ==> x[i] == 0.0
    ensures CosSum(x, t, k, m) == SinSum(x, t, k, m) == 0.0
  {
    if m > 0 {
      ZeroSums(x, t, k, m - 1);
    }
  }

  method Amplitude(c: Complex, sqrt: real -> real) returns (amp: real)
    requires Moments.IsSqrt(sqrt)
    ensures amp >= 0.0 && amp * amp == Power(c)
  {
    var x := c.re * c.re + c.im * c.im;
    assert x == Power(c);
    Moments.RootOf(sqrt, x);
    amp := sqrt(x);
  }

  method Coefficients(data: seq<real>, t: Trig) returns (coeff: array<Complex>)
    requires IsTrig(t)
    ensures fresh(coeff) && coeff.Length == |data| && coeff[..] == Radix2(Lift(data), t, true)
    ensures IsPow2(|data|) ==> coeff[..] == Dft(Lift(data), Root(t, true, |data|))
  {
    hide Radix2, Dft, Root, IsTrig;
    var n := |data|;
    coeff := new Complex[n](i requires 0 <= i < n => Complex(data[i], 0.0));
    var scratch := new Complex[n];
    assert coeff[0..0 + n] == coeff[..] == Lift(data);
    Transform(coeff, 0, n, scratch, 0, t, true);
    assert coeff[0..0 + n] == coeff[..];
    if IsPow2(n) {
      Radix2IsDft(Lift(data), t, true);
    }
  }

  // ----- lengths that are not powers of two -----

  function Impulse(n: nat): (r: seq<Complex>)
    ensures |r| == n
  {
    seq(n, i => if i == 0 then ONE else ZERO)
  }

  function Constant(c: Complex, n: nat): (r: seq<Complex>)
    ensures |r| == n
  {
    seq(n, i => c)
  }

  lemma {:induction false} ImpulseDft(w: Complex, n: nat, k: nat, m: nat)
    requires 0 < m <= n
    ensures DirectSum(Impulse(n), w, k, m) == ONE
  {
    hide Mul;
    MulOne(Pow(w, (m - 1) * k));
    MulComm(Impulse(n)[m - 1], Pow(w, (m - 1) * k));
    if m == 1 {
      assert 0 * k == 0;
    } else {
      ImpulseDft(w, n, k, m - 1);
    }
  }

  lemma {:induction false} ZerosTransform(n: nat, t: Trig, forward: bool)
    ensures Radix2(Constant(ZERO, n), t, forward) == Constant(ZERO, n)
  {
    if n > 1 {
      var s := Constant(ZERO, n);
      assert Evens(s) == Odds(s) == Constant(ZERO, n / 2);
      ZerosTransform(n / 2, t, forward);
      ButterfliesWithZeroOdds(s, Constant(ZERO, n / 2), t, forward);
    }
  }

  /** When the odd part transforms to zero, both halves of the output repeat the even part. */
  lemma ButterfliesWithZeroOdds(s: seq<Complex>, e: seq<Complex>, t: Trig, forward: bool)
    requires |e| == |s| / 2
    ensures var r, h := Butterflies(s, e, Constant(ZERO, |s| / 2), t, forward), |s| / 2;
            && (forall i :: 0 <= i < h ==> r[i] == e[i])
            && (forall i :: h <= i < 2 * h ==> r[i] == e[i - h])
            && (|s| % 2 == 1 ==> r[|s| - 1] == s[|s| - 1])
  {
    var h, z := |s| / 2, Constant(ZERO, |s| / 2);
    var r := Butterflies(s, e, z, t, forward);
    forall i | 0 <= i < h ensures r[i] == e[i] == r[i + h] {
      ButterfliesAt(s, e, z, t, forward, i);
    }
    forall i | h <= i < 2 * h ensures r[i] == e[i - h] {
      assert r[i - h] == e[i - h] == r[(i - h) + h];
    }
    ButterfliesTail(s, e, z, t, forward);
  }

  lemma {:induction false} ImpulseTransform(n: nat, t: Trig, forward: bool)
    requires n > 0
    ensures Radix2(Impulse(n), t, forward) == Constant(ONE, n) <==> IsPow2(n)
  {
    hide Butterflies, Twiddle;
    var s, r := Impulse(n), Radix2(Impulse(n), t, forward);
    if n > 1 {
      var h := n / 2;
      assert Evens(s) == Impulse(h);
      assert Odds(s) == Constant(ZERO, h);
      var e := Radix2(Impulse(h), t, forward);
      ImpulseTransform(h, t, forward);
      ZerosTransform(h, t, forward);
      ButterfliesWithZeroOdds(s, e, t, forward);
      if n % 2 == 1 {
        assert r[n - 1] == ZERO != ONE;
      } else {
        assert forall i :: 0 <= i < h ==> e[i] == r[i];
        assert r == Constant(ONE, n) ==> e == Constant(ONE, h);
        assert e == Constant(ONE, h) ==> r == Constant(ONE, n);
      }
    }
  }

  /** The algorithm is a DFT of length n for every input exactly when n is a power of two. */
  lemma ExactLengths(n: nat, t: Trig, forward: bool)
    requires IsTrig(t) && n > 0
    ensures (forall s: seq<Complex> :: |s| == n ==> Radix2(s, t, forward) == Dft(s, Root(t, forward, n)))
       <==> IsPow2(n)
  {
    hide Radix2, Root, Mul, IsTrig;
    if IsPow2(n) {
      forall s: seq<Complex> | |s| == n ensures Radix2(s, t, forward) == Dft(s, Root(t, forward, n)) {
        Radix2IsDft(s, t, forward);
      }
    } else {
      ImpulseTransform(n, t, forward);
      var w := Root(t, forward, n);
      forall k | 0 <= k < n ensures Dft(Impulse(n), w)[k] == ONE {
        ImpulseDft(w, n, k, n);
      }
      assert Dft(Impulse(n), w) == Constant(ONE, n);
      assert |Impulse(n)| == n;
    }
  }
}
