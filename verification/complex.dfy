/** Complex numbers over exact reals, and the plain discrete Fourier sum. */
module ComplexNumbers {

  datatype Complex = C(re: real, im: real)

  const ZERO := C(0.0, 0.0)
  const ONE := C(1.0, 0.0)

  function Add(a: Complex, b: Complex): Complex { C(a.re + b.re, a.im + b.im) }

  function Sub(a: Complex, b: Complex): Complex { C(a.re - b.re, a.im - b.im) }

  function Mul(a: Complex, b: Complex): Complex {
    C(a.re * b.re - a.im * b.im, a.re * b.im + a.im * b.re)
  }

  function Neg(a: Complex): Complex { C(-a.re, -a.im) }

  lemma MulCommutes(a: Complex, b: Complex)
    ensures Mul(a, b) == Mul(b, a)
  {
  }

  lemma RealDistributes(a: real, b: real, c: real)
    ensures a * (b + c) == a * b + a * c
    ensures a * (b - c) == a * b - a * c
  {
  }

  lemma RealAssociates(a: real, b: real, c: real)
    ensures (a * b) * c == a * (b * c)
  {
  }

  lemma MulDistributes(a: Complex, b: Complex, c: Complex)
    ensures Mul(a, Add(b, c)) == Add(Mul(a, b), Mul(a, c))
  {
    RealDistributes(a.re, b.re, c.re);
    RealDistributes(a.im, b.im, c.im);
    RealDistributes(a.re, b.im, c.im);
    RealDistributes(a.im, b.re, c.re);
  }

  lemma MulAssociates(a: Complex, b: Complex, c: Complex)
    ensures Mul(Mul(a, b), c) == Mul(a, Mul(b, c))
  {
    var ab, bc := Mul(a, b), Mul(b, c);
    RealDistributes(c.re, a.re * b.re, a.im * b.im);
    RealDistributes(c.im, a.re * b.im, a.im * b.re);
    RealDistributes(c.im, a.re * b.re, a.im * b.im);
    RealDistributes(c.re, a.re * b.im, a.im * b.re);
    RealDistributes(a.re, b.re * c.re, b.im * c.im);
    RealDistributes(a.im, b.re * c.im, b.im * c.re);
    RealDistributes(a.re, b.re * c.im, b.im * c.re);
    RealDistributes(a.im, b.re * c.re, b.im * c.im);
    RealAssociates(a.re, b.re, c.re);
    RealAssociates(a.im, b.im, c.re);
    RealAssociates(a.re, b.im, c.im);
    RealAssociates(a.im, b.re, c.im);
    RealAssociates(a.re, b.re, c.im);
    RealAssociates(a.im, b.im, c.im);
    RealAssociates(a.re, b.im, c.re);
    RealAssociates(a.im, b.re, c.re);
  }

  lemma MulOne(a: Complex)
    ensures Mul(ONE, a) == a == Mul(a, ONE)
  {
  }

  lemma MulNeg(a: Complex, b: Complex)
    ensures Mul(Neg(a), b) == Neg(Mul(a, b))
    ensures Mul(C(-1.0, 0.0), a) == Neg(a) == Mul(a, C(-1.0, 0.0))
  {
    assert (-a.re) * b.re == -(a.re * b.re) && (-a.im) * b.im == -(a.im * b.im);
    assert (-a.re) * b.im == -(a.re * b.im) && (-a.im) * b.re == -(a.im * b.re);
  }

  function Pow(z: Complex, n: nat): Complex {
    if n == 0 then ONE else Mul(z, Pow(z, n - 1))
  }

  lemma {:induction false} PowAdd(z: Complex, a: nat, b: nat)
    ensures Pow(z, a + b) == Mul(Pow(z, a), Pow(z, b))
  {
    if a == 0 {
      MulOne(Pow(z, b));
    } else {
      PowAdd(z, a - 1, b);
      MulAssociates(z, Pow(z, a - 1), Pow(z, b));
    }
  }

  lemma {:induction false} PowSquare(z: Complex, n: nat)
    ensures Pow(Mul(z, z), n) == Pow(z, 2 * n) == Mul(Pow(z, n), Pow(z, n))
  {
    hide Mul;
    PowAdd(z, n, n);
    if n > 0 {
      PowSquare(z, n - 1);
      MulAssociates(z, z, Pow(z, 2 * n - 2));
      assert Pow(z, 2 * n) == Mul(z, Pow(z, 2 * n - 1)) == Mul(z, Mul(z, Pow(z, 2 * n - 2)));
    }
  }

  lemma {:induction false} PowPow(z: Complex, k: nat, n: nat)
    ensures Pow(Pow(z, k), n) == Pow(z, n * k)
  {
    hide Mul;
    if n > 0 {
      var before := (n - 1) * k;
      assert k + before == n * k;
      PowPow(z, k, n - 1);
      PowAdd(z, k, before);
    }
  }

  /** The first n terms of the discrete Fourier sum of x at bin k: x[i] * w^(i * k). */
  function DftTerms(x: seq<Complex>, w: Complex, k: nat, n: nat): Complex
    requires n <= |x|
  {
    if n == 0 then ZERO else Add(DftTerms(x, w, k, n - 1), Mul(x[n - 1], Pow(w, (n - 1) * k)))
  }

  function Dft(x: seq<Complex>, w: Complex, k: nat): Complex {
    DftTerms(x, w, k, |x|)
  }

  /** The polynomial with coefficients x at z. */
  function Eval(x: seq<Complex>, z: Complex): Complex {
    if x == [] then ZERO else Add(x[0], Mul(z, Eval(x[1..], z)))
  }

  lemma AddRules(a: Complex, b: Complex, c: Complex)
    ensures Add(Add(a, b), c) == Add(a, Add(b, c))
    ensures Add(ZERO, a) == a == Add(a, ZERO)
    ensures Add(a, b) == Add(b, a)
  {
  }

  lemma MulZero(z: Complex)
    ensures Mul(z, ZERO) == ZERO
  {
  }

  lemma {:induction false} EvalSnoc(x: seq<Complex>, last: Complex, z: Complex)
    ensures Eval(x + [last], z) == Add(Eval(x, z), Mul(last, Pow(z, |x|)))
  {
    hide Add, Mul;
    if x == [] {
      assert ([last])[1..] == [];
      MulZero(z);
      AddRules(last, ZERO, ZERO);
      MulOne(last);
    } else {
      var rest, p := Eval(x[1..], z), Pow(z, |x| - 1);
      EvalSnoc(x[1..], last, z);
      assert (x + [last])[1..] == x[1..] + [last];
      MulDistributes(z, rest, Mul(last, p));
      MulAssociates(z, last, p);
      MulCommutes(z, last);
      MulAssociates(last, z, p);
      AddRules(x[0], Mul(z, rest), Mul(last, Mul(z, p)));
    }
  }

  /** The discrete Fourier sum is the polynomial at the kth power of the root. */
  lemma {:induction false} DftIsEval(x: seq<Complex>, w: Complex, k: nat, n: nat)
    requires n <= |x|
    ensures DftTerms(x, w, k, n) == Eval(x[..n], Pow(w, k))
  {
    if n > 0 {
      hide Add, Mul;
      DftIsEval(x, w, k, n - 1);
      EvalSnoc(x[..n - 1], x[n - 1], Pow(w, k));
      assert x[..n] == x[..n - 1] + [x[n - 1]];
      PowPow(w, k, n - 1);
    }
  }
}
