/** Why the iterative transform is the discrete Fourier transform: the meaning of every stage of the
    buffer, and bit reversal. */
module FftTheory {
  import opened ComplexNumbers

  function Pow2(m: nat): (p: nat)
    ensures p >= 1
  {
    if m == 0 then 1 else 2 * Pow2(m - 1)
  }

  /** root(s) is the root the stage of length 2^s multiplies by: minus one for pairs, and each squares
      to the one before. */
  ghost predicate Roots(root: nat -> Complex) {
    root(1) == Neg(ONE) && forall s: nat :: s >= 1 ==> Mul(root(s + 1), root(s + 1)) == root(s)
  }

  lemma {:induction false} HalfTurn(root: nat -> Complex, s: nat)
    requires Roots(root) && s >= 1
    ensures Pow(root(s), Pow2(s - 1)) == Neg(ONE)
  {
    if s == 1 {
      assert Pow(root(1), 1) == Mul(root(1), Pow(root(1), 0));
      MulOne(root(1));
    } else {
      HalfTurn(root, s - 1);
      hide Mul;
      assert Mul(root(s - 1 + 1), root(s - 1 + 1)) == root(s - 1);
      PowSquare(root(s), Pow2(s - 2));
    }
  }

  // ------------------------------------------------------------- even and odd samples

  function Evens(x: seq<Complex>): (e: seq<Complex>)
    ensures |e| == |x| / 2
  {
    seq(|x| / 2, i requires 0 <= i < |x| / 2 => x[2 * i])
  }

  function Odds(x: seq<Complex>): (o: seq<Complex>)
    ensures |o| == |x| / 2
  {
    seq(|x| / 2, i requires 0 <= i < |x| / 2 => x[2 * i + 1])
  }

  lemma {:induction false} EvalSplits(x: seq<Complex>, z: Complex)
    requires |x| % 2 == 0
    ensures Eval(x, z) == Add(Eval(Evens(x), Mul(z, z)), Mul(z, Eval(Odds(x), Mul(z, z))))
  {
    hide Mul, Add;
    var zz := Mul(z, z);
    if x == [] {
      MulZero(z);
      AddRules(ZERO, ZERO, ZERO);
    } else {
      EvalSplits(x[2..], z);
      assert Evens(x)[1..] == Evens(x[2..]) && Odds(x)[1..] == Odds(x[2..]);
      assert x[1..][1..] == x[2..];
      var e, o := Eval(Evens(x[2..]), zz), Eval(Odds(x[2..]), zz);
      assert Eval(x, z) == Add(x[0], Mul(z, Add(x[1], Mul(z, Add(e, Mul(z, o))))));
      MulDistributes(z, e, Mul(z, o));
      MulAssociates(z, z, o);
      MulDistributes(z, x[1], Add(Mul(z, e), Mul(zz, o)));
      MulDistributes(z, Mul(z, e), Mul(zz, o));
      MulAssociates(z, z, e);
      MulDistributes(z, x[1], Mul(zz, o));
      Regroup(x[0], Mul(z, x[1]), Mul(zz, e), Mul(z, Mul(zz, o)));
    }
  }

  lemma Regroup(a: Complex, b: Complex, c: Complex, d: Complex)
    ensures Add(a, Add(b, Add(c, d))) == Add(Add(a, c), Add(b, d))
  {
  }

  /** Every bin of the transform of x. */
  function Spectrum(x: seq<Complex>, w: Complex): (s: seq<Complex>)
    ensures |s| == |x|
  {
    seq(|x|, k requires 0 <= k < |x| => Eval(x, Pow(w, k)))
  }

  /** One block of butterflies over two halves. */
  function Combine(low: seq<Complex>, high: seq<Complex>, w: Complex): (c: seq<Complex>)
    requires |low| == |high|
    ensures |c| == 2 * |low|
  {
    seq(2 * |low|, k requires 0 <= k < 2 * |low| =>
      if k < |low| then Add(low[k], Mul(Pow(w, k), high[k]))
      else Sub(low[k - |low|], Mul(Pow(w, k - |low|), high[k - |low|])))
  }

  lemma SubIsAddNeg(a: Complex, b: Complex)
    ensures Add(a, Neg(b)) == Sub(a, b)
  {
  }

  lemma CombinedBin(x: seq<Complex>, w: Complex, k: nat)
    requires |x| % 2 == 0 && k < |x| && Pow(w, |x| / 2) == Neg(ONE)
    ensures Combine(Spectrum(Evens(x), Mul(w, w)), Spectrum(Odds(x), Mul(w, w)), w)[k] == Eval(x, Pow(w, k))
  {
    hide Mul, Add, Sub, Eval, Pow;
    if k < |x| / 2 {
      CombineBin(x, w, k);
    } else {
      CombineBin(x, w, k - |x| / 2);
    }
  }

  /** Butterflies turn the spectra of the even and odd samples into the spectrum of all of them. */
  lemma CombineSpectra(x: seq<Complex>, w: Complex)
    requires |x| % 2 == 0 && Pow(w, |x| / 2) == Neg(ONE)
    ensures Combine(Spectrum(Evens(x), Mul(w, w)), Spectrum(Odds(x), Mul(w, w)), w) == Spectrum(x, w)
  {
    var combined := Combine(Spectrum(Evens(x), Mul(w, w)), Spectrum(Odds(x), Mul(w, w)), w);
    assert |combined| == |x|;
    hide Mul, Pow, Eval, Combine;
    forall k | 0 <= k < |x| ensures combined[k] == Spectrum(x, w)[k] {
      CombinedBin(x, w, k);
    }
  }

  /** Bins k and k + half of the two spectra combined. */
  lemma CombineBin(x: seq<Complex>, w: Complex, k: nat)
    requires |x| % 2 == 0 && k < |x| / 2 && Pow(w, |x| / 2) == Neg(ONE)
    ensures
      var e, o := Eval(Evens(x), Pow(Mul(w, w), k)), Eval(Odds(x), Pow(Mul(w, w), k));
      && Eval(x, Pow(w, k)) == Add(e, Mul(Pow(w, k), o))
      && Eval(x, Pow(w, k + |x| / 2)) == Sub(e, Mul(Pow(w, k), o))
  {
    hide Mul, Add, Sub, Neg;
    var half := |x| / 2;
    var z, o := Pow(w, k), Eval(Odds(x), Pow(Mul(w, w), k));
    PowSquare(w, k);
    EvalSplits(x, z);
    var other := Pow(w, k + half);
    PowAdd(w, k, half);
    MulMinusOne(z);
    assert other == Neg(z);
    MulNegNeg(z);
    EvalSplits(x, other);
    MulNeg(z, o);
    SubIsAddNeg(Eval(Evens(x), Pow(Mul(w, w), k)), Mul(z, o));
  }

  lemma MulMinusOne(z: Complex)
    ensures Mul(z, Neg(ONE)) == Neg(z)
  {
  }

  lemma MulNegNeg(z: Complex)
    ensures Mul(Neg(z), Neg(z)) == Mul(z, z)
  {
    assert (-z.re) * (-z.re) == z.re * z.re && (-z.im) * (-z.im) == z.im * z.im;
    assert (-z.re) * (-z.im) == z.re * z.im && (-z.im) * (-z.re) == z.im * z.re;
  }

  // ------------------------------------------------------------- the buffer between stages

  /** What the buffer holds for the 2^m samples x once the blocks of length 2^s are done: the
      transforms of the strided sub-sequences, in bit-reversed order. */
  function Stage(x: seq<Complex>, s: nat, m: nat, root: nat -> Complex): (b: seq<Complex>)
    requires |x| == Pow2(m) && s <= m
    ensures |b| == |x|
    decreases m
  {
    if s == m then Spectrum(x, root(m))
    else Stage(Evens(x), s, m - 1, root) + Stage(Odds(x), s, m - 1, root)
  }

  /** A length made of whole blocks of two halves. */
  predicate Whole(length: nat, half: nat)
    requires half > 0
  {
    length == 0 || (length >= 2 * half && Whole(length - 2 * half, half))
  }

  lemma {:induction false} WholeAdds(a: nat, b: nat, half: nat)
    requires half > 0 && Whole(a, half) && Whole(b, half)
    ensures Whole(a + b, half)
    decreases a
  {
    if a > 0 {
      WholeAdds(a - 2 * half, b, half);
    }
  }

  lemma {:induction false} PowersAreWhole(s: nat, m: nat)
    requires s < m
    ensures Whole(Pow2(m), Pow2(s))
  {
    if s + 1 < m {
      PowersAreWhole(s, m - 1);
      WholeAdds(Pow2(m - 1), Pow2(m - 1), Pow2(s));
    } else {
      assert Whole(0, Pow2(s));
    }
  }

  /** All blocks of one stage. */
  function Pass(buf: seq<Complex>, half: nat, w: Complex): (p: seq<Complex>)
    requires half > 0
    ensures |p| == |buf|
  {
    if |buf| < 2 * half then buf
    else Combine(buf[..half], buf[half..2 * half], w) + Pass(buf[2 * half..], half, w)
  }

  lemma {:induction false} PassAppends(a: seq<Complex>, b: seq<Complex>, half: nat, w: Complex)
    requires half > 0 && Whole(|a|, half)
    ensures Pass(a + b, half, w) == Pass(a, half, w) + Pass(b, half, w)
    decreases |a|
  {
    if a == [] {
      assert a + b == b;
    } else {
      var ab, n := a + b, 2 * half;
      PassAppends(a[n..], b, half, w);
      assert ab[n..] == a[n..] + b && ab[..half] == a[..half] && ab[half..n] == a[half..n];
    }
  }

  lemma PassOneBlock(low: seq<Complex>, high: seq<Complex>, w: Complex)
    requires |low| == |high| > 0
    ensures Pass(low + high, |low|, w) == Combine(low, high, w)
  {
    var buf := low + high;
    assert buf[..|low|] == low && buf[|low|..2 * |low|] == high && buf[2 * |low|..] == [];
  }

  /** One pass takes the buffer from one stage to the next. */
  lemma {:induction false} PassAdvances(x: seq<Complex>, s: nat, m: nat, root: nat -> Complex)
    requires Roots(root) && |x| == Pow2(m) && s < m
    ensures Pass(Stage(x, s, m, root), Pow2(s), root(s + 1)) == Stage(x, s + 1, m, root)
    decreases m
  {
    hide Mul, Combine, Spectrum, Pass;
    if s + 1 == m {
      HalfTurn(root, m);
      if s >= 1 {
        assert Mul(root(s + 1), root(s + 1)) == root(s);
        CombineSpectra(x, root(m));
      } else {
        CombinePair(x, root);
      }
      PassOneBlock(Spectrum(Evens(x), root(s)), Spectrum(Odds(x), root(s)), root(m));
    } else {
      PassAdvances(Evens(x), s, m - 1, root);
      PassAdvances(Odds(x), s, m - 1, root);
      PowersAreWhole(s, m - 1);
      PassAppends(Stage(Evens(x), s, m - 1, root), Stage(Odds(x), s, m - 1, root), Pow2(s), root(s + 1));
    }
  }

  /** Blocks of one sample are their own spectra, whatever the root. */
  lemma SpectrumOfOne(x: seq<Complex>, w: Complex)
    requires |x| == 1
    ensures Spectrum(x, w) == x
  {
    hide Mul, Add;
    assert x[1..] == [];
    MulZero(ONE);
    AddRules(x[0], ZERO, ZERO);
    assert Eval(x, ONE) == Add(x[0], Mul(ONE, ZERO)) == x[0];
    assert Spectrum(x, w)[0] == Eval(x, Pow(w, 0));
    assert Spectrum(x, w) == [x[0]] == x;
  }

  lemma CombinePair(x: seq<Complex>, root: nat -> Complex)
    requires Roots(root) && |x| == 2
    ensures Combine(Spectrum(Evens(x), root(0)), Spectrum(Odds(x), root(0)), root(1)) == Spectrum(x, root(1))
  {
    var w := root(1);
    HalfTurn(root, 1);
    SpectrumOfOne(Evens(x), root(0));
    SpectrumOfOne(Odds(x), root(0));
    SpectrumOfOne(Evens(x), Mul(w, w));
    SpectrumOfOne(Odds(x), Mul(w, w));
    CombineSpectra(x, w);
  }

  // ------------------------------------------------------------- bit reversal

  /** i with its m low bits reversed, taken from the lowest bit up. */
  function Reverse(m: nat, i: nat): (r: nat)
    requires i < Pow2(m)
    ensures r < Pow2(m)
  {
    if m == 0 then 0 else (if i % 2 == 1 then Pow2(m - 1) else 0) + Reverse(m - 1, i / 2)
  }

  /** The same, taken from the highest bit down. */
  function ReverseDown(m: nat, i: nat): (r: nat)
    requires i < Pow2(m)
    ensures r < Pow2(m)
  {
    if m == 0 then 0
    else if i < Pow2(m - 1) then 2 * ReverseDown(m - 1, i)
    else 2 * ReverseDown(m - 1, i - Pow2(m - 1)) + 1
  }

  /** Peeling both ends: the highest bit of a half and the lowest of the rest. */
  lemma HalvesAndParity(i: nat, quarter: nat)
    requires i < 4 * quarter
    ensures var half := 2 * quarter;
      var low := if i < half then i else i - half;
      && low < half && i % 2 == low % 2 && low / 2 < quarter
      && i / 2 == if i < half then low / 2 else low / 2 + quarter
  {
  }

  lemma {:induction false} ReversesAgree(m: nat, i: nat)
    requires i < Pow2(m)
    ensures Reverse(m, i) == ReverseDown(m, i)
  {
    if m >= 2 {
      var half, quarter := Pow2(m - 1), Pow2(m - 2);
      var low := if i < half then i else i - half;
      HalvesAndParity(i, quarter);
      ReversesAgree(m - 1, i / 2);
      ReversesAgree(m - 1, low);
      ReversesAgree(m - 2, low / 2);
      ReverseTopBit(m, i);
    }
  }

  /** The highest bit becomes the lowest. */
  lemma ReverseTopBit(m: nat, i: nat)
    requires m >= 2 && i < Pow2(m)
    requires var half, quarter := Pow2(m - 1), Pow2(m - 2);
      var low := if i < half then i else i - half;
      && low / 2 < quarter && i / 2 < half && low < half
      && Reverse(m - 1, i / 2) == ReverseDown(m - 1, i / 2)
      && Reverse(m - 1, low) == ReverseDown(m - 1, low)
      && Reverse(m - 2, low / 2) == ReverseDown(m - 2, low / 2)
    ensures Reverse(m, i) == ReverseDown(m, i)
  {
    HalvesAndParity(i, Pow2(m - 2));
  }

  /** Reversing twice gives the index back. */
  lemma {:induction false} ReverseInvolutive(m: nat, i: nat)
    requires i < Pow2(m)
    ensures Reverse(m, Reverse(m, i)) == i
  {
    ReverseDownUndoes(m, i);
    ReversesAgree(m, Reverse(m, i));
  }

  lemma {:induction false} ReverseDownUndoes(m: nat, i: nat)
    requires i < Pow2(m)
    ensures ReverseDown(m, Reverse(m, i)) == i
  {
    if m > 0 {
      ReverseDownUndoes(m - 1, i / 2);
    }
  }

  /** Adding one to a counter whose bits are held in reverse: carry from the top bit down. */
  function Bump(m: nat, j: nat): nat
    requires j < Pow2(m)
  {
    if m == 0 then 0
    else if j < Pow2(m - 1) then j + Pow2(m - 1)
    else Bump(m - 1, j - Pow2(m - 1))
  }

  lemma {:induction false} BumpReverses(m: nat, i: nat)
    requires i + 1 < Pow2(m)
    ensures Bump(m, Reverse(m, i)) == Reverse(m, i + 1)
  {
    if i % 2 == 1 {
      BumpReverses(m - 1, i / 2);
      assert (i + 1) / 2 == i / 2 + 1;
    } else {
      assert (i + 1) / 2 == i / 2;
    }
  }

  /** The samples in bit-reversed order. */
  function Shuffled(x: seq<Complex>, m: nat): (p: seq<Complex>)
    requires |x| == Pow2(m)
    ensures |p| == |x|
  {
    seq(|x|, i requires 0 <= i < |x| => x[Reverse(m, i)])
  }

  /** Bit reversal is exactly the order the first stage needs. */
  lemma {:induction false} ShuffledIsStageZero(x: seq<Complex>, m: nat, root: nat -> Complex)
    requires |x| == Pow2(m)
    ensures Shuffled(x, m) == Stage(x, 0, m, root)
    decreases m
  {
    if m == 0 {
      SpectrumOfOne(x, root(0));
    } else {
      var half := Pow2(m - 1);
      ShuffledIsStageZero(Evens(x), m - 1, root);
      ShuffledIsStageZero(Odds(x), m - 1, root);
      hide Reverse;
      forall i | 0 <= i < |x|
        ensures Shuffled(x, m)[i] == (Shuffled(Evens(x), m - 1) + Shuffled(Odds(x), m - 1))[i]
      {
        ReversesAgree(m, i);
        ReversesAgree(m - 1, if i < half then i else i - half);
      }
    }
  }
}
