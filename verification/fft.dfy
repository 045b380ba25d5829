/** The in-place transform behind the vibration view: bit-reversal permutation, then butterflies. */
module Fft {
  import opened ComplexNumbers
  import opened FftTheory

  /** The two buffers as one sequence of complex numbers. */
  function Zip(re: seq<real>, im: seq<real>): (z: seq<Complex>)
    requires |re| == |im|
    ensures |z| == |re|
  {
    seq(|re|, i requires 0 <= i < |re| => C(re[i], im[i]))
  }

  // ------------------------------------------------------------- the permutation

  /** a & b. */
  function And(a: nat, b: nat): nat {
    if a == 0 || b == 0 then 0 else 2 * And(a / 2, b / 2) + (if a % 2 == 1 && b % 2 == 1 then 1 else 0)
  }

  /** a ^ b. */
  function Xor(a: nat, b: nat): nat {
    if a == 0 then b else if b == 0 then a else 2 * Xor(a / 2, b / 2) + (a + b) % 2
  }

  /** The counter after the carry from this bit down. */
  function Carried(j: nat, bit: nat): nat
    decreases bit
  {
    if bit > 0 && And(j, bit) != 0 then Carried(Xor(j, bit), bit / 2) else Xor(j, bit)
  }

  /** The carry loop: clears set bits from the top down and sets the first clear one. */
  method NextReversed(j: nat, size: nat) returns (next: nat)
    ensures next == Carried(j, size / 2)
    ensures forall m | size == Pow2(m) && j < size && Bump(m, j) != 0 :: next == Bump(m, j)
  {
    next := j;
    var bit: nat := size / 2;
    while And(next, bit) != 0
      invariant Carried(next, bit) == Carried(j, size / 2)
      decreases bit
    {
      next := Xor(next, bit);
      bit := bit / 2;
    }
    next := Xor(next, bit);
    forall m | size == Pow2(m) && j < size && Bump(m, j) != 0 ensures next == Bump(m, j) {
      CarryBumps(m, j);
    }
  }

  lemma EvenHalves(a: nat, b: nat)
    ensures 2 * b / 2 == b && 2 * b % 2 == 0 && (a + 2 * b) % 2 == a % 2
  {
  }

  lemma AndDefinition(a: nat, b: nat)
    requires a > 0 && b > 0 && b % 2 == 0
    ensures And(a, b) == 2 * And(a / 2, b / 2)
  {
  }

  lemma XorDefinition(a: nat, b: nat)
    requires a > 0 && b > 0
    ensures Xor(a, b) == 2 * Xor(a / 2, b / 2) + (a + b) % 2
  {
  }

  lemma OfZero(b: nat)
    ensures And(0, b) == 0 && Xor(0, b) == b
  {
  }

  /** The lowest bit apart, when the other operand does not have it. */
  lemma Doubled(a: nat, b: nat)
    requires b > 0
    ensures And(a, 2 * b) == 2 * And(a / 2, b)
    ensures Xor(a, 2 * b) == 2 * Xor(a / 2, b) + a % 2
  {
    hide And, Xor;
    EvenHalves(a, b);
    if a == 0 {
      OfZero(b);
      OfZero(2 * b);
    } else {
      AndDefinition(a, 2 * b);
      XorDefinition(a, 2 * b);
    }
  }

  lemma LowestBit(j: nat)
    requires j < 2
    ensures And(j, 1) == j && Xor(j, 1) == 1 - j
  {
  }

  /** A power of two in the bit operations. */
  lemma {:induction false} OneBit(j: nat, p: nat)
    requires j < 2 * Pow2(p)
    ensures And(j, Pow2(p)) == (if j >= Pow2(p) then Pow2(p) else 0)
    ensures Xor(j, Pow2(p)) == (if j >= Pow2(p) then j - Pow2(p) else j + Pow2(p))
  {
    hide And, Xor;
    if p == 0 {
      LowestBit(j);
    } else {
      OneBit(j / 2, p - 1);
      Doubled(j, Pow2(p - 1));
    }
  }

  lemma {:induction false} CarryBumps(m: nat, j: nat)
    requires j < Pow2(m) && Bump(m, j) != 0
    ensures m > 0 && Carried(j, Pow2(m) / 2) == Bump(m, j)
    decreases m
  {
    assert m > 0;
    OneBit(j, m - 1);
    hide And, Xor;
    assert Pow2(m) / 2 == Pow2(m - 1);
    if j >= Pow2(m - 1) {
      CarryBumps(m - 1, j - Pow2(m - 1));
    }
  }

  method SwapBoth(re: array<real>, im: array<real>, i: nat, j: nat)
    requires re != im && i < re.Length == im.Length && j < re.Length
    modifies re, im
    ensures Zip(re[..], im[..]) == Swapped(old(Zip(re[..], im[..])), i, j)
  {
    re[i], re[j] := re[j], re[i];
    im[i], im[j] := im[j], im[i];
  }

  function Swapped(z: seq<Complex>, i: nat, j: nat): (s: seq<Complex>)
    requires i < |z| && j < |z|
    ensures |s| == |z|
  {
    z[i := z[j]][j := z[i]]
  }

  /** The swap loop over both buffers. Other lengths than powers of two may run out of the buffers. */
  method Permute(re: array<real>, im: array<real>, ghost m: nat) returns (ok: bool)
    requires re != im && re.Length == im.Length
    modifies re, im
    ensures re.Length == 0 ==> ok
    ensures re.Length == Pow2(m) ==> ok && Zip(re[..], im[..]) == Shuffled(old(Zip(re[..], im[..])), m)
  {
    hide *;
    var n := re.Length;
    ghost var x := Zip(re[..], im[..]);
    if n == Pow2(m) {
      RearrangedStarts(x, m);
    }
    var j: nat := 0;
    var i := 1;
    while i < n
      invariant 1 <= i && (n > 0 ==> i <= n)
      invariant n == Pow2(m) ==> j < n && j == Reverse(m, i - 1)
      invariant n == Pow2(m) ==> Zip(re[..], im[..]) == Rearranged(x, m, i)
    {
      if n == Pow2(m) {
        BumpReverses(m, i - 1);
        RearrangedStep(x, m, i);
      }
      j := NextReversed(j, n);
      if i < j {
        if j >= n {
          return false;
        }
        SwapBoth(re, im, i, j);
      }
      i := i + 1;
    }
    if n == Pow2(m) {
      RearrangedEnds(x, m);
    }
    ok := true;
  }

  /** Where position p finds its sample once the swaps below i are done. */
  function Source(m: nat, i: nat, p: nat): (q: nat)
    requires p < Pow2(m)
    ensures q < Pow2(m)
  {
    if p < i || Reverse(m, p) < i then Reverse(m, p) else p
  }

  /** The samples x once the swaps below i are done. */
  function Rearranged(x: seq<Complex>, m: nat, i: nat): (z: seq<Complex>)
    requires |x| == Pow2(m)
    ensures |z| == |x|
  {
    seq(|x|, p requires 0 <= p < |x| => x[Source(m, i, p)])
  }

  lemma RearrangedStarts(x: seq<Complex>, m: nat)
    requires |x| == Pow2(m)
    ensures Rearranged(x, m, 1) == x && Reverse(m, 0) == 0
  {
    ReverseOfZero(m);
  }

  lemma RearrangedEnds(x: seq<Complex>, m: nat)
    requires |x| == Pow2(m)
    ensures Rearranged(x, m, Pow2(m)) == Shuffled(x, m)
  {
  }

  /** Step i exchanges positions i and Reverse(m, i) if the latter is still ahead, and nothing else. */
  lemma RearrangedStep(x: seq<Complex>, m: nat, i: nat)
    requires |x| == Pow2(m) && 0 < i < |x|
    ensures
      var j, z := Reverse(m, i), Rearranged(x, m, i);
      j > 0 && Rearranged(x, m, i + 1) == if i < j then Swapped(z, i, j) else z
  {
    ReverseInjective(m, i);
    ReverseInvolutive(m, i);
    hide Reverse;
  }

  lemma {:induction false} ReverseOfZero(m: nat)
    ensures Reverse(m, 0) == 0
    ensures forall p :: 0 <= p < Pow2(m) && Reverse(m, p) == 0 ==> p == 0
  {
    if m > 0 {
      ReverseOfZero(m - 1);
    }
    forall p | 0 <= p < Pow2(m) && Reverse(m, p) == 0 ensures p == 0 {
      ReverseInvolutive(m, p);
    }
  }

  /** Only Reverse(m, i) reverses to i. */
  lemma ReverseInjective(m: nat, i: nat)
    requires i < Pow2(m)
    ensures forall p :: 0 <= p < Pow2(m) ==> (Reverse(m, p) == i <==> p == Reverse(m, i))
    ensures i > 0 ==> Reverse(m, i) > 0
  {
    forall p | 0 <= p < Pow2(m) ensures Reverse(m, p) == i <==> p == Reverse(m, i) {
      ReverseInvolutive(m, p);
      ReverseInvolutive(m, i);
    }
    ReverseInvolutive(m, i);
    if i > 0 && Reverse(m, i) == 0 {
      ReverseOfZero(m);
    }
  }

  // ------------------------------------------------------------- the butterflies

  /** The block at i of the buffer z with its first k butterflies done. */
  function Mixed(z: seq<Complex>, i: nat, half: nat, w: Complex, k: nat): (r: seq<Complex>)
    requires i + 2 * half <= |z| && k <= half
    ensures |r| == |z|
  {
    seq(|z|, p requires 0 <= p < |z| =>
      if i <= p < i + k then Add(z[p], Mul(Pow(w, p - i), z[p + half]))
      else if i + half <= p < i + half + k then Sub(z[p - half], Mul(Pow(w, p - half - i), z[p]))
      else z[p])
  }

  function Butterflied(z: seq<Complex>, u: nat, v: nat, cur: Complex): (r: seq<Complex>)
    requires u < |z| && v < |z|
    ensures |r| == |z|
  {
    z[v := Sub(z[u], Mul(cur, z[v]))][u := Add(z[u], Mul(cur, z[v]))]
  }

  lemma MixedStep(z: seq<Complex>, i: nat, half: nat, w: Complex, k: nat)
    requires i + 2 * half <= |z| && k < half
    ensures Mixed(z, i, half, w, k + 1) == Butterflied(Mixed(z, i, half, w, k), i + k, i + k + half, Pow(w, k))
  {
    hide Mul, Add, Sub, Pow;
  }

  lemma MixedStarts(z: seq<Complex>, i: nat, half: nat, w: Complex)
    requires i + 2 * half <= |z|
    ensures Mixed(z, i, half, w, 0) == z
  {
  }

  lemma MixedEnds(z: seq<Complex>, i: nat, half: nat, w: Complex)
    requires i + 2 * half <= |z|
    ensures Mixed(z, i, half, w, half)
         == z[..i] + Combine(z[i..i + half], z[i + half..i + 2 * half], w) + z[i + 2 * half..]
  {
    hide Mul, Add, Sub, Pow, Combine, Mixed;
    var low, high := z[i..i + half], z[i + half..i + 2 * half];
    forall p | 0 <= p < |z|
      ensures Mixed(z, i, half, w, half)[p] == (z[..i] + Combine(low, high, w) + z[i + 2 * half..])[p]
    {
      MixedAt(z, i, half, w, p);
      if i <= p < i + 2 * half {
        CombineAt(low, high, w, p - i);
      }
    }
  }

  lemma MixedAt(z: seq<Complex>, i: nat, half: nat, w: Complex, p: nat)
    requires i + 2 * half <= |z| && p < |z|
    ensures Mixed(z, i, half, w, half)[p]
         == if i <= p < i + half then Add(z[p], Mul(Pow(w, p - i), z[p + half]))
            else if i + half <= p < i + 2 * half then Sub(z[p - half], Mul(Pow(w, p - half - i), z[p]))
            else z[p]
  {
    hide Mul, Add, Sub, Pow;
  }

  lemma CombineAt(low: seq<Complex>, high: seq<Complex>, w: Complex, k: nat)
    requires |low| == |high| && k < 2 * |low|
    ensures Combine(low, high, w)[k]
         == if k < |low| then Add(low[k], Mul(Pow(w, k), high[k]))
            else Sub(low[k - |low|], Mul(Pow(w, k - |low|), high[k - |low|]))
  {
    hide Mul, Add, Sub, Pow;
  }

  method Butterfly(re: array<real>, im: array<real>, u: nat, v: nat, cur: Complex)
    requires re != im && u < re.Length == im.Length && v < re.Length && u != v
    modifies re, im
    ensures Zip(re[..], im[..]) == Butterflied(old(Zip(re[..], im[..])), u, v, cur)
  {
    ghost var z := Zip(re[..], im[..]);
    var tRe := cur.re * re[v] - cur.im * im[v];
    var tIm := cur.re * im[v] + cur.im * re[v];
    ghost var t := C(tRe, tIm);
    assert t == Mul(cur, z[v]);
    hide Mul;
    re[v] := re[u] - tRe;
    im[v] := im[u] - tIm;
    re[u] := re[u] + tRe;
    im[u] := im[u] + tIm;
    assert Zip(re[..], im[..]) == z[v := Sub(z[u], t)][u := Add(z[u], t)];
  }

  /** One block: the inner loop. It runs out of the buffers exactly when the block does. */
  method Block(re: array<real>, im: array<real>, i: nat, half: nat, w: Complex) returns (ok: bool)
    requires re != im && re.Length == im.Length && half > 0
    modifies re, im
    ensures ok <==> i + 2 * half <= re.Length
    ensures ok ==>
      var z := old(Zip(re[..], im[..]));
      Zip(re[..], im[..])
        == z[..i] + Combine(z[i..i + half], z[i + half..i + 2 * half], w) + z[i + 2 * half..]
  {
    hide *;
    ghost var z := Zip(re[..], im[..]);
    ghost var fits := i + 2 * half <= re.Length;
    if fits {
      MixedStarts(z, i, half, w);
    }
    var cur := ONE;
    PowZero(w);
    for k := 0 to half
      invariant cur == Pow(w, k)
      invariant k > 0 ==> i + k + half <= re.Length
      invariant fits ==> Zip(re[..], im[..]) == Mixed(z, i, half, w, k)
    {
      var u, v := i + k, i + k + half;
      if v >= re.Length {
        return false;
      }
      if fits {
        MixedStep(z, i, half, w, k);
      }
      Butterfly(re, im, u, v, cur);
      cur := Mul(cur, w);
      PowNext(w, k);
    }
    MixedEnds(z, i, half, w);
    ok := true;
  }

  lemma PowZero(w: Complex)
    ensures Pow(w, 0) == ONE
  {
  }

  lemma PowNext(w: Complex, k: nat)
    ensures Mul(Pow(w, k), w) == Pow(w, k + 1)
  {
    hide Mul;
    MulCommutes(Pow(w, k), w);
  }

  /** One stage: the loop over the blocks. It runs out of the buffers exactly when they are not made of
      whole blocks. */
  method Stages(re: array<real>, im: array<real>, half: nat, w: Complex) returns (ok: bool)
    requires re != im && re.Length == im.Length && half > 0
    modifies re, im
    ensures ok <==> Whole(re.Length, half)
    ensures ok ==> Zip(re[..], im[..]) == Pass(old(Zip(re[..], im[..])), half, w)
  {
    hide *;
    ghost var z := Zip(re[..], im[..]);
    var n := re.Length;
    var i := 0;
    PassStarts(z, half, w);
    while i < n
      invariant i <= n && Whole(i, half)
      invariant Zip(re[..], im[..]) == PassedUpTo(z, i, half, w)
    {
      ok := Block(re, im, i, half, w);
      if !ok {
        NotWhole(i, n, half);
        return;
      }
      PassStep(z, i, half, w);
      i := i + 2 * half;
    }
    PassEnds(z, half, w);
    ok := true;
  }

  /** A length strictly between two multiples of a block. */
  lemma {:induction false} NotWhole(done: nat, length: nat, half: nat)
    requires half > 0 && Whole(done, half) && done < length < done + 2 * half
    ensures !Whole(length, half)
    decreases done
  {
    if done > 0 {
      NotWhole(done - 2 * half, length - 2 * half, half);
    }
  }

  /** The blocks below i are done. */
  function PassedUpTo(z: seq<Complex>, i: nat, half: nat, w: Complex): (r: seq<Complex>)
    requires i <= |z| && half > 0
    ensures |r| == |z|
  {
    Pass(z[..i], half, w) + z[i..]
  }

  lemma PassStarts(z: seq<Complex>, half: nat, w: Complex)
    requires half > 0
    ensures PassedUpTo(z, 0, half, w) == z && Whole(0, half)
  {
    assert z[..0] == [] && z[0..] == z;
  }

  lemma PassEnds(z: seq<Complex>, half: nat, w: Complex)
    requires half > 0
    ensures PassedUpTo(z, |z|, half, w) == Pass(z, half, w)
  {
    assert z[..|z|] == z;
  }

  lemma PassStep(z: seq<Complex>, i: nat, half: nat, w: Complex)
    requires half > 0 && i + 2 * half <= |z| && Whole(i, half)
    ensures Whole(i + 2 * half, half)
    ensures
      var r := PassedUpTo(z, i, half, w);
      PassedUpTo(z, i + 2 * half, half, w)
        == r[..i] + Combine(r[i..i + half], r[i + half..i + 2 * half], w) + r[i + 2 * half..]
  {
    hide *;
    WholeBlock(i, half);
    var end := i + 2 * half;
    PassGrows(z, i, half, w);
    ReplacedSlices(Pass(z[..i], half, w), z, i, i + half, end);
    PassedDefinition(z, i, half, w);
    PassedDefinition(z, end, half, w);
  }

  lemma PassGrows(z: seq<Complex>, i: nat, half: nat, w: Complex)
    requires half > 0 && Whole(i, half) && i + 2 * half <= |z|
    ensures Pass(z[..i + 2 * half], half, w)
      == Pass(z[..i], half, w) + Combine(z[i..i + half], z[i + half..i + 2 * half], w)
  {
    hide *;
    var low, high := z[i..i + half], z[i + half..i + 2 * half];
    assert z[..i] + (low + high) == z[..i + 2 * half];
    PassAppends(z[..i], low + high, half, w);
    PassOneBlock(low, high, w);
  }

  lemma PassedDefinition(z: seq<Complex>, i: nat, half: nat, w: Complex)
    requires i <= |z| && half > 0
    ensures PassedUpTo(z, i, half, w) == Pass(z[..i], half, w) + z[i..]
  {
  }

  lemma WholeBlock(done: nat, half: nat)
    requires half > 0 && Whole(done, half)
    ensures Whole(done + 2 * half, half)
  {
    assert Whole(0, half);
    WholeAdds(done, 2 * half, half);
  }

  lemma ReplacedSlices<T>(head: seq<T>, z: seq<T>, i: nat, middle: nat, end: nat)
    requires |head| == i <= middle <= end <= |z|
    ensures var r := head + z[i..];
      r[..i] == head && r[i..middle] == z[i..middle] && r[middle..end] == z[middle..end] && r[end..] == z[end..]
  {
  }

  // ------------------------------------------------------------- the transform

  ghost predicate IsPow2(n: nat) {
    exists m :: n == Pow2(m)
  }

  /** The complex buffers behind the magnitudes. For every power-of-two number of samples bin k is the
      plain discrete Fourier sum of the samples, and no samples give no bins; for every other number an
      index runs out of the buffers. */
  method Transform(samples: seq<real>, root: nat -> Complex)
    returns (ok: bool, re: array<real>, im: array<real>)
    requires Roots(root)
    ensures ok <==> |samples| == 0 || IsPow2(|samples|)
    ensures fresh(re) && fresh(im) && re.Length == im.Length == |samples|
    ensures ok ==> forall m | |samples| == Pow2(m) ::
      var x := Zip(samples, seq(|samples|, _ => 0.0));
      forall k :: 0 <= k < |samples| ==> C(re[k], im[k]) == Dft(x, root(m), k)
  {
    var n := |samples|;
    re := new real[n](i requires 0 <= i < n => samples[i]);
    im := new real[n](_ => 0.0);
    ghost var x := Zip(samples, seq(n, _ => 0.0));
    assert re[..] == samples && im[..] == seq(n, _ => 0.0);
    ghost var m: nat := 0;
    if IsPow2(n) {
      m :| n == Pow2(m);
    } else {
      PowerStep(0);
      assert n != Pow2(0);
    }
    ok := TransformBuffers(re, im, x, root, m);
    if n == Pow2(m) {
      forall l | n == Pow2(l) ensures l == m { PowersDiffer(l, m); }
    }
  }

  /** The permutation and the stages, on the buffers. */
  method TransformBuffers(re: array<real>, im: array<real>, ghost x: seq<Complex>, root: nat -> Complex, ghost m: nat)
    returns (ok: bool)
    requires Roots(root) && re != im && re.Length == im.Length && x == Zip(re[..], im[..])
    requires IsPow2(re.Length) ==> re.Length == Pow2(m)
    modifies re, im
    ensures ok <==> re.Length == 0 || re.Length == Pow2(m)
    ensures re.Length == Pow2(m) ==> forall k :: 0 <= k < re.Length ==> C(re[k], im[k]) == Dft(x, root(m), k)
  {
    hide *;
    var n := re.Length;
    ok := Permute(re, im, m);
    if !ok { return; }
    var length := 2;
    var s := 0; // length is 2^(s + 1): the angle of the root, in the code
    Begun(x, m, root);
    while length <= n
      invariant length == 2 * Pow2(s) && Divides(s, n)
      invariant n == Pow2(m) ==> s <= m && Zip(re[..], im[..]) == Stage(x, s, m, root)
      decreases n - length
    {
      if n == Pow2(m) {
        NextStage(x, s, m, root);
      }
      ok := Stages(re, im, length / 2, root(s + 1));
      if !ok { return; }
      length := length * 2;
      s := s + 1;
      PowerStep(s - 1);
      DividesNext(s - 1, n);
    }
    Ended(s, n, m);
    if n == Pow2(m) {
      LastStageIsDft(x, m, root);
      ZipAt(re[..], im[..]);
    }
  }

  /** The length is made of whole blocks of 2^s. */
  predicate Divides(s: nat, n: nat) {
    s == 0 || Whole(n, Pow2(s - 1))
  }

  lemma DividesNext(s: nat, n: nat)
    requires Whole(n, Pow2(s))
    ensures Divides(s + 1, n)
  {
  }

  lemma Begun(x: seq<Complex>, m: nat, root: nat -> Complex)
    ensures Pow2(0) == 1 && Divides(0, |x|)
    ensures |x| == Pow2(m) ==> Shuffled(x, m) == Stage(x, 0, m, root)
  {
    if |x| == Pow2(m) {
      ShuffledIsStageZero(x, m, root);
    }
  }

  lemma NextStage(x: seq<Complex>, s: nat, m: nat, root: nat -> Complex)
    requires Roots(root) && |x| == Pow2(m) && s <= m && 2 * Pow2(s) <= Pow2(m)
    ensures s < m && Whole(Pow2(m), Pow2(s))
    ensures Pass(Stage(x, s, m, root), Pow2(s), root(s + 1)) == Stage(x, s + 1, m, root)
  {
    hide Pass, Stage;
    PowersOrder(s, m);
    PowersAreWhole(s, m);
    PassAdvances(x, s, m, root);
  }

  /** Whole blocks of 2^s that are longer than half the length: the length is a power of two. */
  lemma Ended(s: nat, n: nat, m: nat)
    requires Divides(s, n) && 2 * Pow2(s) > n
    requires IsPow2(n) ==> n == Pow2(m)
    ensures n == 0 || n == Pow2(m) == Pow2(s)
    ensures n == Pow2(m) ==> s == m
  {
    if n > 0 {
      assert n == Pow2(s) by {
        if s > 0 {
          var half := Pow2(s - 1);
          assert n >= 2 * half && Whole(n - 2 * half, half);
        }
      }
      assert IsPow2(n);
      PowersDiffer(s, m);
    }
  }

  lemma {:induction false} PowersDiffer(s: nat, m: nat)
    ensures Pow2(s) == Pow2(m) <==> s == m
  {
    if s > 0 && m > 0 {
      PowersDiffer(s - 1, m - 1);
    }
  }

  lemma PowerStep(s: nat)
    ensures Pow2(0) == 1 && Pow2(s + 1) == 2 * Pow2(s)
  {
  }

  lemma {:induction false} PowersOrder(s: nat, m: nat)
    ensures s <= m ==> (2 * Pow2(s) <= Pow2(m) <==> s < m)
  {
    if s < m {
      PowersOrder(s, m - 1);
    }
  }

  lemma ZipAt(re: seq<real>, im: seq<real>)
    requires |re| == |im|
    ensures forall k :: 0 <= k < |re| ==> Zip(re, im)[k] == C(re[k], im[k])
  {
  }

  lemma LastStageIsDft(x: seq<Complex>, m: nat, root: nat -> Complex)
    requires |x| == Pow2(m)
    ensures forall k :: 0 <= k < |x| ==> Stage(x, m, m, root)[k] == Dft(x, root(m), k)
  {
    forall k | 0 <= k < |x| ensures Stage(x, m, m, root)[k] == Dft(x, root(m), k) {
      DftIsEval(x, root(m), k, |x|);
      assert x[..|x|] == x;
      hide Eval, Pow;
    }
  }
}
