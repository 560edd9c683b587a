/** Integer coefficient lists, lowest degree first, and the two facts secret sharing rests on:
    a list with as many roots as coefficients vanishes modulo p, and Lagrange's sum interpolates. */
module Polynomial {
  import opened Modular

  function Eval(c: seq<int>, x: int): int {
    if c == [] then 0 else c[0] + x * Eval(c[1..], x)
  }

  // ---- Sums of powers ----

  function Power(x: int, n: nat): int {
    if n == 0 then 1 else x * Power(x, n - 1)
  }

  /** The first n terms of c[0] + c[1]*x + c[2]*x^2 + ... */
  function PowerSum(c: seq<int>, x: int, n: nat): int
    requires n <= |c|
  {
    if n == 0 then 0 else PowerSum(c, x, n - 1) + c[n - 1] * Power(x, n - 1)
  }

  lemma {:induction false} EvalSnoc(c: seq<int>, a: int, x: int)
    ensures Eval(c + [a], x) == Eval(c, x) + a * Power(x, |c|)
  {
    if c == [] {
      assert c + [a] == [a] && [a][1..] == [];
    } else {
      assert (c + [a])[1..] == c[1..] + [a];
      EvalSnoc(c[1..], a, x);
      assert x * (Eval(c[1..], x) + a * Power(x, |c| - 1)) == x * Eval(c[1..], x) + a * (x * Power(x, |c| - 1));
    }
  }

  lemma {:induction false} HornerIsPowerSum(c: seq<int>, x: int, n: nat)
    requires n <= |c|
    ensures Eval(c[..n], x) == PowerSum(c, x, n)
  {
    if n > 0 {
      HornerIsPowerSum(c, x, n - 1);
      EvalSnoc(c[..n - 1], c[n - 1], x);
      assert c[..n - 1] + [c[n - 1]] == c[..n];
    }
  }

  // ---- Division by x - r and the number of roots ----

  /** Quotient of c by x - r (synthetic division); the remainder is Eval(c, r). */
  function Quotient(c: seq<int>, r: int): (q: seq<int>)
    ensures |q| == if |c| == 0 then 0 else |c| - 1
  {
    if |c| <= 1 then [] else [Eval(c[1..], r)] + Quotient(c[1..], r)
  }

  lemma EvalCons(a: int, c: seq<int>, x: int)
    ensures Eval([a] + c, x) == a + x * Eval(c, x)
  {
    assert ([a] + c)[1..] == c;
  }

  lemma FactorStep(a: int, x: int, r: int, u: int, v: int, w: int)
    requires u - v == (x - r) * w
    ensures (a + x * u) - (a + r * v) == (x - r) * (v + x * w)
  {
    assert x * u - r * v == x * (u - v) + (x - r) * v;
    assert x * ((x - r) * w) == (x - r) * (x * w);
  }

  lemma {:induction false} FactorTheorem(c: seq<int>, r: int, x: int)
    ensures Eval(c, x) - Eval(c, r) == (x - r) * Eval(Quotient(c, r), x)
  {
    if |c| == 1 {
      assert c[1..] == [];
    } else if |c| > 1 {
      var d := c[1..];
      FactorTheorem(d, r, x);
      assert c == [c[0]] + d;
      EvalCons(c[0], d, x);
      EvalCons(c[0], d, r);
      EvalCons(Eval(d, r), Quotient(d, r), x);
      FactorStep(c[0], x, r, Eval(d, x), Eval(d, r), Eval(Quotient(d, r), x));
    }
  }

  ghost predicate AllZero(c: seq<int>, p: int)
    requires p > 0
  {
    forall i :: 0 <= i < |c| ==> Cong(c[i], 0, p)
  }

  ghost predicate DistinctMod(xs: seq<int>, p: int)
    requires p > 0
  {
    forall i, j :: 0 <= i < j < |xs| ==> !Cong(xs[i], xs[j], p)
  }

  /** If every root factor's quotient vanishes modulo p, so does the list. */
  lemma {:induction false} ZeroFromQuotient(c: seq<int>, r: int, p: int)
    requires p > 0 && AllZero(Quotient(c, r), p) && Cong(Eval(c, r), 0, p)
    ensures AllZero(c, p)
  {
    if |c| == 1 {
      assert c[1..] == [];
    } else if |c| > 1 {
      var d := c[1..];
      var q := Quotient(c, r);
      assert q[1..] == Quotient(d, r) && q[0] == Eval(d, r);
      forall i | 0 <= i < |d| - 1 ensures Cong(Quotient(d, r)[i], 0, p) {
        assert q[1..][i] == q[i + 1];
      }
      ZeroFromQuotient(d, r, p);
      ZeroCancel(c[0], r, Eval(d, r), p);
      assert forall i :: 1 <= i < |c| ==> c[i] == d[i - 1];
    }
  }

  /** Modulo a prime, a coefficient list with at least |c| incongruent roots is zero everywhere. */
  lemma {:induction false} TooManyRoots(c: seq<int>, roots: seq<int>, p: int)
    requires IsPrime(p) && |roots| >= |c| && DistinctMod(roots, p)
    requires forall i :: 0 <= i < |roots| ==> Cong(Eval(c, roots[i]), 0, p)
    ensures AllZero(c, p)
    decreases |c|
  {
    if c != [] {
      var r, rest, q := roots[0], roots[1..], Quotient(c, roots[0]);
      forall i | 0 <= i < |rest| ensures Cong(Eval(q, rest[i]), 0, p) {
        var s := rest[i];
        assert s == roots[i + 1];
        FactorTheorem(c, r, s);
        CongLinear(Eval(c, s), 0, Eval(c, r), 0, 1, -1, p);
        PrimeDividesProduct(s - r, Eval(q, s), p);
        if Cong(s, r, p) { CongSym(s, r, p); }
      }
      assert DistinctMod(rest, p);
      TooManyRoots(q, rest, p);
      ZeroFromQuotient(c, r, p);
    }
  }

  lemma {:induction false} EvalZero(c: seq<int>, x: int, p: int)
    requires p > 0 && AllZero(c, p)
    ensures Cong(Eval(c, x), 0, p)
  {
    if c != [] {
      EvalZero(c[1..], x, p);
      CongLinear(c[0], 0, Eval(c[1..], x), 0, 1, x, p);
    }
  }

  // ---- Linear operations ----

  /** a + k*b, coefficient by coefficient. */
  function Combo(a: seq<int>, k: int, b: seq<int>): (c: seq<int>)
    requires |a| == |b|
    ensures |c| == |a| && forall i :: 0 <= i < |c| ==> c[i] == a[i] + k * b[i]
  {
    if a == [] then [] else [a[0] + k * b[0]] + Combo(a[1..], k, b[1..])
  }

  lemma ComboStep(x: int, k: int, b: int, u: int, v: int)
    ensures k * b + x * (u + k * v) == x * u + k * (b + x * v)
  {
    assert x * (u + k * v) == x * u + k * (x * v);
    assert k * (b + x * v) == k * b + k * (x * v);
  }

  lemma {:induction false} EvalCombo(a: seq<int>, k: int, b: seq<int>, x: int)
    requires |a| == |b|
    ensures Eval(Combo(a, k, b), x) == Eval(a, x) + k * Eval(b, x)
  {
    if a != [] {
      EvalCombo(a[1..], k, b[1..], x);
      assert Combo(a, k, b)[1..] == Combo(a[1..], k, b[1..]);
      ComboStep(x, k, b[0], Eval(a[1..], x), Eval(b[1..], x));
    }
  }

  /** The same polynomial with zero coefficients up to length n. */
  function Pad(c: seq<int>, n: nat): (d: seq<int>)
    requires |c| <= n
    ensures |d| == n
    decreases n - |c|
  {
    if |c| == n then c else Pad(c + [0], n)
  }

  lemma {:induction false} EvalPad(c: seq<int>, n: nat, x: int)
    requires |c| <= n
    ensures Eval(Pad(c, n), x) == Eval(c, x)
    decreases n - |c|
  {
    if |c| < n {
      EvalPad(c + [0], n, x);
      EvalSnoc(c, 0, x);
    }
  }

  /** Every coefficient reduced modulo p. */
  function Reduce(c: seq<int>, p: int): (d: seq<int>)
    requires p > 0
    ensures |d| == |c| && forall i :: 0 <= i < |d| ==> d[i] == c[i] % p
  {
    if c == [] then [] else [c[0] % p] + Reduce(c[1..], p)
  }

  lemma {:induction false} EvalReduce(c: seq<int>, p: int, x: int)
    requires p > 0
    ensures Cong(Eval(Reduce(c, p), x), Eval(c, x), p)
  {
    if c != [] {
      EvalReduce(c[1..], p, x);
      assert Reduce(c, p)[1..] == Reduce(c[1..], p);
      CongMod(c[0], p);
      CongLinear(c[0] % p, c[0], Eval(Reduce(c[1..], p), x), Eval(c[1..], x), 1, x, p);
    }
  }

  // ---- Products of linear factors ----

  /** (t - xs[0]) * (t - xs[1]) * ... */
  function Product(t: int, xs: seq<int>): int {
    if xs == [] then 1 else Product(t, xs[..|xs| - 1]) * (t - xs[|xs| - 1])
  }

  /** c multiplied by t - a. */
  function TimesLinear(c: seq<int>, a: int): (d: seq<int>)
    ensures |d| == |c| + 1
  {
    Combo([0] + c, -a, c + [0])
  }

  lemma EvalTimesLinear(c: seq<int>, a: int, t: int)
    ensures Eval(TimesLinear(c, a), t) == Eval(c, t) * (t - a)
  {
    EvalCombo([0] + c, -a, c + [0], t);
    EvalSnoc(c, 0, t);
    assert ([0] + c)[1..] == c;
    LinearFactor(t, a, Eval(c, t));
  }

  lemma LinearFactor(t: int, a: int, v: int)
    ensures t * v + (-a) * v == v * (t - a)
  {
  }

  /** The coefficients of that product, as a polynomial in t. */
  function Vanishing(xs: seq<int>): (c: seq<int>)
    ensures |c| == |xs| + 1
  {
    if xs == [] then [1] else TimesLinear(Vanishing(xs[..|xs| - 1]), xs[|xs| - 1])
  }

  lemma {:induction false} EvalVanishing(xs: seq<int>, t: int)
    ensures Eval(Vanishing(xs), t) == Product(t, xs)
  {
    if xs == [] {
      assert [1][1..] == [];
    } else {
      EvalVanishing(xs[..|xs| - 1], t);
      EvalTimesLinear(Vanishing(xs[..|xs| - 1]), xs[|xs| - 1], t);
    }
  }

  /** Modulo a prime the product vanishes exactly at its own points. */
  lemma {:induction false} ProductZeroIff(t: int, xs: seq<int>, p: int)
    requires IsPrime(p)
    ensures Cong(Product(t, xs), 0, p) <==> exists k :: 0 <= k < |xs| && Cong(t, xs[k], p)
  {
    if xs == [] {
      DivisionUnique(1, 0, 1, p);
    } else {
      var ys, a := xs[..|xs| - 1], xs[|xs| - 1];
      ProductZeroIff(t, ys, p);
      assert forall k :: 0 <= k < |ys| ==> ys[k] == xs[k];
      var u := Product(t, ys);
      if Cong(u * (t - a), 0, p) {
        PrimeDividesProduct(u, t - a, p);
      }
      if Cong(u, 0, p) { ZeroScale(u, t - a, p); }
      if Cong(t, a, p) { ZeroScale(t - a, u, p); }
    }
  }

  // ---- Lagrange interpolation ----

  /** The first j points except the one at index i. */
  function Others(xs: seq<int>, i: nat, j: nat): (r: seq<int>)
    requires i < |xs| && j <= |xs|
  {
    if j <= i then xs[..j] else xs[..i] + xs[i + 1..j]
  }

  lemma OthersSnoc(xs: seq<int>, i: nat, j: nat)
    requires i < |xs| && j < |xs|
    ensures Others(xs, i, j + 1) == if j == i then Others(xs, i, j) else Others(xs, i, j) + [xs[j]]
  {
  }

  lemma OthersMember(xs: seq<int>, i: nat, k: nat)
    requires i < |xs| && k < |xs| && i != k
    ensures xs[k] in Others(xs, i, |xs|)
  {
    var o := Others(xs, i, |xs|);
    assert o[if k < i then k else k - 1] == xs[k];
  }

  /** w[i] * (product of t - xs[j] over j != i). */
  function Term(xs: seq<int>, w: seq<int>, i: nat, t: int): int
    requires i < |w| && i < |xs|
  {
    w[i] * Product(t, Others(xs, i, |xs|))
  }

  /** The sum of the first n terms. */
  function LagrangeSum(xs: seq<int>, w: seq<int>, n: nat, t: int): int
    requires n <= |w| && n <= |xs|
  {
    if n == 0 then 0
    else LagrangeSum(xs, w, n - 1, t) + Term(xs, w, n - 1, t)
  }

  /** Its coefficients. */
  function LagrangePoly(xs: seq<int>, w: seq<int>, n: nat): (c: seq<int>)
    requires n <= |w| && n <= |xs|
    ensures |c| == |xs|
  {
    if n == 0 then seq(|xs|, _ => 0)
    else Combo(LagrangePoly(xs, w, n - 1), w[n - 1], Vanishing(Others(xs, n - 1, |xs|)))
  }

  lemma {:induction false} EvalLagrange(xs: seq<int>, w: seq<int>, n: nat, t: int, p: int)
    requires n <= |w| && n <= |xs| && p > 0
    ensures Cong(Eval(LagrangePoly(xs, w, n), t), LagrangeSum(xs, w, n, t), p)
  {
    if n == 0 {
      EvalZero(LagrangePoly(xs, w, 0), t, p);
    } else {
      var v := Vanishing(Others(xs, n - 1, |xs|));
      EvalLagrange(xs, w, n - 1, t, p);
      EvalCombo(LagrangePoly(xs, w, n - 1), w[n - 1], v, t);
      EvalVanishing(Others(xs, n - 1, |xs|), t);
      CongShift(Eval(LagrangePoly(xs, w, n - 1), t), LagrangeSum(xs, w, n - 1, t), w[n - 1] * Eval(v, t), p);
    }
  }

  /** w[i] is ys[i] divided by the product of xs[i] - xs[j] over j != i. */
  ghost predicate Weights(xs: seq<int>, ys: seq<int>, w: seq<int>, p: int)
    requires p > 0
  {
    |xs| == |ys| == |w| &&
    forall i :: 0 <= i < |xs| ==> Cong(w[i] * Product(xs[i], Others(xs, i, |xs|)), ys[i], p)
  }

  lemma OtherTermVanishes(xs: seq<int>, i: nat, k: nat, p: int)
    requires IsPrime(p) && i < |xs| && k < |xs| && i != k
    ensures Cong(Product(xs[k], Others(xs, i, |xs|)), 0, p)
  {
    var others := Others(xs, i, |xs|);
    OthersMember(xs, i, k);
    var j :| 0 <= j < |others| && others[j] == xs[k];
    assert Cong(xs[k], others[j], p);
    ProductZeroIff(xs[k], others, p);
  }

  function SumTo(terms: seq<int>, n: nat): int
    requires n <= |terms|
  {
    if n == 0 then 0 else SumTo(terms, n - 1) + terms[n - 1]
  }

  function Terms(xs: seq<int>, w: seq<int>, t: int): (terms: seq<int>)
    requires |w| == |xs|
  {
    seq(|xs|, i requires 0 <= i < |xs| => Term(xs, w, i, t))
  }

  lemma TermAt(xs: seq<int>, w: seq<int>, t: int, i: nat)
    requires |w| == |xs| && i < |xs|
    ensures Terms(xs, w, t)[i] == Term(xs, w, i, t)
  {
  }

  lemma {:induction false} LagrangeSumIsSum(xs: seq<int>, w: seq<int>, n: nat, t: int)
    requires |w| == |xs| && n <= |xs|
    ensures LagrangeSum(xs, w, n, t) == SumTo(Terms(xs, w, t), n)
  {
    if n > 0 {
      LagrangeSumIsSum(xs, w, n - 1, t);
      TermAt(xs, w, t, n - 1);
    }
  }

  /** A sum whose terms vanish, all but one, is that one. */
  lemma {:induction false} SumOfOne(terms: seq<int>, n: nat, k: nat, y: int, p: int)
    requires p > 0 && n <= |terms| && k < |terms| && Cong(terms[k], y, p)
    requires forall i :: 0 <= i < |terms| && i != k ==> Cong(terms[i], 0, p)
    ensures Cong(SumTo(terms, n), if k < n then y else 0, p)
  {
    if n > 0 {
      SumOfOne(terms, n - 1, k, y, p);
      var sum, c, d := SumTo(terms, n - 1), if k < n - 1 then y else 0, if k == n - 1 then y else 0;
      assert c + d == (if k < n then y else 0) && SumTo(terms, n) == sum + terms[n - 1];
      CongAdd(sum, c, terms[n - 1], d, p);
    }
  }

  lemma LagrangeHitsPoint(xs: seq<int>, y: int, w: seq<int>, k: nat, p: int)
    requires IsPrime(p) && |w| == |xs| && k < |xs| && Cong(w[k] * Product(xs[k], Others(xs, k, |xs|)), y, p)
    ensures Cong(LagrangeSum(xs, w, |xs|, xs[k]), y, p)
  {
    var terms := Terms(xs, w, xs[k]);
    forall i | 0 <= i < |terms| && i != k ensures Cong(terms[i], 0, p) {
      OtherTermVanishes(xs, i, k, p);
      ZeroScale(Product(xs[k], Others(xs, i, |xs|)), w[i], p);
    }
    SumOfOne(terms, |xs|, k, y, p);
    LagrangeSumIsSum(xs, w, |xs|, xs[k]);
  }

  /** The difference between f, padded, and Lagrange's polynomial. */
  function Gap(f: seq<int>, xs: seq<int>, w: seq<int>): (d: seq<int>)
    requires |f| <= |xs| == |w|
    ensures |d| == |xs|
  {
    Combo(Pad(f, |xs|), -1, LagrangePoly(xs, w, |xs|))
  }

  lemma EvalGap(f: seq<int>, xs: seq<int>, w: seq<int>, t: int)
    requires |f| <= |xs| == |w|
    ensures Eval(Gap(f, xs, w), t) == Eval(f, t) + -1 * Eval(LagrangePoly(xs, w, |xs|), t)
  {
    EvalCombo(Pad(f, |xs|), -1, LagrangePoly(xs, w, |xs|), t);
    EvalPad(f, |xs|, t);
  }

  lemma PolyHitsPoint(xs: seq<int>, ys: seq<int>, w: seq<int>, i: nat, p: int)
    requires IsPrime(p) && Weights(xs, ys, w, p) && i < |xs|
    ensures Cong(Eval(LagrangePoly(xs, w, |xs|), xs[i]), ys[i], p)
  {
    EvalLagrange(xs, w, |xs|, xs[i], p);
    LagrangeHitsPoint(xs, ys[i], w, i, p);
    CongTrans(Eval(LagrangePoly(xs, w, |xs|), xs[i]), LagrangeSum(xs, w, |xs|, xs[i]), ys[i], p);
  }

  lemma GapVanishes(f: seq<int>, xs: seq<int>, w: seq<int>, x: int, y: int, p: int)
    requires p > 0 && |f| <= |xs| == |w|
    requires Cong(Eval(f, x), y, p) && Cong(Eval(LagrangePoly(xs, w, |xs|), x), y, p)
    ensures Cong(Eval(Gap(f, xs, w), x), 0, p)
  {
    EvalGap(f, xs, w, x);
    CongDifference(Eval(f, x), Eval(LagrangePoly(xs, w, |xs|), x), y, p);
  }

  ghost predicate Through(f: seq<int>, xs: seq<int>, ys: seq<int>, p: int)
    requires p > 0
  {
    |xs| == |ys| && forall i :: 0 <= i < |xs| ==> Cong(Eval(f, xs[i]), ys[i], p)
  }

  lemma GapIsZero(f: seq<int>, xs: seq<int>, ys: seq<int>, w: seq<int>, p: int)
    requires IsPrime(p) && DistinctMod(xs, p) && Weights(xs, ys, w, p) && |f| <= |xs| && Through(f, xs, ys, p)
    ensures AllZero(Gap(f, xs, w), p)
  {
    var d := Gap(f, xs, w);
    forall i | 0 <= i < |xs| ensures Cong(Eval(d, xs[i]), 0, p) {
      PolyHitsPoint(xs, ys, w, i, p);
      GapVanishes(f, xs, w, xs[i], ys[i], p);
    }
    TooManyRoots(d, xs, p);
  }

  lemma {:induction false} NoGap(f: seq<int>, xs: seq<int>, w: seq<int>, t: int, p: int)
    requires p > 0 && |f| <= |xs| == |w| && AllZero(Gap(f, xs, w), p)
    ensures Cong(Eval(f, t), Eval(LagrangePoly(xs, w, |xs|), t), p)
  {
    GapEvalZero(f, xs, w, t, p);
    CongFromDifference(Eval(f, t), Eval(LagrangePoly(xs, w, |xs|), t), p);
  }

  lemma {:induction false} GapEvalZero(f: seq<int>, xs: seq<int>, w: seq<int>, t: int, p: int)
    requires p > 0 && |f| <= |xs| == |w| && AllZero(Gap(f, xs, w), p)
    ensures Cong(Eval(f, t) + -1 * Eval(LagrangePoly(xs, w, |xs|), t), 0, p)
  {
    EvalZero(Gap(f, xs, w), t, p);
    EvalGap(f, xs, w, t);
  }

  /** A coefficient list no longer than the number of points agrees with Lagrange's sum everywhere. */
  lemma LagrangeInterpolates(f: seq<int>, xs: seq<int>, ys: seq<int>, w: seq<int>, t: int, p: int)
    requires IsPrime(p) && DistinctMod(xs, p) && Weights(xs, ys, w, p) && |f| <= |xs| && Through(f, xs, ys, p)
    ensures Cong(Eval(f, t), LagrangeSum(xs, w, |xs|, t), p)
  {
    GapIsZero(f, xs, ys, w, p);
    NoGap(f, xs, w, t, p);
    EvalLagrange(xs, w, |xs|, t, p);
    CongTrans(Eval(f, t), Eval(LagrangePoly(xs, w, |xs|), t), LagrangeSum(xs, w, |xs|, t), p);
  }
}
