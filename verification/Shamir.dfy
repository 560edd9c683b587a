/** Shamir secret sharing (internal/shamir/shamir.go) over GF(p), for any prime p. */
module Shamir {
  import opened Basics
  import opened Modular
  import opened Polynomial

  type Share = (int, int)

  datatype Error = BadThreshold | EmptySecret | SecretTooLarge | TooFewShares | InverseFailed
  datatype Result<+T> = Ok(value: T) | Err(error: Error)

  // ---- Big-endian bytes: big.Int's SetBytes and Bytes ----

  function FromBytes(b: seq<Byte>): (n: nat) {
    if b == [] then 0 else FromBytes(b[..|b| - 1]) * 256 + b[|b| - 1]
  }

  function ToBytes(n: nat): (b: seq<Byte>) {
    if n == 0 then [] else ToBytes(n / 256) + [n % 256]
  }

  function StripZeros(b: seq<Byte>): (r: seq<Byte>) {
    if b != [] && b[0] == 0 then StripZeros(b[1..]) else b
  }

  lemma {:induction false} StripSnoc(b: seq<Byte>, d: Byte)
    ensures StripZeros(b + [d]) == if StripZeros(b) == [] && d == 0 then [] else StripZeros(b) + [d]
  {
    if b == [] {
      assert b + [d] == [d] && [d][1..] == [];
    } else if b[0] == 0 {
      assert (b + [d])[1..] == b[1..] + [d];
      StripSnoc(b[1..], d);
    }
  }

  lemma ToBytesSnoc(n: nat, d: Byte)
    ensures ToBytes(n * 256 + d) == if n == 0 && d == 0 then [] else ToBytes(n) + [d]
  {
    DivisionUnique(n * 256 + d, n, d, 256);
  }

  /** Decoding and re-encoding loses exactly the leading zero bytes. */
  lemma {:induction false} BytesRoundTrip(b: seq<Byte>)
    ensures ToBytes(FromBytes(b)) == StripZeros(b)
    ensures FromBytes(b) == 0 <==> StripZeros(b) == []
  {
    if b != [] {
      var c, d := b[..|b| - 1], b[|b| - 1];
      BytesRoundTrip(c);
      StripSnoc(c, d);
      assert c + [d] == b && FromBytes(b) == FromBytes(c) * 256 + d;
      ToBytesSnoc(FromBytes(c), d);
      assert FromBytes(b) == 0 <==> FromBytes(c) == 0 && d == 0;
    }
  }

  lemma {:induction false} StripShortens(b: seq<Byte>)
    ensures |StripZeros(b)| <= |b|
    ensures StripZeros(b) == b <==> (b == [] || b[0] != 0)
  {
    if b != [] && b[0] == 0 {
      StripShortens(b[1..]);
    }
  }

  // ---- evalPoly ----

  /** The running-power loop computes the sum of c[i] * x^i, reduced modulo p. */
  method EvalPoly(c: seq<int>, x: int, p: int) returns (r: int)
    requires p > 1
    ensures r == PowerSum(c, x, |c|) % p
    ensures r == Eval(c, x) % p
  {
    r := 0;
    var xPow := 1;
    DivisionUnique(0, 0, 0, p);
    DivisionUnique(1, 0, 1, p);
    for i := 0 to |c|
      invariant r == PowerSum(c, x, i) % p
      invariant xPow == Power(x, i) % p
    {
      EvalPolyStep(PowerSum(c, x, i), Power(x, i), c[i], x, p);
      r := (r + c[i] * xPow) % p;
      xPow := (xPow * x) % p;
    }
    HornerIsPowerSum(c, x, |c|);
    assert c[..|c|] == c;
  }

  lemma EvalPolyStep(sum: int, power: int, a: int, x: int, p: int)
    requires p > 1
    ensures (sum % p + a * (power % p)) % p == (sum + a * power) % p
    ensures ((power % p) * x) % p == (x * power) % p
  {
    ModMul(power, a, p);
    ModAdd(sum, a * (power % p), a * power, p);
    ModMul(power, x, p);
  }

  // ---- Split ----

  /** The secret as constant term, then k-1 random draws. */
  function Coefficients(secret: int, rand: nat -> int, k: nat): (c: seq<int>)
    requires k >= 1
    ensures |c| == k && c[0] == secret
  {
    [secret] + seq(k - 1, i requires 0 <= i => rand(i))
  }

  /** The shares are the points of c at 1, 2, 3, ... */
  ghost predicate SharesOf(c: seq<int>, shares: seq<Share>, p: int)
    requires p > 0
  {
    forall i :: 0 <= i < |shares| ==> shares[i] == (i + 1, Eval(c, i + 1) % p)
  }

  /** n shares of the secret under a threshold k, for the random draws rand. */
  ghost predicate Splits(secret: int, rand: nat -> int, k: nat, n: nat, shares: seq<Share>, p: int)
    requires p > 0 && k >= 1
  {
    |shares| == n && SharesOf(Coefficients(secret, rand, k), shares, p)
  }

  method Split(secret: seq<Byte>, k: int, n: int, rand: nat -> int, p: int) returns (r: Result<seq<Share>>)
    requires p > 1 && forall i: nat :: 0 <= rand(i) < p
    ensures r.Ok? <==> 2 <= k <= n && secret != [] && FromBytes(secret) < p
    ensures r.Ok? ==> Splits(FromBytes(secret), rand, k, n, r.value, p)
    ensures k < 2 || n < 2 || k > n ==> r == Err(BadThreshold)
    ensures 2 <= k <= n ==> r.Err? ==> r.error == if secret == [] then EmptySecret else SecretTooLarge
  {
    if k < 2 || n < 2 || k > n {
      return Err(BadThreshold);
    }
    if |secret| == 0 {
      return Err(EmptySecret);
    }
    var s := FromBytes(secret);
    if s >= p {
      return Err(SecretTooLarge);
    }
    var coeffs := [s];
    for i := 1 to k
      invariant coeffs == Coefficients(s, rand, i)
    {
      coeffs := coeffs + [rand(i - 1)];
    }
    var shares := [];
    for i := 0 to n
      invariant |shares| == i
      invariant forall j :: 0 <= j < i ==> shares[j] == (j + 1, Eval(coeffs, j + 1) % p)
    {
      var y := EvalPoly(coeffs, i + 1, p);
      shares := shares + [(i + 1, y)];
    }
    return Ok(shares);
  }

  // ---- Combine ----

  function Xs(shares: seq<Share>): (xs: seq<int>)
    ensures |xs| == |shares|
  {
    seq(|shares|, i requires 0 <= i < |shares| => shares[i].0)
  }

  function Ys(shares: seq<Share>): (ys: seq<int>)
    ensures |ys| == |shares|
  {
    seq(|shares|, i requires 0 <= i < |shares| => shares[i].1)
  }

  /** The inner loop: both Lagrange products over j != i, kept reduced. */
  method LagrangeFactors(shares: seq<Share>, i: nat, p: int) returns (numerator: int, denominator: int)
    requires p > 1 && i < |shares|
    ensures numerator == Product(0, Others(Xs(shares), i, |shares|)) % p
    ensures denominator == Product(shares[i].0, Others(Xs(shares), i, |shares|)) % p
  {
    ghost var xs := Xs(shares);
    numerator, denominator := 1, 1;
    DivisionUnique(1, 0, 1, p);
    for j := 0 to |shares|
      invariant numerator == Product(0, Others(xs, i, j)) % p
      invariant denominator == Product(shares[i].0, Others(xs, i, j)) % p
    {
      OthersSnoc(xs, i, j);
      if j != i {
        ProductStep(0, Others(xs, i, j), xs[j], p);
        ProductStep(shares[i].0, Others(xs, i, j), xs[j], p);
        numerator := (numerator * -shares[j].0) % p;
        denominator := (denominator * (shares[i].0 - shares[j].0)) % p;
      }
    }
  }

  lemma ProductStep(t: int, xs: seq<int>, x: int, p: int)
    requires p > 1
    ensures (Product(t, xs) % p * (t - x)) % p == Product(t, xs + [x]) % p
  {
    assert (xs + [x])[..|xs|] == xs;
    ModMul(Product(t, xs), t - x, p);
  }

  /** The i-th denominator has no inverse exactly when another share has the same x modulo p. */
  lemma DenominatorZeroIff(xs: seq<int>, i: nat, p: int)
    requires IsPrime(p) && i < |xs|
    ensures Product(xs[i], Others(xs, i, |xs|)) % p == 0 <==>
            exists j :: 0 <= j < |xs| && j != i && Cong(xs[i], xs[j], p)
  {
    var o := Others(xs, i, |xs|);
    ProductZeroIff(xs[i], o, p);
    if k :| 0 <= k < |o| && Cong(xs[i], o[k], p) {
      assert o[k] == xs[if k < i then k else k + 1];
    }
    if j :| 0 <= j < |xs| && j != i && Cong(xs[i], xs[j], p) {
      assert o[if j < i then j else j - 1] == xs[j];
    }
  }

  /** y * inverse is a Lagrange weight when the inverse is one of the reduced denominator. */
  lemma WeightStep(y: int, den: int, inv: int, p: int)
    requires p > 1 && Cong((den % p) * inv, 1, p)
    ensures Cong((y * inv) * den, y, p)
  {
    ModMul(den, inv, p);
    CongIff(den * inv, 1, p);
    CongIff((den % p) * inv, 1, p);
    CongScale(den * inv, 1, y, p);
    assert y * (den * inv) == (y * inv) * den;
  }

  lemma Regroup(a: int, b: int, c: int)
    ensures a * b * c == b * (a * c) && a * (b * c) == (b * c) * a
  {
    assert a * b * c == (b * a) * c == b * (a * c);
  }

  lemma SecretStep(acc: int, y: int, num: int, inv: int, p: int)
    requires p > 1
    ensures (acc % p + (y * (num % p) * inv) % p) % p == (acc + (y * inv) * num) % p
  {
    Regroup(y, num % p, inv);
    Regroup(num, y, inv);
    ModMul(num, y * inv, p);
    var t := (num * (y * inv)) % p;
    DivisionUnique(t, 0, t, p);
    ModAdd(acc, t, num * (y * inv), p);
  }

  /** One pass of the outer loop: the term added to the secret, or nil when the inverse does not exist. */
  method LagrangeTerm(shares: seq<Share>, i: nat, p: int) returns (term: Option<int>, ghost weight: int)
    requires IsPrime(p) && i < |shares|
    ensures term.None? ==> !DistinctMod(Xs(shares), p)
    ensures term.Some? ==> forall j :: 0 <= j < |shares| && j != i ==> !Cong(Xs(shares)[i], Xs(shares)[j], p)
    ensures term.Some? ==>
      Cong(weight * Product(Xs(shares)[i], Others(Xs(shares), i, |shares|)), Ys(shares)[i], p)
    ensures term.Some? ==> forall acc ::
      (acc % p + term.value) % p == (acc + weight * Product(0, Others(Xs(shares), i, |shares|))) % p
  {
    var numerator, denominator := LagrangeFactors(shares, i, p);
    var inv := ModInverse(denominator, p);
    ghost var xs := Xs(shares);
    ghost var den, num := Product(xs[i], Others(xs, i, |xs|)), Product(0, Others(xs, i, |xs|));
    DenominatorFacts(xs, i, den, p);
    if inv.None? {
      return None, 0;
    }
    var yi := shares[i].1;
    WeightStep(yi, den, inv.value, p);
    weight := yi * inv.value;
    term := Some((yi * numerator * inv.value) % p);
    forall acc ensures (acc % p + term.value) % p == (acc + weight * num) % p {
      SecretStep(acc, yi, num, inv.value, p);
    }
  }

  /** The bytes are the constant term of every polynomial, of degree below the number of shares, through the shares. */
  ghost predicate Reconstructs(b: seq<Byte>, shares: seq<Share>, p: int)
    requires p > 0
  {
    forall f: seq<int> :: 0 < |f| <= |shares| && Through(f, Xs(shares), Ys(shares), p) ==> b == ToBytes(f[0] % p)
  }

  /** Combine fails exactly on fewer than two shares or two equal x values modulo p; otherwise it returns
      the constant term of every polynomial of degree below the number of shares that passes through them. */
  method Combine(shares: seq<Share>, p: int) returns (r: Result<seq<Byte>>)
    requires IsPrime(p)
    ensures r.Ok? <==> |shares| >= 2 && DistinctMod(Xs(shares), p)
    ensures r.Err? ==> r.error == if |shares| < 2 then TooFewShares else InverseFailed
    ensures r.Ok? ==> Reconstructs(r.value, shares, p)
  {
    if |shares| < 2 {
      return Err(TooFewShares);
    }
    ghost var xs, ys := Xs(shares), Ys(shares);
    ghost var w: seq<int> := [];
    var secret := 0;
    DivisionUnique(0, 0, 0, p);
    for i := 0 to |shares|
      invariant Progress(xs, ys, w, i, p)
      invariant 0 <= secret == LagrangeSum(xs, w, i, 0) % p
    {
      var term, weight := LagrangeTerm(shares, i, p);
      if term.None? {
        return Err(InverseFailed);
      }
      ProgressStep(xs, ys, w, i, weight, p);
      LagrangeSumSnoc(xs, w, weight, 0);
      secret := (secret + term.value) % p;
      w := w + [weight];
    }
    CombineResult(xs, ys, w, p);
    return Ok(ToBytes(secret));
  }

  /** The first n weights are right and the first n points differ from all others. */
  ghost predicate Progress(xs: seq<int>, ys: seq<int>, w: seq<int>, n: nat, p: int)
    requires p > 0
  {
    |w| == n <= |xs| == |ys| &&
    (forall k :: 0 <= k < n ==> Cong(w[k] * Product(xs[k], Others(xs, k, |xs|)), ys[k], p)) &&
    forall k, j :: 0 <= k < n && 0 <= j < |xs| && j != k ==> !Cong(xs[k], xs[j], p)
  }

  lemma ProgressStep(xs: seq<int>, ys: seq<int>, w: seq<int>, n: nat, weight: int, p: int)
    requires p > 0 && Progress(xs, ys, w, n, p) && n < |xs|
    requires Cong(weight * Product(xs[n], Others(xs, n, |xs|)), ys[n], p)
    requires forall j :: 0 <= j < |xs| && j != n ==> !Cong(xs[n], xs[j], p)
    ensures Progress(xs, ys, w + [weight], n + 1, p)
  {
  }

  lemma DenominatorFacts(xs: seq<int>, i: nat, den: int, p: int)
    requires IsPrime(p) && i < |xs| && den == Product(xs[i], Others(xs, i, |xs|))
    ensures ModInverse(den % p, p).None? ==> !DistinctMod(xs, p)
    ensures ModInverse(den % p, p).Some? ==> Cong((den % p) * ModInverse(den % p, p).value, 1, p)
    ensures ModInverse(den % p, p).Some? ==> forall j :: 0 <= j < |xs| && j != i ==> !Cong(xs[i], xs[j], p)
  {
    InverseModPrime(den % p, p);
    DivisionUnique(den % p, 0, den % p, p);
    DenominatorZeroIff(xs, i, p);
    if j :| 0 <= j < |xs| && j != i && Cong(xs[i], xs[j], p) {
      CongSym(xs[i], xs[j], p);
    }
  }

  lemma {:induction false} LagrangeSumPrefix(xs: seq<int>, w: seq<int>, w': seq<int>, n: nat, t: int)
    requires n <= |w| <= |w'| && n <= |xs| && w == w'[..|w|]
    ensures LagrangeSum(xs, w, n, t) == LagrangeSum(xs, w', n, t)
  {
    if n > 0 {
      LagrangeSumPrefix(xs, w, w', n - 1, t);
      assert w[n - 1] == w'[n - 1];
    }
  }

  lemma {:induction false} LagrangeSumSnoc(xs: seq<int>, w: seq<int>, weight: int, t: int)
    requires |w| < |xs|
    ensures LagrangeSum(xs, w + [weight], |w| + 1, t) ==
            LagrangeSum(xs, w, |w|, t) + weight * Product(t, Others(xs, |w|, |xs|))
  {
    assert (w + [weight])[..|w|] == w && (w + [weight])[|w|] == weight;
    LagrangeSumPrefix(xs, w, w + [weight], |w|, t);
  }

  lemma CombineResult(xs: seq<int>, ys: seq<int>, w: seq<int>, p: int)
    requires IsPrime(p) && Progress(xs, ys, w, |xs|, p)
    ensures DistinctMod(xs, p)
    ensures forall f: seq<int> :: 0 < |f| <= |xs| && Through(f, xs, ys, p) ==>
      LagrangeSum(xs, w, |xs|, 0) % p == f[0] % p
  {
    forall f: seq<int> | 0 < |f| <= |xs| && Through(f, xs, ys, p)
      ensures LagrangeSum(xs, w, |xs|, 0) % p == f[0] % p
    {
      LagrangeInterpolates(f, xs, ys, w, 0, p);
      assert Eval(f, 0) == f[0];
      CongIff(Eval(f, 0), LagrangeSum(xs, w, |xs|, 0), p);
    }
  }

  // ---- Any k shares rebuild the secret ----

  ghost predicate DistinctIndices(idx: seq<nat>, n: nat) {
    (forall i :: 0 <= i < |idx| ==> idx[i] < n) &&
    forall i, j :: 0 <= i < j < |idx| ==> idx[i] != idx[j]
  }

  lemma SharesFit(c: seq<int>, shares: seq<Share>, p: int)
    requires p > 1 && forall i :: 0 <= i < |shares| ==> shares[i].1 == Eval(c, shares[i].0) % p
    ensures Through(c, Xs(shares), Ys(shares), p)
  {
    forall i | 0 <= i < |shares| ensures Cong(Eval(c, Xs(shares)[i]), Ys(shares)[i], p) {
      CongMod(Eval(c, shares[i].0), p);
    }
  }

  lemma SmallDistinct(xs: seq<int>, p: int)
    requires p > 1 && forall i :: 0 <= i < |xs| ==> 0 <= xs[i] < p
    requires forall i, j :: 0 <= i < j < |xs| ==> xs[i] != xs[j]
    ensures DistinctMod(xs, p)
  {
    forall i, j | 0 <= i < j < |xs| ensures !Cong(xs[i], xs[j], p) {
      DivisionUnique(xs[i], 0, xs[i], p);
      DivisionUnique(xs[j], 0, xs[j], p);
      CongIff(xs[i], xs[j], p);
    }
  }

  lemma PickedShares(c: seq<int>, shares: seq<Share>, idx: seq<nat>, picked: seq<Share>, p: int)
    requires p > 1 && |shares| < p && DistinctIndices(idx, |shares|) && |picked| == |idx|
    requires SharesOf(c, shares, p)
    requires forall i :: 0 <= i < |idx| ==> picked[i] == shares[idx[i]]
    ensures Through(c, Xs(picked), Ys(picked), p) && DistinctMod(Xs(picked), p)
  {
    SharesFit(c, picked, p);
    forall i, j | 0 <= i < j < |picked| ensures Xs(picked)[i] != Xs(picked)[j] {
      assert idx[i] != idx[j];
    }
    SmallDistinct(Xs(picked), p);
  }

  lemma ConstantTerm(c: seq<int>, b: seq<Byte>, shares: seq<Share>, p: int)
    requires p > 0 && Reconstructs(b, shares, p) && 0 < |c| <= |shares| && Through(c, Xs(shares), Ys(shares), p)
    ensures b == ToBytes(c[0] % p)
  {
  }

  method CombinePicked(shares: seq<Share>, idx: seq<nat>, ghost c: seq<int>, p: int) returns (r: Result<seq<Byte>>)
    requires IsPrime(p) && |shares| < p && SharesOf(c, shares, p) && DistinctIndices(idx, |shares|)
    requires |idx| >= 2 && 0 < |c| <= |idx|
    ensures r == Ok(ToBytes(c[0] % p))
  {
    var picked := seq(|idx|, i requires 0 <= i < |idx| => shares[idx[i]]);
    PickedShares(c, shares, idx, picked, p);
    r := Combine(picked, p);
    ConstantTerm(c, r.value, picked, p);
  }

  lemma SecretBytes(secret: seq<Byte>, p: int)
    requires p > 1 && secret != [] && FromBytes(secret) < p
    ensures ToBytes(FromBytes(secret) % p) == StripZeros(secret)
    ensures StripZeros(secret) == secret <==> secret[0] != 0
  {
    DivisionUnique(FromBytes(secret), 0, FromBytes(secret), p);
    BytesRoundTrip(secret);
    StripShortens(secret);
  }

  /** Splitting and then combining any at least k distinct shares, in any order, gives the secret back up to
      leading zero bytes, and gives it back byte for byte exactly when the secret has no leading zero byte. */
  method SplitThenCombine(secret: seq<Byte>, k: int, n: int, rand: nat -> int, idx: seq<nat>, p: int)
    returns (r: Result<seq<Byte>>)
    requires IsPrime(p) && 2 <= k <= n < p && forall i: nat :: 0 <= rand(i) < p
    requires secret != [] && FromBytes(secret) < p
    requires |idx| >= k && DistinctIndices(idx, n)
    ensures r == Ok(StripZeros(secret))
    ensures r == Ok(secret) <==> secret[0] != 0
  {
    var split := Split(secret, k, n, rand, p);
    r := CombinePicked(split.value, idx, Coefficients(FromBytes(secret), rand, k), p);
    SecretBytes(secret, p);
  }

  // ---- Fewer than k shares say nothing ----

  ghost predicate Fits(c: seq<int>, k: nat, secret: int, shares: seq<Share>, p: int)
    requires p > 1
  {
    |c| == k && (forall i :: 0 <= i < k ==> 0 <= c[i] < p) && k > 0 && c[0] == secret &&
    forall i :: 0 <= i < |shares| ==> Eval(c, shares[i].0) % p == shares[i].1
  }

  lemma WeightsExist(xs: seq<int>, ys: seq<int>, n: nat, p: int) returns (w: seq<int>)
    requires IsPrime(p) && |xs| == |ys| && DistinctMod(xs, p) && n <= |xs|
    ensures |w| == n && forall i :: 0 <= i < n ==> Cong(w[i] * Product(xs[i], Others(xs, i, |xs|)), ys[i], p)
  {
    w := [];
    for i := 0 to n
      invariant |w| == i
      invariant forall j :: 0 <= j < i ==> Cong(w[j] * Product(xs[j], Others(xs, j, |xs|)), ys[j], p)
    {
      var den := Product(xs[i], Others(xs, i, |xs|));
      DenominatorFacts(xs, i, den, p);
      var inv := ModInverse(den % p, p).value;
      WeightStep(ys[i], den, inv, p);
      w := w + [ys[i] * inv];
    }
  }

  lemma InterpolantExists(xs: seq<int>, ys: seq<int>, p: int) returns (c: seq<int>)
    requires IsPrime(p) && |xs| == |ys| && DistinctMod(xs, p)
    ensures |c| == |xs| && (forall i :: 0 <= i < |c| ==> 0 <= c[i] < p) && Through(c, xs, ys, p)
  {
    var w := WeightsExist(xs, ys, |xs|, p);
    var l := LagrangePoly(xs, w, |xs|);
    c := Reduce(l, p);
    forall i | 0 <= i < |xs| ensures Cong(Eval(c, xs[i]), ys[i], p) {
      EvalReduce(l, p, xs[i]);
      PolyHitsPoint(xs, ys, w, i, p);
      CongTrans(Eval(c, xs[i]), Eval(l, xs[i]), ys[i], p);
    }
  }

  lemma InterpolantUnique(c: seq<int>, d: seq<int>, xs: seq<int>, ys: seq<int>, p: int)
    requires IsPrime(p) && |c| == |d| == |xs| == |ys| && DistinctMod(xs, p)
    requires forall i :: 0 <= i < |c| ==> 0 <= c[i] < p && 0 <= d[i] < p
    requires Through(c, xs, ys, p) && Through(d, xs, ys, p)
    ensures c == d
  {
    var e := Combo(c, -1, d);
    forall i | 0 <= i < |xs| ensures Cong(Eval(e, xs[i]), 0, p) {
      EvalCombo(c, -1, d, xs[i]);
      CongDifference(Eval(c, xs[i]), Eval(d, xs[i]), ys[i], p);
    }
    TooManyRoots(e, xs, p);
    forall i | 0 <= i < |c| ensures c[i] == d[i] {
      CongFromDifference(c[i], d[i], p);
      CongIff(c[i], d[i], p);
      DivisionUnique(c[i], 0, c[i], p);
      DivisionUnique(d[i], 0, d[i], p);
    }
  }

  /** Adding the point (0, secret) turns a coefficient list that fits into one through k points. */
  lemma FitsIff(c: seq<int>, k: nat, secret: int, shares: seq<Share>, p: int)
    requires IsPrime(p) && 0 <= secret < p && |c| == k > 0 && forall i :: 0 <= i < k ==> 0 <= c[i] < p
    requires forall i :: 0 <= i < |shares| ==> 0 <= shares[i].1 < p
    ensures Fits(c, k, secret, shares, p) <==> Through(c, [0] + Xs(shares), [secret] + Ys(shares), p)
  {
    var xs, ys := [0] + Xs(shares), [secret] + Ys(shares);
    assert Eval(c, 0) == c[0];
    PointIff(c[0], secret, p);
    DivisionUnique(c[0], 0, c[0], p);
    forall i | 0 <= i < |shares|
      ensures Eval(c, shares[i].0) % p == shares[i].1 <==> Cong(Eval(c, xs[i + 1]), ys[i + 1], p)
    {
      PointIff(Eval(c, shares[i].0), shares[i].1, p);
    }
    assert Cong(Eval(c, xs[0]), ys[0], p) <==> c[0] == secret;
    if Through(c, xs, ys, p) {
      forall i | 0 <= i < |shares| ensures Eval(c, shares[i].0) % p == shares[i].1 {
        assert Cong(Eval(c, xs[i + 1]), ys[i + 1], p);
      }
    }
    if Fits(c, k, secret, shares, p) {
      forall i | 0 <= i < |xs| ensures Cong(Eval(c, xs[i]), ys[i], p) {
        if i > 0 { assert Eval(c, shares[i - 1].0) % p == shares[i - 1].1; }
      }
    }
  }

  lemma PointIff(v: int, y: int, p: int)
    requires p > 1 && 0 <= y < p
    ensures v % p == y <==> Cong(v, y, p)
  {
    CongIff(v, y, p);
    DivisionUnique(y, 0, y, p);
  }

  /** For any k-1 shares at distinct non-zero points and any candidate secret there is exactly one
      coefficient list in [0, p)^k that has that secret and produces those shares. */
  lemma SharesFitEverySecretOnce(k: nat, secret: int, shares: seq<Share>, p: int)
    requires IsPrime(p) && k > 0 && |shares| == k - 1 && 0 <= secret < p
    requires forall i :: 0 <= i < |shares| ==> 0 <= shares[i].1 < p && !Cong(0, shares[i].0, p)
    requires DistinctMod(Xs(shares), p)
    ensures exists c :: Fits(c, k, secret, shares, p) && forall d :: Fits(d, k, secret, shares, p) ==> d == c
  {
    var xs, ys := [0] + Xs(shares), [secret] + Ys(shares);
    forall i, j | 0 <= i < j < |xs| ensures !Cong(xs[i], xs[j], p) {
      assert xs[j] == Xs(shares)[j - 1] == shares[j - 1].0;
      if i > 0 { assert xs[i] == Xs(shares)[i - 1]; }
    }
    var c := InterpolantExists(xs, ys, p);
    FitsIff(c, k, secret, shares, p);
    forall d | Fits(d, k, secret, shares, p) ensures d == c {
      FitsIff(d, k, secret, shares, p);
      InterpolantUnique(c, d, xs, ys, p);
    }
  }

  ghost predicate DrawsAre(rand: nat -> int, d: seq<int>) {
    forall i :: 0 <= i < |d| ==> rand(i) == d[i]
  }

  ghost predicate Show(shares: seq<Share>, idx: seq<nat>, ys: seq<int>) {
    |idx| == |ys| && forall i :: 0 <= i < |idx| ==> idx[i] < |shares| && shares[idx[i]] == (idx[i] + 1, ys[i])
  }

  /** Draws in [0, p) with which every split of the secret has the values ys at the indices idx. */
  ghost predicate Leads(d: seq<int>, secret: int, k: nat, n: nat, idx: seq<nat>, ys: seq<int>, p: int)
    requires p > 0 && k >= 1
  {
    |d| == k - 1 && (forall i :: 0 <= i < |d| ==> 0 <= d[i] < p) &&
    forall rand, shares :: DrawsAre(rand, d) && Splits(secret, rand, k, n, shares, p) ==> Show(shares, idx, ys)
  }

  lemma DrawnCoefficients(secret: int, rand: nat -> int, d: seq<int>)
    requires DrawsAre(rand, d)
    ensures Coefficients(secret, rand, |d| + 1) == [secret] + d
  {
  }

  /** The draws lead to the values exactly when they are the coefficients that fit the shares. */
  lemma LeadsIff(d: seq<int>, secret: int, k: nat, n: nat, idx: seq<nat>, ys: seq<int>, known: seq<Share>, p: int)
    requires p > 1 && k >= 1 && 0 <= secret < p && |idx| == |ys| == |known| && |d| == k - 1 && DistinctIndices(idx, n)
    requires forall i :: 0 <= i < |known| ==> known[i] == (idx[i] + 1, ys[i])
    ensures Leads(d, secret, k, n, idx, ys, p) <==> Fits([secret] + d, k, secret, known, p)
  {
    var c := [secret] + d;
    assert forall i :: 0 < i < |c| ==> c[i] == d[i - 1];
    if Fits(c, k, secret, known, p) {
      forall i | 0 <= i < |d| ensures 0 <= d[i] < p { assert c[i + 1] == d[i]; }
      forall rand, shares | DrawsAre(rand, d) && Splits(secret, rand, k, n, shares, p) ensures Show(shares, idx, ys) {
        DrawnCoefficients(secret, rand, d);
        forall i | 0 <= i < |idx| ensures shares[idx[i]] == (idx[i] + 1, ys[i]) {
          assert Eval(c, known[i].0) % p == known[i].1;
        }
      }
    }
    if Leads(d, secret, k, n, idx, ys, p) {
      var rand := (i: nat) => if i < |d| then d[i] else 0;
      var shares := seq(n, i requires 0 <= i < n => (i + 1, Eval(c, i + 1) % p));
      DrawnCoefficients(secret, rand, d);
      assert DrawsAre(rand, d) && Splits(secret, rand, k, n, shares, p);
      forall i | 0 <= i < |known| ensures Eval(c, known[i].0) % p == known[i].1 {
        assert shares[idx[i]] == (idx[i] + 1, ys[i]);
      }
    }
  }

  /** Splitting hides the secret: whatever values are seen at k-1 of the shares, each candidate secret explains them by
      exactly one list of draws. */
  lemma SplitHidesTheSecret(secret: int, k: nat, n: nat, idx: seq<nat>, ys: seq<int>, p: int)
    requires IsPrime(p) && 1 <= k <= n < p && 0 <= secret < p
    requires |idx| == |ys| == k - 1 && DistinctIndices(idx, n) && forall i :: 0 <= i < |ys| ==> 0 <= ys[i] < p
    ensures exists d :: Leads(d, secret, k, n, idx, ys, p) && forall e :: Leads(e, secret, k, n, idx, ys, p) ==> e == d
  {
    var known := seq(k - 1, i requires 0 <= i < k - 1 => (idx[i] + 1, ys[i]));
    KnownShares(idx, ys, n, known, p);
    SharesFitEverySecretOnce(k, secret, known, p);
    var c :| Fits(c, k, secret, known, p) && forall e :: Fits(e, k, secret, known, p) ==> e == c;
    var d := c[1..];
    assert c == [secret] + d;
    LeadsIff(d, secret, k, n, idx, ys, known, p);
    forall e | Leads(e, secret, k, n, idx, ys, p) ensures e == d {
      LeadsIff(e, secret, k, n, idx, ys, known, p);
      assert ([secret] + e)[1..] == e;
    }
  }

  lemma KnownShares(idx: seq<nat>, ys: seq<int>, n: nat, known: seq<Share>, p: int)
    requires p > 1 && n < p && |idx| == |ys| == |known| && DistinctIndices(idx, n)
    requires forall i :: 0 <= i < |known| ==> known[i] == (idx[i] + 1, ys[i])
    ensures DistinctMod(Xs(known), p) && forall i :: 0 <= i < |known| ==> !Cong(0, known[i].0, p)
  {
    forall i, j | 0 <= i < j < |known| ensures Xs(known)[i] != Xs(known)[j] {
      assert idx[i] != idx[j];
    }
    SmallDistinct(Xs(known), p);
    forall i | 0 <= i < |known| ensures !Cong(0, known[i].0, p) {
      DivisionUnique(0, 0, 0, p);
      DivisionUnique(known[i].0, 0, known[i].0, p);
      CongIff(0, known[i].0, p);
    }
  }
}
