/** Arithmetic modulo a prime: exactly what secret reconstruction needs from number theory.
    Primality is always a hypothesis; inverses are computed by the extended Euclidean algorithm. */
module Modular {
  import opened Basics

  ghost predicate IsPrime(p: int) {
    p > 1 && forall d :: 1 < d < p ==> p % d != 0
  }

  /** a and b leave the same remainder modulo m. */
  predicate Cong(a: int, b: int, m: int)
    requires m > 0
  {
    (a - b) % m == 0
  }

  // ---- Euclidean division ----

  lemma MulBounds(k: int, m: int)
    requires m > 0
    ensures k >= 1 ==> k * m >= m
    ensures k <= 0 ==> k * m <= 0
    ensures k <= -1 ==> k * m <= -m
  {
  }

  lemma DivisionUnique(x: int, q: int, r: int, m: int)
    requires m > 0 && 0 <= r < m && x == q * m + r
    ensures x / m == q && x % m == r
  {
    var d := q - x / m;
    assert d * m == q * m - (x / m) * m;
    MulBounds(d, m);
  }

  lemma MultipleIsZero(k: int, m: int)
    requires m > 0
    ensures (k * m) % m == 0
  {
    DivisionUnique(k * m, k, 0, m);
  }

  lemma CongIff(a: int, b: int, m: int)
    requires m > 0
    ensures Cong(a, b, m) <==> a % m == b % m
  {
    var d := a / m - b / m;
    assert a - b == d * m + (a % m - b % m) by {
      assert a == (a / m) * m + a % m && b == (b / m) * m + b % m;
    }
    if a % m >= b % m {
      DivisionUnique(a - b, d, a % m - b % m, m);
    } else {
      assert (d - 1) * m == d * m - m;
      DivisionUnique(a - b, d - 1, a % m - b % m + m, m);
    }
  }

  lemma CongMod(a: int, m: int)
    requires m > 0
    ensures Cong(a % m, a, m) && Cong(a, a % m, m)
  {
    assert a % m - a == -(a / m) * m;
    MultipleIsZero(-(a / m), m);
    MultipleIsZero(a / m, m);
  }

  lemma CongLinear(a: int, b: int, c: int, d: int, x: int, y: int, m: int)
    requires m > 0 && Cong(a, b, m) && Cong(c, d, m)
    ensures Cong(x * a + y * c, x * b + y * d, m)
  {
    var j, k := (a - b) / m, (c - d) / m;
    assert a - b == j * m && c - d == k * m;
    assert x * a + y * c - (x * b + y * d) == x * (a - b) + y * (c - d);
    assert x * (j * m) + y * (k * m) == (x * j + y * k) * m;
    MultipleIsZero(x * j + y * k, m);
  }

  lemma CongAdd(a: int, b: int, c: int, d: int, m: int)
    requires m > 0 && Cong(a, b, m) && Cong(c, d, m)
    ensures Cong(a + c, b + d, m)
  {
    CongLinear(a, b, c, d, 1, 1, m);
  }

  lemma CongMul(a: int, b: int, c: int, d: int, m: int)
    requires m > 0 && Cong(a, b, m) && Cong(c, d, m)
    ensures Cong(a * c, b * d, m)
  {
    CongLinear(a, b, 0, 0, c, 0, m);
    CongLinear(c, d, 0, 0, b, 0, m);
    CongTrans(a * c, b * c, b * d, m);
  }

  lemma CongTrans(a: int, b: int, c: int, m: int)
    requires m > 0 && Cong(a, b, m) && Cong(b, c, m)
    ensures Cong(a, c, m)
  {
    CongIff(a, b, m);
    CongIff(b, c, m);
    CongIff(a, c, m);
  }

  lemma CongSym(a: int, b: int, m: int)
    requires m > 0 && Cong(a, b, m)
    ensures Cong(b, a, m)
  {
    CongIff(a, b, m);
    CongIff(b, a, m);
  }

  lemma CongScale(a: int, b: int, k: int, m: int)
    requires m > 0 && Cong(a, b, m)
    ensures Cong(k * a, k * b, m)
  {
    CongLinear(a, b, 0, 0, k, 0, m);
  }

  lemma CongShift(a: int, b: int, c: int, m: int)
    requires m > 0 && Cong(a, b, m)
    ensures Cong(a + c, b + c, m)
  {
  }

  lemma CongFromDifference(a: int, b: int, m: int)
    requires m > 0 && Cong(a + -1 * b, 0, m)
    ensures Cong(a, b, m)
  {
  }

  lemma ZeroScale(a: int, k: int, m: int)
    requires m > 0 && Cong(a, 0, m)
    ensures Cong(k * a, 0, m) && Cong(a * k, 0, m)
  {
    CongLinear(a, 0, 0, 0, k, 0, m);
  }

  lemma ZeroCancel(a: int, x: int, b: int, m: int)
    requires m > 0 && Cong(a + x * b, 0, m) && Cong(b, 0, m)
    ensures Cong(a, 0, m)
  {
    CongLinear(a + x * b, 0, b, 0, 1, -x, m);
    assert (-x) * b == -(x * b);
  }

  lemma CongDifference(a: int, b: int, c: int, m: int)
    requires m > 0 && Cong(a, c, m) && Cong(b, c, m)
    ensures Cong(a + -1 * b, 0, m)
  {
    CongLinear(a, c, b, c, 1, -1, m);
  }

  lemma ModMul(a: int, k: int, m: int)
    requires m > 0
    ensures ((a % m) * k) % m == (a * k) % m
  {
    CongMod(a, m);
    CongLinear(a % m, a, 0, 0, k, 0, m);
    CongIff((a % m) * k, a * k, m);
  }

  lemma ModAdd(a: int, b: int, c: int, m: int)
    requires m > 0 && b % m == c % m
    ensures (a % m + b) % m == (a + c) % m
  {
    CongMod(a, m);
    CongIff(b, c, m);
    CongAdd(a % m, a, b, c, m);
    CongIff(a % m + b, a + c, m);
  }

  // ---- Greatest common divisor and inverses ----

  /** (g, x, y) with g the greatest common divisor of a and b, and g == a*x + b*y. */
  function ExtendedGcd(a: nat, b: nat): (r: (nat, int, int))
    decreases b
  {
    if b == 0 then (a, 1, 0)
    else
      var (g, x, y) := ExtendedGcd(b, a % b);
      (g, y, x - (a / b) * y)
  }

  /** One step of the algorithm, for a == q*b + r: a common divisor of b and r is one of a and b. */
  lemma GcdStep(a: int, b: int, q: int, r: int, g: int, x: int, y: int)
    requires a == q * b + r && g > 0 && g == b * x + r * y && b % g == 0 && r % g == 0
    ensures g == a * y + b * (x - q * y) && a % g == 0
  {
    assert a * y == (q * b) * y + r * y;
    assert (q * b) * y == b * (q * y);
    assert b * (x - q * y) == b * x - b * (q * y);
    CongLinear(b, 0, r, 0, q, 1, g);
  }

  lemma {:induction false} GcdFacts(a: nat, b: nat)
    requires a > 0 || b > 0
    ensures var (g, x, y) := ExtendedGcd(a, b);
            g > 0 && g == a * x + b * y && a % g == 0 && b % g == 0
    decreases b
  {
    if b == 0 {
      MultipleIsZero(1, a);
    } else {
      var (g, x, y) := ExtendedGcd(b, a % b);
      GcdFacts(b, a % b);
      GcdStep(a, b, a / b, a % b, g, x, y);
    }
  }

  /** math/big's ModInverse: the inverse in [0, m), or nil when a and m share a factor. */
  function ModInverse(a: int, m: int): (r: Option<int>)
    requires m > 1
  {
    var (g, x, _) := ExtendedGcd(a % m, m);
    if g != 1 then None else Some(x % m)
  }

  /** Modulo a prime the inverse exists exactly for the residues that are not zero. */
  lemma InverseModPrime(a: int, p: int)
    requires IsPrime(p)
    ensures ModInverse(a, p).Some? <==> a % p != 0
    ensures var r := ModInverse(a, p); r.Some? ==> 0 <= r.value < p && Cong(a * r.value, 1, p)
  {
    var (g, x, y) := ExtendedGcd(a % p, p);
    GcdFacts(a % p, p);
    if a % p == 0 {
      assert g == p * y;
      MulBounds(y, p);
    } else {
      var k := (a % p) / g;
      assert a % p == k * g;
      MulBounds(k, g);
      assert g == 1;
      assert (a % p) * x - 1 == (-y) * p;
      MultipleIsZero(-y, p);
      CongMod(a, p);
      CongMod(x, p);
      CongMul(a, a % p, x % p, x, p);
      CongTrans(a * (x % p), (a % p) * x, 1, p);
    }
  }

  /** Euclid's lemma. */
  lemma PrimeDividesProduct(a: int, b: int, p: int)
    requires IsPrime(p) && (a * b) % p == 0
    ensures a % p == 0 || b % p == 0
  {
    if a % p != 0 {
      InverseModPrime(a, p);
      var i := ModInverse(a, p).value;
      CongLinear(a * i, 1, 0, 0, b, 0, p);
      CongLinear(a * b, 0, 0, 0, i, 0, p);
      assert b * (a * i) == i * (a * b);
      CongSym(b * (a * i), b, p);
      CongTrans(b, b * (a * i), 0, p);
    }
  }
}
