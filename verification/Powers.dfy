/** Powers and congruences: the algebra that the modular arithmetic of the login protocol rests on. */
module Powers {

  function Pow(b: int, e: nat): int {
    if e == 0 then 1 else b * Pow(b, e - 1)
  }

  /** The remainder of JavaScript's BigInt `%`: it truncates, so it takes the sign of the dividend. */
  function JsRem(a: int, m: int): int
    requires m != 0
  {
    if a >= 0 then a % m else -((-a) % m)
  }

  // a and b differ by a multiple of m
  predicate Cong(a: int, b: int, m: int)
    requires m > 0
  {
    a % m == b % m
  }

  lemma MultipleAtLeast(k: int, m: int)
    requires k >= 1 && m > 0
    ensures k * m >= m
  {
    assert k * m == (k - 1) * m + m;
  }

  lemma DivModUnique(x: int, m: int, q: int, r: int)
    requires 0 <= r < m && x == q * m + r
    ensures x / m == q && x % m == r
  {
    var d := q - x / m;
    assert d * m == q * m - (x / m) * m == x % m - r;
    assert (-d) * m == -(d * m);
    if d >= 1 {
      MultipleAtLeast(d, m);
    } else if d <= -1 {
      MultipleAtLeast(-d, m);
    }
  }

  lemma DigitBounds(base: int, p: int, q: int, r: int, d: int)
    requires 0 <= r < p && 0 <= d < base
    ensures base * (q * p + r) + d == q * (base * p) + (base * r + d)
    ensures 0 <= base * r + d < base * p
  {
    MultipleAtLeast(p - r, base);
    assert (p - r) * base == base * p - base * r;
    assert base * (q * p + r) == q * (base * p) + base * r;
    if r > 0 {
      MultipleAtLeast(r, base);
    }
  }

  // Taking the residue modulo base * p keeps the last digit and the residue of the rest.
  lemma DigitStep(n: int, base: int, p: int)
    requires base > 0 && p > 0
    ensures base * p > 0
    ensures n % (base * p) == base * (n / base % p) + n % base
    ensures n / (base * p) == n / base / p
  {
    var m := n / base;
    DigitBounds(base, p, m / p, m % p, n % base);
    DivModUnique(n, base * p, m / p, base * (m % p) + n % base);
  }

  lemma CongShift(x: int, k: int, m: int)
    requires m > 0
    ensures Cong(x + k * m, x, m)
  {
    assert x + k * m == (x / m + k) * m + x % m;
    DivModUnique(x + k * m, m, x / m + k, x % m);
  }

  // Congruent numbers differ by a known multiple.
  lemma CongDifference(a: int, b: int, m: int) returns (k: int)
    requires m > 0 && Cong(a, b, m)
    ensures a == b + k * m
  {
    k := a / m - b / m;
    assert a == (a / m) * m + a % m && b == (b / m) * m + b % m;
  }

  lemma CongMul(a: int, a': int, b: int, b': int, m: int)
    requires m > 0 && Cong(a, a', m) && Cong(b, b', m)
    ensures Cong(a * b, a' * b', m)
  {
    var k := CongDifference(a, a', m);
    var l := CongDifference(b, b', m);
    calc {
      a * b;
      (a' + k * m) * (b' + l * m);
      a' * b' + (a' * l + k * b' + k * m * l) * m;
    }
    CongShift(a' * b', a' * l + k * b' + k * m * l, m);
  }

  lemma CongAdd(a: int, a': int, b: int, b': int, m: int)
    requires m > 0 && Cong(a, a', m) && Cong(b, b', m)
    ensures Cong(a + b, a' + b', m)
  {
    var k := CongDifference(a, a', m);
    var l := CongDifference(b, b', m);
    assert (k + l) * m == k * m + l * m;
    CongShift(a' + b', k + l, m);
  }

  lemma CongSub(a: int, a': int, b: int, b': int, m: int)
    requires m > 0 && Cong(a, a', m) && Cong(b, b', m)
    ensures Cong(a - b, a' - b', m)
  {
    var k := CongDifference(a, a', m);
    var l := CongDifference(b, b', m);
    assert (k - l) * m == k * m - l * m;
    CongShift(a' - b', k - l, m);
  }

  lemma CongDivisor(x: int, y: int, m: int, p: int, q: int)
    requires m > 0 && p > 0 && m == q * p && Cong(x, y, m)
    ensures Cong(x, y, p)
  {
    var k := CongDifference(x, y, m);
    assert k * m == (k * q) * p;
    CongShift(y, k * q, p);
  }

  lemma CongMod(a: int, m: int)
    requires m > 0
    ensures Cong(a % m, a, m)
  {
    DivModUnique(a % m, m, 0, a % m);
  }

  lemma {:induction false} CongPow(a: int, b: int, e: nat, m: int)
    requires m > 0 && Cong(a, b, m)
    ensures Cong(Pow(a, e), Pow(b, e), m)
  {
    if e > 0 {
      CongPow(a, b, e - 1, m);
      CongMul(a, b, Pow(a, e - 1), Pow(b, e - 1), m);
    }
  }

  lemma JsRemCong(a: int, m: int)
    requires m > 0
    ensures Cong(JsRem(a, m), a, m) && -m < JsRem(a, m) < m
    ensures a >= 0 ==> JsRem(a, m) == a % m
  {
    if a >= 0 {
      CongMod(a, m);
    } else {
      var q, r := (-a) / m, (-a) % m;
      assert a == -r + (-q) * m;
      CongShift(-r, -q, m);
    }
  }

  lemma {:induction false} PowAdd(b: int, d: nat, e: nat)
    ensures Pow(b, d + e) == Pow(b, d) * Pow(b, e)
  {
    if d > 0 {
      PowAdd(b, d - 1, e);
      assert Pow(b, d) * Pow(b, e) == b * (Pow(b, d - 1) * Pow(b, e));
    }
  }

  lemma {:induction false} PowOfPow(b: int, d: nat, e: nat)
    ensures d * e >= 0 && Pow(Pow(b, d), e) == Pow(b, d * e)
  {
    if e == 0 {
      assert d * e == 0;
    } else {
      PowOfPow(b, d, e - 1);
      assert d * e == d + d * (e - 1);
      PowAdd(b, d, d * (e - 1));
    }
  }

  lemma {:induction false} PowPositive(b: int, e: nat)
    requires b > 0
    ensures Pow(b, e) > 0
  {
    if e > 0 {
      PowPositive(b, e - 1);
    }
  }

  lemma {:induction false} PowMonotone(b: int, d: nat, e: nat)
    requires b > 0 && d <= e
    ensures 0 < Pow(b, d) <= Pow(b, e)
  {
    PowPositive(b, d);
    PowPositive(b, e - d);
    PowAdd(b, d, e - d);
  }
}
