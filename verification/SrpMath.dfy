/** The number theory of SRP-6a (sections 2.5.3, 2.5.4 and 2.6 of RFC 5054): both sides reach one secret. */
module SrpMath {
  import opened Powers

  /** The client's premaster secret as the standard writes it, with no intermediate reduction. */
  function ClientSecret(N: int, g: int, k: nat, x: nat, a: nat, u: nat, B: int): int
    requires N > 0
  {
    Pow(B - k * Pow(g, x), a + u * x) % N
  }

  /** The server's premaster secret. */
  function ServerSecret(N: int, A: int, v: int, u: nat, b: nat): int
    requires N > 0
  {
    Pow(A * Pow(v, u), b) % N
  }

  // The shared exponent is d = (a + u * x) * b, with e = a + u * x.
  lemma ClientSide(N: int, g: int, k: nat, x: nat, b: nat, e: nat, d: nat, v: int, B: int)
    requires N > 0 && v == Pow(g, x) % N && Cong(B, k * v + Pow(g, b), N) && d == e * b
    ensures Cong(Pow(B - k * Pow(g, x), e), Pow(g, d), N)
  {
    var gx, gb := Pow(g, x), Pow(g, b);
    CongMod(gx, N);
    CongMul(k, k, v, gx, N);
    CongAdd(k * v, k * gx, gb, gb, N);
    CongSub(B, k * gx + gb, k * gx, k * gx, N);
    CongPow(B - k * gx, gb, e, N);
    PowOfPow(g, b, e);
  }

  lemma ServerSide(N: int, g: int, x: nat, a: nat, u: nat, b: nat, e: nat, d: nat, v: int, A: int)
    requires N > 0 && v == Pow(g, x) % N && A == Pow(g, a) % N && e == a + u * x && d == e * b
    ensures Cong(Pow(A * Pow(v, u), b), Pow(g, d), N)
  {
    var ga, gx := Pow(g, a), Pow(g, x);
    CongMod(ga, N);
    CongMod(gx, N);
    CongPow(v, gx, u, N);
    PowOfPow(g, x, u);
    CongMul(A, ga, Pow(v, u), Pow(g, x * u), N);
    assert x * u == u * x;
    PowAdd(g, a, x * u);
    CongPow(A * Pow(v, u), Pow(g, e), b, N);
    PowOfPow(g, e, b);
  }

  lemma SharedExponent(a: nat, u: nat, x: nat, b: nat) returns (e: nat, d: nat)
    ensures e == a + u * x && d == e * b
  {
    e := a + u * x;
    d := e * b;
  }

  /** For every group, multiplier and choice of secrets, the two formulas give the same premaster secret. */
  lemma SecretsAgree(N: int, g: int, k: nat, a: nat, b: nat, x: nat, u: nat, A: int, v: int, B: int)
    requires N > 0 && A == Pow(g, a) % N && v == Pow(g, x) % N
    requires B == (k * v + Pow(g, b)) % N
    ensures ClientSecret(N, g, k, x, a, u, B) == ServerSecret(N, A, v, u, b)
  {
    var e, d := SharedExponent(a, u, x, b);
    var sum := k * v + Pow(g, b);
    CongMod(sum, N);
    ClientSide(N, g, k, x, b, e, d, v, B);
    ServerSide(N, g, x, a, u, b, e, d, v, A);
  }

  /** An odd modulus above one divides no power of two, so no honest public value is refused as zero. */
  lemma {:induction false} OddDividesNoPowerOfTwo(N: int, e: nat)
    requires N > 1 && N % 2 == 1
    ensures Pow(2, e) % N != 0
  {
    if e == 0 {
      DivModUnique(1, N, 0, 1);
    } else {
      OddDividesNoPowerOfTwo(N, e - 1);
      if Pow(2, e) % N == 0 {
        var q := Pow(2, e) / N;
        assert Pow(2, e) == q * N + Pow(2, e) % N;
        HalfOfMultiple(N, N / 2, Pow(2, e - 1), q);
      }
    }
  }

  lemma HalfOfMultiple(N: int, h: int, p: int, q: int)
    requires N > 1 && N == 2 * h + 1 && 2 * p == q * N
    ensures p % N == 0
  {
    assert q * N == q * (2 * h) + q == 2 * (q * h) + q;
    var r := p - q * h;
    assert q == 2 * r;
    assert q * N == 2 * (r * N);
    DivModUnique(p, N, r, 0);
  }

  lemma SquareStep(b: int, e: nat)
    requires e > 0
    ensures Pow(b, e) == (if e % 2 == 1 then b else 1) * Pow(b * b, e / 2)
  {
    PowOfPow(b, 2, e / 2);
    assert Pow(b, 2) == b * Pow(b, 1) == b * b;
    if e % 2 == 1 {
      assert Pow(b, e) == b * Pow(b, 2 * (e / 2));
    }
  }

  lemma JsRemAbs(a: int, m: int)
    requires m != 0
    ensures var M := if m < 0 then -m else m; Cong(JsRem(a, m), a, M)
  {
    if m < 0 {
      assert (-a) % m == (-a) % -m && a % m == a % -m;
      assert JsRem(a, m) == JsRem(a, -m);
      JsRemCong(a, -m);
    } else {
      JsRemCong(a, m);
    }
  }

  // One pass of the square-and-multiply loop keeps result * b^e.
  lemma LoopStep(result: int, b: int, e: nat, result': int, b': int, M: int)
    requires M > 0 && e > 0
    requires Cong(b', b * b, M)
    requires if e % 2 == 1 then Cong(result', result * b, M) else result' == result
    ensures Cong(result' * Pow(b', e / 2), result * Pow(b, e), M)
  {
    SquareStep(b, e);
    var c := if e % 2 == 1 then b else 1;
    assert Cong(result', result * c, M);
    CongPow(b', b * b, e / 2, M);
    CongMul(result', result * c, Pow(b', e / 2), Pow(b * b, e / 2), M);
    assert result * c * Pow(b * b, e / 2) == result * (c * Pow(b * b, e / 2));
  }

  /**
   * The server's square-and-multiply loop over BigInt, whose remainder truncates. Any integer base and
   * any modulus; the loop body runs floor(log2 exp) + 1 times for a positive exponent.
   */
  method ModPow(base: int, exp: int, mod: int) returns (result: int, ghost iterations: nat)
    ensures mod == 0 ==> result == 0
    ensures mod != 0 && exp < 0 ==> result == 1
    ensures mod != 0 && exp >= 0 ==> Cong(result, Pow(base, exp), if mod < 0 then -mod else mod)
    ensures mod > 1 && exp >= 0 ==> result == Pow(base, exp) % mod
    ensures mod != 0 && exp > 0 ==> iterations > 0 && Pow(2, iterations - 1) <= exp < Pow(2, iterations)
  {
    iterations := 0;
    if mod == 0 {
      return 0, 0;
    }
    ghost var M := if mod < 0 then -mod else mod;
    result := 1;
    var b := JsRem(JsRem(base, mod) + mod, mod);
    var e := exp;
    StartingBase(base, mod);
    if exp >= 0 {
      CongPow(b, base, exp, M);
      assert result * Pow(b, exp) == Pow(b, exp);
    }
    while e > 0
      invariant exp < 0 ==> e == exp && result == 1
      invariant exp >= 0 ==> e >= 0 && Cong(result * Pow(b, e), Pow(base, exp), M)
      invariant mod > 1 ==> 0 <= result < mod && 0 <= b < mod
      invariant iterations == 0 ==> e == exp
      invariant exp > 0 && iterations > 0 ==> Halved(exp, e, iterations)
      decreases e
    {
      ghost var result0, b0, e0 := result, b, e;
      if e % 2 == 1 {
        JsRemAbs(result * b, mod);
        NonNegativeProduct(result, b, mod);
        result := JsRem(result * b, mod);
      }
      JsRemAbs(b * b, mod);
      NonNegativeProduct(b, b, mod);
      b := JsRem(b * b, mod);
      e := e / 2;
      LoopStep(result0, b0, e0, result, b, M);
      HalvedStep(exp, e0, iterations);
      iterations := iterations + 1;
    }
    if exp >= 0 {
      assert result * Pow(b, 0) == result;
      if mod > 1 {
        DivModUnique(result, mod, 0, result);
      }
    }
  }

  // e is exp after `n` halvings, the last of which halved a positive number
  ghost predicate Halved(exp: int, e: int, n: nat)
    requires n > 0
  {
    Pow(2, n) * e <= exp < Pow(2, n) * (e + 1) && Pow(2, n - 1) <= exp
  }

  lemma HalvedStep(exp: int, e: int, n: nat)
    requires e > 0 && if n == 0 then e == exp else Halved(exp, e, n)
    ensures Halved(exp, e / 2, n + 1)
  {
    PowPositive(2, n);
    HalveBounds(exp, Pow(2, n), e);
  }

  lemma HalveBounds(exp: int, p: int, e: int)
    requires p > 0 && e > 0 && p * e <= exp < p * (e + 1)
    ensures (2 * p) * (e / 2) <= exp < (2 * p) * (e / 2 + 1) && p <= exp
  {
    MultipleAtLeast(e, p);
    Halves(p, e / 2);
  }

  lemma Halves(p: int, h: int)
    ensures p * (2 * h) == (2 * p) * h && p * (2 * h + 1) == (2 * p) * h + p && p * (2 * h + 2) == (2 * p) * h + 2 * p
    ensures (2 * p) * (h + 1) == (2 * p) * h + 2 * p
  {
  }

  lemma NonNegativeProduct(x: int, y: int, mod: int)
    requires mod != 0
    ensures x >= 0 && y >= 0 ==> x * y >= 0
    ensures mod > 1 && x >= 0 && y >= 0 ==> 0 <= JsRem(x * y, mod) < mod
  {
  }

  lemma StartingBase(base: int, mod: int)
    requires mod != 0
    ensures var b, M := JsRem(JsRem(base, mod) + mod, mod), if mod < 0 then -mod else mod;
            Cong(b, base, M) && (mod > 0 ==> 0 <= b < mod)
  {
    var M := if mod < 0 then -mod else mod;
    var r := JsRem(base, mod);
    JsRemAbs(base, mod);
    JsRemAbs(r + mod, mod);
    CongShift(r, if mod < 0 then -1 else 1, M);
    if mod > 0 {
      JsRemCong(base, mod);
    }
  }
}
