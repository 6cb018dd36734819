/** Congruences, powers, primes and Fermat's little theorem.

    Divisibility is stated through the witness predicate IsMul, so that products of two
    variables stay out of the verifier's way until a lemma asks for them. */
module ModArith {
  // ----- divisibility and congruence -----

  ghost predicate IsMul(k: int, m: int, d: int) { d == k * m }

  ghost predicate Divides(m: int, d: int) { exists k: int :: IsMul(k, m, d) }

  ghost predicate Cong(x: int, y: int, m: int) { Divides(m, x - y) }

  lemma MulWitness(k: int, m: int, d: int)
    requires d == k * m
    ensures Divides(m, d)
  {
    assert IsMul(k, m, d);
  }

  lemma DividesAdd(m: int, a: int, b: int)
    requires Divides(m, a) && Divides(m, b)
    ensures Divides(m, a + b) && Divides(m, a - b)
  {
    var k :| IsMul(k, m, a);
    var l :| IsMul(l, m, b);
    assert (k + l) * m == k * m + l * m;
    assert (k - l) * m == k * m - l * m;
    assert IsMul(k + l, m, a + b) && IsMul(k - l, m, a - b);
  }

  lemma DividesMul(m: int, a: int, c: int)
    requires Divides(m, a)
    ensures Divides(m, c * a) && Divides(m, a * c)
  {
    var k :| IsMul(k, m, a);
    assert c * (k * m) == (c * k) * m;
    assert IsMul(c * k, m, c * a);
    assert a * c == c * a;
  }

  lemma CongRefl(x: int, m: int)
    ensures Cong(x, x, m)
  {
    assert IsMul(0, m, x - x);
  }

  lemma CongSym(x: int, y: int, m: int)
    requires Cong(x, y, m)
    ensures Cong(y, x, m)
  {
    var k :| IsMul(k, m, x - y);
    assert (-k) * m == -(k * m);
    assert IsMul(-k, m, y - x);
  }

  lemma CongTrans(x: int, y: int, z: int, m: int)
    requires Cong(x, y, m) && Cong(y, z, m)
    ensures Cong(x, z, m)
  {
    DividesAdd(m, x - y, y - z);
    assert (x - y) + (y - z) == x - z;
  }

  lemma CongAdd(x: int, y: int, u: int, v: int, m: int)
    requires Cong(x, y, m) && Cong(u, v, m)
    ensures Cong(x + u, y + v, m) && Cong(x - u, y - v, m)
  {
    DividesAdd(m, x - y, u - v);
    assert (x - y) + (u - v) == (x + u) - (y + v);
    assert (x - y) - (u - v) == (x - u) - (y - v);
  }

  lemma CongMul(x: int, y: int, u: int, v: int, m: int)
    requires Cong(x, y, m) && Cong(u, v, m)
    ensures Cong(x * u, y * v, m)
  {
    DividesMul(m, x - y, u);
    DividesMul(m, u - v, y);
    DividesAdd(m, (x - y) * u, y * (u - v));
    assert (x - y) * u == x * u - y * u;
    assert y * (u - v) == y * u - y * v;
    assert (x - y) * u + y * (u - v) == x * u - y * v;
  }

  lemma CongMod(x: int, m: int)
    requires m > 0
    ensures Cong(x % m, x, m) && Cong(x, x % m, m)
  {
    assert x == (x / m) * m + x % m;
    MulWitness(x / m, m, x - x % m);
    CongSym(x, x % m, m);
  }

  lemma MulLe(x: int, y: int, w: int)
    requires x <= y && 0 <= w
    ensures x * w <= y * w
  {
    assert (y - x) * w >= 0;
  }

  lemma SmallMultiple(k: int, m: int)
    requires -m < k * m < m
    ensures k == 0
  {
    assert k >= 1 ==> k * m >= m;
    assert k <= -1 ==> (-k) * m >= m && (-k) * m == -(k * m);
  }

  /** Two canonical residues that are congruent are equal. */
  lemma CongUnique(x: int, y: int, m: int)
    requires 0 <= x < m && 0 <= y < m && Cong(x, y, m)
    ensures x == y
  {
    var k :| IsMul(k, m, x - y);
    SmallMultiple(k, m);
  }

  lemma CongToMod(x: int, y: int, m: int)
    requires m > 0 && Cong(x, y, m)
    ensures x % m == y % m
  {
    CongMod(x, m);
    CongMod(y, m);
    CongTrans(x % m, x, y, m);
    CongTrans(x % m, y, y % m, m);
    CongUnique(x % m, y % m, m);
  }

  /** A residue is fixed by its range and its congruence class. */
  lemma ModUnique(r: int, x: int, m: int)
    requires 0 <= r < m && Cong(r, x, m)
    ensures r == x % m
  {
    CongMod(x, m);
    CongTrans(r, x, x % m, m);
    CongUnique(r, x % m, m);
  }

  // ----- powers -----

  ghost function Pow(b: int, e: nat): (r: int)
  {
    if e == 0 then 1 else b * Pow(b, e - 1)
  }

  lemma {:induction false} PowPos(b: int, e: nat)
    requires b > 0
    ensures Pow(b, e) > 0
  {
    if e > 0 {
      PowPos(b, e - 1);
    }
  }

  lemma {:induction false} PowAdd(b: int, e: nat, f: nat)
    ensures Pow(b, e + f) == Pow(b, e) * Pow(b, f)
  {
    if e > 0 {
      PowAdd(b, e - 1, f);
      assert b * (Pow(b, e - 1) * Pow(b, f)) == (b * Pow(b, e - 1)) * Pow(b, f);
    }
  }

  lemma {:induction false} PowCong(b: int, c: int, e: nat, m: int)
    requires Cong(b, c, m)
    ensures Cong(Pow(b, e), Pow(c, e), m)
  {
    if e == 0 {
      CongRefl(1, m);
    } else {
      PowCong(b, c, e - 1, m);
      CongMul(b, c, Pow(b, e - 1), Pow(c, e - 1), m);
    }
  }

  lemma MulExchange(a: int, b: int, x: int, y: int)
    ensures (a * b) * (x * y) == (a * x) * (b * y)
  {
    var c := x * y;
    assert (a * b) * c == a * (b * c);
    assert b * (x * y) == x * (b * y);
    var d := b * y;
    assert a * (x * d) == (a * x) * d;
  }

  lemma {:induction false} PowMulBase(a: int, b: int, e: nat)
    ensures Pow(a * b, e) == Pow(a, e) * Pow(b, e)
  {
    if e > 0 {
      PowMulBase(a, b, e - 1);
      var x, y := Pow(a, e - 1), Pow(b, e - 1);
      MulExchange(a, b, x, y);
    }
  }

  // ----- primes -----

  ghost predicate Prime(p: int)
  {
    p >= 2 && forall d :: 1 < d < p ==> !Divides(d, p)
  }

  /** m is a positive annihilator of b modulo p, and no smaller one exists. */
  ghost predicate LeastAnnihilator(m: int, b: int, p: int)
  {
    0 < m && Divides(p, m * b) && forall j :: 0 < j < m ==> !Divides(p, j * b)
  }

  lemma {:induction false} FindLeastAnnihilator(n: int, b: int, p: int) returns (m: int)
    requires 0 < n && Divides(p, n * b)
    ensures LeastAnnihilator(m, b, p) && m <= n
    decreases n
  {
    if j :| 0 < j < n && Divides(p, j * b) {
      m := FindLeastAnnihilator(j, b, p);
    } else {
      m := n;
    }
  }

  /** Every annihilator is a multiple of the least one. */
  lemma LeastAnnihilatorDivides(m: int, b: int, p: int, n: int)
    requires LeastAnnihilator(m, b, p) && Divides(p, n * b)
    ensures Divides(m, n)
  {
    var q, r := n / m, n % m;
    assert n == q * m + r;
    DividesMul(p, m * b, q);
    DividesAdd(p, n * b, q * (m * b));
    assert n * b - q * (m * b) == r * b by {
      assert n * b == (q * m) * b + r * b;
      assert (q * m) * b == q * (m * b);
    }
    assert r == 0;
    MulWitness(q, m, n);
  }

  /** Euclid's lemma. */
  lemma Euclid(p: int, a: int, b: int)
    requires Prime(p) && Divides(p, a * b)
    ensures Divides(p, a) || Divides(p, b)
  {
    MulWitness(b, p, p * b);
    var m := FindLeastAnnihilator(p, b, p);
    LeastAnnihilatorDivides(m, b, p, p);
    LeastAnnihilatorDivides(m, b, p, a);
    if m == 1 {
      assert m * b == b;
    } else {
      assert m == p;
    }
  }

  // ----- Fermat's little theorem -----

  ghost function Choose(n: nat, k: nat): nat
  {
    if k == 0 then 1
    else if n == 0 then 0
    else Choose(n - 1, k - 1) + Choose(n - 1, k)
  }

  lemma {:induction false} ChooseAbove(n: nat, k: nat)
    requires k > n
    ensures Choose(n, k) == 0
  {
    if n > 0 {
      ChooseAbove(n - 1, k - 1);
      ChooseAbove(n - 1, k);
    }
  }

  lemma {:induction false} ChooseAll(n: nat)
    ensures Choose(n, n) == 1
  {
    if n > 0 {
      ChooseAll(n - 1);
      ChooseAbove(n - 1, n);
    }
  }

  lemma AbsorptionStep(n: int, k: int, a: int, b: int, c: int, d: int)
    requires k * a == (n - 1) * d && (k - 1) * b == (n - 1) * c && b == c + d
    ensures k * (a + b) == n * b
  {
    assert k * (a + b) == k * a + (k - 1) * b + b;
    assert (n - 1) * (c + d) == (n - 1) * c + (n - 1) * d;
  }

  lemma {:induction false} Absorption(n: nat, k: nat)
    requires n > 0 && k > 0
    ensures k * Choose(n, k) == n * Choose(n - 1, k - 1)
  {
    if n == 1 {
      if k > 1 {
        ChooseAbove(1, k);
        ChooseAbove(0, k - 1);
      }
    } else if k == 1 {
      Absorption(n - 1, 1);
    } else {
      Absorption(n - 1, k);
      Absorption(n - 1, k - 1);
      var a, b, c := Choose(n - 1, k), Choose(n - 1, k - 1), Choose(n - 2, k - 2);
      var d := Choose(n - 2, k - 1);
      assert k * a == (n - 1) * d;
      assert (k - 1) * b == (n - 1) * c;
      assert b == c + d;
      AbsorptionStep(n, k, a, b, c, d);
    }
  }

  /** The sum of Choose(n, i) * x^i for i <= k. */
  ghost function BinomialSum(n: nat, x: int, k: nat): int
  {
    Choose(n, k) * Pow(x, k) + if k == 0 then 0 else BinomialSum(n, x, k - 1)
  }

  lemma {:induction false} BinomialStep(n: nat, x: int, k: nat)
    requires n > 0 && k > 0
    ensures BinomialSum(n, x, k) == BinomialSum(n - 1, x, k) + x * BinomialSum(n - 1, x, k - 1)
  {
    var a, b, q := Choose(n - 1, k - 1), Choose(n - 1, k), Pow(x, k - 1);
    assert (a + b) * (x * q) == b * (x * q) + x * (a * q);
    if k == 1 {
      assert Choose(n, 0) == Choose(n - 1, 0) == 1;
    } else {
      BinomialStep(n, x, k - 1);
      assert x * (a * q + BinomialSum(n - 1, x, k - 2)) == x * (a * q) + x * BinomialSum(n - 1, x, k - 2);
    }
  }

  lemma {:induction false} Binomial(n: nat, x: int)
    ensures Pow(x + 1, n) == BinomialSum(n, x, n)
  {
    if n > 0 {
      Binomial(n - 1, x);
      BinomialStep(n, x, n);
      ChooseAbove(n - 1, n);
      var s := BinomialSum(n - 1, x, n - 1);
      assert BinomialSum(n - 1, x, n) == s;
      assert (x + 1) * s == s + x * s;
    }
  }

  lemma PrimeDividesChoose(p: int, k: nat)
    requires Prime(p) && 0 < k < p
    ensures Divides(p, Choose(p, k))
  {
    Absorption(p, k);
    MulWitness(Choose(p - 1, k - 1), p, k * Choose(p, k));
    Euclid(p, k, Choose(p, k));
    if Divides(p, k) {
      assert 0 <= k < p;
      CongRefl(0, p);
      CongUnique(k, 0, p);
      assert false;
    }
  }

  lemma {:induction false} MiddleTermsVanish(p: int, x: int, k: nat)
    requires Prime(p) && k < p
    ensures Cong(BinomialSum(p, x, k), 1, p)
  {
    if k == 0 {
      CongRefl(1, p);
    } else {
      MiddleTermsVanish(p, x, k - 1);
      PrimeDividesChoose(p, k);
      DividesMul(p, Choose(p, k), Pow(x, k));
      DividesAdd(p, Choose(p, k) * Pow(x, k), BinomialSum(p, x, k - 1) - 1);
    }
  }

  lemma {:induction false} FermatNat(p: int, x: nat)
    requires Prime(p)
    ensures Cong(Pow(x, p), x, p)
  {
    if x == 0 {
      assert Pow(0, p) == 0;
      CongRefl(0, p);
    } else {
      hide Cong, Prime;
      FermatNat(p, x - 1);
      Binomial(p, x - 1);
      MiddleTermsVanish(p, x - 1, p - 1);
      ChooseAll(p);
      CongAdd(Pow(x - 1, p), x - 1, BinomialSum(p, x - 1, p - 1), 1, p);
    }
  }

  /** Fermat's little theorem: a non-multiple of a prime p is inverted by its (p-2)th power. */
  lemma Fermat(p: int, x: nat)
    requires Prime(p) && !Divides(p, x)
    ensures Cong(Pow(x, p - 2) * x, 1, p)
  {
    FermatNat(p, x);
    var y := Pow(x, p - 2);
    assert Pow(x, p - 1) == x * y;
    assert Pow(x, p) == x * (x * y);
    assert x * (x * y) - x == x * (x * y - 1);
    Euclid(p, x, x * y - 1);
    assert y * x == x * y;
  }
}
