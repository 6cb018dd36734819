/** The affine group law over a prime field: the formulas the code evaluates, the case law of
    SEC 1 section 2.2.1 they must obey, and the curve they must not leave. */
module Curve {
  import opened ModArith

  /** An affine point; (0, 0) stands for the point at infinity. */
  datatype Pt = Pt(x: int, y: int)

  const INFINITY := Pt(0, 0)

  // ----- field operations on canonical residues -----

  ghost function FAdd(x: int, y: int, p: int): int
    requires p > 0
  {
    (x + y) % p
  }

  ghost function FSub(x: int, y: int, p: int): int
    requires p > 0
  {
    (x - y) % p
  }

  ghost function FMul(x: int, y: int, p: int): int
    requires p > 0
  {
    (x * y) % p
  }

  /** Inversion by Fermat's theorem. */
  ghost function FInv(x: int, p: int): int
    requires p >= 2
  {
    Pow(x, p - 2) % p
  }

  ghost predicate Residue(x: int, p: int) { 0 <= x < p }

  ghost predicate OddPrime(p: int) { Prime(p) && p % 2 == 1 }

  // ----- the formulas of point_double and point_add, payload/qa.h:304-390 -----

  ghost function TangentSlope(P: Pt, a: int, p: int): int
    requires p >= 2
  {
    var t := FMul(P.x, P.x, p);
    FMul(FAdd(FAdd(FAdd(t, t, p), t, p), a, p), FInv(FAdd(P.y, P.y, p), p), p)
  }

  ghost function ChordSlope(P: Pt, Q: Pt, p: int): int
    requires p >= 2
  {
    FMul(FInv(FSub(Q.x, P.x, p), p), FSub(Q.y, P.y, p), p)
  }

  /** The third point on the line of slope s through P and Q, mirrored. */
  ghost function ThirdPoint(s: int, P: Pt, Q: Pt, p: int): Pt
    requires p >= 2
  {
    var x := FSub(FMul(s, s, p), FAdd(P.x, Q.x, p), p);
    Pt(x, FSub(FMul(s, FSub(P.x, x, p), p), P.y, p))
  }

  ghost function Double(P: Pt, a: int, p: int): Pt
    requires p >= 2
  {
    if P.y == 0 then INFINITY else ThirdPoint(TangentSlope(P, a, p), P, P, p)
  }

  ghost function Add(P: Pt, Q: Pt, a: int, p: int): Pt
    requires p >= 2
  {
    if P == INFINITY then Q
    else if Q == INFINITY then P
    else if FSub(Q.x, P.x, p) == 0 then
      if FSub(Q.y, P.y, p) == 0 then Double(P, a, p) else INFINITY
    else ThirdPoint(ChordSlope(P, Q, p), P, Q, p)
  }

  // ----- the reference law, SEC 1 section 2.2.1 -----

  ghost predicate CurveEq(x: int, y: int, a: int, b: int, p: int) {
    Cong(y * y, x * x * x + a * x + b, p)
  }

  ghost predicate OnCurve(P: Pt, a: int, b: int, p: int) {
    P == INFINITY || (Residue(P.x, p) && Residue(P.y, p) && CurveEq(P.x, P.y, a, b, p))
  }

  /** l is the slope of the line through P and Q, the tangent when they coincide. */
  ghost predicate IsSlope(l: int, P: Pt, Q: Pt, a: int, p: int) {
    if P.x == Q.x then Cong(l * (2 * P.y), 3 * (P.x * P.x) + a, p)
    else Cong(l * (Q.x - P.x), Q.y - P.y, p)
  }

  /** R is the mirror image of the third point on the line of slope l through P and Q. */
  ghost predicate IsThird(l: int, P: Pt, Q: Pt, R: Pt, p: int) {
    && Residue(R.x, p) && Residue(R.y, p)
    && Cong(R.x, l * l - P.x - Q.x, p)
    && Cong(R.y, l * (P.x - R.x) - P.y, p)
  }

  ghost predicate Opposite(P: Pt, Q: Pt, p: int) {
    P.x == Q.x && Divides(p, P.y + Q.y)
  }

  /** R is the sum of P and Q, by the five cases of the standard. */
  ghost predicate IsSum(P: Pt, Q: Pt, R: Pt, a: int, p: int) {
    if P == INFINITY then R == Q
    else if Q == INFINITY then R == P
    else if Opposite(P, Q, p) then R == INFINITY
    else exists l: int :: IsSlope(l, P, Q, a, p) && IsThird(l, P, Q, R, p)
  }

  // ----- field facts -----

  lemma ResidueZero(x: int, p: int)
    requires -p < x < p && Divides(p, x)
    ensures x == 0
  {
    var k :| IsMul(k, p, x);
    SmallMultiple(k, p);
  }

  lemma FInvCorrect(x: int, p: int)
    requires Prime(p) && 0 < x < p
    ensures Residue(FInv(x, p), p) && Cong(FInv(x, p) * x, 1, p)
  {
    if Divides(p, x) {
      ResidueZero(x, p);
    }
    Fermat(p, x);
    var q := Pow(x, p - 2);
    hide Cong, Pow;
    CongMod(q, p);
    CongRefl(x, p);
    CongMul(q % p, q, x, x, p);
    CongTrans((q % p) * x, q * x, 1, p);
  }

  /** Dividing by d: if w inverts u and u is congruent to d, then (n * w) * d is congruent to n. */
  lemma Quotient(l: int, n: int, w: int, u: int, d: int, p: int)
    requires Cong(w * u, 1, p) && Cong(u, d, p) && Cong(l, n * w, p)
    ensures Cong(l * d, n, p)
  {
    hide Cong;
    CongSym(u, d, p);
    CongMul(l, n * w, d, u, p);
    CongRefl(n, p);
    CongMul(n, n, w * u, 1, p);
    assert (n * w) * u == n * (w * u);
    CongTrans(l * d, (n * w) * u, n * 1, p);
  }

  lemma ThirdPointIsThird(s: int, P: Pt, Q: Pt, p: int)
    requires p >= 2
    ensures IsThird(s, P, Q, ThirdPoint(s, P, Q, p), p)
  {
    hide Cong;
    var R := ThirdPoint(s, P, Q, p);
    CongMod(s * s, p);
    CongMod(P.x + Q.x, p);
    CongAdd(FMul(s, s, p), s * s, FAdd(P.x, Q.x, p), P.x + Q.x, p);
    var x := FMul(s, s, p) - FAdd(P.x, Q.x, p);
    CongMod(x, p);
    CongTrans(R.x, x, s * s - P.x - Q.x, p);
    CongMod(P.x - R.x, p);
    CongRefl(s, p);
    CongMul(s, s, FSub(P.x, R.x, p), P.x - R.x, p);
    CongMod(s * FSub(P.x, R.x, p), p);
    CongTrans(FMul(s, FSub(P.x, R.x, p), p), s * FSub(P.x, R.x, p), s * (P.x - R.x), p);
    CongRefl(P.y, p);
    CongAdd(FMul(s, FSub(P.x, R.x, p), p), s * (P.x - R.x), P.y, P.y, p);
    var y := FMul(s, FSub(P.x, R.x, p), p) - P.y;
    CongMod(y, p);
    CongTrans(R.y, y, s * (P.x - R.x) - P.y, p);
  }

  lemma NonzeroDifference(x: int, y: int, p: int)
    requires p >= 2 && Residue(x, p) && Residue(y, p)
    ensures FSub(x, y, p) == 0 <==> x == y
  {
    CongMod(x - y, p);
    if FSub(x, y, p) == 0 {
      ResidueZero(x - y, p);
    }
  }

  lemma ChordSlopeIsSlope(P: Pt, Q: Pt, a: int, p: int)
    requires Prime(p) && Residue(P.x, p) && Residue(Q.x, p) && P.x != Q.x
    ensures IsSlope(ChordSlope(P, Q, p), P, Q, a, p)
  {
    var u, v := FSub(Q.x, P.x, p), FSub(Q.y, P.y, p);
    CongMod(Q.x - P.x, p);
    CongMod(Q.y - P.y, p);
    NonzeroDifference(Q.x, P.x, p);
    FInvCorrect(u, p);
    var w := FInv(u, p);
    hide Cong, FInv;
    CongMod(w * v, p);
    assert w * v == v * w;
    Quotient(ChordSlope(P, Q, p), v, w, u, Q.x - P.x, p);
    CongTrans(ChordSlope(P, Q, p) * (Q.x - P.x), v, Q.y - P.y, p);
  }

  lemma TangentNumerator(q: int, a: int, p: int)
    requires p >= 2
    ensures var t := q % p; Cong(FAdd(FAdd(FAdd(t, t, p), t, p), a, p), 3 * q + a, p)
  {
    hide Cong;
    var t := q % p;
    CongMod(q, p);
    CongAdd(t, q, t, q, p);
    CongMod(t + t, p);
    CongTrans(FAdd(t, t, p), t + t, q + q, p);
    var t2 := FAdd(t, t, p);
    CongAdd(t2, q + q, t, q, p);
    CongMod(t2 + t, p);
    CongTrans(FAdd(t2, t, p), t2 + t, q + q + q, p);
    var t3 := FAdd(t2, t, p);
    CongRefl(a, p);
    CongAdd(t3, q + q + q, a, a, p);
    CongMod(t3 + a, p);
    CongTrans(FAdd(t3, a, p), t3 + a, q + q + q + a, p);
    assert q + q + q + a == 3 * q + a;
  }

  lemma TangentSlopeIsSlope(P: Pt, a: int, p: int)
    requires OddPrime(p) && 0 < P.y < p
    ensures IsSlope(TangentSlope(P, a, p), P, P, a, p)
  {
    var t := FMul(P.x, P.x, p);
    var n := FAdd(FAdd(FAdd(t, t, p), t, p), a, p);
    TangentNumerator(P.x * P.x, a, p);
    var u := FAdd(P.y, P.y, p);
    CongMod(2 * P.y, p);
    if u == 0 {
      Euclid(p, 2, P.y);
      if Divides(p, 2) {
        ResidueZero(2, p);
      } else {
        ResidueZero(P.y, p);
      }
    }
    FInvCorrect(u, p);
    var w := FInv(u, p);
    hide Cong, FInv;
    CongMod(n * w, p);
    Quotient(TangentSlope(P, a, p), n, w, u, 2 * P.y, p);
    CongTrans(TangentSlope(P, a, p) * (2 * P.y), n, 3 * (P.x * P.x) + a, p);
  }

  // ----- the formulas obey the law -----

  /** Two points of the curve over one x are equal or opposite. */
  lemma SameAbscissa(x: int, y: int, z: int, a: int, b: int, p: int)
    requires Prime(p) && Residue(y, p) && Residue(z, p)
    requires CurveEq(x, y, a, b, p) && CurveEq(x, z, a, b, p)
    ensures y == z || Divides(p, y + z)
  {
    var c := x * x * x + a * x + b;
    assert y * y - z * z == (y - z) * (y + z);
    assert Divides(p, (y - z) * (y + z)) by {
      CongSym(z * z, c, p);
      CongTrans(y * y, c, z * z, p);
    }
    Euclid(p, y - z, y + z);
    if Divides(p, y - z) {
      ResidueZero(y - z, p);
    }
  }

  lemma OppositeSelf(y: int, p: int)
    requires OddPrime(p) && Residue(y, p) && Divides(p, y + y)
    ensures y == 0
  {
    assert y + y == 2 * y;
    Euclid(p, 2, y);
    if Divides(p, 2) {
      ResidueZero(2, p);
    } else {
      ResidueZero(y, p);
    }
  }

  lemma DoubleIsSum(P: Pt, a: int, b: int, p: int)
    requires OddPrime(p) && OnCurve(P, a, b, p)
    ensures IsSum(P, P, Double(P, a, p), a, p)
  {
    if P != INFINITY {
      if P.y == 0 {
        CongRefl(0, p);
      } else {
        if Opposite(P, P, p) {
          OppositeSelf(P.y, p);
        }
        hide Cong, Divides;
        TangentSlopeIsSlope(P, a, p);
        ThirdPointIsThird(TangentSlope(P, a, p), P, P, p);
      }
    }
  }

  /** point_add computes the sum of the standard, in every case. */
  lemma AddIsSum(P: Pt, Q: Pt, a: int, b: int, p: int)
    requires OddPrime(p) && OnCurve(P, a, b, p) && OnCurve(Q, a, b, p)
    ensures IsSum(P, Q, Add(P, Q, a, p), a, p)
  {
    if P != INFINITY && Q != INFINITY {
      NonzeroDifference(Q.x, P.x, p);
      NonzeroDifference(Q.y, P.y, p);
      if P.x != Q.x {
        hide Cong, Divides;
        ChordSlopeIsSlope(P, Q, a, p);
        ThirdPointIsThird(ChordSlope(P, Q, p), P, Q, p);
      } else if P.y == Q.y {
        DoubleIsSum(P, a, b, p);
      } else {
        SameAbscissa(P.x, P.y, Q.y, a, b, p);
      }
    }
  }

  // ----- the reserved encoding of infinity -----

  /** (0, 0) is also an affine point of the curve exactly when p divides b: only then is the encoding ambiguous. */
  lemma InfinityIsNoPoint(a: int, b: int, p: int)
    ensures CurveEq(0, 0, a, b, p) <==> Divides(p, b)
  {
    assert 0 * 0 - (0 * 0 * 0 + a * 0 + b) == -b;
    if Divides(p, b) {
      DividesMul(p, b, -1);
    } else if Divides(p, -b) {
      DividesMul(p, -b, -1);
    }
  }

  /** On such a curve the code is wrong about every chord through the affine (0, 0): it answers Q, and no line through
      (0, 0) and Q gives Q as the sum. */
  lemma AmbiguousInfinity(l: int, Q: Pt, a: int, p: int)
    requires OddPrime(p) && 0 < Q.x < p && Residue(Q.y, p) && IsSlope(l, Pt(0, 0), Q, a, p)
    ensures Add(Pt(0, 0), Q, a, p) == Q && !IsThird(l, Pt(0, 0), Q, Q, p)
  {
    if IsThird(l, Pt(0, 0), Q, Q, p) {
      assert Divides(p, l * Q.x - Q.y) && Divides(p, Q.x - (l * l - Q.x)) && Divides(p, Q.y - l * (0 - Q.x));
      DividesAdd(p, Q.y - l * (0 - Q.x), l * Q.x - Q.y);
      OppositeSelf(Q.y, p);
      Euclid(p, l, Q.x);
      if Divides(p, Q.x) {
        ResidueZero(Q.x, p);
      } else {
        DividesMul(p, l, l);
        DividesAdd(p, Q.x - (l * l - Q.x), l * l);
        OppositeSelf(Q.x, p);
      }
    }
  }

  // ----- closure -----

  lemma ShiftedCubic(x: int, t: int, l: int, y: int, a: int, b: int)
    ensures (x + t) * (x + t) * (x + t) + a * (x + t) + b - (l * t + y) * (l * t + y)
         == (x * x * x + a * x + b - y * y) + (3 * (x * x) + a - l * (2 * y)) * t
          + (3 * x - l * l) * (t * t) + t * (t * t)
  {
    var s := t * t;
    assert (x + t) * (x + t) == x * x + 2 * (x * t) + s;
    assert (x * x + 2 * (x * t) + s) * (x + t) == x * x * x + 3 * ((x * x) * t) + 3 * (x * s) + t * s by {
      var q, r := x * x, x * t;
      assert (q + 2 * r + s) * (x + t) == q * x + q * t + 2 * (r * x) + 2 * (r * t) + s * x + s * t;
      assert r * x == q * t;
      assert r * t == x * s;
    }
    assert (l * t + y) * (l * t + y) == (l * l) * s + 2 * ((l * t) * y) + y * y by {
      var m := l * t;
      assert (m + y) * (m + y) == m * m + 2 * (m * y) + y * y;
      MulExchange(l, t, l, t);
    }
    assert (l * t) * y == (l * y) * t;
    assert (l * (2 * y)) * t == 2 * ((l * y) * t);
    assert (3 * x - l * l) * s == 3 * (x * s) - (l * l) * s;
    assert (3 * (x * x) + a - l * (2 * y)) * t == 3 * ((x * x) * t) + a * t - (l * (2 * y)) * t;
  }

  /** The curve equation at abscissa x + t, against the line of slope l through (x, y). */
  ghost function Gap(x: int, t: int, l: int, y: int, a: int, b: int): int {
    (x + t) * (x + t) * (x + t) + a * (x + t) + b - (l * t + y) * (l * t + y)
  }

  /** A monic cubic in t. */
  ghost function Cubic(g0: int, g1: int, c: int, t: int): int {
    g0 + g1 * t - c * (t * t) + t * (t * t)
  }

  lemma GapIsCubic(x: int, t: int, l: int, y: int, a: int, b: int, c: int)
    requires l * l == 3 * x + c
    ensures Gap(x, t, l, y, a, b) == Cubic(x * x * x + a * x + b - y * y, 3 * (x * x) + a - l * (2 * y), c, t)
  {
    ShiftedCubic(x, t, l, y, a, b);
    var s := t * t;
    assert (3 * x - l * l) * s == -(c * s);
  }

  lemma CubicAtRoots(g0: int, g1: int, u: int, v: int)
    ensures Cubic(g0, g1, u + v, u) == g0 + g1 * u - u * (u * v)
    ensures Cubic(g0, g1, u + v, v) == g0 + g1 * v - u * (v * v)
  {
    var s, r := u * u, v * v;
    assert (u + v) * s == u * s + v * s;
    assert v * (u * u) == u * (u * v);
    assert (u + v) * r == u * r + v * r;
  }

  /** The cubic through two known roots: u * Cubic(v) is a combination of Cubic(u) and Cubic(0). */
  lemma ChordIdentity(g0: int, g1: int, u: int, v: int)
    ensures u * Cubic(g0, g1, u + v, v) == Cubic(g0, g1, u + v, u) * v - g0 * (v - u)
  {
    CubicAtRoots(g0, g1, u, v);
    hide Cubic;
    var w := u * v;
    assert u * (g1 * v) == g1 * w;
    assert (g1 * u) * v == g1 * w;
    assert u * (u * (v * v)) == w * w by {
      MulExchange(u, u, v, v);
    }
    assert (u * w) * v == w * w;
    assert u * (g0 + g1 * v - u * (v * v)) == u * g0 + u * (g1 * v) - u * (u * (v * v));
    assert (g0 + g1 * u - u * w) * v == g0 * v + (g1 * u) * v - (u * w) * v;
  }

  lemma CubicRoot(g0: int, g1: int, u: int, v: int, p: int)
    requires Prime(p) && !Divides(p, u)
    requires Divides(p, Cubic(g0, g1, u + v, 0)) && Divides(p, Cubic(g0, g1, u + v, u))
    ensures Divides(p, Cubic(g0, g1, u + v, v))
  {
    ChordIdentity(g0, g1, u, v);
    assert Cubic(g0, g1, u + v, 0) == g0;
    var eu, ev := Cubic(g0, g1, u + v, u), Cubic(g0, g1, u + v, v);
    hide Divides, Cubic, Prime;
    DividesMul(p, eu, v);
    DividesMul(p, g0, v - u);
    DividesAdd(p, eu * v, g0 * (v - u));
    Euclid(p, u, ev);
  }

  lemma GapVanishesAtThird(x: int, y: int, u: int, v: int, l: int, a: int, b: int, p: int)
    requires Prime(p) && l * l == 3 * x + (u + v)
    requires Divides(p, Gap(x, 0, l, y, a, b)) && Divides(p, Gap(x, u, l, y, a, b)) && !Divides(p, u)
    ensures Divides(p, Gap(x, v, l, y, a, b))
  {
    hide Divides, Gap, Prime;
    var g0, g1 := x * x * x + a * x + b - y * y, 3 * (x * x) + a - l * (2 * y);
    GapIsCubic(x, 0, l, y, a, b, u + v);
    GapIsCubic(x, u, l, y, a, b, u + v);
    GapIsCubic(x, v, l, y, a, b, u + v);
    CubicRoot(g0, g1, u, v, p);
  }

  lemma GapAtZero(x: int, y: int, l: int, a: int, b: int, p: int)
    requires CurveEq(x, y, a, b, p)
    ensures Divides(p, Gap(x, 0, l, y, a, b))
  {
    var c := x * x * x + a * x + b;
    assert l * 0 == 0;
    CongSym(y * y, c, p);
    assert Gap(x, 0, l, y, a, b) == c - y * y;
  }

  lemma CongDivides(x: int, y: int, p: int)
    requires Cong(x, y, p)
    ensures Divides(p, x - y)
  {
  }

  /** If the line passes through a point (z, w) of the curve, the gap vanishes there. */
  lemma GapAtPoint(x: int, y: int, z: int, w: int, l: int, a: int, b: int, p: int)
    requires CurveEq(z, w, a, b, p) && Cong(l * (z - x), w - y, p)
    ensures Divides(p, Gap(x, z - x, l, y, a, b))
  {
    hide Cong;
    CongRefl(y, p);
    CongAdd(l * (z - x), w - y, y, y, p);
    var m := l * (z - x) + y;
    CongMul(m, w, m, w, p);
    CongSym(m * m, w * w, p);
    var c := z * z * z + a * z + b;
    CongSym(w * w, c, p);
    CongTrans(c, w * w, m * m, p);
    CongDivides(c, m * m, p);
  }

  lemma CongFromDivides(x: int, y: int, p: int)
    requires Divides(p, x - y)
    ensures Cong(x, y, p)
  {
  }

  /** Where the gap vanishes, the mirrored point of the line is on the curve. */
  lemma GapGivesCurve(x: int, y: int, v: int, l: int, a: int, b: int, p: int)
    requires Divides(p, Gap(x, v, l, y, a, b))
    ensures CurveEq(x + v, -(l * v + y), a, b, p)
  {
    var z, m := x + v, l * v + y;
    assert (-m) * (-m) == m * m;
    CongFromDivides(z * z * z + a * z + b, m * m, p);
    hide Cong;
    CongSym(z * z * z + a * z + b, m * m, p);
  }

  lemma CurveEqCong(x: int, y: int, x': int, y': int, a: int, b: int, p: int)
    requires CurveEq(x, y, a, b, p) && Cong(x', x, p) && Cong(y', y, p)
    ensures CurveEq(x', y', a, b, p)
  {
    hide Cong;
    CongMul(y', y, y', y, p);
    CongMul(x', x, x', x, p);
    CongMul(x' * x', x * x, x', x, p);
    CongRefl(a, p);
    CongMul(a, a, x', x, p);
    CongAdd(x' * x' * x', x * x * x, a * x', a * x, p);
    CongRefl(b, p);
    CongAdd(x' * x' * x' + a * x', x * x * x + a * x, b, b, p);
    var c, c' := x * x * x + a * x + b, x' * x' * x' + a * x' + b;
    CongTrans(y' * y', y * y, c, p);
    CongSym(c', c, p);
    CongTrans(y' * y', c, c', p);
  }

  lemma TangentGap(x: int, y: int, l: int, v: int, a: int, b: int, p: int)
    requires CurveEq(x, y, a, b, p) && l * l == 3 * x + v && Cong(l * (2 * y), 3 * (x * x) + a, p)
    ensures Divides(p, Gap(x, v, l, y, a, b))
  {
    var g0, g1 := x * x * x + a * x + b - y * y, 3 * (x * x) + a - l * (2 * y);
    GapAtZero(x, y, l, a, b, p);
    GapIsCubic(x, 0, l, y, a, b, v);
    GapIsCubic(x, v, l, y, a, b, v);
    assert Cubic(g0, g1, v, 0) == g0;
    assert Cubic(g0, g1, v, v) == g0 + g1 * v by {
      assert v * (v * v) == v * (v * v);
    }
    hide Gap, Cubic;
    CongSym(l * (2 * y), 3 * (x * x) + a, p);
    CongDivides(3 * (x * x) + a, l * (2 * y), p);
    DividesMul(p, g1, v);
    DividesAdd(p, g0, g1 * v);
  }

  lemma MirrorCong(l: int, P: Pt, R: Pt, v: int, p: int)
    requires Cong(R.x, P.x + v, p) && Cong(R.y, l * (P.x - R.x) - P.y, p)
    ensures Cong(R.y, -(l * v + P.y), p)
  {
    hide Cong;
    CongRefl(P.x, p);
    CongAdd(P.x, P.x, R.x, P.x + v, p);
    CongRefl(l, p);
    CongMul(l, l, P.x - R.x, -v, p);
    CongRefl(P.y, p);
    CongAdd(l * (P.x - R.x), l * (-v), P.y, P.y, p);
    assert l * (-v) - P.y == -(l * v + P.y);
    CongTrans(R.y, l * (P.x - R.x) - P.y, -(l * v + P.y), p);
  }

  /** A mirrored third point of a chord or tangent of the curve is on the curve. */
  lemma ThirdOnCurve(l: int, P: Pt, Q: Pt, R: Pt, a: int, b: int, p: int)
    requires Prime(p) && CurveEq(P.x, P.y, a, b, p) && CurveEq(Q.x, Q.y, a, b, p)
    requires Residue(P.x, p) && Residue(Q.x, p)
    requires IsSlope(l, P, Q, a, p) && IsThird(l, P, Q, R, p)
    ensures CurveEq(R.x, R.y, a, b, p)
  {
    var x, u := P.x, Q.x - P.x;
    var v := l * l - 3 * x - u;
    if u == 0 {
      TangentGap(x, P.y, l, v, a, b, p);
    } else {
      GapAtZero(x, P.y, l, a, b, p);
      GapAtPoint(x, P.y, Q.x, Q.y, l, a, b, p);
      if Divides(p, u) {
        ResidueZero(u, p);
      }
      GapVanishesAtThird(x, P.y, u, v, l, a, b, p);
    }
    hide Cong, Gap, CurveEq;
    GapGivesCurve(x, P.y, v, l, a, b, p);
    assert x + v == l * l - P.x - Q.x;
    MirrorCong(l, P, R, v, p);
    CurveEqCong(x + v, -(l * v + P.y), R.x, R.y, a, b, p);
  }

  /** The sum of two points of the curve is a point of the curve. */
  lemma SumOnCurve(P: Pt, Q: Pt, R: Pt, a: int, b: int, p: int)
    requires Prime(p) && OnCurve(P, a, b, p) && OnCurve(Q, a, b, p) && IsSum(P, Q, R, a, p)
    ensures OnCurve(R, a, b, p)
  {
    if P != INFINITY && Q != INFINITY && !Opposite(P, Q, p) {
      hide CurveEq, Prime;
      var l :| IsSlope(l, P, Q, a, p) && IsThird(l, P, Q, R, p);
      ThirdOnCurve(l, P, Q, R, a, b, p);
    }
  }

  lemma AddOnCurve(P: Pt, Q: Pt, a: int, b: int, p: int)
    requires OddPrime(p) && OnCurve(P, a, b, p) && OnCurve(Q, a, b, p)
    ensures OnCurve(Add(P, Q, a, p), a, b, p) && OnCurve(Double(P, a, p), a, b, p)
  {
    AddIsSum(P, Q, a, b, p);
    DoubleIsSum(P, a, b, p);
    hide IsSum, OnCurve, Prime;
    SumOnCurve(P, Q, Add(P, Q, a, p), a, b, p);
    SumOnCurve(P, P, Double(P, a, p), a, b, p);
  }

  // ----- the law determines the sum, and it commutes -----

  lemma SlopeUnique(l: int, m: int, d: int, n: int, p: int)
    requires Prime(p) && Cong(l * d, n, p) && Cong(m * d, n, p) && !Divides(p, d)
    ensures Cong(l, m, p)
  {
    CongSym(m * d, n, p);
    CongTrans(l * d, n, m * d, p);
    assert l * d - m * d == (l - m) * d;
    Euclid(p, l - m, d);
  }

  lemma ThirdUnique(l: int, m: int, P: Pt, Q: Pt, R: Pt, S: Pt, p: int)
    requires Cong(l, m, p) && IsThird(l, P, Q, R, p) && IsThird(m, P, Q, S, p)
    ensures R == S
  {
    hide Cong;
    CongMul(l, m, l, m, p);
    CongRefl(P.x, p);
    CongRefl(Q.x, p);
    CongAdd(l * l, m * m, P.x, P.x, p);
    CongAdd(l * l - P.x, m * m - P.x, Q.x, Q.x, p);
    CongTrans(R.x, l * l - P.x - Q.x, m * m - P.x - Q.x, p);
    CongSym(S.x, m * m - P.x - Q.x, p);
    CongTrans(R.x, m * m - P.x - Q.x, S.x, p);
    CongUnique(R.x, S.x, p);
    CongRefl(P.x - R.x, p);
    CongMul(l, m, P.x - R.x, P.x - R.x, p);
    CongRefl(P.y, p);
    CongAdd(l * (P.x - R.x), m * (P.x - R.x), P.y, P.y, p);
    var y, z := l * (P.x - R.x) - P.y, m * (P.x - R.x) - P.y;
    CongTrans(R.y, y, z, p);
    CongSym(S.y, z, p);
    CongTrans(R.y, z, S.y, p);
    CongUnique(R.y, S.y, p);
  }

  lemma SlopeDenominator(P: Pt, Q: Pt, p: int)
    requires OddPrime(p) && Residue(P.x, p) && Residue(Q.x, p) && !Opposite(P, Q, p)
    requires P.x == Q.x ==> P.y == Q.y
    ensures !Divides(p, if P.x == Q.x then 2 * P.y else Q.x - P.x)
  {
    if P.x == Q.x {
      assert 2 * P.y == P.y + Q.y;
    } else if Divides(p, Q.x - P.x) {
      ResidueZero(Q.x - P.x, p);
    }
  }

  /** At most one point satisfies the law. */
  lemma SumUnique(P: Pt, Q: Pt, R: Pt, S: Pt, a: int, b: int, p: int)
    requires OddPrime(p) && OnCurve(P, a, b, p) && OnCurve(Q, a, b, p)
    requires IsSum(P, Q, R, a, p) && IsSum(P, Q, S, a, p)
    ensures R == S
  {
    if P != INFINITY && Q != INFINITY && !Opposite(P, Q, p) {
      if P.x == Q.x {
        SameAbscissa(P.x, P.y, Q.y, a, b, p);
      }
      SlopeDenominator(P, Q, p);
      var l :| IsSlope(l, P, Q, a, p) && IsThird(l, P, Q, R, p);
      var m :| IsSlope(m, P, Q, a, p) && IsThird(m, P, Q, S, p);
      hide Cong, Divides, Prime, CurveEq;
      var d := if P.x == Q.x then 2 * P.y else Q.x - P.x;
      SlopeUnique(l, m, d, if P.x == Q.x then 3 * (P.x * P.x) + a else Q.y - P.y, p);
      ThirdUnique(l, m, P, Q, R, S, p);
    }
  }

  lemma ThirdSymmetric(l: int, P: Pt, Q: Pt, R: Pt, a: int, p: int)
    requires IsSlope(l, P, Q, a, p) && IsThird(l, P, Q, R, p) && P.x != Q.x
    ensures IsSlope(l, Q, P, a, p) && IsThird(l, Q, P, R, p)
  {
    hide Cong;
    CongRefl(0, p);
    CongAdd(0, 0, l * (Q.x - P.x), Q.y - P.y, p);
    assert 0 - l * (Q.x - P.x) == l * (P.x - Q.x);
    var y, z := l * (P.x - R.x) - P.y, l * (Q.x - R.x) - Q.y;
    CongRefl(y, p);
    CongAdd(y, y, l * (Q.x - P.x), Q.y - P.y, p);
    CongSym(y + l * (Q.x - P.x), y + (Q.y - P.y), p);
    assert y + l * (Q.x - P.x) == z + Q.y - P.y by {
      assert l * (P.x - R.x) + l * (Q.x - P.x) == l * (Q.x - R.x);
    }
    CongRefl(Q.y - P.y, p);
    CongAdd(y + (Q.y - P.y), z + Q.y - P.y, Q.y - P.y, Q.y - P.y, p);
    CongTrans(R.y, y, z, p);
  }

  /** Addition commutes, on the whole curve. */
  lemma AddCommutes(P: Pt, Q: Pt, a: int, b: int, p: int)
    requires OddPrime(p) && OnCurve(P, a, b, p) && OnCurve(Q, a, b, p)
    ensures Add(P, Q, a, p) == Add(Q, P, a, p)
  {
    AddIsSum(P, Q, a, b, p);
    AddIsSum(Q, P, a, b, p);
    var R := Add(P, Q, a, p);
    hide Add, Cong, Prime;
    if P != INFINITY && Q != INFINITY && P.x != Q.x {
      var l :| IsSlope(l, P, Q, a, p) && IsThird(l, P, Q, R, p);
      ThirdSymmetric(l, P, Q, R, a, p);
      SumUnique(Q, P, R, Add(Q, P, a, p), a, b, p);
    } else if P != INFINITY && Q != INFINITY && !Opposite(P, Q, p) {
      SameAbscissa(P.x, P.y, Q.y, a, b, p);
      assert P == Q;
    } else {
      assert P.y + Q.y == Q.y + P.y;
    }
  }

  // ----- scalar multiples -----

  /** k times P by binary recursion: halve k, double, add P for an odd k. */
  ghost function Multiple(k: nat, P: Pt, a: int, p: int): Pt
    requires p >= 2
  {
    if k == 0 then INFINITY
    else
      var D := Double(Multiple(k / 2, P, a, p), a, p);
      if k % 2 == 1 then Add(D, P, a, p) else D
  }

  /** Every multiple of a point of the curve is on the curve. */
  lemma {:induction false} MultipleOnCurve(k: nat, P: Pt, a: int, b: int, p: int)
    requires OddPrime(p) && OnCurve(P, a, b, p)
    ensures OnCurve(Multiple(k, P, a, p), a, b, p)
  {
    if k > 0 {
      MultipleOnCurve(k / 2, P, a, b, p);
      var H := Multiple(k / 2, P, a, p);
      hide OnCurve, Add, Double;
      AddOnCurve(H, P, a, b, p);
      AddOnCurve(Double(H, a, p), P, a, b, p);
    }
  }

  /** Writing one more bit after k doubles, and adds P when the bit is set: leading zeros are harmless. */
  lemma MultipleStep(k: nat, bit: nat, P: Pt, a: int, p: int)
    requires p >= 2 && bit < 2
    ensures var D := Double(Multiple(k, P, a, p), a, p);
      Multiple(2 * k + bit, P, a, p) == if bit == 1 then Add(D, P, a, p) else D
  {
    assert (2 * k + bit) / 2 == k && (2 * k + bit) % 2 == bit;
  }

  lemma EvenStep(k: nat, P: Pt, a: int, p: int)
    requires p >= 2
    ensures Multiple(2 * k, P, a, p) == Double(Multiple(k, P, a, p), a, p)
    ensures Multiple(2 * k + 1, P, a, p) == Add(Multiple(2 * k, P, a, p), P, a, p)
    ensures Multiple(0, P, a, p) == INFINITY && Multiple(1, P, a, p) == P
  {
    MultipleStep(k, 0, P, a, p);
    MultipleStep(k, 1, P, a, p);
    MultipleStep(0, 1, P, a, p);
    hide Cong;
  }

  /** By the law of the curve: no point, the point itself, the double of a multiple, and one more than an even
      multiple. */
  lemma MultipleIsSum(k: nat, P: Pt, a: int, b: int, p: int)
    requires OddPrime(p) && OnCurve(P, a, b, p)
    ensures Multiple(0, P, a, p) == INFINITY && Multiple(1, P, a, p) == P
    ensures IsSum(Multiple(k, P, a, p), Multiple(k, P, a, p), Multiple(2 * k, P, a, p), a, p)
    ensures IsSum(Multiple(2 * k, P, a, p), P, Multiple(2 * k + 1, P, a, p), a, p)
  {
    EvenStep(k, P, a, p);
    MultipleOnCurve(k, P, a, b, p);
    MultipleOnCurve(2 * k, P, a, b, p);
    hide Multiple, IsSum, OnCurve, Add, Double;
    DoubleIsSum(Multiple(k, P, a, p), a, b, p);
    AddIsSum(Multiple(2 * k, P, a, p), P, a, b, p);
  }
}
