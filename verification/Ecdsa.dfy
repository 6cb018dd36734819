/** Field elements, points and signatures on byte arrays, over Montgomery arithmetic. */
module Ecdsa {
  import opened Common
  import opened ModArith
  import opened Bignum
  import opened Montgomery
  import opened Curve

  /** struct point, payload/qa.h:21-24. */
  class Point {
    const x: array<byte>
    const y: array<byte>

    constructor (x: array<byte>, y: array<byte>)
      ensures this.x == x && this.y == y
    {
      this.x, this.y := x, y;
    }
  }

  /** The residue a stored field element stands for. */
  ghost function Elt(s: seq<byte>, p: int): int
    requires p > 1
  {
    Dec(Val(s), p, 20)
  }

  /** A stored element is fully reduced. */
  ghost predicate Canonical(s: seq<byte>, p: int) { |s| == 20 && Val(s) < p }

  lemma EltAddFact(d: seq<byte>, x: int, y: int, p: int)
    requires p > 1 && p % 2 == 1 && |d| == 20 && 0 <= x < p && 0 <= y < p
    ensures Val(d) == (x + y) % p ==> Canonical(d, p) && Elt(d, p) == FAdd(Dec(x, p, 20), Dec(y, p, 20), p)
    ensures Val(d) == (x - y) % p ==> Canonical(d, p) && Elt(d, p) == FSub(Dec(x, p, 20), Dec(y, p, 20), p)
  {
    hide Dec;
    DecLinear(x, y, p, 20);
  }

  lemma EltZero(s: seq<byte>, p: int)
    requires p > 1 && p % 2 == 1 && Canonical(s, p)
    ensures Elt(s, p) == 0 <==> Val(s) == 0
  {
    hide Dec;
    DecInjective(Val(s), 0, p, 20);
  }

  /** The affine point whose coordinates are stored in x and y. */
  ghost function PtOf(x: seq<byte>, y: seq<byte>, p: int): Pt
    requires p > 1
  {
    Pt(Elt(x, p), Elt(y, p))
  }

  /** Both coordinates are stored reduced, in separate arrays. */
  ghost predicate Stored(r: Point, p: int)
    reads r.x, r.y
  {
    r.x != r.y && Canonical(r.x[..], p) && Canonical(r.y[..], p)
  }

  method FromBytes(s: seq<byte>) returns (a: array<byte>)
    ensures fresh(a) && a[..] == s
  {
    a := new byte[|s|](i requires 0 <= i < |s| => s[i]);
  }

  /** A fresh Montgomery form of the number s. */
  method ToElement(s: seq<byte>, p: array<byte>) returns (a: array<byte>)
    requires |s| == p.Length == 20 && Val(s) < Val(p[..]) && Val(p[..]) > 1 && Val(p[..]) % 2 == 1
    ensures fresh(a) && Canonical(a[..], Val(p[..])) && Elt(a[..], Val(p[..])) == Val(s)
  {
    a := FromBytes(s);
    BnToMon(a, p);
    DecEnc(Val(s), Val(p[..]), 20);
    ModUniqueSelf(Val(s), Val(p[..]));
  }

  lemma ReduceCong(x: int, N: int)
    requires 0 <= x < 2 * N
    ensures 0 <= Reduce(x, N) < N && Cong(Reduce(x, N), x, N)
  {
    MulWitness(if x >= N then -1 else 0, N, Reduce(x, N) - x);
  }

  lemma LeadingZero(s: seq<byte>)
    ensures Val([0] + s) == Val(s)
  {
    assert ([0] + s)[1..] == s;
  }

  lemma DecRange(x: int, N: int)
    requires N > 1
    ensures 0 <= Dec(x, N, 21) < N
  {
  }

  /** R k + e of stored scalars: the product may be unreduced, the sum stands for the residue. */
  lemma SumOfScalars(t: int, r: int, k: int, e: int, u: int, N: int)
    requires N > 1 && N % 2 == 1 && 0 <= t < Wrap(21) && 0 <= e < N < Wrap(21)
    requires Cong(t * Wrap(21), r * k, N) && u == AddWord(t, e, N, Wrap(21))
    ensures Dec(u, N, 21) == (((Dec(r, N, 21) * Dec(k, N, 21)) % N) + Dec(e, N, 21)) % N
  {
    hide Dec, Cong, AddWord, Wrap;
    DecMul(t, r, k, N, 21);
    AddWordCong(t, e, N, Wrap(21));
    CongMod(t + e, N);
    CongSym((t + e) % N, t + e, N);
    CongTrans(u, t + e, (t + e) % N, N);
    DecOfCong(u, (t + e) % N, N, 21);
    DecLinear(t, e, N, 21);
  }

  lemma PowerRange(w: int, A: int, N: int, n: nat)
    requires Prime(N) && N % 2 == 1 && 0 <= A < N && IsPower(w, A, N - 2, N, n)
    ensures 0 <= w < N
    ensures A != 0 ==> (Dec(w, N, n) * A) % N == 1
    ensures A == 0 ==> Dec(w, N, n) == 0
  {
    PowerInverts(w, A, N, n);
    DecZero(N, n);
  }

  /** s is m^-1 (e + r k) modulo N; a zero m has the pseudo-inverse zero. */
  ghost predicate Solves(s: int, m: int, e: int, r: int, k: int, N: int) {
    if m == 0 then s == 0 else Cong(s * m, e + r * k, N)
  }

  lemma SolvesFromInverse(s: int, w: int, m: int, e: int, r: int, k: int, N: int)
    requires N > 1
    requires s == (w * ((((r * k) % N) + e) % N)) % N
    requires m != 0 ==> (w * m) % N == 1
    requires m == 0 ==> w == 0
    ensures Solves(s, m, e, r, k, N)
  {
    hide Cong;
    var t := (r * k) % N;
    var u := (t + e) % N;
    if m == 0 {
      assert w * u == 0;
    } else {
      CongMod(r * k, N);
      CongRefl(e, N);
      CongAdd(t, r * k, e, e, N);
      CongMod(t + e, N);
      CongTrans(u, t + e, r * k + e, N);
      CongMod(w * u, N);
      CongRefl(m, N);
      CongMul(s, w * u, m, m, N);
      CongMod(w * m, N);
      CongRefl(u, N);
      CongMul(w * m, 1, u, u, N);
      assert (w * u) * m == (w * m) * u;
      CongTrans(s * m, (w * m) * u, 1 * u, N);
      CongTrans(s * m, u, r * k + e, N);
    }
  }

  lemma SignatureEquation(s: int, m: int, e: int, r: int, k: int, hash: int, r': int, key: int, N: int)
    requires Solves(s, m, e, r, k, N) && Cong(e, hash, N) && Cong(r', r, N) && Cong(k, key, N)
    ensures m != 0 ==> Cong(s * m, hash + r' * key, N)
    ensures m == 0 ==> s == 0
  {
    if m != 0 {
      hide Cong;
      CongSym(r', r, N);
      CongMul(r, r', k, key, N);
      CongAdd(e, hash, r * k, r' * key, N);
      CongTrans(s * m, e + r * k, hash + r' * key, N);
    }
  }

  /** What generate_ecdsa returns for an x-coordinate: it goes into Montgomery form without being reduced, and out
      again. */
  ghost function Returned(x: int, N: int): int
    requires N > 1
  {
    Dec(Doubled(x, 168, N, Wrap(21)), N, 21)
  }

  lemma ReturnedReduced(x: int, N: int)
    requires N > 1 && N % 2 == 1 && N < Wrap(21)
    ensures 0 <= Returned(x, N) < N && (0 <= x < N ==> Returned(x, N) == x)
  {
    DecRange(Doubled(x, 168, N, Wrap(21)), N);
    if 0 <= x < N {
      DoubledIsModular(x, 168, N, Wrap(21));
      PowersOfTwo(21);
      DecEnc(x, N, 21);
      ModUniqueSelf(x, N);
    }
  }

  lemma NoDigits(s: seq<byte>, P: Pt, a: int, p: int)
    requires p >= 2
    ensures Multiple(Val(s[..0]), P, a, p) == INFINITY
  {
  }

  lemma MaskStarts(k: nat, x: byte)
    ensures Mask(0) == 0x80 && BitsTaken(k, x, 0) == k
  {
  }

  lemma NextByte(s: seq<byte>, i: nat)
    requires i < |s|
    ensures Val(s[..i + 1]) == BitsTaken(Val(s[..i]), s[i], 8)
  {
    AllBits(Val(s[..i]), s[i]);
    assert s[..i + 1] == s[..i] + [s[i]];
    ValAppend(s[..i], s[i]);
  }

  lemma NoPoint(nonce: nat, P: Pt, a: int, p: int)
    requires p >= 2
    ensures nonce == 0 ==> Multiple(nonce, P, a, p).x == 0
  {
  }

  /** What the pair (r, s) returned for the x-coordinate x has to do with hash and key. */
  lemma Signed(r: int, s: int, x: int, m: int, e: int, k: int, hash: int, key: int, N: int)
    requires N > 1 && N % 2 == 1 && N < Wrap(21) && 0 <= r && 0 <= x && (m == 0 ==> x == 0)
    requires Cong(e, hash, N) && Cong(k, key, N) && Cong(r, Returned(x, N), N) && Solves(s, m, e, Returned(x, N), k, N)
    requires x < N || Wrap(21) <= 512 * N ==> r == Returned(x, N)
    ensures (m != 0 ==> Cong(s * m, hash + r * key, N)) && (m == 0 ==> r == 0 && s == 0)
    ensures (x < N ==> r == x) && (Wrap(21) <= 512 * N ==> r == Returned(x, N) < N && (r == x <==> x < N))
  {
    hide *;
    ReturnedReduced(x, N);
    SignatureEquation(s, m, e, Returned(x, N), k, hash, r, key, N);
  }

  /** The globals ec_p, ec_a, ec_b, ec_G and ec_N, payload/qa.h:26-31. */
  class Domain {
    const ec_p: array<byte>
    const ec_a: array<byte>
    const ec_b: array<byte>
    const ec_N: array<byte>
    const ec_G: Point

    ghost predicate Shape() {
      && ec_p.Length == ec_a.Length == ec_b.Length == 20 && ec_N.Length == 21
      && ec_G.x.Length == ec_G.y.Length == 20
      && ec_p != ec_a && ec_p != ec_b && ec_a != ec_b && ec_G.x != ec_G.y
      && ec_p !in {ec_G.x, ec_G.y} && ec_a !in {ec_G.x, ec_G.y} && ec_b !in {ec_G.x, ec_G.y}
    }

    /** The field prime. */
    ghost function Q(): nat
      reads ec_p
    {
      Val(ec_p[..])
    }

    /** The field prime is an odd prime and the curve coefficient is reduced. */
    ghost predicate Valid()
      reads ec_p, ec_a
    {
      Shape() && OddPrime(Q()) && Val(ec_a[..]) < Q()
    }

    /** The curve coefficient a as a residue; ec_a holds its Montgomery form. */
    ghost function A(): int
      requires Valid()
      reads ec_p, ec_a
    {
      Elt(ec_a[..], Q())
    }

    /** The base point as residues; ec_G holds Montgomery forms. */
    ghost function G(): Pt
      requires Valid()
      reads ec_p, ec_a, ec_G.x, ec_G.y
    {
      PtOf(ec_G.x[..], ec_G.y[..], Q())
    }

    /** ecdsa_set_curve, payload/qa.h:448-468: copy the constants, convert the coefficients and the base point. */
    constructor (p: seq<byte>, a: seq<byte>, b: seq<byte>, N: seq<byte>, gx: seq<byte>, gy: seq<byte>)
      requires |p| == |a| == |b| == |gx| == |gy| == 20 && |N| == 21
      requires OddPrime(Val(p)) && Val(a) < Val(p) && Val(b) < Val(p) && Val(gx) < Val(p) && Val(gy) < Val(p)
      ensures Valid() && Q() == Val(p) && A() == Val(a) && Elt(ec_b[..], Q()) == Val(b)
      ensures G() == Pt(Val(gx), Val(gy)) && Stored(ec_G, Q())
      ensures ec_N[..] == N
    {
      var q := FromBytes(p);
      var ea := ToElement(a, q);
      var eb := ToElement(b, q);
      var order := FromBytes(N);
      var x := ToElement(gx, q);
      var y := ToElement(gy, q);
      ec_p, ec_a, ec_b, ec_N := q, ea, eb, order;
      ec_G := new Point(x, y);
    }

    // ----- field elements, payload/qa.h:223-279 -----

    method EltAdd(d: array<byte>, a: array<byte>, b: array<byte>)
      requires Valid() && d != ec_p
      requires d.Length == 20 && Canonical(a[..], Q()) && Canonical(b[..], Q())
      modifies d
      ensures Canonical(d[..], Q())
      ensures Elt(d[..], Q()) == FAdd(old(Elt(a[..], Q())), old(Elt(b[..], Q())), Q())
    {
      ghost var x, y, p := Val(a[..]), Val(b[..]), Q();
      hide Prime, Dec, Val, AddWord;
      BnAdd(d, a, b, ec_p);
      ValBound(ec_p[..]);
      AddWordIsModular(x, y, p, Wrap(20));
      EltAddFact(d[..], x, y, p);
    }

    method EltSub(d: array<byte>, a: array<byte>, b: array<byte>)
      requires Valid() && d != ec_p
      requires d.Length == 20 && Canonical(a[..], Q()) && Canonical(b[..], Q())
      modifies d
      ensures Canonical(d[..], Q())
      ensures Elt(d[..], Q()) == FSub(old(Elt(a[..], Q())), old(Elt(b[..], Q())), Q())
    {
      ghost var x, y, p := Val(a[..]), Val(b[..]), Q();
      hide Prime, Dec, Val, SubWord;
      BnSub(d, a, b, ec_p);
      SubWordIsModular(x, y, p, Wrap(20));
      EltAddFact(d[..], x, y, p);
    }

    method EltMul(d: array<byte>, a: array<byte>, b: array<byte>)
      requires Valid() && d != ec_p
      requires d.Length == 20 && Canonical(a[..], Q()) && Canonical(b[..], Q())
      modifies d
      ensures Canonical(d[..], Q())
      ensures Elt(d[..], Q()) == FMul(old(Elt(a[..], Q())), old(Elt(b[..], Q())), Q())
    {
      ghost var x, y, p := Val(a[..]), Val(b[..]), Q();
      hide Prime, Dec, Val, Cong, Wrap;
      BnMonMul(d, a, b, ec_p);
      DecMul(Val(d[..]), x, y, p, 20);
    }

    /** elt_inv copies its argument first, so d may be a. */
    method EltInv(d: array<byte>, a: array<byte>)
      requires Valid() && d != ec_p
      requires d.Length == 20 && Canonical(a[..], Q())
      modifies d
      ensures Canonical(d[..], Q())
      ensures Elt(d[..], Q()) == FInv(old(Elt(a[..], Q())), Q())
    {
      assert Q() > 1;
      hide Prime, Dec, Val;
      var s := new byte[20](i => 0);
      BnCopy(s, a);
      BnMonInv(d, s, ec_p);
    }

    method EltIsZero(d: array<byte>) returns (r: bool)
      requires Valid() && Canonical(d[..], Q())
      ensures r <==> Val(d[..]) == 0
      ensures r <==> Elt(d[..], Q()) == 0
    {
      assert Q() > 1;
      hide Prime, Dec, Val;
      EltZero(d[..], Q());
      var i := 0;
      while i < 20
        invariant 0 <= i <= 20
        invariant forall k :: 0 <= k < i ==> d[k] == 0
      {
        if d[i] != 0 {
          NonzeroDigit(d[..], i);
          return false;
        }
        i := i + 1;
      }
      ValZeros(d[..]);
      return true;
    }

    // ----- points, payload/qa.h:281-405 -----

    /** r can be written to without touching the globals that the arithmetic reads. */
    ghost predicate Writable(r: Point) {
      && r.x.Length == r.y.Length == 20 && r.x != r.y
      && r.x != ec_p && r.y != ec_p && r.x != ec_a && r.y != ec_a
    }

    ghost function At(r: Point): Pt
      requires Q() > 1
      reads ec_p, r.x, r.y
    {
      PtOf(r.x[..], r.y[..], Q())
    }

    method PointZero(r: Point)
      requires Valid() && Writable(r)
      modifies r.x, r.y
      ensures Stored(r, Q()) && At(r) == INFINITY
    {
      assert Q() > 1;
      hide Prime, Dec, Val;
      forall i | 0 <= i < 20 {
        r.x[i] := 0;
      }
      forall i | 0 <= i < 20 {
        r.y[i] := 0;
      }
      ValZeros(r.x[..]);
      ValZeros(r.y[..]);
      EltZero(r.x[..], Q());
      EltZero(r.y[..], Q());
    }

    method PointIsZero(r: Point) returns (z: bool)
      requires Valid() && Stored(r, Q())
      ensures z <==> At(r) == INFINITY
    {
      hide Prime, Dec, Val;
      var zx := EltIsZero(r.x);
      if zx {
        z := EltIsZero(r.y);
      } else {
        z := false;
      }
    }

    /** A private copy of a point, as the assignments pp = *p make. */
    method PointCopy(q: Point) returns (c: Point)
      requires Valid() && Stored(q, Q())
      ensures fresh(c) && fresh(c.x) && fresh(c.y) && Writable(c) && Stored(c, Q()) && At(c) == At(q)
    {
      assert Q() > 1;
      hide Prime, Dec, Val;
      var x := FromBytes(q.x[..]);
      var y := FromBytes(q.y[..]);
      c := new Point(x, y);
    }

    /** elt_copy of both coordinates. */
    method PointAssign(r: Point, c: Point)
      requires Valid() && Writable(r) && Stored(c, Q())
      requires c.x !in {r.x, r.y} && c.y !in {r.x, r.y}
      modifies r.x, r.y
      ensures Stored(r, Q()) && At(r) == old(At(c))
    {
      assert Q() > 1;
      hide Prime, Dec, Val;
      BnCopy(r.x, c.x);
      BnCopy(r.y, c.y);
    }

    /** (3 * px^2 + a) / (2 * py). */
    method TangentSlopeOf(pp: Point) returns (s: array<byte>)
      requires Valid() && Stored(pp, Q())
      ensures fresh(s) && Canonical(s[..], Q())
      ensures Elt(s[..], Q()) == TangentSlope(At(pp), A(), Q())
    {
      assert Q() > 1;
      hide Prime, Dec, Val, FAdd, FMul, FInv, Canonical, Elt;
      var t := new byte[20](i => 0);
      s := new byte[20](i => 0);
      EltMul(t, pp.x, pp.x);
      EltAdd(s, t, t);
      EltAdd(s, s, t);
      EltAdd(s, s, ec_a);
      EltAdd(t, pp.y, pp.y);
      EltInv(t, t);
      EltMul(s, s, t);
    }

    /** (qy - py) / (qx - px), given qx - px. */
    method ChordSlopeOf(pp: Point, qq: Point, u: array<byte>) returns (s: array<byte>)
      requires Valid() && Stored(pp, Q()) && Stored(qq, Q())
      requires u.Length == 20 && u !in {pp.x, pp.y, qq.x, qq.y, ec_p, ec_a}
      requires Canonical(u[..], Q()) && Elt(u[..], Q()) == FSub(At(qq).x, At(pp).x, Q())
      modifies u
      ensures fresh(s) && Canonical(s[..], Q())
      ensures Elt(s[..], Q()) == ChordSlope(At(pp), At(qq), Q())
    {
      assert Q() > 1;
      hide Prime, Dec, Val, FAdd, FMul, FInv, FSub, Canonical, Elt;
      var t := new byte[20](i => 0);
      s := new byte[20](i => 0);
      EltInv(t, u);
      EltSub(u, qq.y, pp.y);
      EltMul(s, t, u);
    }

    /** The common end of point_double and point_add: the mirrored third point of the line. */
    method ThirdPointOf(r: Point, s: array<byte>, pp: Point, qq: Point)
      requires Valid() && Writable(r) && Stored(pp, Q()) && Stored(qq, Q()) && Canonical(s[..], Q())
      requires {r.x, r.y} !! {pp.x, pp.y, qq.x, qq.y, s}
      modifies r.x, r.y
      ensures Stored(r, Q()) && At(r) == ThirdPoint(Elt(s[..], Q()), At(pp), At(qq), Q())
    {
      assert Q() > 1;
      hide Prime, Dec, Val, FAdd, FMul, FInv, FSub, Canonical, Elt;
      var t := new byte[20](i => 0);
      EltMul(r.x, s, s);
      EltAdd(t, pp.x, qq.x);
      EltSub(r.x, r.x, t);
      EltSub(t, pp.x, r.x);
      EltMul(r.y, s, t);
      EltSub(r.y, r.y, pp.y);
    }

    /** r may be q. */
    method PointDouble(r: Point, q: Point)
      requires Valid() && Writable(r) && Stored(q, Q())
      modifies r.x, r.y
      ensures Stored(r, Q()) && At(r) == Double(old(At(q)), A(), Q())
    {
      hide Prime, Dec, Val, TangentSlope, ThirdPoint, Canonical;
      var pp := PointCopy(q);
      var z := EltIsZero(pp.y);
      if z {
        PointZero(r);
        return;
      }
      var s := TangentSlopeOf(pp);
      ThirdPointOf(r, s, pp, pp);
    }

    /** r may be p1 or p2. */
    method PointAdd(r: Point, p1: Point, p2: Point)
      requires Valid() && Writable(r) && Stored(p1, Q()) && Stored(p2, Q())
      modifies r.x, r.y
      ensures Stored(r, Q()) && At(r) == Add(old(At(p1)), old(At(p2)), A(), Q())
    {
      hide Prime, Dec, Val, TangentSlope, ChordSlope, ThirdPoint, Double, Canonical;
      var pp := PointCopy(p1);
      var qq := PointCopy(p2);
      var z := PointIsZero(pp);
      if z {
        PointAssign(r, qq);
        return;
      }
      z := PointIsZero(qq);
      if z {
        PointAssign(r, pp);
        return;
      }
      var u := new byte[20](i => 0);
      EltSub(u, qq.x, pp.x);
      z := EltIsZero(u);
      if z {
        EltSub(u, qq.y, pp.y);
        z := EltIsZero(u);
        if z {
          PointDouble(r, pp);
        } else {
          PointZero(r);
        }
        return;
      }
      var s := ChordSlopeOf(pp, qq, u);
      ThirdPointOf(r, s, pp, qq);
    }

    /** Double, and add b when the bit is set. */
    method PointMulBit(d: Point, b: Point, bit: nat, ghost k: nat)
      requires Valid() && Writable(d) && Stored(d, Q()) && Stored(b, Q()) && {d.x, d.y} !! {b.x, b.y}
      requires bit < 2 && At(d) == Multiple(k, At(b), A(), Q())
      modifies d.x, d.y
      ensures Stored(d, Q()) && At(d) == Multiple(2 * k + bit, At(b), A(), Q())
    {
      MultipleStep(k, bit, At(b), A(), Q());
      hide Prime, Dec, Val, Multiple, Double, Add, Canonical;
      PointDouble(d, d);
      if bit != 0 {
        PointAdd(d, d, b);
      }
    }

    /** What the loops below write to is apart from the domain. */
    lemma FieldFacts(d: Point)
      requires Valid() && Writable(d)
      ensures Q() > 1 && d.x !in {ec_p, ec_a} && d.y !in {ec_p, ec_a}
    {
    }

    /** The bits of one byte of the scalar. */
    method PointMulByte(d: Point, x: byte, b: Point, ghost k: nat)
      requires Valid() && Writable(d) && Stored(d, Q()) && Stored(b, Q()) && {d.x, d.y} !! {b.x, b.y}
      requires At(d) == Multiple(k, At(b), A(), Q())
      modifies d.x, d.y
      ensures Stored(d, Q()) && At(d) == Multiple(BitsTaken(k, x, 8), At(b), A(), Q())
    {
      hide *;
      FieldFacts(d);
      MaskStarts(k, x);
      ghost var B, coef, q := At(b), A(), Q();
      var mask := 0x80;
      ghost var j := 0;
      while mask != 0
        invariant j <= 8 && mask == Mask(j) && (mask == 0 <==> j == 8)
        invariant Valid() && q == Q() > 1 && coef == A() && Stored(d, q) && Stored(b, q) && At(b) == B
        invariant At(d) == Multiple(BitsTaken(k, x, j), B, coef, q)
        decreases 8 - j
      {
        MaskSelects(x, j);
        NextBit(k, x, j);
        var bit := MaskBit(x, mask);
        PointMulBit(d, b, bit, BitsTaken(k, x, j));
        j := j + 1;
        mask := mask / 2;
      }
    }

    /** d becomes a times b, a being the 21-byte scalar. */
    method PointMul(d: Point, a: array<byte>, b: Point)
      requires Valid() && Writable(d) && Stored(b, Q()) && {d.x, d.y} !! {b.x, b.y, a} && a.Length == 21
      modifies d.x, d.y
      ensures Stored(d, Q()) && At(d) == Multiple(Val(a[..]), At(b), A(), Q())
    {
      hide *;
      FieldFacts(d);
      ghost var sa, B, coef, q := a[..], At(b), A(), Q();
      PointZero(d);
      NoDigits(sa, B, coef, q);
      var i := 0;
      while i < 21
        invariant 0 <= i <= 21 && a[..] == sa
        invariant Valid() && q == Q() > 1 && coef == A() && Stored(d, q) && Stored(b, q) && At(b) == B
        invariant At(d) == Multiple(Val(sa[..i]), B, coef, q)
      {
        PointMulByte(d, a[i], b, Val(sa[..i]));
        NextByte(sa, i);
        i := i + 1;
      }
      assert sa[..21] == sa;
    }

    /** point_from_mon: the stored coordinates become the residues themselves. */
    method PointFromMon(r: Point)
      requires Valid() && Writable(r) && Stored(r, Q())
      modifies r.x, r.y
      ensures r.x.Length == r.y.Length == 20
      ensures Val(r.x[..]) == old(At(r)).x && Val(r.y[..]) == old(At(r)).y
    {
      assert Q() > 1;
      hide Prime, Dec, Val;
      BnFromMon(r.x, ec_p);
      BnFromMon(r.y, ec_p);
    }

    // ----- signing, payload/qa.h:407-446 -----

    /** bn_reduce(e, ec_N) on the hash or the key widened to 21 bytes. */
    method Reduced(s: seq<byte>) returns (d: array<byte>)
      requires |s| == ec_N.Length == 21 && Val(s) < 2 * Val(ec_N[..])
      ensures fresh(d) && d.Length == 21 && Val(d[..]) < Val(ec_N[..])
      ensures Cong(Val(d[..]), Val(s), Val(ec_N[..]))
    {
      d := FromBytes(s);
      BnReduce(d, ec_N);
      ReduceCong(Val(s), Val(ec_N[..]));
    }

    /** R[0] = 0; elt_copy(R+1, x). */
    static method StoreWide(R: array<byte>, x: array<byte>)
      requires R.Length == 21 && x.Length == 20 && R != x
      modifies R
      ensures Val(R[..]) == Val(x[..])
    {
      R[0] := 0;
      forall i | 0 <= i < 20 {
        R[i + 1] := x[i];
      }
      assert R[..] == [0] + x[..];
      LeadingZero(x[..]);
    }

    /** R is the x-coordinate of nonce * G as a 21-byte number. */
    method NoncePoint(R: array<byte>, m: array<byte>)
      requires Valid() && Stored(ec_G, Q()) && R.Length == m.Length == 21
      requires R !in {ec_p, ec_a, ec_G.x, ec_G.y}
      modifies R
      ensures Val(R[..]) == Multiple(old(Val(m[..])), old(G()), A(), Q()).x
    {
      hide Prime, Dec, Val, Multiple, Canonical;
      var x := new byte[20](i => 0);
      var y := new byte[20](i => 0);
      var mG := new Point(x, y);
      PointMul(mG, m, ec_G);
      PointFromMon(mG);
      StoreWide(R, mG.x);
    }

    /** What a stored scalar stands for modulo the group order. */
    ghost function Plain(s: array<byte>): int
      requires Val(ec_N[..]) > 1
      reads ec_N, s
    {
      Dec(Val(s[..]), Val(ec_N[..]), 21)
    }

    /** S = m^-1 (e + R k) on Montgomery forms: afterwards S is the plain residue. R need not be reduced. */
    method SolveForS(S: array<byte>, R: array<byte>, kk: array<byte>, e: array<byte>, m: array<byte>)
      requires S.Length == R.Length == kk.Length == e.Length == m.Length == ec_N.Length == 21
      requires OddPrime(Val(ec_N[..])) && S !in {R, kk, e, m, ec_N} && kk !in {R, e, m, ec_N}
      requires Val(e[..]) < Val(ec_N[..]) && Val(m[..]) < Val(ec_N[..])
      modifies S, kk
      ensures Val(S[..]) < Val(ec_N[..])
      ensures Solves(Val(S[..]), Plain(m), Plain(e), Plain(R), old(Plain(kk)), Val(ec_N[..]))
    {
      ghost var N, k0 := Val(ec_N[..]), Val(kk[..]);
      ghost var r0, e0, m0 := Val(R[..]), Val(e[..]), Val(m[..]);
      assert N > 1;
      ValBound(ec_N[..]);
      hide Prime, Dec, Val, Cong, Wrap, AddWord, IsPower, Solves;
      BnMonMul(S, R, kk, ec_N);
      ghost var t := Val(S[..]);
      ValBound(S[..]);
      BnAdd(kk, S, e, ec_N);
      ghost var u := Val(kk[..]);
      SumOfScalars(t, r0, k0, e0, u, N);
      var minv := new byte[21](i => 0);
      BnMonInv(minv, m, ec_N);
      ghost var w := Val(minv[..]);
      DecRange(m0, N);
      PowerRange(w, Dec(m0, N, 21), N, 21);
      BnMonMul(S, minv, kk, ec_N);
      DecMul(Val(S[..]), w, u, N, 21);
      BnFromMon(S, ec_N);
      SolvesFromInverse(Val(S[..]), Dec(w, N, 21), Dec(m0, N, 21), Dec(e0, N, 21), Dec(r0, N, 21), Dec(k0, N, 21), N);
    }

    /** bn_to_mon of a scalar, as what it stands for if it is reduced. */
    method ScalarToMon(d: array<byte>)
      requires d != ec_N && d.Length == ec_N.Length == 21
      requires Val(ec_N[..]) > 1 && Val(ec_N[..]) % 2 == 1
      modifies d
      ensures Plain(d) == Returned(old(Val(d[..])), Val(ec_N[..]))
      ensures old(Val(d[..])) < Val(ec_N[..]) ==> Val(d[..]) < Val(ec_N[..]) && Plain(d) == old(Val(d[..]))
    {
      ValBound(ec_N[..]);
      ReturnedReduced(Val(d[..]), Val(ec_N[..]));
      hide Dec;
      BnToMon(d, ec_N);
    }

    /** The arithmetic modulo the group order, from plain numbers to plain residues. Only R may be unreduced. */
    method SignScalars(R: array<byte>, S: array<byte>, kk: array<byte>, e: array<byte>, m: array<byte>)
      requires S.Length == R.Length == kk.Length == e.Length == m.Length == ec_N.Length == 21
      requires OddPrime(Val(ec_N[..])) && ec_N !in {R, S, kk, e, m}
      requires S !in {R, kk, e, m} && kk !in {R, e, m} && R !in {e, m} && e != m
      requires Val(kk[..]) < Val(ec_N[..]) && Val(e[..]) < Val(ec_N[..]) && Val(m[..]) < Val(ec_N[..])
      modifies R, S, kk, e, m
      ensures Val(S[..]) < Val(ec_N[..]) && Cong(Val(R[..]), Returned(old(Val(R[..])), Val(ec_N[..])), Val(ec_N[..]))
      ensures old(Val(R[..])) < Val(ec_N[..]) || Wrap(21) <= 512 * Val(ec_N[..]) ==>
                Val(R[..]) == Returned(old(Val(R[..])), Val(ec_N[..]))
      ensures Solves(Val(S[..]), old(Val(m[..])), old(Val(e[..])), Returned(old(Val(R[..])), Val(ec_N[..])),
                     old(Val(kk[..])), Val(ec_N[..]))
    {
      assert Val(ec_N[..]) > 1;
      hide Prime, Dec, Val, Solves, Returned, Wrap, Cong;
      ScalarToMon(m);
      ScalarToMon(e);
      ScalarToMon(R);
      ScalarToMon(kk);
      SolveForS(S, R, kk, e, m);
      BnFromMon(R, ec_N);
    }

    lemma OrderFacts()
      requires Valid() && OddPrime(Val(ec_N[..]))
      ensures ec_N.Length == 21 && Val(ec_N[..]) > 1 && Val(ec_N[..]) % 2 == 1 && Val(ec_N[..]) < Wrap(21) && Q() > 1
    {
      ValBound(ec_N[..]);
    }

    /** generate_ecdsa with the accepted nonce as a parameter. The signature equation holds for the R returned and every
        nonzero nonce; the zero nonce, which the retry loop does not exclude, gives the pair (0, 0). The code does not
        reduce the x-coordinate: R is that coordinate exactly when it is below N, provided N fills its 20 bytes to half
        at least, and what Returned says otherwise. */
    method GenerateEcdsa(R: array<byte>, S: array<byte>, k: seq<byte>, hash: seq<byte>, nonce: seq<byte>)
      requires Valid() && Stored(ec_G, Q()) && OddPrime(Val(ec_N[..]))
      requires R.Length == S.Length == |k| == |nonce| == 21 && |hash| == 20
      requires R != S && {R, S} !! {ec_p, ec_a, ec_N, ec_G.x, ec_G.y}
      requires Val(hash) < 2 * Val(ec_N[..]) && Val(k) < 2 * Val(ec_N[..]) && Val(nonce) < Val(ec_N[..])
      modifies R, S
      ensures Val(S[..]) < Val(ec_N[..])
      ensures var N, x := Val(ec_N[..]), Multiple(Val(nonce), G(), A(), Q()).x;
        && (Val(nonce) != 0 ==> Cong(Val(S[..]) * Val(nonce), Val(hash) + Val(R[..]) * Val(k), N))
        && (Val(nonce) == 0 ==> Val(R[..]) == 0 && Val(S[..]) == 0)
        && (x < N ==> Val(R[..]) == x) && Cong(Val(R[..]), Returned(x, N), N)
        && (Wrap(21) <= 512 * N ==> Val(R[..]) == Returned(x, N) < N && (Val(R[..]) == x <==> x < N))
    {
      hide *;
      OrderFacts();
      LeadingZero(hash);
      ghost var N, x := Val(ec_N[..]), Multiple(Val(nonce), G(), A(), Q()).x;
      var e := Reduced([0] + hash);
      var m := FromBytes(nonce);
      NoncePoint(R, m);
      assert Val(R[..]) == x && Val(m[..]) == Val(nonce);
      var kk := Reduced(k);
      ghost var e0, k0 := Val(e[..]), Val(kk[..]);
      SignScalars(R, S, kk, e, m);
      NoPoint(Val(nonce), G(), A(), Q());
      Signed(Val(R[..]), Val(S[..]), x, Val(nonce), e0, k0, Val(hash), Val(k), N);
    }
  }

  lemma MultipleOf(w: int, N: int)
    requires N > 1
    ensures (N * w) % N == 0
  {
    MulWitness(-w, N, 0 - N * w);
    ModUnique(0, N * w, N);
  }

  lemma {:induction false} DoubledModulus(N: int, k: nat, w: int)
    requires 0 < N && 2 * N < w
    ensures Doubled(N, k, N, w) == N
  {
    if k > 0 {
      DoubledModulus(N, k - 1, w);
    }
  }

  lemma {:induction false} DoubledNext(N: int, k: nat, w: int)
    requires 0 < N && 4 * N < w && 2 * Pow(2, k) <= w
    ensures Doubled(N + 1, k, N, w) == N + Pow(2, k)
  {
    if k > 0 {
      PowPos(2, k - 1);
      DoubledNext(N, k - 1, w);
    }
  }

  /** bn_to_mon needs a reduced argument, for every odd modulus that leaves two bits of its length free: N itself comes
      out unreduced, and N + 1, whose Montgomery form is not zero, comes out as zero. */
  lemma ToMonNeedsReduced(N: int, n: nat)
    requires N > 1 && N % 2 == 1 && 4 * N < Wrap(n)
    ensures Doubled(N, 8 * n, N, Wrap(n)) == N && Enc(N, N, n) == 0
    ensures Doubled(N + 1, 8 * n, N, Wrap(n)) == 0 && Enc(N + 1, N, n) != 0
  {
    DoubledModulus(N, 8 * n, Wrap(n));
    PowersOfTwo(n);
    var k := 8 * n - 1;
    assert Pow(2, 8 * n) == 2 * Pow(2, k);
    DoubledNext(N, k, Wrap(n));
    assert Doubled(N + 1, k + 1, N, Wrap(n)) == AddWord(N + Pow(2, k), N + Pow(2, k), N, Wrap(n));
    DecEnc(N + 1, N, n);
    DecZero(N, n);
    hide *;
    MultipleOf(Wrap(n), N);
    ModUnique(1, N + 1, N) by {
      MulWitness(-1, N, 1 - (N + 1));
    }
  }

  /** The converse does not hold: an unreduced number can come out right by chance. */
  lemma UnreducedByChance()
    ensures Doubled(91, 8, 3, Wrap(1)) == Enc(91, 3, 1) == 1
  {
    var w := Wrap(1);
    assert w == 256;
    assert Doubled(91, 2, 3, w) == 96;
    assert Doubled(91, 4, 3, w) == 116;
    assert Doubled(91, 6, 3, w) == 196;
  }

  // ----- the curve of payload/qa.h:2-7 and the key of payload/qa.h:18 -----

  const P_FIXED: int := 0xFFFFFFFFFFFFFFFF00000001FFFFFFFFFFFFFFFF
  const A_FIXED: int := 0xFFFFFFFFFFFFFFFF00000001FFFFFFFFFFFFFFFC
  const B_FIXED: int := 0xA68BEDC33418029C1D3CE33B9A321FCCBB9E0F0B
  const N_FIXED: int := 0x00FFFFFFFFFFFFFFFEFFFFB5AE3C523E63944F2127
  const GX_FIXED: int := 0x128EC4256487FD8FDF64E2437BC0A1F6D5AFDE2C
  const GY_FIXED: int := 0x5958557EB1DB001260425524DBC379D5AC5F4ADF
  const EC_K: int := 0x00bf21224b041f29549db25e9aade19e720a1fe0f1

  /** The fixed base point is on the fixed curve, and one conditional subtraction is enough to reduce
      any 20-byte hash and the fixed key: the size hypotheses of GenerateEcdsa hold for the constants. */
  lemma FixedCurve(hash: seq<byte>)
    requires |hash| == 20
    ensures OnCurve(Pt(GX_FIXED, GY_FIXED), A_FIXED, B_FIXED, P_FIXED) && !CurveEq(0, 0, A_FIXED, B_FIXED, P_FIXED)
    ensures P_FIXED % 2 == 1 && N_FIXED % 2 == 1 && A_FIXED < P_FIXED && B_FIXED < P_FIXED
    ensures Val(hash) < 2 * N_FIXED && EC_K < N_FIXED < P_FIXED && Wrap(21) <= 512 * N_FIXED && 4 * N_FIXED < Wrap(21)
  {
    MulWitness(-0x18F70882CC74B71D7698F87FDAB67CC26AB99B7342CC77939DA702484AE8E0547161EB187B2B26,
               P_FIXED, GY_FIXED * GY_FIXED - (GX_FIXED * GX_FIXED * GX_FIXED + A_FIXED * GX_FIXED + B_FIXED));
    InfinityIsNoPoint(A_FIXED, B_FIXED, P_FIXED);
    if Divides(P_FIXED, B_FIXED) {
      ResidueZero(B_FIXED, P_FIXED);
    }
    ValBound(hash);
    PowAdd(256, 10, 10);
    assert Pow(256, 5) == 0x100_0000_0000;
    PowAdd(256, 5, 5);
  }
}
