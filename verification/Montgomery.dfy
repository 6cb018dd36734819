/** Digit-serial Montgomery multiplication, exponentiation and inversion on byte arrays. */
module Montgomery {
  import opened Common
  import opened ModArith
  import opened Bignum

  // ----- the inverse table, payload/qa.h:129-146 -----

  // Two rows of the table at a time; row k holds the inverses of 16k+1, 16k+3, ..., 16k+15.

  function InverseRows0(k: nat): (row: seq<byte>)
    requires 0 <= k < 2
    ensures |row| == 8 && forall j :: 0 <= j < 8 ==> (16 * k + 2 * j + 1) * row[j] % 256 == 1
  {
    if k == 0 then
      [0x01, 0xab, 0xcd, 0xb7, 0x39, 0xa3, 0xc5, 0xef]
    else
      [0xf1, 0x1b, 0x3d, 0xa7, 0x29, 0x13, 0x35, 0xdf]
  }

  function InverseRows2(k: nat): (row: seq<byte>)
    requires 2 <= k < 4
    ensures |row| == 8 && forall j :: 0 <= j < 8 ==> (16 * k + 2 * j + 1) * row[j] % 256 == 1
  {
    if k == 2 then
      [0xe1, 0x8b, 0xad, 0x97, 0x19, 0x83, 0xa5, 0xcf]
    else
      [0xd1, 0xfb, 0x1d, 0x87, 0x09, 0xf3, 0x15, 0xbf]
  }

  function InverseRows4(k: nat): (row: seq<byte>)
    requires 4 <= k < 6
    ensures |row| == 8 && forall j :: 0 <= j < 8 ==> (16 * k + 2 * j + 1) * row[j] % 256 == 1
  {
    if k == 4 then
      [0xc1, 0x6b, 0x8d, 0x77, 0xf9, 0x63, 0x85, 0xaf]
    else
      [0xb1, 0xdb, 0xfd, 0x67, 0xe9, 0xd3, 0xf5, 0x9f]
  }

  function InverseRows6(k: nat): (row: seq<byte>)
    requires 6 <= k < 8
    ensures |row| == 8 && forall j :: 0 <= j < 8 ==> (16 * k + 2 * j + 1) * row[j] % 256 == 1
  {
    if k == 6 then
      [0xa1, 0x4b, 0x6d, 0x57, 0xd9, 0x43, 0x65, 0x8f]
    else
      [0x91, 0xbb, 0xdd, 0x47, 0xc9, 0xb3, 0xd5, 0x7f]
  }

  function InverseRows8(k: nat): (row: seq<byte>)
    requires 8 <= k < 10
    ensures |row| == 8 && forall j :: 0 <= j < 8 ==> (16 * k + 2 * j + 1) * row[j] % 256 == 1
  {
    if k == 8 then
      [0x81, 0x2b, 0x4d, 0x37, 0xb9, 0x23, 0x45, 0x6f]
    else
      [0x71, 0x9b, 0xbd, 0x27, 0xa9, 0x93, 0xb5, 0x5f]
  }

  function InverseRows10(k: nat): (row: seq<byte>)
    requires 10 <= k < 12
    ensures |row| == 8 && forall j :: 0 <= j < 8 ==> (16 * k + 2 * j + 1) * row[j] % 256 == 1
  {
    if k == 10 then
      [0x61, 0x0b, 0x2d, 0x17, 0x99, 0x03, 0x25, 0x4f]
    else
      [0x51, 0x7b, 0x9d, 0x07, 0x89, 0x73, 0x95, 0x3f]
  }

  function InverseRows12(k: nat): (row: seq<byte>)
    requires 12 <= k < 14
    ensures |row| == 8 && forall j :: 0 <= j < 8 ==> (16 * k + 2 * j + 1) * row[j] % 256 == 1
  {
    if k == 12 then
      [0x41, 0xeb, 0x0d, 0xf7, 0x79, 0xe3, 0x05, 0x2f]
    else
      [0x31, 0x5b, 0x7d, 0xe7, 0x69, 0x53, 0x75, 0x1f]
  }

  function InverseRows14(k: nat): (row: seq<byte>)
    requires 14 <= k < 16
    ensures |row| == 8 && forall j :: 0 <= j < 8 ==> (16 * k + 2 * j + 1) * row[j] % 256 == 1
  {
    if k == 14 then
      [0x21, 0xcb, 0xed, 0xd7, 0x59, 0xc3, 0xe5, 0x0f]
    else
      [0x11, 0x3b, 0x5d, 0xc7, 0x49, 0x33, 0x55, 0xff]
  }

  /** Entry i of the table is the inverse of 2i+1 modulo 256. */
  function Inv256(i: nat): (inv: byte)
    requires i < 128
    ensures (2 * i + 1) * inv % 256 == 1
  {
    var k, j := i / 8, i % 8;
    var row := if k < 2 then InverseRows0(k)
               else if k < 4 then InverseRows2(k)
               else if k < 6 then InverseRows4(k)
               else if k < 8 then InverseRows6(k)
               else if k < 10 then InverseRows8(k)
               else if k < 12 then InverseRows10(k)
               else if k < 14 then InverseRows12(k)
               else InverseRows14(k);
    assert 16 * k + 2 * j + 1 == 2 * i + 1;
    row[j]
  }

  // ----- one digit step, payload/qa.h:148-171 -----

  lemma LowDigitWitness(x: int, N0: int, inv: int, z: int, k: int, l: int)
    requires N0 * inv == 256 * k + 1 && z == -x * inv - 256 * l
    ensures (x + N0 * z) % 256 == 0
  {
    assert N0 * (-x * inv) == -x * (N0 * inv);
    assert -x * (256 * k + 1) == -256 * (x * k) - x;
    assert N0 * (256 * l) == 256 * (N0 * l);
    assert N0 * (-x * inv - 256 * l) == N0 * (-x * inv) - N0 * (256 * l);
    assert x + N0 * z == 256 * (-(x * k) - N0 * l);
  }

  /** The low digit vanishes modulo 256 once z times the modulus is added. */
  lemma LowDigitVanishes(x: int, N0: byte, z: byte)
    requires N0 % 2 == 1 && z == (-x * Inv256(N0 / 2)) % 256
    ensures (x + N0 * z) % 256 == 0
  {
    var inv := Inv256(N0 / 2);
    assert N0 == 2 * (N0 / 2) + 1;
    var k, l := N0 * inv / 256, (-x * inv) / 256;
    LowDigitWitness(x, N0, inv, z, k, l);
  }

  lemma DigitStep(d: int, a: int, N: int, b: int, z: int, dig0: int, dig: int, out: int, w: int,
                  vd: int, va: int, vN: int, rest: int)
    requires vd + va * b + vN * z == 256 * (rest + dig0 * w)
    requires dig0 + d + a * b + N * z == 256 * dig + out
    ensures (d * (256 * w) + vd) + (a * (256 * w) + va) * b + (N * (256 * w) + vN) * z
         == 256 * ((out * w + rest) + dig * (256 * w))
  {
    var W := 256 * w;
    assert (a * W + va) * b == (a * b) * W + va * b;
    assert (N * W + vN) * z == (N * z) * W + vN * z;
    assert d * W + (a * b) * W + (N * z) * W == (256 * dig + out - dig0) * W;
    assert (256 * dig + out - dig0) * W == 256 * ((256 * dig + out - dig0) * w);
    assert (256 * dig + out - dig0) * w == dig * W + out * w - dig0 * w;
  }

  /** The bound behind the single final subtraction: a digit step stays below twice the modulus. */
  lemma DigitBound(d: int, a: int, b: int, N: int, z: int, q: int)
    requires 0 <= d < N && 0 <= a < N && 0 <= b < 256 && 0 <= z < 256
    requires 256 * q == d + a * b + N * z
    ensures 0 <= q < 2 * N
  {
    MulLe(b, 255, a);
    MulLe(z, 255, N);
    MulLe(0, b, a);
    MulLe(0, z, N);
    assert b * a == a * b && z * N == N * z;
  }

  lemma DigitCong(p: int, N: int, z: int, q: int, j: int)
    requires 256 * q == p + N * z
    ensures Cong(256 * (q - j * N), p, N)
  {
    assert (z - 256 * j) * N == N * z - 256 * (j * N);
    MulWitness(z - 256 * j, N, 256 * (q - j * N) - p);
  }

  /** The columns i, i+1, ... of d + a*b + N*z, divided by 256, are rest with the carry dig on top. */
  ghost predicate ColumnsDone(sd: seq<byte>, sa: seq<byte>, sN: seq<byte>, i: nat, b: byte, z: byte,
                              rest: seq<byte>, dig: int)
    requires |sd| == |sa| == |sN| && i < |sd|
  {
    && |rest| == |sd| - 1 - i
    && Val(sd[i..]) + Val(sa[i..]) * b + Val(sN[i..]) * z == 256 * (Val(rest) + dig * Wrap(|rest|))
  }

  lemma LastDigit(s: seq<byte>)
    requires |s| > 0
    ensures Val(s[|s| - 1..]) == s[|s| - 1]
  {
    ValStep(s, |s| - 1);
    assert s[|s|..] == [];
  }

  lemma FirstColumn(sd: seq<byte>, sa: seq<byte>, sN: seq<byte>, b: byte, z: byte, dig: int)
    requires 0 < |sd| == |sa| == |sN|
    requires var i := |sd| - 1; sd[i] + sa[i] * b + sN[i] * z == 256 * dig
    ensures ColumnsDone(sd, sa, sN, |sd| - 1, b, z, [], dig)
  {
    LastDigit(sd);
    LastDigit(sa);
    LastDigit(sN);
  }

  lemma NextColumn(sd: seq<byte>, sa: seq<byte>, sN: seq<byte>, i: nat, b: byte, z: byte,
                   dig0: int, dig: int, out: byte, rest: seq<byte>)
    requires |sd| == |sa| == |sN| && i + 1 < |sd|
    requires ColumnsDone(sd, sa, sN, i + 1, b, z, rest, dig0)
    requires dig0 + sd[i] + sa[i] * b + sN[i] * z == 256 * dig + out
    ensures ColumnsDone(sd, sa, sN, i, b, z, [out] + rest, dig)
  {
    ValStep(sd, i);
    ValStep(sa, i);
    ValStep(sN, i);
    assert ([out] + rest)[1..] == rest;
    DigitStep(sd[i], sa[i], sN[i], b, z, dig0, dig, out, Wrap(|rest|),
              Val(sd[i + 1..]), Val(sa[i + 1..]), Val(sN[i + 1..]), Val(rest));
  }

  /** What a digit step stores of q: at most one subtraction for an overflow of the n bytes, and one for the
      comparison. */
  ghost function DigitResult(q: int, N: int, w: int): int {
    if q < w then Reduce(q, N) else Reduce(q - N, N)
  }

  lemma Subtractions(q: int, N: int, w: int) returns (j: nat)
    requires 0 <= q && 0 < N < w
    ensures DigitResult(q, N, w) == q - j * N
    ensures q < 2 * N ==> 0 <= DigitResult(q, N, w) < N
  {
    j := (if q < w then 0 else 1) + if (if q < w then q else q - N) >= N then 1 else 0;
    assert 2 * N == N + N;
  }

  /** For n-byte operands q overflows by less than the modulus. */
  lemma DigitFits(d0: int, a: int, b: byte, N: int, z: byte, q: int, w: int)
    requires 0 <= d0 < w && 0 <= a < w && 0 < N && 256 * q == d0 + a * b + N * z
    ensures 0 <= q < w + N
  {
    MulLe(b, 255, a);
    MulLe(0, b, a);
    MulLe(z, 255, N);
    MulLe(0, z, N);
    assert a * b == b * a && N * z == z * N;
  }

  /** The step divides by 256 modulo N, and stays below N on reduced operands. */
  lemma FinishDigit(d0: int, a: int, b: byte, N: int, z: byte, q: int, w: int)
    requires 0 <= d0 < w && 0 <= a < w && 0 < N < w && 256 * q == d0 + a * b + N * z
    ensures 0 <= q < w + N && Cong(256 * DigitResult(q, N, w), d0 + a * b, N)
    ensures d0 < N && a < N ==> 0 <= DigitResult(q, N, w) < N
  {
    DigitFits(d0, a, b, N, z, q, w);
    var j := Subtractions(q, N, w);
    DigitCong(d0 + a * b, N, z, q, j);
    hide DigitResult, Cong;
    if d0 < N && a < N {
      DigitBound(d0, a, b, N, z, q);
    }
  }

  lemma SmallCarry(dig: int, w: int, v: int, N: int)
    requires 0 <= dig && 0 <= v && 0 < N < w && v + dig * w < w + N
    ensures dig <= 1 && dig * w == if dig == 0 then 0 else w
  {
    if dig >= 2 {
      MulLe(2, dig, w);
    }
  }

  /** The end of a digit step: store the top digit, then subtract the modulus at most once, or twice when the top
      digit overflowed. */
  method StoreTop(d: array<byte>, carry: int, N: array<byte>, ghost q: int)
    requires d != N && 0 < d.Length == N.Length && carry >= 0
    requires q == Val([carry % 256] + d[1..]) + (carry / 256) * Wrap(d.Length)
    modifies d
    ensures 0 < Val(N[..]) && q < Wrap(d.Length) + Val(N[..]) ==>
              Val(d[..]) == DigitResult(q, Val(N[..]), Wrap(d.Length))
  {
    ghost var stored: seq<byte> := [carry % 256] + d[1..];
    d[0] := carry % 256;
    var dig := carry / 256;
    assert d[..] == stored;
    ValBound(N[..]);
    ValBound(d[..]);
    if 0 < Val(N[..]) && q < Wrap(d.Length) + Val(N[..]) {
      SmallCarry(dig, Wrap(d.Length), Val(d[..]), Val(N[..]));
    }
    if dig != 0 {
      var borrow := BnSub1(d, d, N);
      ValBound(d[..]);
    }
    BnReduce(d, N);
  }

  lemma ProductBound(x: byte, y: byte)
    ensures 0 <= x * y <= 255 * 255
  {
    MulLe(x, 255, y);
    MulLe(0, x, y);
  }

  /** One turn of the digit loop: accumulate column i and store it one place down. */
  method MulAddDigit(d: array<byte>, a: array<byte>, b: byte, N: array<byte>, z: byte, i: nat, carry: nat)
    returns (dig: nat)
    requires d != a && d != N && i + 1 < d.Length == a.Length == N.Length && carry <= 511
    modifies d
    ensures dig <= 511
    ensures carry + old(d[i]) + a[i] * b + N[i] * z == 256 * dig + d[i + 1]
    ensures d[..] == old(d[..])[i + 1 := d[i + 1]]
  {
    ProductBound(a[i], b);
    ProductBound(N[i], z);
    dig := carry + d[i] + a[i] * b + N[i] * z;
    assert dig < 0x1_0000_0000;
    d[i + 1] := dig % 256;
    dig := dig / 256;
  }

  /** The multiplier z of the modulus, and the carry out of the vanishing lowest column. */
  method LowDigit(d: array<byte>, a: array<byte>, b: byte, N: array<byte>) returns (z: byte, dig: nat)
    requires 0 < d.Length == a.Length == N.Length && N[N.Length - 1] % 2 == 1
    ensures dig <= 511
    ensures var i := d.Length - 1; d[i] + a[i] * b + N[i] * z == 256 * dig
  {
    var i := d.Length - 1;
    ProductBound(a[i], b);
    z := (-(d[i] + a[i] * b) * Inv256(N[i] / 2)) % 256;
    ProductBound(N[i], z);
    LowDigitVanishes(d[i] + a[i] * b, N[i], z);
    dig := d[i] + a[i] * b + N[i] * z;
    assert dig < 0x1_0000_0000;
    dig := dig / 256;
  }

  /** The digit loop: the columns right of i, divided by 256, are in d and the carry. */
  method DigitLoop(d: array<byte>, a: array<byte>, b: byte, N: array<byte>, z: byte, low: nat)
    returns (dig: nat)
    requires d != a && d != N && 0 < d.Length == a.Length == N.Length && low <= 511
    requires ColumnsDone(d[..], a[..], N[..], d.Length - 1, b, z, [], low)
    modifies d
    ensures ColumnsDone(old(d[..]), a[..], N[..], 0, b, z, d[1..], dig)
  {
    ghost var sd, sa, sN, n := d[..], a[..], N[..], d.Length;
    hide ColumnsDone;
    var i := d.Length - 1;
    dig := low;
    assert d[n..] == [];
    while i > 0
      invariant 0 <= i < n && dig <= 511
      invariant d[..i + 1] == sd[..i + 1] && a[..] == sa && N[..] == sN
      invariant ColumnsDone(sd, sa, sN, i, b, z, d[i + 1..], dig)
    {
      i := i - 1;
      assert d[i] == sd[i];
      ghost var carry, rest := dig, d[i + 2..];
      dig := MulAddDigit(d, a, b, N, z, i, dig);
      assert d[i + 1..] == [d[i + 1]] + rest;
      NextColumn(sd, sa, sN, i, b, z, carry, dig, d[i + 1], rest);
    }
  }

  lemma TopDigit(dig0: int, dig: int, out: int, rest: int, w: int)
    requires dig0 == 256 * dig + out
    ensures rest + dig0 * w == (out * w + rest) + dig * (256 * w)
  {
  }

  lemma {:induction false} ValParity(s: seq<byte>)
    requires |s| > 0
    ensures Val(s) % 2 == s[|s| - 1] % 2
  {
    hide Val;
    assert s == s[..|s| - 1] + [s[|s| - 1]];
    ValAppend(s[..|s| - 1], s[|s| - 1]);
  }

  lemma WrapStep(k: nat)
    ensures Wrap(k + 1) == 256 * Wrap(k)
  {
  }

  /** All columns: the sum divided by 256, its low digits rest and the number dig on top of them. */
  lemma WholeSum(sd: seq<byte>, sa: seq<byte>, sN: seq<byte>, b: byte, z: byte, rest: seq<byte>, dig: nat)
    returns (q: nat)
    requires 0 < |sd| == |sa| == |sN| && ColumnsDone(sd, sa, sN, 0, b, z, rest, dig)
    ensures 256 * q == Val(sd) + Val(sa) * b + Val(sN) * z
    ensures q == Val([dig % 256] + rest) + (dig / 256) * Wrap(|sd|)
  {
    assert sd[0..] == sd && sa[0..] == sa && sN[0..] == sN;
    ghost var top: seq<byte> := [dig % 256] + rest;
    assert top[1..] == rest;
    ValBound(rest);
    MulLe(0, dig, Wrap(|rest|));
    TopDigit(dig, dig / 256, dig % 256, Val(rest), Wrap(|rest|));
    WrapStep(|rest|);
    q := Val(rest) + dig * Wrap(|rest|);
  }

  /** For any d and a: the sum of d, a * b and a multiple of N divided by 256, less N at most twice. */
  method BnMonMulAddDig(d: array<byte>, a: array<byte>, b: byte, N: array<byte>) returns (ghost y: byte, ghost q: nat)
    requires d != a && d != N && 0 < d.Length == a.Length == N.Length
    requires N[N.Length - 1] % 2 == 1
    modifies d
    ensures 256 * q == old(Val(d[..])) + Val(a[..]) * b + Val(N[..]) * y
    ensures Val(d[..]) == DigitResult(q, Val(N[..]), Wrap(d.Length))
    ensures Cong(256 * Val(d[..]), old(Val(d[..])) + Val(a[..]) * b, Val(N[..]))
    ensures old(Val(d[..])) < Val(N[..]) && Val(a[..]) < Val(N[..]) ==> Val(d[..]) < Val(N[..])
  {
    hide *;
    ghost var sd, sa, sN, w := d[..], a[..], N[..], Wrap(d.Length);
    ValParity(sN);
    ValBound(sd);
    ValBound(sa);
    ValBound(sN);
    var z, dig := LowDigit(d, a, b, N);
    y := z;
    FirstColumn(sd, sa, sN, b, z, dig);
    dig := DigitLoop(d, a, b, N, z, dig);
    q := WholeSum(sd, sa, sN, b, z, d[1..], dig);
    FinishDigit(Val(sd), Val(sa), b, Val(sN), z, q, w);
    StoreTop(d, dig, N, q);
  }

  // ----- Montgomery multiplication, payload/qa.h:173-184 -----

  lemma MonMulStep(t: int, t': int, a: int, b: int, vb: int, P: int, N: int)
    requires Cong(256 * t', t + a * b, N) && Cong(t * P, a * vb, N)
    ensures Cong(t' * (256 * P), a * (b * P + vb), N)
  {
    CongRefl(P, N);
    CongMul(256 * t', t + a * b, P, P, N);
    CongRefl(a * b * P, N);
    CongAdd(t * P, a * vb, a * b * P, a * b * P, N);
    assert (t + a * b) * P == t * P + a * b * P;
    assert a * (b * P + vb) == a * vb + a * b * P;
    assert 256 * t' * P == t' * (256 * P);
    CongTrans(256 * t' * P, (t + a * b) * P, a * (b * P + vb), N);
  }

  /** bn_zero on a local buffer. */
  method BnZero(n: nat) returns (t: array<byte>)
    ensures fresh(t) && t.Length == n && Val(t[..]) == 0
  {
    t := new byte[n](i => 0);
    ValZeros(t[..]);
  }

  method BnCopy(d: array<byte>, a: array<byte>)
    requires d.Length == a.Length
    modifies d
    ensures d[..] == old(a[..])
  {
    forall k | 0 <= k < d.Length {
      d[k] := a[k];
    }
  }

  /** The digits of 1. */
  lemma DigitOfOne(s: seq<byte>, i: nat)
    requires i < |s| && Val(s) == 1
    ensures s[i] == if i == |s| - 1 then 1 else 0
  {
    var z := seq(|s| - 1, k => 0) + [1];
    ValZeros(z[..|s| - 1]);
    assert z == z[..|s| - 1] + [1];
    ValAppend(z[..|s| - 1], 1);
    ValInjective(s, z);
  }

  /** Multiplying by 1: the first digit step stays below 2N, every later one below N. */
  lemma ReducesOne(d0: nat, a: nat, b: byte, N: nat, z: byte, q: nat, w: nat, first: bool, second: bool)
    requires 256 * q == d0 + a * b + N * z && a < w && 0 < N < w <= 512 * N
    requires b == (if first then 1 else 0) && d0 < (if first then 1 else if second then 2 * N else N)
    ensures DigitResult(q, N, w) < if first then 2 * N else N
  {
    MulLe(z, 255, N);
    assert z * N == N * z;
    assert a * b == if first then a else 0;
  }

  lemma ZeroProducts(x: int, w: int)
    ensures 0 * w == 0 == x * 0
  {
  }

  /** The accumulator t after the digits of sb from i on; it stays reduced for a reduced multiplicand a. */
  ghost predicate MulSoFar(t: int, a: int, sb: seq<byte>, i: nat, N: int)
    requires i <= |sb|
  {
    (a < N ==> t < N) && Cong(t * Wrap(|sb| - i), a * Val(sb[i..]), N)
  }

  /** The accumulator when sb is the number 1, for any multiplicand and a modulus of nearly full length. */
  ghost predicate OneSoFar(t: int, sb: seq<byte>, i: nat, N: int) {
    Val(sb) == 1 && 2 <= |sb| && Wrap(|sb|) <= 512 * N ==>
      t < if i == |sb| then 1 else if i == |sb| - 1 then 2 * N else N
  }

  lemma MulStart(a: int, sb: seq<byte>, N: int)
    requires N > 0
    ensures MulSoFar(0, a, sb, |sb|, N) && OneSoFar(0, sb, |sb|, N)
  {
    assert sb[|sb|..] == [];
    ZeroProducts(a, Wrap(0));
    CongRefl(0, N);
  }

  lemma MulSoFarStep(t0: int, t: int, a: int, sb: seq<byte>, i: nat, N: int)
    requires i < |sb| && MulSoFar(t0, a, sb, i + 1, N)
    requires (t0 < N && a < N ==> t < N) && Cong(256 * t, t0 + a * sb[i], N)
    ensures MulSoFar(t, a, sb, i, N)
  {
    hide Cong, Val, Wrap;
    ValStep(sb, i);
    WrapStep(|sb| - 1 - i);
    MonMulStep(t0, t, a, sb[i], Val(sb[i + 1..]), Wrap(|sb| - 1 - i), N);
  }

  lemma OneSoFarStep(t0: nat, t: int, a: nat, sb: seq<byte>, i: nat, N: nat, y: byte, q: nat)
    requires i < |sb| && OneSoFar(t0, sb, i + 1, N) && 0 < N < Wrap(|sb|) && a < Wrap(|sb|)
    requires 256 * q == t0 + a * sb[i] + N * y && t == DigitResult(q, N, Wrap(|sb|))
    ensures OneSoFar(t, sb, i, N)
  {
    hide Val, Wrap, DigitResult;
    if Val(sb) == 1 && 2 <= |sb| && Wrap(|sb|) <= 512 * N {
      DigitOfOne(sb, i);
      ReducesOne(t0, a, sb[i], N, y, q, Wrap(|sb|), i == |sb| - 1, i == |sb| - 2);
    }
  }

  lemma MulEnd(t: int, a: int, sb: seq<byte>, N: int)
    requires |sb| > 0 && MulSoFar(t, a, sb, 0, N) && OneSoFar(t, sb, 0, N)
    ensures (a < N ==> t < N) && Cong(t * Wrap(|sb|), a * Val(sb), N)
    ensures Val(sb) == 1 && 2 <= |sb| && Wrap(|sb|) <= 512 * N ==> t < N
  {
    assert sb[0..] == sb;
  }

  /** The result may be written over either operand. It stands for the product in every case, and is reduced when a is,
      or when b is 1 and the modulus not much smaller than its length allows. */
  method BnMonMul(d: array<byte>, a: array<byte>, b: array<byte>, N: array<byte>)
    requires 0 < d.Length == a.Length == b.Length == N.Length <= 512 && d != N
    requires Val(N[..]) % 2 == 1
    modifies d
    ensures Cong(Val(d[..]) * Wrap(d.Length), old(Val(a[..]) * Val(b[..])), Val(N[..]))
    ensures old(Val(a[..])) < Val(N[..]) ==> Val(d[..]) < Val(N[..])
    ensures old(Val(b[..])) == 1 && 2 <= d.Length && Wrap(d.Length) <= 512 * Val(N[..]) ==> Val(d[..]) < Val(N[..])
  {
    ghost var sa, sb, vN, n := a[..], b[..], Val(N[..]), d.Length;
    ValParity(N[..]);
    ValBound(sa);
    ValBound(N[..]);
    hide Cong, Wrap, DigitResult, Val, MulSoFar, OneSoFar;
    var t := BnZero(d.Length);
    MulStart(Val(sa), sb, vN);
    var i := d.Length;
    while i > 0
      invariant 0 <= i <= n && a[..] == sa && b[..] == sb && vN == Val(N[..])
      invariant MulSoFar(Val(t[..]), Val(sa), sb, i, vN) && OneSoFar(Val(t[..]), sb, i, vN)
    {
      i := i - 1;
      ghost var t0 := Val(t[..]);
      ghost var y, q := BnMonMulAddDig(t, a, b[i], N);
      MulSoFarStep(t0, Val(t[..]), Val(sa), sb, i, vN);
      OneSoFarStep(t0, Val(t[..]), Val(sa), sb, i, vN, y, q);
    }
    MulEnd(Val(t[..]), Val(sa), sb, vN);
    BnCopy(d, t);
  }

  // ----- Montgomery form: x stands for Dec(x) = x / 256^n modulo N -----

  /** An inverse of 256^n modulo an odd N. */
  ghost function MonInv(N: int, n: nat): int {
    Pow(Pow((N + 1) / 2, 8), n)
  }

  lemma {:induction false} PowOfOne(e: nat)
    ensures Pow(1, e) == 1
  {
    if e > 0 {
      PowOfOne(e - 1);
    }
  }

  lemma MonInvCorrect(N: int, n: nat)
    requires N > 1 && N % 2 == 1
    ensures Cong(Wrap(n) * MonInv(N, n), 1, N)
  {
    var h := (N + 1) / 2;
    MulWitness(1, N, 2 * h - 1);
    PowCong(2 * h, 1, 8, N);
    PowMulBase(2, h, 8);
    PowOfOne(8);
    PowCong(256 * Pow(h, 8), 1, n, N);
    PowMulBase(256, Pow(h, 8), n);
    PowOfOne(n);
  }

  /** The residue that x is the Montgomery form of. */
  ghost function Dec(x: int, N: int, n: nat): int
    requires N > 1
  {
    (x * MonInv(N, n)) % N
  }

  /** The Montgomery form of x. */
  ghost function Enc(x: int, N: int, n: nat): int
    requires N > 1
  {
    (x * Wrap(n)) % N
  }

  lemma DecCong(x: int, N: int, n: nat)
    requires N > 1
    ensures Cong(Dec(x, N, n), x * MonInv(N, n), N)
  {
    CongMod(x * MonInv(N, n), N);
  }

  lemma CancelWrap(x: int, N: int, n: nat)
    requires N > 1 && N % 2 == 1
    ensures Cong((x * Wrap(n)) * MonInv(N, n), x, N)
  {
    MonInvCorrect(N, n);
    CongRefl(x, N);
    CongMul(x, x, Wrap(n) * MonInv(N, n), 1, N);
    assert x * (Wrap(n) * MonInv(N, n)) == (x * Wrap(n)) * MonInv(N, n);
  }

  /** Encoding and decoding are inverse bijections on the residues. */
  lemma DecEnc(x: int, N: int, n: nat)
    requires N > 1 && N % 2 == 1
    ensures Dec(Enc(x, N, n), N, n) == x % N
    ensures Enc(Dec(x, N, n), N, n) == x % N
  {
    var w, v := Wrap(n), MonInv(N, n);
    CancelWrap(x, N, n);
    CongMod(x * w, N);
    CongRefl(v, N);
    CongMul((x * w) % N, x * w, v, v, N);
    CongTrans(Enc(x, N, n) * v, (x * w) * v, x, N);
    CongToMod(Enc(x, N, n) * v, x, N);
    CongMod(x * v, N);
    CongRefl(w, N);
    CongMul((x * v) % N, x * v, w, w, N);
    assert (x * v) * w == (x * w) * v;
    CongTrans(Dec(x, N, n) * w, (x * v) * w, x, N);
    CongToMod(Dec(x, N, n) * w, x, N);
  }

  lemma DecZero(N: int, n: nat)
    requires N > 1
    ensures Dec(0, N, n) == 0 && Enc(0, N, n) == 0
  {
    assert 0 * MonInv(N, n) == 0 && 0 * Wrap(n) == 0;
  }

  lemma ModUniqueSelf(x: int, N: int)
    requires 0 <= x < N
    ensures x % N == x
  {
    CongRefl(x, N);
    ModUnique(x, x, N);
  }

  /** A canonical residue is recovered from what it decodes to. */
  lemma EncDec(x: int, N: int, n: nat)
    requires N > 1 && N % 2 == 1 && 0 <= x < N
    ensures Enc(Dec(x, N, n), N, n) == x
  {
    hide Dec, Enc;
    DecEnc(x, N, n);
    ModUniqueSelf(x, N);
  }

  lemma DecInjective(x: int, y: int, N: int, n: nat)
    requires N > 1 && N % 2 == 1 && 0 <= x < N && 0 <= y < N
    ensures Dec(x, N, n) == Dec(y, N, n) ==> x == y
    ensures Dec(x, N, n) == 0 <==> x == 0
  {
    hide Dec, Enc;
    EncDec(x, N, n);
    EncDec(y, N, n);
    DecZero(N, n);
  }

  /** Montgomery reduction of a product is multiplication of what is represented. */
  lemma DecMul(z: int, x: int, y: int, N: int, n: nat)
    requires N > 1 && N % 2 == 1 && Cong(z * Wrap(n), x * y, N)
    ensures Dec(z, N, n) == (Dec(x, N, n) * Dec(y, N, n)) % N
  {
    var v := MonInv(N, n);
    CongRefl(v, N);
    CongMul(z * Wrap(n), x * y, v, v, N);
    CancelWrap(z, N, n);
    CongSym((z * Wrap(n)) * v, z, N);
    CongTrans(z, (z * Wrap(n)) * v, (x * y) * v, N);
    CongMul(z, (x * y) * v, v, v, N);
    DecCong(x, N, n);
    DecCong(y, N, n);
    CongMul(Dec(x, N, n), x * v, Dec(y, N, n), y * v, N);
    assert ((x * y) * v) * v == (x * v) * (y * v) by {
      MulExchange(x, v, y, v);
      var p := x * y;
      assert (p * v) * v == p * (v * v);
    }
    CongSym(Dec(x, N, n) * Dec(y, N, n), (x * v) * (y * v), N);
    CongTrans(z * v, (x * v) * (y * v), Dec(x, N, n) * Dec(y, N, n), N);
    CongToMod(z * v, Dec(x, N, n) * Dec(y, N, n), N);
  }

  /** Only the residue of a number decides what it stands for. */
  lemma DecOfCong(x: int, y: int, N: int, n: nat)
    requires N > 1 && Cong(x, y, N)
    ensures Dec(x, N, n) == Dec(y, N, n)
  {
    var v := MonInv(N, n);
    CongRefl(v, N);
    CongMul(x, y, v, v, N);
    CongToMod(x * v, y * v, N);
  }

  lemma Distribute(x: int, y: int, v: int)
    ensures (x + y) * v == x * v + y * v && (x - y) * v == x * v - y * v
  {
  }

  lemma DecLinearStep(s: int, r: int, N: int, n: nat)
    requires N > 1 && Cong(r, s * MonInv(N, n), N)
    ensures Dec(s % N, N, n) == r % N
  {
    var v := MonInv(N, n);
    CongMod(s, N);
    CongRefl(v, N);
    CongMul(s % N, s, v, v, N);
    CongSym(r, s * v, N);
    CongTrans((s % N) * v, s * v, r, N);
    CongToMod((s % N) * v, r, N);
  }

  lemma DecLinear(x: int, y: int, N: int, n: nat)
    requires N > 1 && N % 2 == 1
    ensures Dec((x + y) % N, N, n) == (Dec(x, N, n) + Dec(y, N, n)) % N
    ensures Dec((x - y) % N, N, n) == (Dec(x, N, n) - Dec(y, N, n)) % N
  {
    hide Dec, Cong, MonInv;
    var v := MonInv(N, n);
    DecCong(x, N, n);
    DecCong(y, N, n);
    CongAdd(Dec(x, N, n), x * v, Dec(y, N, n), y * v, N);
    Distribute(x, y, v);
    DecLinearStep(x + y, Dec(x, N, n) + Dec(y, N, n), N, n);
    DecLinearStep(x - y, Dec(x, N, n) - Dec(y, N, n), N, n);
  }

  // ----- conversion, payload/qa.h:186-201 -----

  /** x doubled k times by bn_add. */
  ghost function Doubled(x: int, k: nat, N: int, w: int): int {
    if k == 0 then x else var y := Doubled(x, k - 1, N, w); AddWord(y, y, N, w)
  }

  lemma DoubleStep(x: int, p: int, y: int, N: int)
    requires N > 0 && y == (x * p) % N
    ensures (y + y) % N == (x * (2 * p)) % N
  {
    CongMod(x * p, N);
    CongAdd(y, x * p, y, x * p, N);
    assert x * p + x * p == x * (2 * p);
    hide Cong;
    CongToMod(y + y, x * (2 * p), N);
  }

  lemma {:induction false} DoubledIsModular(x: int, k: nat, N: int, w: int)
    requires 0 <= x < N <= w
    ensures Doubled(x, k, N, w) == (x * Pow(2, k)) % N
  {
    if k == 0 {
      ModUniqueSelf(x, N);
    } else {
      DoubledIsModular(x, k - 1, N, w);
      var p, y := Pow(2, k - 1), Doubled(x, k - 1, N, w);
      AddWordIsModular(y, y, N, w);
      DoubleStep(x, p, y, N);
    }
  }

  lemma {:induction false} PowersOfTwo(n: nat)
    ensures Pow(2, 8 * n) == Wrap(n)
  {
    if n > 0 {
      PowersOfTwo(n - 1);
      PowAdd(2, 8, 8 * (n - 1));
      assert Pow(2, 8) == 256;
    }
  }

  /** Doubles 8n times. On a reduced d this is Enc; the contract also says what happens to any other. */
  method BnToMon(d: array<byte>, N: array<byte>)
    requires d != N && d.Length == N.Length && Val(N[..]) > 1
    modifies d
    ensures Val(d[..]) == Doubled(old(Val(d[..])), 8 * d.Length, Val(N[..]), Wrap(d.Length))
    ensures old(Val(d[..])) < Val(N[..]) ==>
              Val(d[..]) == Enc(old(Val(d[..])), Val(N[..]), d.Length) < Val(N[..])
  {
    ghost var d0 := Val(d[..]);
    var i := 0;
    while i < 8 * d.Length
      invariant 0 <= i <= 8 * d.Length
      invariant Val(d[..]) == Doubled(d0, i, Val(N[..]), Wrap(d.Length))
    {
      BnAdd(d, d, d, N);
      i := i + 1;
    }
    if d0 < Val(N[..]) {
      ValBound(N[..]);
      DoubledIsModular(d0, 8 * d.Length, Val(N[..]), Wrap(d.Length));
      PowersOfTwo(d.Length);
    }
  }

  /** A byte array of length n holding the one-digit number x. */
  method SmallNumber(n: nat, x: byte) returns (t: array<byte>)
    requires n > 0
    ensures fresh(t) && t.Length == n && Val(t[..]) == x
  {
    t := new byte[n](i => 0);
    ValZeros(t[..n - 1]);
    t[n - 1] := x;
    assert t[..] == t[..n - 1] + [x];
    ValAppend(t[..n - 1], x);
  }

  lemma FromMonCong(z: int, x: int, N: int, n: nat)
    requires N > 1 && N % 2 == 1 && Cong(z * Wrap(n), x * 1, N)
    ensures Cong(z, Dec(x, N, n), N) && (0 <= z < N ==> z == Dec(x, N, n))
  {
    var v := MonInv(N, n);
    CongRefl(v, N);
    CongMul(z * Wrap(n), x, v, v, N);
    CancelWrap(z, N, n);
    CongSym((z * Wrap(n)) * v, z, N);
    CongTrans(z, (z * Wrap(n)) * v, x * v, N);
    DecCong(x, N, n);
    CongSym(Dec(x, N, n), x * v, N);
    CongTrans(z, x * v, Dec(x, N, n), N);
    if 0 <= z < N {
      ModUnique(z, x * v, N);
    }
  }

  /** A number congruent to the residue that d stands for, and that residue itself when d is reduced or the modulus is
      not much smaller than its length allows. */
  method BnFromMon(d: array<byte>, N: array<byte>)
    requires d != N && 0 < d.Length == N.Length <= 512
    requires Val(N[..]) > 1 && Val(N[..]) % 2 == 1
    modifies d
    ensures Cong(Val(d[..]), Dec(old(Val(d[..])), Val(N[..]), d.Length), Val(N[..]))
    ensures old(Val(d[..])) < Val(N[..]) || (2 <= d.Length && Wrap(d.Length) <= 512 * Val(N[..])) ==>
              Val(d[..]) == Dec(old(Val(d[..])), Val(N[..]), d.Length) < Val(N[..])
  {
    ghost var d0, vN, n := Val(d[..]), Val(N[..]), d.Length;
    var t := SmallNumber(d.Length, 1);
    BnMonMul(d, d, t, N);
    ValBound(d[..]);
    FromMonCong(Val(d[..]), d0, vN, n);
  }

  // ----- exponentiation and inversion, payload/qa.h:203-221 and 264-272 -----

  /** d is the canonical Montgomery form of A to the power e. */
  ghost predicate IsPower(d: int, A: int, e: nat, N: int, n: nat)
    requires N > 1
  {
    0 <= d < N && Dec(d, N, n) == Pow(A, e) % N
  }

  lemma SquareStep(d: int, t: int, A: int, e: nat, N: int, n: nat)
    requires N > 1 && N % 2 == 1 && IsPower(d, A, e, N, n)
    requires 0 <= t < N && Cong(t * Wrap(n), d * d, N)
    ensures IsPower(t, A, 2 * e, N, n)
  {
    DecMul(t, d, d, N, n);
    var x, p := Dec(d, N, n), Pow(A, e);
    CongMod(p, N);
    CongMul(x, p, x, p, N);
    PowAdd(A, e, e);
    CongToMod(x * x, p * p, N);
  }

  lemma MultiplyStep(t: int, a: int, d: int, A: int, e: nat, N: int, n: nat)
    requires N > 1 && N % 2 == 1 && IsPower(t, A, e, N, n) && A == Dec(a, N, n)
    requires 0 <= d < N && Cong(d * Wrap(n), t * a, N)
    ensures IsPower(d, A, e + 1, N, n)
  {
    DecMul(d, t, a, N, n);
    var x, p := Dec(t, N, n), Pow(A, e);
    CongMod(p, N);
    CongRefl(A, N);
    CongMul(x, p, A, A, N);
    assert p * A == A * p;
    CongToMod(x * A, A * p, N);
  }

  /** Bit j of a byte, counted from the most significant. */
  ghost function Bit(x: byte, j: nat): nat
    requires j < 8
  {
    (if j == 0 then x / 128 else if j == 1 then x / 64 else if j == 2 then x / 32 else if j == 3 then x / 16
     else if j == 4 then x / 8 else if j == 5 then x / 4 else if j == 6 then x / 2 else x) % 2
  }

  /** Whether x & mask is nonzero, for a mask of one bit. */
  function MaskBit(x: byte, mask: nat): (bit: nat)
    requires mask > 0
    ensures bit < 2
  {
    (x / mask) % 2
  }

  /** The mask that selects bit j: 0x80 shifted right j times. */
  ghost function Mask(j: nat): nat {
    if j == 0 then 0x80 else Mask(j - 1) / 2
  }

  lemma MaskSelects(x: byte, j: nat)
    requires j < 8
    ensures Mask(j) > 0 && MaskBit(x, Mask(j)) == Bit(x, j)
    ensures Mask(j + 1) == Mask(j) / 2 && (Mask(j + 1) == 0 <==> j == 7)
  {
    assert Mask(2) == 32 && Mask(4) == 8 && Mask(6) == 2 && Mask(8) == 0;
  }

  /** The exponent e continued by the first j bits of x. */
  ghost function BitsTaken(e: nat, x: byte, j: nat): nat
    requires j <= 8
  {
    if j == 0 then e else 2 * BitsTaken(e, x, j - 1) + Bit(x, j - 1)
  }

  lemma NextBit(e: nat, x: byte, j: nat)
    requires j < 8
    ensures BitsTaken(e, x, j + 1) == 2 * BitsTaken(e, x, j) + Bit(x, j) && Bit(x, j) < 2
  {
  }

  lemma AllBits(e: nat, x: byte)
    ensures BitsTaken(e, x, 8) == e * 256 + x
  {
    assert BitsTaken(e, x, 1) == 2 * e + x / 128;
    assert BitsTaken(e, x, 2) == 4 * e + x / 64;
    assert BitsTaken(e, x, 3) == 8 * e + x / 32;
    assert BitsTaken(e, x, 4) == 16 * e + x / 16;
    assert BitsTaken(e, x, 5) == 32 * e + x / 8;
    assert BitsTaken(e, x, 6) == 64 * e + x / 4;
    assert BitsTaken(e, x, 7) == 128 * e + x / 2;
  }

  /** Square, and multiply by a when the bit is set. */
  method ExpBit(d: array<byte>, a: array<byte>, N: array<byte>, set_: bool, t: array<byte>, ghost A: int, ghost f: nat)
    requires d != a && d != N && d != t && t != a && t != N
    requires 0 < d.Length == a.Length == N.Length == t.Length <= 512
    requires Val(N[..]) > 1 && Val(N[..]) % 2 == 1
    requires A == Dec(Val(a[..]), Val(N[..]), d.Length)
    requires IsPower(Val(d[..]), A, f, Val(N[..]), d.Length)
    modifies d, t
    ensures IsPower(Val(d[..]), A, 2 * f + if set_ then 1 else 0, Val(N[..]), d.Length)
  {
    ghost var vN, n, va, d0 := Val(N[..]), d.Length, Val(a[..]), Val(d[..]);
    hide Cong, Wrap, Dec;
    BnMonMul(t, d, d, N);
    SquareStep(d0, Val(t[..]), A, f, vN, n);
    if set_ {
      ghost var t0 := Val(t[..]);
      BnMonMul(d, t, a, N);
      MultiplyStep(t0, va, Val(d[..]), A, 2 * f, vN, n);
    } else {
      BnCopy(d, t);
    }
  }

  /** The bits of one exponent byte, most significant first. */
  method ExpByte(d: array<byte>, a: array<byte>, N: array<byte>, x: byte, t: array<byte>, ghost A: int, ghost e: nat)
    requires d != a && d != N && d != t && t != a && t != N
    requires 0 < d.Length == a.Length == N.Length == t.Length <= 512
    requires Val(N[..]) > 1 && Val(N[..]) % 2 == 1
    requires A == Dec(Val(a[..]), Val(N[..]), d.Length)
    requires IsPower(Val(d[..]), A, e, Val(N[..]), d.Length)
    modifies d, t
    ensures IsPower(Val(d[..]), A, e * 256 + x, Val(N[..]), d.Length)
  {
    AllBits(e, x);
    hide Cong, Wrap, Dec, Bit, MaskBit, IsPower;
    ghost var vN, va := Val(N[..]), Val(a[..]);
    var mask := 0x80;
    ghost var j := 0;
    while mask != 0
      invariant j <= 8 && mask == Mask(j) && (mask == 0 <==> j == 8)
      invariant vN == Val(N[..]) && va == Val(a[..])
      invariant IsPower(Val(d[..]), A, BitsTaken(e, x, j), vN, d.Length)
      decreases mask
    {
      MaskSelects(x, j);
      ExpBit(d, a, N, MaskBit(x, mask) != 0, t, A, BitsTaken(e, x, j));
      j := j + 1;
      mask := mask / 2;
    }
  }

  /** d becomes the Montgomery form of the value of a raised to the exponent bytes e, for any a. */
  method BnMonExp(d: array<byte>, a: array<byte>, N: array<byte>, e: array<byte>)
    requires d != a && d != N && d != e
    requires 0 < d.Length == a.Length == N.Length <= 512
    requires Val(N[..]) > 1 && Val(N[..]) % 2 == 1
    modifies d
    ensures IsPower(Val(d[..]), Dec(Val(a[..]), Val(N[..]), d.Length), Val(e[..]), Val(N[..]), d.Length)
  {
    ghost var vN, n, A := Val(N[..]), d.Length, Dec(Val(a[..]), Val(N[..]), d.Length);
    var t := SmallNumber(d.Length, 1);
    BnCopy(d, t);
    BnToMon(d, N);
    DecEnc(1, vN, n);
    var i := 0;
    while i < e.Length
      invariant 0 <= i <= e.Length
      invariant IsPower(Val(d[..]), A, Val(e[..i]), vN, n)
    {
      ExpByte(d, a, N, e[i], t, A, Val(e[..i]));
      assert e[..i + 1] == e[..i] + [e[i]];
      ValAppend(e[..i], e[i]);
      i := i + 1;
    }
    assert e[..i] == e[..];
  }

  method BnMonInv(d: array<byte>, a: array<byte>, N: array<byte>)
    requires d != a && d != N && 0 < d.Length == a.Length == N.Length <= 512
    requires Val(N[..]) > 1 && Val(N[..]) % 2 == 1
    modifies d
    ensures IsPower(Val(d[..]), Dec(Val(a[..]), Val(N[..]), d.Length), Val(N[..]) - 2, Val(N[..]), d.Length)
  {
    var s := SmallNumber(d.Length, 2);
    var t := new byte[d.Length](i => 0);
    var borrow := BnSub1(t, N, s);
    ValBound(t[..]);
    BnMonExp(d, a, N, t);
  }

  /** For a prime modulus the power N-2 is the inverse of a unit, and zero for zero. */
  lemma PowerInverts(d: int, A: int, N: int, n: nat)
    requires Prime(N) && N % 2 == 1 && 0 <= A < N && IsPower(d, A, N - 2, N, n)
    ensures A != 0 ==> (Dec(d, N, n) * A) % N == 1
    ensures A == 0 ==> d == 0
  {
    var p := Pow(A, N - 2);
    if A != 0 {
      if Divides(N, A) {
        CongUnique(A, 0, N);
      }
      Fermat(N, A);
      CongMod(p, N);
      CongRefl(A, N);
      CongMul(p % N, p, A, A, N);
      CongTrans((p % N) * A, p * A, 1, N);
      ModUnique(1, (p % N) * A, N) by {
        CongSym((p % N) * A, 1, N);
      }
    } else {
      assert p == 0;
      DecInjective(d, 0, N, n);
    }
  }
}
