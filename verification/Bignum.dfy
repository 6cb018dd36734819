/** Big-endian byte strings as numbers, and the carry and borrow loops on byte arrays. */
module Bignum {
  import opened Common
  import opened ModArith

  /** 256 to the number of digits: one more than the largest n-byte value. */
  ghost function Wrap(n: nat): (r: int)
    ensures r > 0
  {
    PowPos(256, n);
    Pow(256, n)
  }

  /** The number a big-endian byte string denotes. */
  ghost function Val(s: seq<byte>): nat
  {
    if s == [] then 0
    else
      PowPos(256, |s| - 1);
      s[0] * Pow(256, |s| - 1) + Val(s[1..])
  }

  lemma {:induction false} ValBound(s: seq<byte>)
    ensures Val(s) < Wrap(|s|)
  {
    if s != [] {
      ValBound(s[1..]);
      var w := Wrap(|s| - 1);
      MulLe(s[0], 255, w);
      assert Wrap(|s|) == 256 * w;
    }
  }

  lemma ValStep(s: seq<byte>, i: nat)
    requires i < |s|
    ensures Val(s[i..]) == s[i] * Wrap(|s| - 1 - i) + Val(s[i + 1..])
  {
    assert s[i..][1..] == s[i + 1..];
  }

  lemma {:induction false} ValAppend(s: seq<byte>, x: byte)
    ensures Val(s + [x]) == Val(s) * 256 + x
  {
    if s == [] {
      assert ([x] + [])[1..] == [];
      assert [] + [x] == [x];
    } else {
      ValAppend(s[1..], x);
      assert (s + [x])[1..] == s[1..] + [x];
      var w := Wrap(|s| - 1);
      assert s[0] * (256 * w) == 256 * (s[0] * w);
    }
  }

  lemma {:induction false} ValZeros(s: seq<byte>)
    requires forall i :: 0 <= i < |s| ==> s[i] == 0
    ensures Val(s) == 0
  {
    if s != [] {
      ValZeros(s[1..]);
    }
  }

  lemma {:induction false} ValSuffix(s: seq<byte>, i: nat)
    requires i <= |s|
    ensures Val(s[i..]) <= Val(s)
  {
    if i == 0 {
      assert s[0..] == s;
    } else {
      hide Val, Wrap;
      ValSuffix(s, i - 1);
      ValStep(s, i - 1);
      MulLe(0, s[i - 1], Wrap(|s| - i));
    }
  }

  lemma NonzeroDigit(s: seq<byte>, i: nat)
    requires i < |s| && s[i] != 0
    ensures Val(s) > 0
  {
    ValStep(s, i);
    MulLe(1, s[i], Wrap(|s| - 1 - i));
    ValSuffix(s, i);
  }

  /** The leading digit decides a comparison of two numerals of one length. */
  lemma FirstDigits(x: int, y: int, r: int, q: int, w: int)
    requires 0 <= r < w && 0 <= q < w
    ensures x < y ==> x * w + r < y * w + q
    ensures x > y ==> x * w + r > y * w + q
  {
    if x < y {
      MulLe(x + 1, y, w);
      assert (x + 1) * w == x * w + w;
    } else if x > y {
      MulLe(y + 1, x, w);
      assert (y + 1) * w == y * w + w;
    }
  }

  /** Equal values of equal length are equal byte strings. */
  lemma {:induction false} ValInjective(s: seq<byte>, t: seq<byte>)
    requires |s| == |t| && Val(s) == Val(t)
    ensures s == t
  {
    if s != [] {
      ValBound(s[1..]);
      ValBound(t[1..]);
      FirstDigits(s[0], t[0], Val(s[1..]), Val(t[1..]), Wrap(|s| - 1));
      ValInjective(s[1..], t[1..]);
      assert s == [s[0]] + s[1..] && t == [t[0]] + t[1..];
    }
  }

  // ----- comparison, payload/qa.h:63-75 -----

  ghost function Sign(x: int): int {
    if x < 0 then -1 else if x > 0 then 1 else 0
  }

  method BnCompare(a: array<byte>, b: array<byte>) returns (r: int)
    requires a.Length == b.Length
    ensures r == Sign(Val(a[..]) - Val(b[..]))
  {
    ghost var n := a.Length;
    assert a[0..] == a[..] && b[0..] == b[..];
    var i := 0;
    while i < a.Length
      invariant 0 <= i <= n
      invariant Val(a[..]) - Val(b[..]) == Val(a[i..]) - Val(b[i..])
    {
      ValStep(a[..], i);
      ValStep(b[..], i);
      assert a[..][i..] == a[i..] && a[..][i + 1..] == a[i + 1..];
      assert b[..][i..] == b[i..] && b[..][i + 1..] == b[i + 1..];
      ValBound(a[i + 1..]);
      ValBound(b[i + 1..]);
      FirstDigits(a[i], b[i], Val(a[i + 1..]), Val(b[i + 1..]), Wrap(n - 1 - i));
      if a[i] < b[i] {
        return -1;
      }
      if a[i] > b[i] {
        return 1;
      }
      i := i + 1;
    }
    assert a[n..] == [] && b[n..] == [];
    return 0;
  }

  // ----- addition and subtraction with carry, payload/qa.h:77-107 -----

  /** The weight of a carry or borrow digit c out of a number below w. */
  ghost function Carry(c: byte, w: int): int {
    if c == 0 then 0 else w
  }

  lemma CarryStep(x: int, y: int, c: int, dig: int, out: int, w: int, va: int, vb: int, vd: int)
    requires c in {0, 1} && dig in {0, 1}
    requires vd + Carry(c, w) == va + vb
    requires x + y + c == 256 * dig + out
    ensures (out * w + vd) + Carry(dig, 256 * w) == (x * w + va) + (y * w + vb)
  {
    assert c * w == Carry(c, w) && dig * (256 * w) == Carry(dig, 256 * w);
    assert (256 * dig + out) * w == (x + y + c) * w;
    assert (256 * dig) * w == dig * (256 * w);
    assert (x + y + c) * w == x * w + y * w + c * w;
    assert (256 * dig + out) * w == (256 * dig) * w + out * w;
  }

  /** ds holds the digits of the sum of sa and sb from i on, and c is the carry out of them. */
  ghost predicate AddSoFar(sa: seq<byte>, sb: seq<byte>, i: nat, ds: seq<byte>, c: byte)
    requires i <= |sa| == |sb|
  {
    |ds| == |sa| - i && Val(ds) + Carry(c, Wrap(|ds|)) == Val(sa[i..]) + Val(sb[i..])
  }

  lemma AddWhole(sa: seq<byte>, sb: seq<byte>, ds: seq<byte>, c: byte)
    requires |sa| == |sb|
    ensures AddSoFar(sa, sb, |sa|, [], 0)
    ensures AddSoFar(sa, sb, 0, ds, c) ==> Val(ds) + Carry(c, Wrap(|sa|)) == Val(sa) + Val(sb)
  {
    assert sa[|sa|..] == [] && sb[|sa|..] == [] && sa[0..] == sa && sb[0..] == sb;
  }

  lemma AddLoopStep(sa: seq<byte>, sb: seq<byte>, i: nat, c: byte, dig: byte, out: byte, rest: seq<byte>)
    requires c <= 1 && dig <= 1 && |sa| == |sb| && i < |sa| && AddSoFar(sa, sb, i + 1, rest, c)
    requires sa[i] + sb[i] + c == 256 * dig + out
    ensures AddSoFar(sa, sb, i, [out] + rest, dig)
  {
    assert ([out] + rest)[1..] == rest;
    ValStep(sa, i);
    ValStep(sb, i);
    CarryStep(sa[i], sb[i], c, dig, out, Wrap(|rest|), Val(sa[i + 1..]), Val(sb[i + 1..]), Val(rest));
  }

  /** The result may be written over either operand. */
  method BnAdd1(d: array<byte>, a: array<byte>, b: array<byte>) returns (c: byte)
    requires d.Length == a.Length == b.Length
    modifies d
    ensures c <= 1
    ensures Val(d[..]) + Carry(c, Wrap(d.Length)) == old(Val(a[..]) + Val(b[..]))
  {
    ghost var n := d.Length;
    ghost var sa, sb := a[..], b[..];
    assert d[n..] == [];
    hide Val, Wrap, AddSoFar;
    c := 0;
    AddWhole(sa, sb, [], c);
    var i := d.Length;
    while i > 0
      invariant 0 <= i <= n && c <= 1
      invariant a[..i] == sa[..i] && b[..i] == sb[..i]
      invariant AddSoFar(sa, sb, i, d[i..], c)
    {
      i := i - 1;
      assert a[i] == sa[i] && b[i] == sb[i];
      var dig := a[i] + b[i] + c;
      ghost var c0, rest := c, d[i + 1..];
      c := dig / 256;
      d[i] := dig % 256;
      assert d[i..] == [d[i]] + rest;
      AddLoopStep(sa, sb, i, c0, c, d[i], rest);
    }
    assert d[0..] == d[..];
    AddWhole(sa, sb, d[..], c);
  }

  lemma BorrowStep(x: int, y: int, c: int, dig: int, out: int, w: int, va: int, vb: int, vd: int)
    requires c in {0, 1} && dig in {0, 1}
    requires vd + Carry(c, w) == va - vb + w
    requires x + 255 - y + c == 256 * dig + out
    ensures (out * w + vd) + Carry(dig, 256 * w) == (x * w + va) - (y * w + vb) + 256 * w
  {
    CarryStep(x, 255 - y, c, dig, out, w, va, w - vb, vd);
    assert (255 - y) * w == 255 * w - y * w;
  }

  /** ds holds the digits of the difference of sa and sb from i on, and c is 0 if a borrow goes out of them. */
  ghost predicate SubSoFar(sa: seq<byte>, sb: seq<byte>, i: nat, ds: seq<byte>, c: byte)
    requires i <= |sa| == |sb|
  {
    |ds| == |sa| - i && Val(ds) + Carry(c, Wrap(|ds|)) == Val(sa[i..]) - Val(sb[i..]) + Wrap(|ds|)
  }

  lemma SubWhole(sa: seq<byte>, sb: seq<byte>, ds: seq<byte>, c: byte)
    requires |sa| == |sb| && c <= 1
    ensures SubSoFar(sa, sb, |sa|, [], 1)
    ensures SubSoFar(sa, sb, 0, ds, c) ==> Val(ds) == Val(sa) - Val(sb) + Carry(1 - c, Wrap(|sa|))
  {
    assert sa[|sa|..] == [] && sb[|sa|..] == [] && sa[0..] == sa && sb[0..] == sb;
  }

  lemma SubLoopStep(sa: seq<byte>, sb: seq<byte>, i: nat, c: byte, dig: byte, out: byte, rest: seq<byte>)
    requires c <= 1 && dig <= 1 && |sa| == |sb| && i < |sa| && SubSoFar(sa, sb, i + 1, rest, c)
    requires sa[i] + 255 - sb[i] + c == 256 * dig + out
    ensures SubSoFar(sa, sb, i, [out] + rest, dig)
  {
    assert ([out] + rest)[1..] == rest;
    ValStep(sa, i);
    ValStep(sb, i);
    BorrowStep(sa[i], sb[i], c, dig, out, Wrap(|rest|), Val(sa[i + 1..]), Val(sb[i + 1..]), Val(rest));
  }

  /** Returns the borrow; the result is the difference modulo Wrap. */
  method BnSub1(d: array<byte>, a: array<byte>, b: array<byte>) returns (borrow: byte)
    requires d.Length == a.Length == b.Length
    modifies d
    ensures borrow <= 1
    ensures Val(d[..]) == old(Val(a[..]) - Val(b[..])) + Carry(borrow, Wrap(d.Length))
  {
    ghost var n := d.Length;
    ghost var sa, sb := a[..], b[..];
    assert d[n..] == [];
    hide Val, Wrap, SubSoFar;
    var c: byte := 1;
    SubWhole(sa, sb, [], c);
    var i := d.Length;
    while i > 0
      invariant 0 <= i <= n && c <= 1
      invariant a[..i] == sa[..i] && b[..i] == sb[..i]
      invariant SubSoFar(sa, sb, i, d[i..], c)
    {
      i := i - 1;
      assert a[i] == sa[i] && b[i] == sb[i];
      var dig := a[i] + 255 - b[i] + c;
      ghost var c0, rest := c, d[i + 1..];
      c := dig / 256;
      d[i] := dig % 256;
      assert d[i..] == [d[i]] + rest;
      SubLoopStep(sa, sb, i, c0, c, d[i], rest);
    }
    assert d[0..] == d[..];
    SubWhole(sa, sb, d[..], c);
    borrow := 1 - c;
  }

  // ----- modular addition and subtraction, payload/qa.h:109-127 -----

  ghost function Reduce(x: int, N: int): int {
    if x >= N then x - N else x
  }

  /** What bn_add stores for any n-byte operands, w being Wrap(n): at most one subtraction for the
      carry out of the top byte, taken modulo w, and one for the comparison. */
  ghost function AddWord(a: int, b: int, N: int, w: int): int {
    if a + b < w then Reduce(a + b, N)
    else if a + b - w >= N then Reduce(a + b - w - N, N)
    else Reduce(a + b - N, N)
  }

  /** What bn_sub stores for any n-byte operands. */
  ghost function SubWord(a: int, b: int, N: int, w: int): int {
    if a >= b then a - b
    else if a - b + N >= 0 then a - b + N
    else a - b + N + w
  }

  method BnReduce(d: array<byte>, N: array<byte>)
    requires d != N && d.Length == N.Length
    modifies d
    ensures Val(d[..]) == Reduce(old(Val(d[..])), Val(N[..]))
  {
    var r := BnCompare(d, N);
    if r >= 0 {
      var borrow := BnSub1(d, d, N);
      ValBound(d[..]);
    }
  }

  method BnAdd(d: array<byte>, a: array<byte>, b: array<byte>, N: array<byte>)
    requires d.Length == a.Length == b.Length == N.Length && d != N
    modifies d
    ensures Val(d[..]) == AddWord(old(Val(a[..])), old(Val(b[..])), Val(N[..]), Wrap(d.Length))
  {
    ValBound(a[..]);
    ValBound(b[..]);
    ValBound(N[..]);
    var c := BnAdd1(d, a, b);
    ValBound(d[..]);
    if c != 0 {
      var borrow := BnSub1(d, d, N);
      ValBound(d[..]);
    }
    BnReduce(d, N);
  }

  method BnSub(d: array<byte>, a: array<byte>, b: array<byte>, N: array<byte>)
    requires d.Length == a.Length == b.Length == N.Length && d != N
    modifies d
    ensures Val(d[..]) == SubWord(old(Val(a[..])), old(Val(b[..])), Val(N[..]), Wrap(d.Length))
  {
    ValBound(N[..]);
    var borrow := BnSub1(d, a, b);
    ValBound(d[..]);
    if borrow != 0 {
      var c := BnAdd1(d, d, N);
      ValBound(d[..]);
    }
  }

  lemma ModByHand(x: int, N: int)
    requires 0 < N && -N <= x < 2 * N
    ensures x % N == if x < 0 then x + N else if x < N then x else x - N
  {
    var r := if x < 0 then x + N else if x < N then x else x - N;
    MulWitness(if x < 0 then 1 else if x < N then 0 else -1, N, r - x);
    ModUnique(r, x, N);
  }

  /** On reduced operands bn_add is addition modulo N. */
  lemma AddWordIsModular(a: int, b: int, N: int, w: int)
    requires 0 <= a < N && 0 <= b < N && N <= w
    ensures AddWord(a, b, N, w) == (a + b) % N
  {
    ModByHand(a + b, N);
  }

  /** With one operand reduced bn_add still adds modulo N, within n bytes. */
  lemma AddWordCong(a: int, b: int, N: int, w: int)
    requires 0 <= a < w && 0 <= b < N < w
    ensures 0 <= AddWord(a, b, N, w) < w && Cong(AddWord(a, b, N, w), a + b, N)
  {
    var s := AddWord(a, b, N, w);
    MulWitness(if s == a + b then 0 else if s == a + b - N then -1 else -2, N, s - (a + b));
  }

  lemma SubWordIsModular(a: int, b: int, N: int, w: int)
    requires 0 <= a < N && 0 <= b < N
    ensures SubWord(a, b, N, w) == (a - b) % N
  {
    ModByHand(a - b, N);
  }
}
