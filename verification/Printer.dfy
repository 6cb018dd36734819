/** The formatted printer of debug/src/printf.c, writing into a buffer of limited size. */
module Printer {
  import opened Common
  import opened FormatSpec

  /** The length of iconvert. */
  const MAX_CONVERT_LENGTH: nat := 43

  /** How many characters of a text show in a buffer of this size: one place is kept for the NUL. */
  function Fit(size: nat, n: nat): (m: nat)
    ensures m <= n && (size > 0 ==> m < size) && (size == 0 ==> m == 0)
  {
    if size == 0 then 0 else if n < size then n else size - 1
  }

  /** The buffer b0 with as much of the text as fits in front. */
  function Visible(b0: seq<char>, size: nat, text: string): (r: seq<char>)
    requires size <= |b0|
    ensures |r| == |b0|
  {
    text[..Fit(size, |text|)] + b0[Fit(size, |text|)..]
  }

  /** The buffer once the text is terminated: a prefix of the text, a NUL, and the rest as it was. */
  function Terminated(b0: seq<char>, size: nat, text: string): (r: seq<char>)
    requires size <= |b0|
    ensures |r| == |b0|
  {
    var m := Fit(size, |text|);
    if size == 0 then b0 else text[..m] + ['\0'] + b0[m + 1..]
  }

  /** len counts the whole text; the buffer shows what fits of it. */
  ghost predicate Shows(str: array<char>, size: nat, b0: seq<char>, text: string, len: nat)
    reads str
  {
    size <= |b0| == str.Length && str[..] == Visible(b0, size, text) && len == |text|
  }

  lemma OneMore(b0: seq<char>, size: nat, text: string, ch: char)
    requires size <= |b0|
    ensures Visible(b0, size, text + [ch]) ==
            if |text| + 1 < size then Visible(b0, size, text)[|text| := ch] else Visible(b0, size, text)
  {
  }

  /** OUTCHAR. */
  method OutChar(str: array<char>, len: nat, size: nat, ch: char, ghost b0: seq<char>, ghost text: string)
    returns (len': nat)
    requires Shows(str, size, b0, text, len)
    modifies str
    ensures Shows(str, size, b0, text + [ch], len')
  {
    if len + 1 < size {
      str[len] := ch;
    }
    len' := len + 1;
    OneMore(b0, size, text, ch);
  }

  lemma RepeatMore(text: string, ch: char, n: nat)
    ensures text + Repeat(ch, n) + [ch] == text + Repeat(ch, n + 1)
  {
  }

  /** The padding loops. */
  method Pad(str: array<char>, len: nat, size: nat, ch: char, n: nat, ghost b0: seq<char>, ghost text: string)
    returns (len': nat)
    requires Shows(str, size, b0, text, len)
    modifies str
    ensures Shows(str, size, b0, text + Repeat(ch, n), len')
  {
    hide Shows;
    var padlen := n;
    len' := len;
    assert text + Repeat(ch, 0) == text;
    while padlen > 0
      invariant 0 <= padlen <= n && Shows(str, size, b0, text + Repeat(ch, n - padlen), len')
    {
      len' := OutChar(str, len', size, ch, b0, text + Repeat(ch, n - padlen));
      RepeatMore(text, ch, n - padlen);
      padlen := padlen - 1;
    }
  }

  /** How much of a string a precision lets through. */
  function Cut(s: string, precision: int): (n: nat)
    ensures n <= |s|
  {
    if precision < 0 || |s| <= precision then |s| else precision
  }

  /** The first loop of fmtstr: the string is not read past the precision. */
  method Measure(s: string, precision: int) returns (strln: nat)
    requires -1 <= precision
    ensures strln == Cut(s, precision)
  {
    strln := 0;
    while strln < |s| && (precision == -1 || strln < precision)
      invariant strln <= |s| && (precision == -1 || strln <= precision)
    {
      strln := strln + 1;
    }
  }

  /** The loop of fmtstr that prints the string. */
  method CopyString(str: array<char>, len: nat, size: nat, s: string, precision: int, ghost b0: seq<char>,
          ghost text: string) returns (len': nat)
    requires Shows(str, size, b0, text, len) && -1 <= precision
    modifies str
    ensures Shows(str, size, b0, text + s[..Cut(s, precision)], len')
  {
    hide Shows;
    var i, left := 0, precision;
    len' := len;
    assert text + s[..0] == text;
    while i < |s| && (precision == -1 || left > 0)
      invariant 0 <= i <= |s| && (precision == -1 || (left == precision - i && 0 <= left))
      invariant Shows(str, size, b0, text + s[..i], len')
    {
      len' := OutChar(str, len', size, s[i], b0, text + s[..i]);
      assert text + s[..i] + [s[i]] == text + s[..i + 1];
      i, left := i + 1, left - 1;
    }
  }

  lemma FmtStrIs(text: string, value: Option<string>, width: nat, precision: int, minus: bool, s: string, n: nat,
          padlen: nat)
    requires s == (if value.Some? then value.value else "(null)") && n == Cut(s, precision)
    requires padlen == if width - n < 0 then 0 else width - n
    ensures text + FmtStr(value, width, precision, minus) ==
            if minus then text + s[..n] + Repeat(' ', padlen) else text + Repeat(' ', padlen) + s[..n]
  {
    assert n == |s| ==> s[..n] == s;
    var t, pad := s[..n], Repeat(' ', padlen);
    assert text + (t + pad) == text + t + pad && text + (pad + t) == text + pad + t;
  }

  /** fmtstr. */
  method FmtStrOut(str: array<char>, len: nat, size: nat, value: Option<string>, width: nat, precision: int,
          minus: bool,
                   ghost b0: seq<char>, ghost text: string) returns (len': nat)
    requires Shows(str, size, b0, text, len) && -1 <= precision
    modifies str
    ensures Shows(str, size, b0, text + FmtStr(value, width, precision, minus), len')
  {
    hide *;
    var s := if value.Some? then value.value else "(null)";
    var strln := Measure(s, precision);
    var padlen := width - strln;
    if padlen < 0 {
      padlen := 0;
    }
    FmtStrIs(text, value, width, precision, minus, s, strln, padlen);
    if minus {
      len' := CopyString(str, len, size, s, precision, b0, text);
      len' := Pad(str, len', size, ' ', padlen, b0, text + s[..strln]);
    } else {
      len' := Pad(str, len, size, ' ', padlen, b0, text);
      len' := CopyString(str, len', size, s, precision, b0, text + Repeat(' ', padlen));
    }
  }

  function PowerOf8(n: nat): (r: nat)
    ensures r > 0
  {
    if n == 0 then 1 else 8 * PowerOf8(n - 1)
  }

  lemma QuotientFits(v: nat, base: nat, q: nat, d: nat, p: nat)
    requires v == q * base + d && 8 <= base && v < 8 * p
    ensures q < p
  {
    assert q * base >= q * 8;
  }

  lemma {:induction false} DigitsFit(v: nat, base: nat, caps: bool, n: nat)
    requires 8 <= base <= 16 && 0 < n && v < PowerOf8(n)
    ensures |Digits(v, base, caps)| <= n
    decreases v
  {
    var q, d := v / base, v % base;
    DivMod(v, base, q, d);
    DigitsStep(v, base, caps, q, d);
    if v >= base {
      var p := PowerOf8(n - 1);
      assert PowerOf8(n) == 8 * p && (n == 1 ==> p == 1);
      hide Digits, PowerOf8;
      QuotientFits(v, base, q, d, p);
      assert q > 0;
      DigitsFit(q, base, caps, n - 1);
    }
  }

  lemma PowersMultiply()
    ensures PowerOf8(22) >= TWO64
  {
    assert PowerOf8(4) == 4096;
    assert PowerOf8(8) == 4096 * 4096;
    assert PowerOf8(12) == 4096 * 4096 * 4096;
    assert PowerOf8(16) == 4096 * 4096 * 4096 * 4096;
    assert PowerOf8(20) == 4096 * 4096 * 4096 * 4096 * 4096;
  }

  /** The digits of any 64-bit value fit in iconvert. */
  lemma DigitsOf64(v: nat, base: nat, caps: bool)
    requires 8 <= base <= 16 && v < TWO64
    ensures |Digits(v, base, caps)| <= 22 < MAX_CONVERT_LENGTH
  {
    assert PowerOf8(11) == 0x2_0000_0000;
    PowersMultiply();
    DigitsFit(v, base, caps, 22);
  }

  lemma EndsWith(ds: string, n: nat, h: string, c: char)
    requires 0 < n <= |ds| && ds[..n] == (if h == "" then [c] else h + [c])
    ensures ds[n - 1] == c && |h| == n - 1 && h == ds[..n - 1]
  {
    assert ds[..n][n - 1] == ds[n - 1] && ds[..n][..n - 1] == ds[..n - 1];
    assert h != "" ==> (h + [c])[..|h|] == h;
  }

  lemma LastDigit(v: nat, base: nat, caps: bool, ds: string, n: nat, q: int, d: int)
    requires 8 <= base <= 16 && 0 < n <= |ds| && Digits(v, base, caps) == ds[..n] && q == v / base && d == v % base
    ensures 0 <= q && 0 <= d < 16 && DigitChar(d, caps) == ds[n - 1] && (q == 0 <==> n == 1)
    ensures n > 1 ==> Digits(q, base, caps) == ds[..n - 1]
  {
    hide *;
    DivMod(v, base, q, d);
    DigitsStep(v, base, caps, q, d);
    EndsWith(ds, n, if v >= base then Digits(q, base, caps) else "", DigitChar(d, caps));
  }

  /** convert: the digits in reverse order. */
  method ConvertDigits(value: nat, buf: array<char>, base: nat, caps: bool) returns (pos: nat)
    requires 8 <= base <= 16 && value < TWO64 && buf.Length == MAX_CONVERT_LENGTH
    modifies buf
    ensures pos == |Digits(value, base, caps)| <= buf.Length
    ensures forall i :: 0 <= i < pos ==> buf[i] == Digits(value, base, caps)[pos - 1 - i]
  {
    hide *;
    ghost var ds := Digits(value, base, caps);
    DigitsOf64(value, base, caps);
    pos := 0;
    var v: nat := value;
    assert ds[..|ds|] == ds;
    while true
      invariant pos < |ds| && Digits(v, base, caps) == ds[..|ds| - pos]
      invariant forall i :: 0 <= i < pos ==> buf[i] == ds[|ds| - 1 - i]
      decreases |ds| - pos
    {
      LastDigit(v, base, caps, ds, |ds| - pos, v / base, v % base);
      buf[pos] := DigitChar(v % base, caps);
      pos := pos + 1;
      v := v / base;
      if !(v != 0 && pos < buf.Length) {
        break;
      }
    }
  }

  // ----- fmtint -----

  /** What the digit loop has printed when the digits from i on are left. */
  ghost predicate Printed(done: string, ds: string, i: nat, quote: bool) {
    i <= |ds| && (if quote then done + Group(ds[i..]) == Group(ds) else done + ds[i..] == ds)
  }

  lemma StartDigits(text: string, ds: string, quote: bool)
    ensures text + "" == text && Printed("", ds, 0, quote)
  {
    assert ds[0..] == ds && "" + Group(ds) == Group(ds) && "" + ds == ds;
  }

  lemma AllPrinted(done: string, ds: string, quote: bool)
    requires Printed(done, ds, |ds|, quote)
    ensures done == if quote then Group(ds) else ds
  {
    assert ds[|ds|..] == "" && done + "" == done;
  }

  lemma Regroup(done: string, c: char, g: string)
    ensures done + ([c] + ([','] + g)) == done + [c] + [','] + g && done + ([c] + g) == done + [c] + g
  {
  }

  lemma GroupNothing()
    ensures Group("") == ""
  {
  }

  /** Printing digit i, and a separator when a whole number of groups is left. */
  lemma NextDigit(done: string, ds: string, i: nat, quote: bool)
    requires i < |ds| && Printed(done, ds, i, quote)
    ensures var left := |ds| - 1 - i;
      Printed(if quote && left > 0 && left % 3 == 0 then done + [ds[i]] + [','] else done + [ds[i]], ds, i + 1, quote)
  {
    var s := ds[i..];
    assert s[1..] == ds[i + 1..] && s[0] == ds[i];
    if quote {
      GroupStep(s);
      GroupNothing();
      hide Group;
      Regroup(done, ds[i], Group(s[1..]));
    } else {
      assert done + [ds[i]] + ds[i + 1..] == done + ds[i..];
    }
  }

  /** A separator is due only when there are separators at all. */
  lemma NeedsSep(n: nat, pos: nat)
    requires pos < n
    ensures pos > 0 && pos % 3 == 0 ==> NumSep(n) > 0
  {
  }

  /** The digit loop: from the highest digit down, with a separator before each full group when there are any. */
  method DigitLoop(str: array<char>, len: nat, size: nat, iconvert: array<char>, n: nat, separators: nat, quote: bool,
                   ghost ds: string, ghost b0: seq<char>, ghost text: string) returns (len': nat)
    requires Shows(str, size, b0, text, len) && str != iconvert && n == |ds| <= iconvert.Length
    requires forall i :: 0 <= i < n ==> iconvert[i] == ds[n - 1 - i]
    requires separators == if quote then NumSep(n) else 0
    modifies str
    ensures Shows(str, size, b0, text + (if quote then Group(ds) else ds), len')
  {
    hide *;
    var pos := n;
    len' := len;
    ghost var done := "";
    StartDigits(text, ds, quote);
    while pos > 0
      invariant 0 <= pos <= n && Shows(str, size, b0, text + done, len') && Printed(done, ds, n - pos, quote)
    {
      pos := pos - 1;
      NextDigit(done, ds, n - 1 - pos, quote);
      NeedsSep(n, pos);
      len' := OutChar(str, len', size, iconvert[pos], b0, text + done);
      assert text + done + [ds[n - 1 - pos]] == text + (done + [ds[n - 1 - pos]]);
      done := done + [ds[n - 1 - pos]];
      if separators > 0 && pos > 0 && pos % 3 == 0 {
        len' := OutChar(str, len', size, ',', b0, text + done);
        assert text + done + [','] == text + (done + [',']);
        done := done + [','];
      }
    }
    AllPrinted(done, ds, quote);
  }

  /** The magnitude of a value, which for the least 64-bit integer does not fit in the signed type. */
  function Magnitude(value: int): nat { if value < 0 then -value else value }

  lemma LayoutSteps(text: string, l: Layout)
    ensures text + l.Text()
         == text + Repeat(' ', l.lead) + l.sign + l.prefix + Repeat('0', l.zeros) + l.body + Repeat(' ', l.trail)
  {
  }

  /** A sign or a prefix, at most two characters. */
  method OutShort(str: array<char>, len: nat, size: nat, s: string, ghost b0: seq<char>, ghost text: string)
    returns (len': nat)
    requires Shows(str, size, b0, text, len) && |s| <= 2
    modifies str
    ensures Shows(str, size, b0, text + s, len')
  {
    hide Shows;
    len' := len;
    assert text + "" == text;
    if |s| >= 1 {
      len' := OutChar(str, len', size, s[0], b0, text);
      assert |s| == 1 ==> [s[0]] == s;
    }
    if |s| == 2 {
      len' := OutChar(str, len', size, s[1], b0, text + [s[0]]);
      assert text + [s[0]] + [s[1]] == text + s;
    }
  }

  /** The printing half of fmtint: spaces when spadlen is positive, sign, prefix, zeros, digits, spaces when it is
      negative. */
  method Emit(str: array<char>, len: nat, size: nat, sign: string, prefix: string, zpadlen: nat, spadlen: int,
              iconvert: array<char>, pos: nat, separators: nat, quote: bool,
              ghost ds: string, ghost l: Layout, ghost b0: seq<char>, ghost text: string) returns (len': nat)
    requires Shows(str, size, b0, text, len) && str != iconvert && pos == |ds| <= iconvert.Length
    requires forall i :: 0 <= i < pos ==> iconvert[i] == ds[pos - 1 - i]
    requires separators == (if quote then NumSep(pos) else 0) && |sign| <= 1 && |prefix| <= 2
    requires l == Layout(if spadlen > 0 then spadlen else 0, sign, prefix, zpadlen, if quote then Group(ds) else ds,
                         if spadlen < 0 then -spadlen else 0)
    modifies str
    ensures Shows(str, size, b0, text + l.Text(), len')
  {
    hide *;
    ghost var t1 := text + Repeat(' ', l.lead);
    len' := Pad(str, len, size, ' ', if spadlen > 0 then spadlen else 0, b0, text);
    len' := OutShort(str, len', size, sign, b0, t1);
    len' := OutShort(str, len', size, prefix, b0, t1 + sign);
    ghost var t2 := t1 + sign + prefix;
    len' := Pad(str, len', size, '0', zpadlen, b0, t2);
    len' := DigitLoop(str, len', size, iconvert, pos, separators, quote, ds, b0, t2 + Repeat('0', l.zeros));
    len' := Pad(str, len', size, ' ', if spadlen < 0 then -spadlen else 0, b0, t2 + Repeat('0', l.zeros) + l.body);
    LayoutSteps(text, l);
  }

  /** The lengths that fmtint computes are those of the layout. */
  lemma LayoutIs(sign: string, u: nat, base: nat, width: nat, precision: int, f: Flags, caps: bool,
                 raised: int, pos: nat, separators: nat, zpadlen: int, spadlen: int, l: Layout)
    requires 8 <= base <= 16 && -1 <= precision && pos == |Digits(u, base, caps)|
    requires raised == if f.num && u != 0 && base == 8 && precision <= pos then pos + 1 else precision
    requires separators == if f.quote then NumSep(pos) else 0
    requires l.sign == sign && l.prefix == if f.num && u != 0 && base == 16 then (if caps then "0X" else "0x") else ""
    requires l.body == if f.quote then Group(Digits(u, base, caps)) else Digits(u, base, caps)
    requires var z := if raised - pos - separators < 0 then 0 else raised - pos - separators;
      var w := width - separators - (if raised >= pos then raised else pos) - |sign| - |l.prefix|;
      var s := if w < 0 then 0 else w;
      && (f.minus ==> zpadlen == z && spadlen == -s)
      && (!f.minus && f.zero && precision == -1 ==> zpadlen == z + s && spadlen == 0)
      && (!f.minus && !(f.zero && precision == -1) ==> zpadlen == z && spadlen == s)
    requires l.lead == (if spadlen > 0 then spadlen else 0) && l.zeros == zpadlen
    requires l.trail == (if spadlen < 0 then -spadlen else 0)
    ensures FmtInt(sign, u, base, width, precision, f, caps) == l.Text()
  {
    hide Digits, Group, NumSep, Layout.Text;
  }

  /** fmtint. A signed value is printed as its magnitude behind a sign. */
  method FmtIntOut(str: array<char>, len: nat, size: nat, value: int, base: nat, width: nat, precision: int, f: Flags,
                   unsigned: bool, up: bool, ghost b0: seq<char>, ghost text: string) returns (len': nat)
    requires Shows(str, size, b0, text, len) && 8 <= base <= 16 && -1 <= precision
    requires Magnitude(value) < TWO64 && (unsigned ==> 0 <= value)
    modifies str
    ensures Shows(str, size, b0,
                  text + FmtInt(if unsigned then "" else SignOf(value, f), Magnitude(value), base, width, precision,
                                 f, up), len')
  {
    hide *;
    var uvalue, sign := Magnitude(value), "";
    if !unsigned {
      sign := SignOf(value, f);
    }
    ghost var t, ds := text, Digits(uvalue, base, up);
    var iconvert := new char[MAX_CONVERT_LENGTH](i => '0');
    var pos := ConvertDigits(uvalue, iconvert, base, up);
    var raised, prefix := precision, "";
    if f.num && uvalue != 0 {
      if base == 8 {
        if raised <= pos {
          raised := pos + 1;
        }
      } else if base == 16 {
        prefix := if up then "0X" else "0x";
      }
    }
    var separators := if f.quote then NumSep(pos) else 0;
    var zpadlen := raised - pos - separators;
    var spadlen := width - separators - (if raised >= pos then raised else pos) - |sign| - |prefix|;
    if zpadlen < 0 {
      zpadlen := 0;
    }
    if spadlen < 0 {
      spadlen := 0;
    }
    if f.minus {
      spadlen := -spadlen;
    } else if f.zero && precision == -1 {
      zpadlen, spadlen := zpadlen + spadlen, 0;
    }
    ghost var l := Layout(if spadlen > 0 then spadlen else 0, sign, prefix, zpadlen, if f.quote then Group(ds) else ds,
                          if spadlen < 0 then -spadlen else 0);
    LayoutIs(sign, uvalue, base, width, precision, f, up, raised, pos, separators, zpadlen, spadlen, l);
    len' := Emit(str, len, size, sign, prefix, zpadlen, spadlen, iconvert, pos, separators, f.quote, ds, l, b0, text);
  }

  // ----- _vsnprintf -----

  const PRINT_S_DEFAULT: nat := 0
  const PRINT_S_FLAGS: nat := 1
  const PRINT_S_WIDTH: nat := 2
  const PRINT_S_DOT: nat := 3
  const PRINT_S_PRECISION: nat := 4
  const PRINT_S_MOD: nat := 5
  const PRINT_S_CONV: nat := 6

  /** What is still to be printed when the interpreter is in a state and s is left of the format. */
  ghost function Rest(state: nat, s: string, f: Flags, width: nat, precision: int, m: Modifier, args: seq<Arg>,
          k: nat): FormatSpec.Printed {
    if state == PRINT_S_DEFAULT then Format(s, args, k)
    else if state == PRINT_S_FLAGS then AfterFlags(TakeFlags(s, f).1, TakeFlags(s, f).0, 0, args, k)
    else if state == PRINT_S_WIDTH then AfterFlags(s, f, width, args, k)
    else if state == PRINT_S_DOT then AfterWidth(s, f, width, args, k)
    else if state == PRINT_S_PRECISION then AfterPoint(s, f, width, if precision < 0 then 0 else precision, args, k)
    else if state == PRINT_S_MOD then AfterPrecision(s, f, width, precision, args, k)
    else AfterModifier(s, f, width, precision, m, args, k)
  }

  /** The variables a state has not reached yet keep their initial values. */
  ghost predicate Untouched(state: nat, f: Flags, width: nat, precision: int, m: Modifier) {
    && state <= PRINT_S_CONV && -1 <= precision
    && (state == PRINT_S_DEFAULT ==> f == NO_FLAGS)
    && (state <= PRINT_S_FLAGS ==> width == 0)
    && (state <= PRINT_S_DOT ==> precision == -1)
    && (state <= PRINT_S_MOD ==> m == Plain)
  }

  /** A format that ends in any state prints nothing more. */
  lemma EndOfFormat(state: nat, f: Flags, width: nat, precision: int, m: Modifier, args: seq<Arg>, k: nat)
    ensures Rest(state, "", f, width, precision, m, args, k) == ("", false)
  {
  }

  lemma StepDefault(s: string, args: seq<Arg>, k: nat)
    requires s != ""
    ensures Rest(PRINT_S_DEFAULT, s, NO_FLAGS, 0, -1, Plain, args, k) ==
            if s[0] == '%' then Rest(PRINT_S_FLAGS, s[1..], NO_FLAGS, 0, -1, Plain, args, k)
            else Then([s[0]], Rest(PRINT_S_DEFAULT, s[1..], NO_FLAGS, 0, -1, Plain, args, k))
  {
  }

  lemma StepFlags(s: string, f: Flags, args: seq<Arg>, k: nat)
    requires s != ""
    ensures Rest(PRINT_S_FLAGS, s, f, 0, -1, Plain, args, k) ==
            if IsFlag(s[0]) then Rest(PRINT_S_FLAGS, s[1..], SetFlag(f, s[0]), 0, -1, Plain, args, k)
            else Rest(PRINT_S_WIDTH, s, f, 0, -1, Plain, args, k)
  {
  }

  lemma StepNumber(s: string, n: nat)
    requires s != ""
    ensures TakeNumber(s, n) ==
            if !IsNumeral(s[0]) then (Some(n), s)
            else if n > (INT_MAX - (s[0] as int - '0' as int)) / 10 then (None, s)
            else TakeNumber(s[1..], 10 * n + (s[0] as int - '0' as int))
  {
  }

  lemma StepWidth(s: string, f: Flags, width: nat, args: seq<Arg>, k: nat)
    requires s != ""
    ensures Rest(PRINT_S_WIDTH, s, f, width, -1, Plain, args, k) ==
            if IsNumeral(s[0]) then
              var d := s[0] as int - '0' as int;
              if width > (INT_MAX - d) / 10 then ("", true)
              else Rest(PRINT_S_WIDTH, s[1..], f, 10 * width + d, -1, Plain, args, k)
            else if s[0] == '*' then
              var v := ToSigned(IntAt(args, k), 32);
              Rest(PRINT_S_DOT, s[1..], if v < 0 then f.(minus := true) else f, if v < 0 then -v else v, -1, Plain,
                   args, k + 1)
            else Rest(PRINT_S_DOT, s, f, width, -1, Plain, args, k)
  {
    StepNumber(s, width);
    hide TakeNumber, AfterWidth, ToSigned;
  }

  lemma StepDot(s: string, f: Flags, width: nat, args: seq<Arg>, k: nat)
    requires s != ""
    ensures Rest(PRINT_S_DOT, s, f, width, -1, Plain, args, k) ==
            if s[0] == '.' then Rest(PRINT_S_PRECISION, s[1..], f, width, -1, Plain, args, k)
            else Rest(PRINT_S_MOD, s, f, width, -1, Plain, args, k)
  {
    hide AfterPrecision, AfterPoint;
  }

  lemma StepPrecision(s: string, f: Flags, width: nat, precision: nat, args: seq<Arg>, k: nat)
    requires s != ""
    ensures Rest(PRINT_S_PRECISION, s, f, width, precision, Plain, args, k) ==
            if IsNumeral(s[0]) then
              var d := s[0] as int - '0' as int;
              if precision > (INT_MAX - d) / 10 then ("", true)
              else Rest(PRINT_S_PRECISION, s[1..], f, width, 10 * precision + d, Plain, args, k)
            else if s[0] == '*' then
              var v := ToSigned(IntAt(args, k), 32);
              Rest(PRINT_S_MOD, s[1..], f, width, if v < 0 then -1 else v, Plain, args, k + 1)
            else Rest(PRINT_S_MOD, s, f, width, precision, Plain, args, k)
  {
    StepNumber(s, precision);
    hide TakeNumber, AfterPrecision, ToSigned;
  }

  lemma StepMod(s: string, f: Flags, width: nat, precision: int, args: seq<Arg>, k: nat)
    requires s != ""
    ensures Rest(PRINT_S_MOD, s, f, width, precision, Plain, args, k) ==
            Rest(PRINT_S_CONV, TakeModifier(s).1, f, width, precision, TakeModifier(s).0, args, k)
  {
    hide AfterModifier, TakeModifier;
  }

  lemma StepConv(s: string, f: Flags, width: nat, precision: int, m: Modifier, args: seq<Arg>, k: nat)
    requires s != ""
    ensures Rest(PRINT_S_CONV, s, f, width, precision, m, args, k) ==
            Then(Convert(s[0], f, width, precision, m, args, k),
                 Rest(PRINT_S_DEFAULT, s[1..], NO_FLAGS, 0, -1, Plain, args, if TakesArg(s[0]) then k + 1 else k))
  {
    hide Convert, Format;
  }

  lemma BitsAtMost64(m: Modifier)
    ensures Bits(m) <= 64
  {
  }

  lemma {:induction false} TwoToMono(a: nat, b: nat)
    requires a <= b
    ensures TwoTo(a) <= TwoTo(b)
  {
    if a < b {
      TwoToMono(a, b - 1);
    }
  }

  lemma SignedRange(v: int, bits: nat)
    requires bits <= 64
    ensures Magnitude(ToSigned(v, bits)) < TWO64
  {
    TwoToMono(bits, 64);
    PowersOfTwo();
  }

  lemma UnsignedRange(v: int, bits: nat)
    requires bits <= 64
    ensures ToUnsigned(v, bits) < TWO64 && (bits == 8 ==> ToUnsigned(v, bits) < 256)
  {
    TwoToMono(bits, 64);
    PowersOfTwo();
  }

  /** The conversion step: print, and move on in the arguments. The store that %n makes is not modelled. */
  method ConvertOut(str: array<char>, len: nat, size: nat, c: char, f: Flags, width: nat, precision: int, m: Modifier,
                    args: seq<Arg>, k: nat, ghost b0: seq<char>, ghost text: string) returns (len': nat, k': nat)
    requires Shows(str, size, b0, text, len) && -1 <= precision
    modifies str
    ensures Shows(str, size, b0, text + Convert(c, f, width, precision, m, args, k), len')
    ensures k' == if TakesArg(c) then k + 1 else k
  {
    hide Shows, FmtInt, FmtStr, ToSigned, ToUnsigned, SignOf, Bits, IntAt, StrAt;
    len', k' := len, k;
    BitsAtMost64(m);
    SignedRange(IntAt(args, k), Bits(m));
    UnsignedRange(IntAt(args, k), Bits(m));
    UnsignedRange(IntAt(args, k), 64);
    UnsignedRange(IntAt(args, k), 8);
    assert text + "" == text;
    if c == 'd' || c == 'i' {
      k' := k + 1;
      len' := FmtIntOut(str, len, size, ToSigned(IntAt(args, k), Bits(m)), 10, width, precision, f, false, false,
                        b0, text);
    } else if c == 'X' || c == 'x' || c == 'o' || c == 'u' {
      var base := if c == 'X' || c == 'x' then 16 else if c == 'o' then 8 else 10;
      k' := k + 1;
      len' := FmtIntOut(str, len, size, ToUnsigned(IntAt(args, k), Bits(m)), base, width, precision, f, true,
                        c == 'X', b0, text);
    } else if c == 'c' {
      k' := k + 1;
      len' := OutChar(str, len, size, ToUnsigned(IntAt(args, k), 8) as char, b0, text);
    } else if c == 's' {
      k' := k + 1;
      len' := FmtStrOut(str, len, size, StrAt(args, k), width, precision, f.minus, b0, text);
    } else if c == 'p' {
      k' := k + 1;
      var p := ToUnsigned(IntAt(args, k), 64);
      if p == 0 {
        len' := FmtStrOut(str, len, size, Some("(nil)"), width, -1, f.minus, b0, text);
      } else {
        len' := FmtIntOut(str, len, size, p, 16, width, precision, f.(num := true), true, false, b0, text);
      }
    } else if c == 'n' {
      k' := k + 1;
    } else if c == '%' {
      len' := OutChar(str, len, size, c, b0, text);
    }
  }

  /** h, hh, l, ll, j, t or z. */
  method ReadModifier(format: string, i: nat) returns (m: Modifier, i': nat)
    requires i < |format|
    ensures i <= i' <= |format| && (m, format[i'..]) == TakeModifier(format[i..])
  {
    var s := format[i..];
    m, i' := Plain, i;
    var ch := format[i];
    if ch == 'h' {
      i' := i + 1;
      if At(format, i') == 'h' {
        i' := i' + 1;
        m := Char;
      } else {
        m := Short;
      }
    } else if ch == 'l' {
      i' := i + 1;
      if At(format, i') == 'l' {
        i' := i' + 1;
        m := LongLong;
      } else {
        m := Long;
      }
    } else if ch == 'j' {
      m, i' := IntMax, i + 1;
    } else if ch == 't' {
      m, i' := PtrDiff, i + 1;
    } else if ch == 'z' {
      m, i' := Size, i + 1;
    }
    assert s[1..] == format[i + 1..] && (|s| > 1 ==> s[2..] == format[i + 2..]);
  }

  lemma States()
    ensures PRINT_S_DEFAULT == 0 && PRINT_S_FLAGS == 1 && PRINT_S_WIDTH == 2 && PRINT_S_DOT == 3
    ensures PRINT_S_PRECISION == 4 && PRINT_S_MOD == 5 && PRINT_S_CONV == 6
  {
  }

  lemma StartsHere(format: string, args: seq<Arg>)
    ensures Untouched(PRINT_S_DEFAULT, NO_FLAGS, 0, -1, Plain) && format[0..] == format
    ensures Format(format, args, 0) == Then("", Rest(PRINT_S_DEFAULT, format, NO_FLAGS, 0, -1, Plain, args, 0))
  {
    var p := Format(format, args, 0);
    assert "" + p.0 == p.0;
  }

  lemma NotAtEnd(format: string, i: nat)
    requires At(format, i) != '\0' && i <= |format|
    ensures i < |format| && format[i..] != "" && format[i..][0] == format[i] && format[i..][1..] == format[i + 1..]
  {
  }

  lemma AtEnd(format: string, i: nat)
    requires At(format, i) == '\0' && i <= |format| && '\0' !in format
    ensures format[i..] == ""
  {
  }

  lemma StateFacts(state: nat, f: Flags, width: nat, precision: int, m: Modifier)
    requires Untouched(state, f, width, precision, m)
    ensures state <= PRINT_S_CONV && -1 <= precision
    ensures state == PRINT_S_DEFAULT ==> f == NO_FLAGS
    ensures state <= PRINT_S_FLAGS ==> width == 0
    ensures state <= PRINT_S_DOT ==> precision == -1
    ensures state <= PRINT_S_MOD ==> m == Plain
  {
  }

  lemma Touch(state: nat, f: Flags, width: nat, precision: int, m: Modifier)
    requires state <= PRINT_S_CONV && -1 <= precision
    requires state == PRINT_S_DEFAULT ==> f == NO_FLAGS
    requires state <= PRINT_S_FLAGS ==> width == 0
    requires state <= PRINT_S_DOT ==> precision == -1
    requires state <= PRINT_S_MOD ==> m == Plain
    ensures Untouched(state, f, width, precision, m)
  {
  }

  lemma ThenThen(t: string, u: string, p: FormatSpec.Printed)
    ensures Then(t, Then(u, p)) == Then(t + u, p)
  {
    assert t + (u + p.0) == t + u + p.0;
  }

  lemma NothingMore(t: string, p: FormatSpec.Printed)
    ensures Then(t, ("", true)) == (t, true) && Then(t, ("", false)) == (t, false)
  {
    assert t + "" == t;
  }

  lemma NumeralIs(c: char)
    requires IsNumeral(c)
    ensures 0 <= c as int - '0' as int <= 9
  {
  }

  lemma PrecisionZero(s: string, f: Flags, width: nat, args: seq<Arg>, k: nat)
    ensures Rest(PRINT_S_PRECISION, s, f, width, -1, Plain, args, k)
         == Rest(PRINT_S_PRECISION, s, f, width, 0, Plain, args, k)
  {
  }

  /** The seven-state loop: one character of the format at a time. */
  method Interpret(str: array<char>, size: nat, format: string, args: seq<Arg>, ghost b0: seq<char>)
    returns (len: nat, overflow: bool, ghost text: string)
    requires Shows(str, size, b0, "", 0) && '\0' !in format
    modifies str
    ensures Shows(str, size, b0, text, len) && Format(format, args, 0) == (text, overflow)
  {
    hide *;
    States();
    var i, state := 0, PRINT_S_DEFAULT;
    var f, width, precision, m, k := NO_FLAGS, 0, -1, Plain, 0;
    len, overflow, text := 0, false, "";
    ghost var goal := Format(format, args, 0);
    StartsHere(format, args);
    while At(format, i) != '\0'
      invariant 0 <= i <= |format| && 0 <= width && 0 <= k && !overflow && Shows(str, size, b0, text, len)
      invariant Untouched(state, f, width, precision, m) && state <= 6
      invariant goal == Then(text, Rest(state, format[i..], f, width, precision, m, args, k))
      decreases |format| - i, 7 - state
    {
      NotAtEnd(format, i);
      StateFacts(state, f, width, precision, m);
      var ch := format[i];
      ghost var s := format[i..];
      if state == PRINT_S_DEFAULT {
        StepDefault(s, args, k);
        if ch == '%' {
          state := PRINT_S_FLAGS;
        } else {
          len := OutChar(str, len, size, ch, b0, text);
          ThenThen(text, [ch], Rest(PRINT_S_DEFAULT, s[1..], NO_FLAGS, 0, -1, Plain, args, k));
          text := text + [ch];
        }
        i := i + 1;
      } else if state == PRINT_S_FLAGS {
        StepFlags(s, f, args, k);
        if IsFlag(ch) {
          f := SetFlag(f, ch);
          i := i + 1;
        } else {
          state := PRINT_S_WIDTH;
        }
      } else if state == PRINT_S_WIDTH {
        StepWidth(s, f, width, args, k);
        if IsNumeral(ch) {
          NumeralIs(ch);
          var d := ch as int - '0' as int;
          if width > (INT_MAX - d) / 10 {
            overflow := true;
            NothingMore(text, goal);
            return;
          }
          width := 10 * width + d;
          i := i + 1;
        } else if ch == '*' {
          width := ToSigned(IntAt(args, k), 32);
          if width < 0 {
            f := f.(minus := true);
            width := -width;
          }
          k := k + 1;
          i := i + 1;
          state := PRINT_S_DOT;
        } else {
          state := PRINT_S_DOT;
        }
      } else if state == PRINT_S_DOT {
        StepDot(s, f, width, args, k);
        if ch == '.' {
          state := PRINT_S_PRECISION;
          i := i + 1;
        } else {
          state := PRINT_S_MOD;
        }
      } else if state == PRINT_S_PRECISION {
        PrecisionZero(s, f, width, args, k);
        if precision == -1 {
          precision := 0;
        }
        StepPrecision(s, f, width, precision, args, k);
        if IsNumeral(ch) {
          NumeralIs(ch);
          var d := ch as int - '0' as int;
          if precision > (INT_MAX - d) / 10 {
            overflow := true;
            NothingMore(text, goal);
            return;
          }
          precision := 10 * precision + d;
          i := i + 1;
        } else if ch == '*' {
          precision := ToSigned(IntAt(args, k), 32);
          if precision < 0 {
            precision := -1;
          }
          k := k + 1;
          i := i + 1;
          state := PRINT_S_MOD;
        } else {
          state := PRINT_S_MOD;
        }
      } else if state == PRINT_S_MOD {
        StepMod(s, f, width, precision, args, k);
        m, i := ReadModifier(format, i);
        state := PRINT_S_CONV;
      } else {
        StepConv(s, f, width, precision, m, args, k);
        ghost var out := Convert(ch, f, width, precision, m, args, k);
        len, k := ConvertOut(str, len, size, ch, f, width, precision, m, args, k, b0, text);
        ThenThen(text, out, Rest(PRINT_S_DEFAULT, s[1..], NO_FLAGS, 0, -1, Plain, args, k));
        text := text + out;
        i := i + 1;
        state, f, width, precision, m := PRINT_S_DEFAULT, NO_FLAGS, 0, -1, Plain;
      }
      Touch(state, f, width, precision, m);
    }
    AtEnd(format, i);
    EndOfFormat(state, f, width, precision, m, args, k);
    NothingMore(text, goal);
  }

  /** What the return value says: the length of the whole output, or -1 when a width or precision overflowed an int or
      the length does not fit in one. */
  function Returned(p: FormatSpec.Printed): int {
    if p.1 || |p.0| >= INT_MAX then -1 else |p.0|
  }

  lemma NothingVisible(b0: seq<char>, size: nat)
    requires size <= |b0|
    ensures Visible(b0, size, "") == b0
  {
  }

  lemma LastOne(b0: seq<char>, size: nat, text: string)
    requires size <= |b0|
    ensures size > 0 ==>
              Terminated(b0, size, text) ==
              Visible(b0, size, text)[(if |text| < size then |text| else size - 1) := '\0']
    ensures size == 0 ==> Terminated(b0, size, text) == Visible(b0, size, text)
  {
  }

  /** _vsnprintf. A null buffer counts as one of size 0. */
  method Vsnprintf(buf: array?<char>, size0: nat, format: Option<string>, args: seq<Arg>) returns (ret: int)
    requires (format.Some? ==> '\0' !in format.value) && (buf != null ==> size0 <= buf.Length)
    modifies if buf == null then {} else {buf}
    ensures format.None? ==> ret == 0 && (buf != null ==> buf[..] == old(buf[..]))
    ensures format.Some? ==>
              var p := Format(format.value, args, 0);
              ret == Returned(p) && (buf != null ==> buf[..] == Terminated(old(buf[..]), size0, p.0))
  {
    hide Visible, Terminated, Format, Fit;
    if format.None? {
      return 0;
    }
    var size := size0;
    var str := new char[0];
    if buf != null {
      str := buf;
    } else {
      size := 0;
    }
    ghost var b0 := str[..];
    NothingVisible(b0, size);
    var len, overflow, text := Interpret(str, size, format.value, args, b0);
    LastOne(b0, size, text);
    if len < size {
      str[len] := '\0';
    } else if size > 0 {
      str[size - 1] := '\0';
    }
    ret := if overflow || len >= INT_MAX then -1 else len;
  }

  /** The truncation law of section 7.19.6.5 of C99: a buffer of size s > 0 holds the first min(length, s - 1)
      characters and a NUL, nothing else in it changes, and with s = 0 nothing is written. */
  lemma TruncationLaw(b0: seq<char>, size: nat, text: string)
    requires size <= |b0|
    ensures var b := Terminated(b0, size, text);
      var m := if |text| < size then |text| else size - 1;
      if size == 0 then b == b0
      else b[..m] == text[..m] && b[m] == '\0' && m < size && b[m + 1..] == b0[m + 1..]
  {
  }

  /** A larger buffer never shows less, and one larger than the text shows all of it. */
  lemma TruncationAgrees(b: seq<char>, s: nat, c: seq<char>, t: nat, text: string)
    requires 0 < s <= t && s <= |b| && t <= |c|
    ensures Terminated(b, s, text)[..Fit(s, |text|)] <= Terminated(c, t, text)[..Fit(t, |text|)]
    ensures |text| < t ==> Terminated(c, t, text)[..|text|] == text
  {
  }
}
