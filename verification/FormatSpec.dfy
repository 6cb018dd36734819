/** What the formatted printer of debug/src/printf.c prints, as functions on strings. */
module FormatSpec {
  import opened Common

  const INT_MAX: nat := 0x7FFF_FFFF

  function Max(x: int, y: int): int { if x >= y then x else y }

  function Repeat(c: char, n: nat): (r: string)
    ensures |r| == n && forall i :: 0 <= i < n ==> r[i] == c
  {
    seq(n, i => c)
  }

  /** The character at a place of a C string; at its end the terminating NUL. */
  function At(s: string, i: nat): char {
    if i < |s| then s[i] else '\0'
  }

  // ----- integers of the machine's widths -----

  function TwoTo(bits: nat): (r: nat)
    ensures r > 0
  {
    if bits == 0 then 1 else 2 * TwoTo(bits - 1)
  }

  lemma EightMore(n: nat)
    ensures TwoTo(n + 8) == 0x100 * TwoTo(n)
  {
    assert TwoTo(n + 2) == 4 * TwoTo(n);
    assert TwoTo(n + 4) == 4 * TwoTo(n + 2);
    assert TwoTo(n + 6) == 4 * TwoTo(n + 4);
    assert TwoTo(n + 8) == 4 * TwoTo(n + 6);
  }

  lemma NoBits()
    ensures TwoTo(0) == 1
  {
  }

  lemma PowersOfTwo()
    ensures TwoTo(8) == 0x100 && TwoTo(16) == 0x1_0000 && TwoTo(32) == 0x1_0000_0000
    ensures TwoTo(64) == 0x1_0000_0000_0000_0000
  {
    hide *;
    NoBits();
    EightMore(0);
    EightMore(8);
    EightMore(16);
    EightMore(24);
    EightMore(32);
    EightMore(40);
    EightMore(48);
    EightMore(56);
  }

  /** Conversion of an argument to an unsigned integer of so many bits. */
  function ToUnsigned(v: int, bits: nat): (r: nat)
    ensures r < TwoTo(bits)
  {
    v % TwoTo(bits)
  }

  /** Conversion to a signed integer. */
  function ToSigned(v: int, bits: nat): int {
    var u := v % TwoTo(bits);
    if 2 * u < TwoTo(bits) then u else u - TwoTo(bits)
  }

  // ----- digits -----

  function DigitChar(d: nat, caps: bool): char
    requires d < 36
  {
    if d < 10 then ('0' as int + d) as char
    else if caps then ('A' as int + (d - 10)) as char
    else ('a' as int + (d - 10)) as char
  }

  /** The value of a digit or letter, as isdigit, isalpha and isupper decide it. */
  function DigitOf(c: char): (r: Option<nat>)
    ensures r.Some? ==> r.value < 36
  {
    if '0' <= c <= '9' then Some(c as int - '0' as int)
    else if 'A' <= c <= 'Z' then Some(c as int - 'A' as int + 10)
    else if 'a' <= c <= 'z' then Some(c as int - 'a' as int + 10)
    else None
  }

  predicate IsDigitIn(c: char, base: nat) {
    DigitOf(c).Some? && DigitOf(c).value < base
  }

  lemma DigitCharOf(d: nat, caps: bool)
    requires d < 36
    ensures DigitOf(DigitChar(d, caps)) == Some(d)
  {
  }

  lemma DivMod(v: nat, base: nat, q: nat, d: nat)
    requires base >= 2 && q == v / base && d == v % base
    ensures q * base + d == v && d < base && (v < base ==> d == v && q == 0) && (v >= base ==> 0 < q < v)
  {
    if v >= base {
      assert q * 2 <= q * base;
    }
  }

  /** The digits of a number, most significant first; a single 0 for zero. */
  function Digits(v: nat, base: nat, caps: bool): (ds: string)
    requires 2 <= base <= 36
    ensures |ds| > 0
    decreases v
  {
    var q, d := v / base, v % base;
    DivMod(v, base, q, d);
    (if v < base then "" else Digits(q, base, caps)) + [DigitChar(d, caps)]
  }

  /** The number a string of digits denotes. */
  function ValueOf(ds: string, base: nat): nat {
    if ds == "" then 0
    else ValueOf(ds[..|ds| - 1], base) * base + (match DigitOf(ds[|ds| - 1]) case Some(d) => d case None => 0)
  }

  predicate AllDigits(ds: string, base: nat) {
    forall c :: c in ds ==> IsDigitIn(c, base)
  }

  lemma DigitsStep(v: nat, base: nat, caps: bool, q: nat, d: nat)
    requires 2 <= base <= 36 && q == v / base && d == v % base
    ensures Digits(v, base, caps)
         == (if v < base then [] else Digits(q, base, caps)) + [DigitChar(d, caps)]
  {
    hide DigitChar;
  }

  lemma DigitInBase(c: char, base: nat, d: nat)
    requires DigitOf(c) == Some(d) && d < base
    ensures IsDigitIn(c, base)
  {
  }

  lemma NoDigits(base: nat)
    ensures AllDigits("", base) && ValueOf("", base) == 0
  {
  }

  lemma AppendDigit(h: string, c: char, base: nat)
    requires AllDigits(h, base) && IsDigitIn(c, base)
    ensures AllDigits(h + [c], base) && ValueOf(h + [c], base) == ValueOf(h, base) * base + DigitOf(c).value
    ensures (h + [c])[0] == if h == "" then c else h[0]
  {
    assert (h + [c])[..|h|] == h;
  }

  /** The digits denote the number, and a zero in front occurs only in zero itself. */
  lemma {:induction false} DigitsDenote(v: nat, base: nat, caps: bool)
    requires 2 <= base <= 36
    ensures AllDigits(Digits(v, base, caps), base) && ValueOf(Digits(v, base, caps), base) == v
    ensures DigitOf(Digits(v, base, caps)[0]) == Some(0) <==> v == 0
    decreases v
  {
    hide *;
    var q, d := v / base, v % base;
    DivMod(v, base, q, d);
    DigitsStep(v, base, caps, q, d);
    DigitCharOf(d, caps);
    DigitInBase(DigitChar(d, caps), base, d);
    if v >= base {
      DigitsDenote(q, base, caps);
      AppendDigit(Digits(q, base, caps), DigitChar(d, caps), base);
    } else {
      NoDigits(base);
      AppendDigit("", DigitChar(d, caps), base);
      assert "" + [DigitChar(d, caps)] == [DigitChar(d, caps)];
    }
  }

  /** Zeros in front do not change the value. */
  lemma {:induction false} ZerosInFront(n: nat, ds: string, base: nat)
    requires 2 <= base <= 36 && AllDigits(ds, base)
    ensures AllDigits(Repeat('0', n) + ds, base) && ValueOf(Repeat('0', n) + ds, base) == ValueOf(ds, base)
    decreases n + |ds|
  {
    var z := Repeat('0', n);
    if ds != "" {
      var h := ds[..|ds| - 1];
      assert forall c :: c in h ==> c in ds;
      ZerosInFront(n, h, base);
      assert (z + ds)[..|z + ds| - 1] == z + h;
    } else if n > 0 {
      ZerosInFront(n - 1, "", base);
      assert (z + "")[..n - 1] == Repeat('0', n - 1) + "";
    }
  }

  // ----- groups of three -----

  /** getnumsep. */
  function NumSep(digits: nat): nat {
    (digits - (if digits % 3 == 0 && digits > 0 then 1 else 0)) / 3
  }

  /** A comma after every digit that a whole number of groups of three follows. */
  function Group(ds: string): string {
    if |ds| <= 1 then ds
    else [ds[0]] + (if (|ds| - 1) % 3 == 0 then [','] + Group(ds[1..]) else Group(ds[1..]))
  }

  function Commas(s: string): nat {
    if s == "" then 0 else (if s[0] == ',' then 1 else 0) + Commas(s[1..])
  }

  lemma Behind(c: char, g: string, h: string)
    ensures [c] + (g + "," + h) == [c] + g + "," + h && [c] + ([','] + (g + "," + h)) == [c] + ([','] + g) + "," + h
  {
  }

  lemma GroupStep(ds: string)
    requires ds != ""
    ensures |ds| == 1 ==> Group(ds) == ds && ds == [ds[0]] + ""
    ensures |ds| > 1 ==>
              Group(ds) == [ds[0]] + (if (|ds| - 1) % 3 == 0 then [','] + Group(ds[1..]) else Group(ds[1..]))
  {
  }

  /** Grouping from the right: a comma before each full group of three with digits in front of it. */
  lemma {:induction false} GroupFromRight(a: string, b: string)
    requires a != "" && |b| == 3
    ensures Group(a + b) == Group(a) + "," + Group(b)
  {
    hide *;
    GroupStep(a);
    GroupStep(a + b);
    assert (a + b)[1..] == a[1..] + b && (|a| == 1 ==> a[1..] + b == b);
    if |a| > 1 {
      GroupFromRight(a[1..], b);
      Behind(a[0], Group(a[1..]), Group(b));
    }
  }

  lemma DigitAt(ds: string, base: nat)
    requires AllDigits(ds, base) && ds != ""
    ensures IsDigitIn(ds[0], base) && AllDigits(ds[1..], base)
  {
    assert ds[0] in ds && forall c :: c in ds[1..] ==> c in ds;
  }

  lemma NotComma(c: char, base: nat)
    requires IsDigitIn(c, base)
    ensures c != ','
  {
  }

  lemma FirstComma(c: char, s: string)
    ensures Commas([c] + s) == (if c == ',' then 1 else 0) + Commas(s) && Commas("") == 0
  {
    assert ([c] + s)[1..] == s;
  }

  lemma NextSep(n: nat)
    ensures n >= 2 ==> NumSep(n) == NumSep(n - 1) + if (n - 1) % 3 == 0 then 1 else 0
    ensures NumSep(1) == 0
  {
  }

  /** Exactly getnumsep commas appear, and the string grows by as much. */
  lemma {:induction false} GroupCounts(ds: string, base: nat)
    requires AllDigits(ds, base) && ds != ""
    ensures Commas(Group(ds)) == NumSep(|ds|) && |Group(ds)| == |ds| + NumSep(|ds|)
  {
    hide *;
    DigitAt(ds, base);
    NotComma(ds[0], base);
    GroupStep(ds);
    NextSep(|ds|);
    if |ds| > 1 {
      GroupCounts(ds[1..], base);
      var g := Group(ds[1..]);
      FirstComma(',', g);
      FirstComma(ds[0], g);
      FirstComma(ds[0], [','] + g);
    } else {
      FirstComma(ds[0], "");
    }
  }

  function WithoutCommas(s: string): string {
    if s == "" then "" else (if s[0] == ',' then "" else [s[0]]) + WithoutCommas(s[1..])
  }

  /** The commas are the fourth, eighth, twelfth character from the right and so on. */
  predicate CommasPlaced(g: string) {
    forall i :: 0 <= i < |g| ==> (g[i] == ',' <==> (|g| - i) % 4 == 0)
  }

  predicate GroupedAs(g: string, ds: string) {
    WithoutCommas(g) == ds && CommasPlaced(g)
  }

  lemma PlacedCons(c: char, g: string)
    requires CommasPlaced(g) && (c == ',' <==> (|g| + 1) % 4 == 0)
    ensures CommasPlaced([c] + g)
  {
  }

  lemma DigitsOfCons(c: char, g: string)
    ensures WithoutCommas([c] + g) == (if c == ',' then "" else [c]) + WithoutCommas(g)
    ensures WithoutCommas([','] + g) == WithoutCommas(g)
  {
    assert ([c] + g)[1..] == g && ([','] + g)[1..] == g;
  }

  lemma GroupedCons(c: char, g: string, ds: string)
    requires c != ',' && GroupedAs(g, ds)
    ensures (|g| + 1) % 4 != 0 ==> GroupedAs([c] + g, [c] + ds)
    ensures (|g| + 1) % 4 == 0 ==> GroupedAs([c] + ([','] + g), [c] + ds)
  {
    hide WithoutCommas, CommasPlaced;
    DigitsOfCons(c, g);
    DigitsOfCons(c, [','] + g);
    if (|g| + 1) % 4 != 0 {
      PlacedCons(c, g);
    } else {
      PlacedCons(',', g);
      PlacedCons(c, [','] + g);
    }
  }

  lemma GroupLengths(n: nat)
    ensures n > 0 ==> ((n + NumSep(n) + 1) % 4 == 0 <==> n % 3 == 0)
  {
  }

  lemma OneGroup(c: char)
    requires c != ','
    ensures GroupedAs([c], [c])
  {
    assert [c][1..] == "" && [c] + "" == [c];
  }

  /** Grouping keeps the digits, and puts the commas in those places only. */
  lemma {:induction false} GroupPlaces(ds: string, base: nat)
    requires AllDigits(ds, base) && ds != ""
    ensures GroupedAs(Group(ds), ds)
  {
    hide *;
    DigitAt(ds, base);
    NotComma(ds[0], base);
    GroupStep(ds);
    if |ds| > 1 {
      GroupPlaces(ds[1..], base);
      GroupCounts(ds[1..], base);
      GroupLengths(|ds| - 1);
      GroupedCons(ds[0], Group(ds[1..]), ds[1..]);
      assert [ds[0]] + ds[1..] == ds;
    } else {
      OneGroup(ds[0]);
      assert ds == [ds[0]];
    }
  }

  // ----- one integer -----

  datatype Flags = Flags(minus: bool, plus: bool, space: bool, num: bool, zero: bool, quote: bool)

  const NO_FLAGS := Flags(false, false, false, false, false, false)

  /** The # flag raises the precision of a nonzero octal number so that it starts with a 0. */
  function RaisedPrecision(precision: int, u: nat, base: nat, f: Flags, pos: nat): int {
    if f.num && u != 0 && base == 8 && precision <= pos then pos + 1 else precision
  }

  function Prefix(u: nat, base: nat, f: Flags, caps: bool): string {
    if f.num && u != 0 && base == 16 then (if caps then "0X" else "0x") else ""
  }

  /** The pieces of a printed integer: spaces, sign and prefix, zeros, digits, spaces; -1 is no precision. */
  datatype Layout = Layout(lead: nat, sign: string, prefix: string, zeros: nat, body: string, trail: nat) {
    function Text(): string {
      Repeat(' ', lead) + sign + prefix + Repeat('0', zeros) + body + Repeat(' ', trail)
    }
  }

  function LayoutOf(sign: string, u: nat, base: nat, width: nat, precision: int, f: Flags, caps: bool): Layout
    requires 2 <= base <= 16
  {
    var ds := Digits(u, base, caps);
    var pos := |ds|;
    var p := RaisedPrecision(precision, u, base, f, pos);
    var prefix := Prefix(u, base, f, caps);
    var seps := if f.quote then NumSep(pos) else 0;
    var zpad: nat := Max(p - pos - seps, 0);
    var spad: nat := Max(width - seps - Max(p, pos) - |sign| - |prefix|, 0);
    var body := if f.quote then Group(ds) else ds;
    if f.minus then Layout(0, sign, prefix, zpad, body, spad)
    else if f.zero && precision == -1 then Layout(0, sign, prefix, zpad + spad, body, 0)
    else Layout(spad, sign, prefix, zpad, body, 0)
  }

  function FmtInt(sign: string, u: nat, base: nat, width: nat, precision: int, f: Flags, caps: bool): string
    requires 2 <= base <= 16
  {
    LayoutOf(sign, u, base, width, precision, f, caps).Text()
  }

  lemma TextLength(l: Layout)
    ensures |l.Text()| == l.lead + |l.sign| + |l.prefix| + l.zeros + |l.body| + l.trail
  {
  }

  /** Without grouping the length is the field width or, when longer, sign, prefix and the digits extended to the
      precision; a nonzero # octal number has at least one digit more than it needs. */
  lemma FmtIntLength(sign: string, u: nat, base: nat, width: nat, precision: int, f: Flags, caps: bool)
    requires 2 <= base <= 16 && !f.quote
    ensures var n := |Digits(u, base, caps)|;
      |FmtInt(sign, u, base, width, precision, f, caps)|
      == Max(width, |sign| + |Prefix(u, base, f, caps)| + Max(RaisedPrecision(precision, u, base, f, n), n))
  {
  }

  lemma PrefixClean(u: nat, base: nat, f: Flags, caps: bool)
    ensures Commas(Prefix(u, base, f, caps)) == 0
  {
    FirstComma('0', "X");
    FirstComma('0', "x");
    assert Commas("X"[1..]) == 0 && Commas("x"[1..]) == 0;
    assert ['0'] + "X" == "0X" && ['0'] + "x" == "0x";
  }

  lemma {:induction false} CommasConcat(a: string, b: string)
    ensures Commas(a + b) == Commas(a) + Commas(b)
  {
    if a == "" {
      assert a + b == b;
    } else {
      assert (a + b)[1..] == a[1..] + b;
      CommasConcat(a[1..], b);
    }
  }

  lemma {:induction false} NoCommas(c: char, n: nat)
    requires c != ','
    ensures Commas(Repeat(c, n)) == 0
  {
    if n > 0 {
      assert Repeat(c, n)[1..] == Repeat(c, n - 1);
      NoCommas(c, n - 1);
    }
  }

  lemma LayoutCommas(l: Layout)
    requires Commas(l.sign) == 0 && Commas(l.prefix) == 0
    ensures Commas(l.Text()) == Commas(l.body)
  {
    var a := Repeat(' ', l.lead) + l.sign;
    var b := a + l.prefix;
    var c := b + Repeat('0', l.zeros);
    NoCommas(' ', l.lead);
    NoCommas('0', l.zeros);
    NoCommas(' ', l.trail);
    CommasConcat(Repeat(' ', l.lead), l.sign);
    CommasConcat(a, l.prefix);
    CommasConcat(b, Repeat('0', l.zeros));
    CommasConcat(c, l.body);
    CommasConcat(c + l.body, Repeat(' ', l.trail));
  }

  /** With grouping and no precision, exactly getnumsep commas appear. */
  lemma FmtIntGrouped(sign: string, u: nat, base: nat, width: nat, f: Flags, caps: bool)
    requires 2 <= base <= 16 && f.quote && Commas(sign) == 0
    ensures Commas(FmtInt(sign, u, base, width, -1, f, caps)) == NumSep(|Digits(u, base, caps)|)
  {
    hide Digits, Group, NumSep, Commas, Layout.Text, Prefix;
    var ds := Digits(u, base, caps);
    DigitsDenote(u, base, caps);
    GroupCounts(ds, base);
    PrefixClean(u, base, f, caps);
    LayoutCommas(LayoutOf(sign, u, base, width, -1, f, caps));
  }

  /** The zeros that grouping swallows: fmtint subtracts the separators from the zero padding. */
  function LostZeros(p: int, n: nat): (r: nat)
    ensures r == 0 <==> p <= n || NumSep(n) == 0
  {
    if p <= n then 0 else if p - n < NumSep(n) then p - n else NumSep(n)
  }

  lemma FewSeparators(n: nat)
    ensures NumSep(n) == 0 <==> n <= 3
  {
  }

  /** With grouping the length is the field width or sign, prefix, precision-extended digits and separators, whichever
      is longer, less the zeros that grouping swallows; none are exactly when at most three digits are printed or the
      precision, raised for a nonzero # octal number, asks for no more digits than there are. */
  lemma FmtIntGroupedLength(sign: string, u: nat, base: nat, width: nat, precision: int, f: Flags, caps: bool)
    requires 2 <= base <= 16 && f.quote
    ensures var n := |Digits(u, base, caps)|;
      var p := RaisedPrecision(precision, u, base, f, n);
      var due := |sign| + |Prefix(u, base, f, caps)| + Max(p, n) + NumSep(n);
      |FmtInt(sign, u, base, width, precision, f, caps)| == Max(width, due) - LostZeros(p, n)
    ensures NumSep(|Digits(u, base, caps)|) == 0 <==> |Digits(u, base, caps)| <= 3
  {
    hide Digits, Group, AllDigits, Prefix, RaisedPrecision, NumSep, Layout.Text;
    DigitsDenote(u, base, caps);
    GroupCounts(Digits(u, base, caps), base);
    FewSeparators(|Digits(u, base, caps)|);
    TextLength(LayoutOf(sign, u, base, width, precision, f, caps));
  }

  /** What fmtint does with a signed value: its magnitude, and the sign the flags ask for. */
  function SignOf(value: int, f: Flags): (r: string)
    ensures |r| <= 1
  {
    if value < 0 then "-" else if f.plus then "+" else if f.space then " " else ""
  }

  // ----- one string -----

  /** A null pointer prints as (null); a precision cuts the string, a width pads it. */
  function FmtStr(value: Option<string>, width: nat, precision: int, minus: bool): string {
    var s := if value.Some? then value.value else "(null)";
    var t := if precision == -1 || |s| <= precision || precision < 0 then s else s[..precision];
    var pad := Repeat(' ', Max(width - |t|, 0));
    if minus then t + pad else pad + t
  }

  // ----- arguments and directives -----

  /** An argument: an integer register, which pointers and characters are too, or a string. */
  datatype Arg = Int(v: int) | Str(s: Option<string>)

  /** What va_arg reads; an argument that is missing or of the other kind reads as 0 or as a null pointer. */
  function IntAt(args: seq<Arg>, k: nat): int {
    if k < |args| && args[k].Int? then args[k].v else 0
  }

  function StrAt(args: seq<Arg>, k: nat): Option<string> {
    if k < |args| && args[k].Str? then args[k].s else None
  }

  predicate IsNumeral(c: char) { '0' <= c <= '9' }

  predicate IsFlag(c: char) { c in "-+ #0'" }

  function SetFlag(f: Flags, c: char): Flags {
    if c == '-' then f.(minus := true)
    else if c == '+' then f.(plus := true)
    else if c == ' ' then f.(space := true)
    else if c == '#' then f.(num := true)
    else if c == '0' then f.(zero := true)
    else f.(quote := true)
  }

  /** All flags at the front of a string. */
  function TakeFlags(s: string, f: Flags): (r: (Flags, string))
    ensures |r.1| <= |s|
  {
    if s != "" && IsFlag(s[0]) then TakeFlags(s[1..], SetFlag(f, s[0])) else (f, s)
  }

  /** All decimal digits at the front of a string, unless their number does not fit in an int. */
  function TakeNumber(s: string, n: nat): (r: (Option<nat>, string))
    ensures |r.1| <= |s|
  {
    if s == "" || !IsNumeral(s[0]) then (Some(n), s)
    else
      var d := s[0] as int - '0' as int;
      if n > (INT_MAX - d) / 10 then (None, s) else TakeNumber(s[1..], 10 * n + d)
  }

  datatype Modifier = Plain | Char | Short | Long | LongLong | Size | PtrDiff | IntMax

  /** The length modifier at the front of a string. */
  function TakeModifier(s: string): (r: (Modifier, string))
    ensures |r.1| <= |s|
  {
    if s == "" then (Plain, s)
    else if s[0] == 'h' then (if |s| > 1 && s[1] == 'h' then (Char, s[2..]) else (Short, s[1..]))
    else if s[0] == 'l' then (if |s| > 1 && s[1] == 'l' then (LongLong, s[2..]) else (Long, s[1..]))
    else if s[0] == 'j' then (IntMax, s[1..])
    else if s[0] == 't' then (PtrDiff, s[1..])
    else if s[0] == 'z' then (Size, s[1..])
    else (Plain, s)
  }

  /** The width of the argument that a modifier names. */
  function Bits(m: Modifier): nat {
    match m
    case Plain => 32
    case Char => 8
    case Short => 16
    case Long => 64
    case LongLong => 64
    case Size => 64
    case PtrDiff => 64
    case IntMax => 64
  }

  /** What one conversion prints. */
  function Convert(c: char, f: Flags, width: nat, precision: int, m: Modifier, args: seq<Arg>, k: nat): string {
    if c == 'd' || c == 'i' then
      var v := ToSigned(IntAt(args, k), Bits(m));
      FmtInt(SignOf(v, f), if v < 0 then -v else v, 10, width, precision, f, false)
    else if c == 'u' || c == 'o' || c == 'x' || c == 'X' then
      var base := if c == 'u' then 10 else if c == 'o' then 8 else 16;
      FmtInt("", ToUnsigned(IntAt(args, k), Bits(m)), base, width, precision, f, c == 'X')
    else if c == 'c' then [ToUnsigned(IntAt(args, k), 8) as char]
    else if c == 's' then FmtStr(StrAt(args, k), width, precision, f.minus)
    else if c == 'p' then
      var p := ToUnsigned(IntAt(args, k), 64);
      if p == 0 then FmtStr(Some("(nil)"), width, -1, f.minus)
      else FmtInt("", p, 16, width, precision, f.(num := true), false)
    else if c == '%' then "%"
    else ""
  }

  /** Whether a conversion takes an argument. */
  predicate TakesArg(c: char) { c in "diuoxXcspn" }

  /** What is printed, and whether a width or precision was too large. */
  type Printed = (string, bool)

  function Then(t: string, p: Printed): Printed { (t + p.0, p.1) }

  /** From the length modifier on. */
  function AfterPrecision(s: string, f: Flags, width: nat, precision: int, args: seq<Arg>, k: nat): Printed
    decreases |s|, 2
  {
    var (m, r) := TakeModifier(s);
    AfterModifier(r, f, width, precision, m, args, k)
  }

  /** From the precision on: its digits, which an asterisk replaces by an argument; a negative one counts as none. */
  function AfterPoint(s: string, f: Flags, width: nat, n: nat, args: seq<Arg>, k: nat): Printed
    decreases |s|, 3
  {
    var (p, r) := TakeNumber(s, n);
    if p.None? then ("", true)
    else if r != "" && r[0] == '*' then
      var v := ToSigned(IntAt(args, k), 32);
      AfterPrecision(r[1..], f, width, if v < 0 then -1 else v, args, k + 1)
    else AfterPrecision(r, f, width, p.value, args, k)
  }

  /** From the point on. */
  function AfterWidth(s: string, f: Flags, width: nat, args: seq<Arg>, k: nat): Printed
    decreases |s|, 4
  {
    if s != "" && s[0] == '.' then AfterPoint(s[1..], f, width, 0, args, k)
    else AfterPrecision(s, f, width, -1, args, k)
  }

  /** From the width on: its digits, which an asterisk replaces by an argument. */
  function AfterFlags(s: string, f: Flags, n: nat, args: seq<Arg>, k: nat): Printed
    decreases |s|, 5
  {
    var (w, r) := TakeNumber(s, n);
    if w.None? then ("", true)
    else if r != "" && r[0] == '*' then
      var v := ToSigned(IntAt(args, k), 32);
      if v < 0 then AfterWidth(r[1..], f.(minus := true), -v, args, k + 1) else AfterWidth(r[1..], f, v, args, k + 1)
    else AfterWidth(r, f, w.value, args, k)
  }

  /** The whole output of a format: characters stand for themselves; a directive is flags, a width, a precision, a
      length modifier and a conversion; one that is cut off prints nothing. */
  function Format(s: string, args: seq<Arg>, k: nat): Printed
    decreases |s|, 1
  {
    if s == "" then ("", false)
    else if s[0] != '%' then Then([s[0]], Format(s[1..], args, k))
    else
      var (f, r) := TakeFlags(s[1..], NO_FLAGS);
      AfterFlags(r, f, 0, args, k)
  }

  /** The conversion, and the rest of the format. */
  function AfterModifier(s: string, f: Flags, width: nat, precision: int, m: Modifier, args: seq<Arg>, k: nat): Printed
    decreases |s|, 1
  {
    if s == "" then ("", false)
    else Then(Convert(s[0], f, width, precision, m, args, k), Format(s[1..], args, if TakesArg(s[0]) then k + 1 else k))
  }

  // ----- what C99 asks for, section 7.19.6.1 -----

  /** At least as many digits as the precision, 1 when it is omitted, and none for zero with precision 0; an alternative
      octal form starts with a 0. */
  function C99Digits(u: nat, base: nat, precision: int, f: Flags, caps: bool): string
    requires 2 <= base <= 16
  {
    var ds := if u == 0 then "" else Digits(u, base, caps);
    var z := Repeat('0', Max((if precision < 0 then 1 else precision) - |ds|, 0)) + ds;
    if f.num && base == 8 && (z == "" || z[0] != '0') then "0" + z else z
  }

  /** Sign or prefix and digits, padded to the width: with spaces behind, with zeros in between, or with spaces in
      front. */
  function C99Int(sign: string, u: nat, base: nat, width: nat, precision: int, f: Flags, caps: bool): string
    requires 2 <= base <= 16
  {
    var z := C99Digits(u, base, precision, f, caps);
    var head := sign + Prefix(u, base, f, caps);
    var pad: nat := Max(width - |head| - |z|, 0);
    if f.minus then head + z + Repeat(' ', pad)
    else if f.zero && precision < 0 then head + Repeat('0', pad) + z
    else Repeat(' ', pad) + head + z
  }

  lemma MaxIs(x: int)
    ensures Max(x, 0) >= 0
  {
  }

  lemma PlainLayout(sign: string, u: nat, base: nat, width: nat, precision: int, f: Flags, caps: bool,
                    ds: string, zeros: nat, pre: string, pad: nat)
    requires 2 <= base <= 16 && !f.quote && ds == Digits(u, base, caps) && pre == Prefix(u, base, f, caps)
    requires zeros == Max(RaisedPrecision(precision, u, base, f, |ds|) - |ds|, 0)
    requires pad == Max(width - |sign| - |pre| - zeros - |ds|, 0)
    ensures FmtInt(sign, u, base, width, precision, f, caps) ==
            if f.minus then Layout(0, sign, pre, zeros, ds, pad).Text()
            else if f.zero && precision == -1 then Layout(0, sign, pre, zeros + pad, ds, 0).Text()
            else Layout(pad, sign, pre, zeros, ds, 0).Text()
  {
    hide Digits, Prefix, RaisedPrecision, Layout.Text;
  }

  lemma AskedLayout(sign: string, u: nat, base: nat, width: nat, precision: int, f: Flags, caps: bool,
                    ds: string, zeros: nat, pre: string, pad: nat)
    requires 2 <= base <= 16 && -1 <= precision && pre == Prefix(u, base, f, caps)
    requires C99Digits(u, base, precision, f, caps) == Repeat('0', zeros) + ds
    requires pad == Max(width - |sign| - |pre| - zeros - |ds|, 0)
    ensures var z := Repeat('0', zeros) + ds;
      C99Int(sign, u, base, width, precision, f, caps) ==
      if f.minus then sign + pre + z + Repeat(' ', pad)
      else if f.zero && precision == -1 then sign + pre + Repeat('0', pad) + z
      else Repeat(' ', pad) + (sign + pre) + z
  {
    hide C99Digits, Prefix;
  }

  lemma ZeroAsked(base: nat, precision: int, f: Flags, caps: bool, zeros: nat)
    requires 2 <= base <= 16 && -1 <= precision && (precision != 0 || (f.num && base == 8))
    requires zeros == Max(RaisedPrecision(precision, 0, base, f, 1) - 1, 0)
    ensures C99Digits(0, base, precision, f, caps) == Repeat('0', zeros) + "0"
  {
    hide Digits;
    var m: nat := Max(if precision < 0 then 1 else precision, 0);
    assert m > 0 ==> Repeat('0', m) + "" == Repeat('0', m - 1) + "0";
    assert Repeat('0', 0) + "" == "" && "0" + "" == "0" == Repeat('0', 0) + "0";
  }

  lemma DigitsAsked(u: nat, base: nat, precision: int, f: Flags, caps: bool, ds: string, zeros: nat)
    requires 2 <= base <= 16 && -1 <= precision && (u != 0 || precision != 0 || (f.num && base == 8))
    requires ds == Digits(u, base, caps) && (ds[0] == '0' <==> u == 0) && (u == 0 ==> ds == "0")
    requires zeros == Max(RaisedPrecision(precision, u, base, f, |ds|) - |ds|, 0)
    ensures C99Digits(u, base, precision, f, caps) == Repeat('0', zeros) + ds
  {
    hide Digits;
    if u == 0 {
      hide *;
      ZeroAsked(base, precision, f, caps, zeros);
    } else {
      var m: nat := Max((if precision < 0 then 1 else precision) - |ds|, 0);
      assert Repeat('0', 0) + ds == ds && Repeat('0', 1) + ds == "0" + ds;
      assert m > 0 ==> (Repeat('0', m) + ds)[0] == '0';
    }
  }

  lemma Joined(sign: string, pre: string, zeros: nat, pad: nat, ds: string)
    ensures var z := Repeat('0', zeros) + ds;
      && Layout(0, sign, pre, zeros, ds, pad).Text() == sign + pre + z + Repeat(' ', pad)
      && Layout(0, sign, pre, zeros + pad, ds, 0).Text() == sign + pre + Repeat('0', pad) + z
      && Layout(pad, sign, pre, zeros, ds, 0).Text() == Repeat(' ', pad) + (sign + pre) + z
  {
  }

  lemma FirstDigit(u: nat, base: nat, caps: bool)
    requires 2 <= base <= 16
    ensures (Digits(u, base, caps)[0] == '0' <==> u == 0) && (u == 0 ==> Digits(u, base, caps) == "0")
  {
    DigitsDenote(u, base, caps);
  }

  /** The zeros and digits of a layout are the digits C99 asks for, and the padding is the same. */
  lemma LayoutDigits(sign: string, u: nat, base: nat, width: nat, precision: int, f: Flags, caps: bool)
    requires 2 <= base <= 16 && -1 <= precision && !f.quote && (u != 0 || precision != 0 || (f.num && base == 8))
    ensures FmtInt(sign, u, base, width, precision, f, caps) == C99Int(sign, u, base, width, precision, f, caps)
  {
    var ds := Digits(u, base, caps);
    var p := RaisedPrecision(precision, u, base, f, |ds|);
    var zeros: nat := Max(p - |ds|, 0);
    hide *;
    FirstDigit(u, base, caps);
    MaxIs(p - |ds|);
    DigitsAsked(u, base, precision, f, caps, ds, zeros);
    var pre := Prefix(u, base, f, caps);
    var pad: nat := Max(width - |sign| - |pre| - zeros - |ds|, 0);
    PlainLayout(sign, u, base, width, precision, f, caps, ds, zeros, pre, pad);
    AskedLayout(sign, u, base, width, precision, f, caps, ds, zeros, pre, pad);
    Joined(sign, pre, zeros, pad, ds);
  }

  /** For zero with precision 0 C99 asks for no digit at all, and fmtint prints one. */
  lemma NoZeroAsked(sign: string, base: nat, width: nat, f: Flags, caps: bool)
    requires 2 <= base <= 16 && !(f.num && base == 8) && '0' !in sign
    ensures '0' !in C99Int(sign, 0, base, width, 0, f, caps)
  {
    assert C99Digits(0, base, 0, f, caps) == "";
  }

  lemma ZeroPrinted(sign: string, base: nat, width: nat, f: Flags, caps: bool)
    requires 2 <= base <= 16 && !f.quote
    ensures '0' in FmtInt(sign, 0, base, width, 0, f, caps)
  {
    var l := LayoutOf(sign, 0, base, width, 0, f, caps);
    FirstDigit(0, base, caps);
    assert l.body == "0";
    hide LayoutOf, Digits;
    assert l.Text()[l.lead + |l.sign| + |l.prefix| + l.zeros] == '0';
  }

  /** fmtint prints what C99 asks for, for every number, base, width, precision and flags, exactly unless the number and
      the precision are both 0; the alternative octal form is right even then. */
  lemma ZeroPrecisionZero(sign: string, u: nat, base: nat, width: nat, precision: int, f: Flags, caps: bool)
    requires 2 <= base <= 16 && -1 <= precision && !f.quote && '0' !in sign
    ensures FmtInt(sign, u, base, width, precision, f, caps) == C99Int(sign, u, base, width, precision, f, caps) <==>
            !(u == 0 && precision == 0) || (f.num && base == 8)
  {
    if u == 0 && precision == 0 && !(f.num && base == 8) {
      NoZeroAsked(sign, base, width, f, caps);
      ZeroPrinted(sign, base, width, f, caps);
    } else {
      LayoutDigits(sign, u, base, width, precision, f, caps);
    }
  }

  /** A character is to be padded to the width with spaces. */
  function C99Char(c: char, width: nat, minus: bool): string {
    var pad := Repeat(' ', Max(width - 1, 0));
    if minus then [c] + pad else pad + [c]
  }

  /** It is printed as asked exactly when the width is at most 1. */
  lemma CharIgnoresWidth(f: Flags, width: nat, precision: int, m: Modifier, args: seq<Arg>, k: nat)
    ensures var c := ToUnsigned(IntAt(args, k), 8) as char;
      Convert('c', f, width, precision, m, args, k) == C99Char(c, width, f.minus) <==> width <= 1
  {
    PowersOfTwo();
    var c := ToUnsigned(IntAt(args, k), 8) as char;
    assert Convert('c', f, width, precision, m, args, k) == [c];
    assert |C99Char(c, width, f.minus)| == Max(width, 1);
    assert width <= 1 ==> [c] + Repeat(' ', 0) == [c] == Repeat(' ', 0) + [c];
  }
}
