/** What the directives of a format print, in the characters, bases and widths of section 7.19.6.1 of C99. */
module Directives {
  import opened Common
  import opened FormatSpec
  import opened Strtoull

  /** Decimal digits whose number fits in an int. */
  predicate Number(ds: string) {
    AllDigits(ds, 10) && ValueOf(ds, 10) <= 0x7FFF_FFFF
  }

  /** Everything between the % and the conversion, as it is written. */
  datatype Directive = Directive(flags: string, width: string, precision: Option<string>, modifier: string) {
    ghost predicate WellFormed() {
      && (forall c :: c in flags ==> c in "-+ #0'")
      && Number(width) && (width != "" ==> width[0] != '0') && (precision.Some? ==> Number(precision.value))
      && (modifier in ["", "hh", "h", "l", "ll", "j", "t", "z"])
    }

    /** The width or 0, and the precision or -1. */
    function Width(): nat { ValueOf(width, 10) }

    function Precision(): int {
      if precision.None? then -1 else ValueOf(precision.value, 10)
    }

    function Flags(): Flags {
      FormatSpec.Flags('-' in flags, '+' in flags, ' ' in flags, '#' in flags, '0' in flags, '\'' in flags)
    }

    /** The type the argument is converted to has so many values. */
    function Range(): (r: nat)
      ensures 0 < r <= 0x1_0000_0000_0000_0000
    {
      if modifier == "hh" then 0x100
      else if modifier == "h" then 0x1_0000
      else if modifier == "" then 0x1_0000_0000
      else 0x1_0000_0000_0000_0000
    }

    function Modifier(): Modifier {
      match modifier
      case "hh" => Char
      case "h" => Short
      case "l" => Long
      case "ll" => LongLong
      case "j" => IntMax
      case "t" => PtrDiff
      case "z" => Size
      case _ => Plain
    }

    function Head(): string {
      flags + (width + ((if precision.None? then "" else "." + precision.value) + modifier))
    }
  }

  /** A directive with its conversion. */
  function Written(d: Directive, c: char): string {
    "%" + (d.Head() + [c])
  }

  /** Characters that end a directive. */
  predicate Ends(c: char) {
    c !in "-+ #0'123456789.*hljtz"
  }

  function Joined(f: Flags, fs: string): Flags {
    Flags(f.minus || '-' in fs, f.plus || '+' in fs, f.space || ' ' in fs, f.num || '#' in fs, f.zero || '0' in fs,
          f.quote || '\'' in fs)
  }

  lemma InFirst(c: char, s: string)
    requires s != ""
    ensures c in s <==> c == s[0] || c in s[1..]
  {
  }

  lemma JoinedIs(f: Flags, fs: string)
    ensures var j := Joined(f, fs);
      && j.minus == (f.minus || '-' in fs) && j.plus == (f.plus || '+' in fs) && j.space == (f.space || ' ' in fs)
      && j.num == (f.num || '#' in fs) && j.zero == (f.zero || '0' in fs) && j.quote == (f.quote || '\'' in fs)
  {
  }

  lemma FlagIs(c: char)
    ensures c in "-+ #0'" <==> c == '-' || c == '+' || c == ' ' || c == '#' || c == '0' || c == '\''
  {
  }

  lemma SetFlagIs(f: Flags, c: char)
    requires c == '-' || c == '+' || c == ' ' || c == '#' || c == '0' || c == '\''
    ensures var g := SetFlag(f, c);
      && g.minus == (f.minus || c == '-') && g.plus == (f.plus || c == '+') && g.space == (f.space || c == ' ')
      && g.num == (f.num || c == '#') && g.zero == (f.zero || c == '0') && g.quote == (f.quote || c == '\'')
  {
  }

  lemma JoinedFirst(f: Flags, fs: string)
    requires fs != ""
    requires var c := fs[0]; c == '-' || c == '+' || c == ' ' || c == '#' || c == '0' || c == '\''
    ensures Joined(f, fs) == Joined(SetFlag(f, fs[0]), fs[1..])
  {
    hide *;
    JoinedIs(f, fs);
    SetFlagIs(f, fs[0]);
    JoinedIs(SetFlag(f, fs[0]), fs[1..]);
    InFirst('-', fs);
    InFirst('+', fs);
    InFirst(' ', fs);
    InFirst('#', fs);
    InFirst('0', fs);
    InFirst('\'', fs);
  }

  /** All flags in front are taken, in any order and number. */
  lemma {:induction false} FlagsTaken(fs: string, rest: string, f: Flags)
    requires (forall c :: c in fs ==> c in "-+ #0'") && (rest == "" || !IsFlag(rest[0]))
    ensures TakeFlags(fs + rest, f) == (Joined(f, fs), rest)
    decreases |fs|
  {
    if fs == "" {
      assert fs + rest == rest;
    } else {
      assert fs[0] in fs && (fs + rest)[1..] == fs[1..] + rest && (fs + rest)[0] == fs[0];
      FlagIs(fs[0]);
      JoinedFirst(f, fs);
      hide SetFlag, Joined;
      FlagsTaken(fs[1..], rest, SetFlag(f, fs[0]));
    }
  }

  lemma NumeralIs(c: char)
    ensures IsNumeral(c) <==> IsDigitIn(c, 10)
    ensures IsNumeral(c) ==> DigitOf(c) == Some(c as int - '0' as int)
  {
  }

  lemma NumberStep(s: string, n: nat)
    ensures s == "" || !IsNumeral(s[0]) ==> TakeNumber(s, n) == (Some(n), s)
    ensures s != "" && IsNumeral(s[0]) ==>
              var v := n * 10 + (s[0] as int - '0' as int);
              TakeNumber(s, n) == if v > 0x7FFF_FFFF then (None, s) else TakeNumber(s[1..], v)
  {
  }

  lemma PartsAreDigits(pre: string, ds: string)
    requires AllDigits(pre + ds, 10) && ds != ""
    ensures AllDigits(pre, 10) && IsDigitIn(ds[0], 10)
  {
    assert (pre + ds)[|pre|] == ds[0];
    assert forall c :: c in pre ==> c in pre + ds;
  }

  /** A number in front is taken with its value, or refused when that does not fit in an int. */
  lemma {:induction false} NumberTaken(pre: string, ds: string, rest: string)
    requires AllDigits(pre + ds, 10) && (rest == "" || !IsNumeral(rest[0])) && ValueOf(pre, 10) <= 0x7FFF_FFFF
    ensures var v := ValueOf(pre + ds, 10);
      if v <= 0x7FFF_FFFF then TakeNumber(ds + rest, ValueOf(pre, 10)) == (Some(v), rest)
      else TakeNumber(ds + rest, ValueOf(pre, 10)).0 == None
    decreases |ds|
  {
    hide TakeNumber, ValueOf, AllDigits, IsDigitIn, IsNumeral, DigitOf;
    var n := ValueOf(pre, 10);
    NumberStep(ds + rest, n);
    if ds == "" {
      assert ds + rest == rest && pre + ds == pre;
    } else {
      var c := ds[0];
      var more := pre + [c];
      assert (ds + rest)[1..] == ds[1..] + rest && (ds + rest)[0] == c && more + ds[1..] == pre + ds;
      PartsAreDigits(pre, ds);
      NumeralIs(c);
      AppendDigit(pre, c, 10);
      assert (pre + ds)[..|more|] == more;
      ValueGrows(pre + ds, |more|, 10);
      if ValueOf(more, 10) <= 0x7FFF_FFFF {
        NumberTaken(more, ds[1..], rest);
      }
    }
  }

  /** What may follow a directive's modifier: its conversion, or nothing in a format that is cut off. */
  predicate Tail(t: string) {
    t == "" || Ends(t[0])
  }

  lemma ModifierTaken(d: Directive, t: string)
    requires d.WellFormed() && Tail(t)
    ensures TakeModifier(d.modifier + t) == (d.Modifier(), t)
  {
    hide ValueOf, AllDigits;
    var m := d.modifier;
    var w := m + t;
    if |m| > 0 {
      assert w[0] == m[0] && w[1..] == m[1..] + t;
    } else {
      assert w == t;
    }
    if |m| == 2 {
      assert w[1] == m[1] && w[2..] == t;
    } else if |m| == 1 {
      assert w[1..] == t && (t != "" ==> w[1] == t[0]);
    }
  }

  lemma NotAFlag(c: char)
    ensures Ends(c) ==> !IsFlag(c) && !IsNumeral(c) && c != '.' && c != '*'
    ensures c in ".hljtz" ==> !IsFlag(c) && !IsNumeral(c) && c != '*'
    ensures c in "hljtz" ==> c != '.'
    ensures IsDigitIn(c, 10) && c != '0' ==> !IsFlag(c)
    ensures IsDigitIn(c, 10) ==> c != '*'
  {
  }

  /** What follows the precision, and what follows the width. */
  function Rest1(d: Directive, t: string): string { d.modifier + t }

  function Rest2(d: Directive, t: string): string {
    (if d.precision.None? then "" else "." + d.precision.value) + Rest1(d, t)
  }

  lemma HeadIs(d: Directive, t: string)
    ensures "%" + (d.Head() + t) == "%" + (d.flags + (d.width + Rest2(d, t)))
  {
  }

  lemma FirstOf(a: string, b: string)
    ensures a + b == "" <==> a == "" && b == ""
    ensures a + b != "" ==> (a + b)[0] == if a == "" then b[0] else a[0]
  {
  }

  lemma FirstModifier(d: Directive, t: string)
    requires d.WellFormed() && Tail(t)
    ensures var r := Rest1(d, t); r == "" || (!IsFlag(r[0]) && !IsNumeral(r[0]) && r[0] != '.' && r[0] != '*')
  {
    FirstOf(d.modifier, t);
    if Rest1(d, t) != "" {
      NotAFlag(if d.modifier == "" then t[0] else d.modifier[0]);
    }
    hide ValueOf, AllDigits, IsFlag, IsNumeral, IsDigitIn;
    assert d.modifier != "" ==> d.modifier[0] in "hljtz";
  }

  lemma Rest2Is(d: Directive, t: string)
    ensures d.precision.None? ==> Rest2(d, t) == Rest1(d, t)
    ensures d.precision.Some? ==>
              var r := Rest2(d, t); r != "" && r[0] == '.' && r[1..] == d.precision.value + Rest1(d, t)
  {
    hide Rest1;
    assert "" + Rest1(d, t) == Rest1(d, t);
    if d.precision.Some? {
      assert Rest2(d, t) == "." + d.precision.value + Rest1(d, t);
    }
  }

  lemma FirstPoint(d: Directive, t: string)
    requires d.WellFormed() && Tail(t)
    ensures var r := Rest2(d, t);
      r == "" || (!IsFlag(r[0]) && !IsNumeral(r[0]) && r[0] != '*' && (r[0] == '.' <==> d.precision.Some?))
  {
    hide *;
    Rest2Is(d, t);
    FirstModifier(d, t);
    NotAFlag('.');
  }

  lemma WellFormedIs(d: Directive)
    requires d.WellFormed()
    ensures Number(d.width) && AllDigits(d.width, 10) && ValueOf(d.width, 10) <= 0x7FFF_FFFF
    ensures d.Width() == ValueOf(d.width, 10) && (forall c :: c in d.flags ==> c in "-+ #0'")
    ensures (d.width != "" ==> d.width[0] != '0') && (d.precision.None? ==> d.Precision() == -1)
    ensures d.precision.Some? ==>
              var p := d.precision.value; AllDigits(p, 10) && d.Precision() == ValueOf(p, 10) <= 0x7FFF_FFFF
  {
    hide ValueOf, AllDigits;
  }

  lemma FirstWidth(d: Directive, t: string)
    requires d.WellFormed() && Tail(t)
    ensures var r := d.width + Rest2(d, t); r == "" || !IsFlag(r[0])
  {
    hide *;
    FirstPoint(d, t);
    FirstOf(d.width, Rest2(d, t));
    WellFormedIs(d);
    if d.width != "" {
      DigitAt(d.width, 10);
      NotAFlag(d.width[0]);
    }
  }

  lemma Rest1Is(d: Directive, t: string)
    ensures Rest1(d, t) == d.modifier + t
  {
  }

  lemma ModifierStep(s: string, t: string, m: Modifier, f: Flags, width: nat, precision: int, args: seq<Arg>, k: nat)
    requires TakeModifier(s) == (m, t)
    ensures AfterPrecision(s, f, width, precision, args, k) == AfterModifier(t, f, width, precision, m, args, k)
  {
    hide TakeModifier, AfterModifier;
  }

  lemma PointStep(s: string, p: string, r: string, f: Flags, width: nat, args: seq<Arg>, k: nat)
    requires s != "" && s[0] == '.' && s[1..] == p + r && (r == "" || r[0] != '*')
    requires TakeNumber(p + r, 0) == (Some(ValueOf(p, 10)), r)
    ensures AfterWidth(s, f, width, args, k) == AfterPrecision(r, f, width, ValueOf(p, 10), args, k)
  {
    hide TakeNumber, AfterPrecision, ValueOf;
  }

  lemma NoPointStep(s: string, f: Flags, width: nat, args: seq<Arg>, k: nat)
    requires s == "" || s[0] != '.'
    ensures AfterWidth(s, f, width, args, k) == AfterPrecision(s, f, width, -1, args, k)
  {
    hide AfterPrecision;
  }

  lemma PrecisionRead(d: Directive, t: string, f: Flags, width: nat, args: seq<Arg>, k: nat)
    requires d.WellFormed() && Tail(t)
    ensures AfterWidth(Rest2(d, t), f, width, args, k)
         == AfterModifier(t, f, width, d.Precision(), d.Modifier(), args, k)
  {
    hide *;
    FirstModifier(d, t);
    FirstPoint(d, t);
    Rest2Is(d, t);
    WellFormedIs(d);
    ModifierTaken(d, t);
    var r := Rest1(d, t);
    Rest1Is(d, t);
    ModifierStep(r, t, d.Modifier(), f, width, d.Precision(), args, k);
    if d.precision.Some? {
      var p := d.precision.value;
      assert "" + p == p;
      NoDigits(10);
      NumberTaken("", p, r);
      PointStep(Rest2(d, t), p, r, f, width, args, k);
    } else {
      NoPointStep(r, f, width, args, k);
    }
  }

  lemma WidthStep(s: string, w: string, r: string, f: Flags, args: seq<Arg>, k: nat)
    requires s == w + r && (r == "" || r[0] != '*') && TakeNumber(s, 0) == (Some(ValueOf(w, 10)), r)
    ensures AfterFlags(s, f, 0, args, k) == AfterWidth(r, f, ValueOf(w, 10), args, k)
  {
    hide TakeNumber, AfterWidth, ValueOf;
  }

  lemma FormatStep(s: string, fs: string, r: string, f: Flags, args: seq<Arg>, k: nat)
    requires s == "%" + (fs + r) && TakeFlags(fs + r, NO_FLAGS) == (f, r)
    ensures Format(s, args, k) == AfterFlags(r, f, 0, args, k)
  {
    hide TakeFlags, AfterFlags;
    assert s[1..] == fs + r;
  }

  lemma FlagsAre(d: Directive)
    ensures Joined(NO_FLAGS, d.flags) == d.Flags()
  {
  }

  lemma HeadRead(d: Directive, t: string, args: seq<Arg>, k: nat)
    requires d.WellFormed() && Tail(t)
    ensures Format("%" + (d.Head() + t), args, k)
         == AfterModifier(t, d.Flags(), d.Width(), d.Precision(), d.Modifier(), args, k)
  {
    hide *;
    var r2 := Rest2(d, t);
    HeadIs(d, t);
    WellFormedIs(d);
    FirstPoint(d, t);
    FirstWidth(d, t);
    FlagsTaken(d.flags, d.width + r2, NO_FLAGS);
    FlagsAre(d);
    FormatStep("%" + (d.Head() + t), d.flags, d.width + r2, d.Flags(), args, k);
    NoDigits(10);
    assert "" + d.width == d.width;
    NumberTaken("", d.width, r2);
    WidthStep(d.width + r2, d.width, r2, d.Flags(), args, k);
    PrecisionRead(d, t, d.Flags(), d.Width(), args, k);
  }

  lemma ConversionStep(t: string, f: Flags, width: nat, precision: int, m: Modifier, args: seq<Arg>, k: nat)
    ensures AfterModifier(t, f, width, precision, m, args, k) ==
            if t == "" then ("", false)
            else Then(Convert(t[0], f, width, precision, m, args, k),
                      Format(t[1..], args, if TakesArg(t[0]) then k + 1 else k))
  {
    hide Convert, TakesArg, Format;
  }

  lemma WrittenIs(d: Directive, c: char, rest: string)
    ensures var t := [c] + rest; Written(d, c) + rest == "%" + (d.Head() + t) && t[0] == c && t[1..] == rest
    ensures Ends(c) ==> Tail([c] + rest)
  {
    hide Ends;
  }

  /** A directive is read as it is written: its flags in any order, its width and precision in decimal, its modifier,
      and then the conversion and the rest of the format. */
  lemma DirectiveRead(d: Directive, c: char, rest: string, args: seq<Arg>, k: nat)
    requires d.WellFormed() && Ends(c)
    ensures Format(Written(d, c) + rest, args, k)
         == Then(Convert(c, d.Flags(), d.Width(), d.Precision(), d.Modifier(), args, k),
                 Format(rest, args, if TakesArg(c) then k + 1 else k))
  {
    hide *;
    WrittenIs(d, c, rest);
    HeadRead(d, [c] + rest, args, k);
    ConversionStep([c] + rest, d.Flags(), d.Width(), d.Precision(), d.Modifier(), args, k);
  }

  /** A format that ends within a directive prints nothing for it. */
  lemma CutOff(d: Directive, args: seq<Arg>, k: nat)
    requires d.WellFormed()
    ensures Format("%" + d.Head(), args, k) == ("", false)
  {
    HeadRead(d, "", args, k);
    hide Directive.Head;
    assert d.Head() + "" == d.Head();
    ConversionStep("", d.Flags(), d.Width(), d.Precision(), d.Modifier(), args, k);
  }

  // ----- what is printed -----

  /** The text of one directive alone. */
  function Output(d: Directive, c: char, args: seq<Arg>, k: nat): string {
    Format(Written(d, c), args, k).0
  }

  lemma OutputIs(d: Directive, c: char, args: seq<Arg>, k: nat)
    requires d.WellFormed() && Ends(c)
    ensures Output(d, c, args, k) == Convert(c, d.Flags(), d.Width(), d.Precision(), d.Modifier(), args, k)
  {
    DirectiveRead(d, c, "", args, k);
    assert Written(d, c) + "" == Written(d, c);
    hide Convert, Written;
    var t := Convert(c, d.Flags(), d.Width(), d.Precision(), d.Modifier(), args, k);
    assert t + "" == t;
  }

  lemma TakersAre(c: char)
    ensures TakesArg(c) <==> c in "diuoxXcspn"
  {
  }

  /** Texts and arguments follow one another: a directive prints its own text and leaves the next argument to the
      rest, and so does one that takes no argument, with the same one. */
  lemma OneAfterAnother(d: Directive, c: char, rest: string, args: seq<Arg>, k: nat)
    requires d.WellFormed() && Ends(c)
    ensures var r := Format(rest, args, if c in "diuoxXcspn" then k + 1 else k);
      Format(Written(d, c) + rest, args, k) == (Output(d, c, args, k) + r.0, r.1)
  {
    OutputIs(d, c, args, k);
    DirectiveRead(d, c, rest, args, k);
    TakersAre(c);
    hide Convert, Written, Output, Format, TakesArg;
  }

  lemma CharStep(s: string, args: seq<Arg>, k: nat)
    requires s != "" && s[0] != '%'
    ensures Format(s, args, k) == Then([s[0]], Format(s[1..], args, k))
  {
  }

  /** Other characters stand for themselves. */
  lemma {:induction false} PlainText(s: string, rest: string, args: seq<Arg>, k: nat)
    requires '%' !in s
    ensures var r := Format(rest, args, k); Format(s + rest, args, k) == (s + r.0, r.1)
    decreases |s|
  {
    var r := Format(rest, args, k);
    if s == "" {
      assert s + rest == rest && "" + r.0 == r.0;
    } else {
      PlainText(s[1..], rest, args, k);
      assert s[0] in s && (s + rest)[1..] == s[1..] + rest;
      CharStep(s + rest, args, k);
      hide Format;
      assert [s[0]] + (s[1..] + r.0) == s + r.0;
    }
  }

  function Laid(lead: nat, sign: string, prefix: string, ds: string, trail: nat): string {
    Repeat(' ', lead) + sign + prefix + ds + Repeat(' ', trail)
  }

  predicate LettersIn(ds: string, caps: bool) {
    forall c :: c in ds ==> if caps then !('a' <= c <= 'z') else !('A' <= c <= 'Z')
  }

  /** Sign, prefix and digits that denote the number, among spaces: none in front with the flag -, none behind without
      it, at least as many digits as the precision, and spaces only as far as the width asks for them. */
  ghost predicate Shows(text: string, d: Directive, sign: string, prefix: string, base: nat, v: nat, caps: bool) {
    exists lead, ds, trail ::
      && text == Laid(lead, sign, prefix, ds, trail) && ds != "" && AllDigits(ds, base) && ValueOf(ds, base) == v
      && LettersIn(ds, caps) && |ds| >= d.Precision() && |text| >= d.Width()
      && (lead + trail > 0 ==> |text| == d.Width()) && (if '-' in d.flags then lead == 0 else trail == 0)
  }

  lemma {:induction false} DigitLetters(v: nat, base: nat, caps: bool)
    requires 2 <= base <= 36
    ensures LettersIn(Digits(v, base, caps), caps)
    decreases v
  {
    var q, e := v / base, v % base;
    DivMod(v, base, q, e);
    DigitsStep(v, base, caps, q, e);
    if v >= base {
      DigitLetters(q, base, caps);
    }
    hide Digits;
  }

  lemma LayoutParts(sign: string, v: nat, base: nat, width: nat, precision: int, f: Flags, caps: bool)
    requires 2 <= base <= 16 && -1 <= precision && !f.quote
    ensures var l := LayoutOf(sign, v, base, width, precision, f, caps);
      var n := |sign| + |l.prefix| + l.zeros + |l.body|;
      && l.sign == sign && l.body == Digits(v, base, caps) && l.prefix == Prefix(v, base, f, caps)
      && l.zeros + |l.body| >= precision && l.lead + n + l.trail >= width
      && (l.lead + l.trail > 0 ==> l.lead + n + l.trail == width)
      && (if f.minus then l.lead == 0 else l.trail == 0)
  {
    hide Digits, Prefix;
  }

  lemma LaidText(l: Layout)
    ensures l.Text() == Laid(l.lead, l.sign, l.prefix, Repeat('0', l.zeros) + l.body, l.trail)
    ensures |l.Text()| == l.lead + |l.sign| + |l.prefix| + l.zeros + |l.body| + l.trail
  {
    hide Repeat;
    TextLength(l);
  }

  lemma ZeroLetters(n: nat, ds: string, caps: bool)
    requires LettersIn(ds, caps)
    ensures LettersIn(Repeat('0', n) + ds, caps)
  {
  }

  lemma FmtIntIs(sign: string, v: nat, base: nat, width: nat, precision: int, f: Flags, caps: bool)
    requires 2 <= base <= 16
    ensures FmtInt(sign, v, base, width, precision, f, caps)
         == LayoutOf(sign, v, base, width, precision, f, caps).Text()
  {
    hide LayoutOf, Layout.Text;
  }

  lemma ShowsText(text: string, d: Directive, sign: string, prefix: string, base: nat, v: nat, caps: bool, lead: nat,
                  ds: string, trail: nat)
    requires text == Laid(lead, sign, prefix, ds, trail) && ds != "" && AllDigits(ds, base) && ValueOf(ds, base) == v
    requires LettersIn(ds, caps) && |ds| >= d.Precision() && |text| >= d.Width()
    requires lead + trail > 0 ==> |text| == d.Width()
    requires if '-' in d.flags then lead == 0 else trail == 0
    ensures Shows(text, d, sign, prefix, base, v, caps)
  {
    hide Laid, AllDigits, ValueOf, LettersIn;
  }

  lemma ShowsInt(d: Directive, sign: string, v: nat, base: nat, caps: bool, f: Flags)
    requires d.WellFormed() && 2 <= base <= 16 && !f.quote && (f.minus <==> '-' in d.flags)
    ensures Shows(FmtInt(sign, v, base, d.Width(), d.Precision(), f, caps), d, sign, Prefix(v, base, f, caps), base, v,
                  caps)
  {
    var l := LayoutOf(sign, v, base, d.Width(), d.Precision(), f, caps);
    var ds := Repeat('0', l.zeros) + l.body;
    hide *;
    WellFormedIs(d);
    FmtIntIs(sign, v, base, d.Width(), d.Precision(), f, caps);
    LayoutParts(sign, v, base, d.Width(), d.Precision(), f, caps);
    LaidText(l);
    DigitsDenote(v, base, caps);
    ZerosInFront(l.zeros, l.body, base);
    DigitLetters(v, base, caps);
    ZeroLetters(l.zeros, l.body, caps);
    ShowsText(l.Text(), d, sign, l.prefix, base, v, caps, l.lead, ds, l.trail);
  }

  lemma RangeIs(d: Directive)
    requires d.WellFormed()
    ensures TwoTo(Bits(d.Modifier())) == d.Range()
  {
    PowersOfTwo();
    hide TwoTo, ValueOf, AllDigits;
  }

  /** Where a text stands, spaces follow or nothing does. */
  ghost predicate ReadsAs(text: string, base: nat, v: nat) {
    exists e: nat ::
      Parse(text, base) == Parsed(v, Some(e)) && e <= |text| && forall i :: e <= i < |text| ==> text[i] == ' '
  }

  lemma ConvertUnsigned(c: char, base: nat, f: Flags, width: nat, precision: int, m: Modifier, x: int, n: nat,
                        args: seq<Arg>, k: nat)
    requires k < |args| && args[k] == Int(x) && n == TwoTo(Bits(m))
    requires (c == 'u' && base == 10) || (c == 'o' && base == 8) || ((c == 'x' || c == 'X') && base == 16)
    ensures Convert(c, f, width, precision, m, args, k) == FmtInt("", x % n, base, width, precision, f, c == 'X')
  {
    hide FmtInt, FmtStr, Bits, ToSigned, SignOf, TwoTo;
  }

  lemma EndsIs(c: char)
    ensures (c == 'd' || c == 'i' || c == 'u' || c == 'o' || c == 'x' || c == 'X') ==> Ends(c)
    ensures (c == 'c' || c == 's' || c == 'p' || c == '%') ==> Ends(c)
  {
  }

  lemma OutputUnsigned(d: Directive, c: char, base: nat, x: int, args: seq<Arg>, k: nat)
    requires d.WellFormed() && k < |args| && args[k] == Int(x)
    requires (c == 'u' && base == 10) || (c == 'o' && base == 8) || ((c == 'x' || c == 'X') && base == 16)
    ensures Output(d, c, args, k)
         == FmtInt("", x % d.Range(), base, d.Width(), d.Precision(), d.Flags(), c == 'X')
  {
    hide *;
    EndsIs(c);
    OutputIs(d, c, args, k);
    RangeIs(d);
    ConvertUnsigned(c, base, d.Flags(), d.Width(), d.Precision(), d.Modifier(), x, d.Range(), args, k);
  }

  lemma FlagsIs(d: Directive)
    ensures var f := d.Flags();
      && f.minus == ('-' in d.flags) && f.plus == ('+' in d.flags) && f.space == (' ' in d.flags)
      && f.num == ('#' in d.flags) && f.zero == ('0' in d.flags) && f.quote == ('\'' in d.flags)
  {
  }

  lemma PrefixIs(v: nat, base: nat, f: Flags, caps: bool)
    ensures Prefix(v, base, f, caps) == if f.num && v > 0 && base == 16 then (if caps then "0X" else "0x") else ""
  {
  }

  /** %u, %o, %x and %X print their argument, taken modulo the size of its type, in base 10, 8 and 16, with upper-case
      letters for X only and the prefix for # and a nonzero hexadecimal number. */
  lemma UnsignedShown(d: Directive, c: char, base: nat, x: int, args: seq<Arg>, k: nat)
    requires d.WellFormed() && '\'' !in d.flags && k < |args| && args[k] == Int(x)
    requires (c == 'u' && base == 10) || (c == 'o' && base == 8) || ((c == 'x' || c == 'X') && base == 16)
    ensures var v := x % d.Range();
      var prefix := if '#' in d.flags && v > 0 && base == 16 then (if c == 'X' then "0X" else "0x") else "";
      Shows(Output(d, c, args, k), d, "", prefix, base, v, c == 'X')
  {
    hide *;
    OutputUnsigned(d, c, base, x, args, k);
    FlagsIs(d);
    PrefixIs(x % d.Range(), base, d.Flags(), c == 'X');
    ShowsInt(d, "", x % d.Range(), base, c == 'X', d.Flags());
  }

  lemma LaidSpaces(lead: nat, prefix: string, ds: string, trail: nat)
    ensures var t := Padded(lead, prefix, ds, trail);
      var e := lead + |prefix| + |ds|;
      e <= |t| && forall i :: e <= i < |t| ==> t[i] == ' '
  {
  }

  lemma ReadsPadded(text: string, lead: nat, prefix: string, ds: string, trail: nat, base: nat, v: nat)
    requires text == Laid(lead, "", prefix, ds, trail) && ds != "" && AllDigits(ds, base) && ValueOf(ds, base) == v
    requires (base == 8 || base == 10 || base == 16) && v < TWO64
    requires prefix == "" || (base == 16 && (prefix == "0x" || prefix == "0X"))
    ensures ReadsAs(text, base, v)
  {
    hide AllDigits, ValueOf, Parse, Repeat;
    assert text == Padded(lead, prefix, ds, trail) by {
      assert Repeat(' ', lead) + "" == Repeat(' ', lead);
    }
    ParsePadded(lead, prefix, ds, trail, base, base);
    LaidSpaces(lead, prefix, ds, trail);
    var e := lead + |prefix| + |ds|;
    assert Parse(text, base) == Parsed(v, Some(e));
  }

  /** And so they read back as that number. */
  lemma UnsignedReadsBack(d: Directive, c: char, base: nat, x: int, args: seq<Arg>, k: nat)
    requires d.WellFormed() && '\'' !in d.flags && k < |args| && args[k] == Int(x)
    requires (c == 'u' && base == 10) || (c == 'o' && base == 8) || ((c == 'x' || c == 'X') && base == 16)
    ensures ReadsAs(Output(d, c, args, k), base, x % d.Range())
  {
    var text, v := Output(d, c, args, k), x % d.Range();
    UnsignedShown(d, c, base, x, args, k);
    var prefix := if '#' in d.flags && v > 0 && base == 16 then (if c == 'X' then "0X" else "0x") else "";
    var lead, ds, trail :|
      text == Laid(lead, "", prefix, ds, trail) && ds != "" && AllDigits(ds, base) && ValueOf(ds, base) == v;
    hide *;
    ReadsPadded(text, lead, prefix, ds, trail, base, v);
  }

  /** s is the argument converted to a signed type of so many values. */
  predicate Converted(s: int, x: int, n: int)
    requires n > 0
  {
    -n <= 2 * s < n && (s - x) % n == 0
  }

  lemma UniqueRemainder(s: int, n: int, a: int, r: int)
    requires n > 0 && s == a * n + r && 0 <= r < n
    ensures s % n == r
  {
    var b := s / n;
    assert (b - a) * n == r - s % n;
    if b > a {
      MulMono(1, b - a, n);
    } else if b < a {
      assert (a - b) * n == s % n - r;
      MulMono(1, a - b, n);
    }
  }

  lemma CongruentIs(s: int, x: int, n: int, q: int)
    requires n > 0 && s - x == q * n
    ensures s % n == x % n
  {
    var a := x / n;
    assert s == (a + q) * n + x % n;
    UniqueRemainder(s, n, a + q, x % n);
  }

  lemma ConvertedIs(s: int, x: int, bits: nat, n: nat)
    requires n == TwoTo(bits) && Converted(s, x, n)
    ensures ToSigned(x, bits) == s
  {
    CongruentIs(s, x, n, (s - x) / n);
    hide TwoTo;
    if s >= 0 {
      UniqueRemainder(s, n, 0, s);
    } else {
      UniqueRemainder(s, n, -1, s + n);
    }
  }

  lemma ConvertSigned(c: char, f: Flags, width: nat, precision: int, m: Modifier, x: int, s: int, args: seq<Arg>,
          k: nat)
    requires k < |args| && args[k] == Int(x) && (c == 'd' || c == 'i') && s == ToSigned(x, Bits(m))
    ensures Convert(c, f, width, precision, m, args, k)
         == FmtInt(SignOf(s, f), if s < 0 then -s else s, 10, width, precision, f, false)
  {
    hide FmtInt, FmtStr, Bits, ToSigned, SignOf;
  }

  lemma OutputSigned(d: Directive, c: char, x: int, s: int, args: seq<Arg>, k: nat)
    requires d.WellFormed() && k < |args| && args[k] == Int(x) && (c == 'd' || c == 'i')
    requires Converted(s, x, d.Range())
    ensures Output(d, c, args, k)
         == FmtInt(SignOf(s, d.Flags()), if s < 0 then -s else s, 10, d.Width(), d.Precision(), d.Flags(), false)
  {
    hide *;
    EndsIs(c);
    OutputIs(d, c, args, k);
    RangeIs(d);
    ConvertedIs(s, x, Bits(d.Modifier()), d.Range());
    ConvertSigned(c, d.Flags(), d.Width(), d.Precision(), d.Modifier(), x, s, args, k);
  }

  lemma SignIs(s: int, f: Flags)
    ensures SignOf(s, f) == if s < 0 then "-" else if f.plus then "+" else if f.space then " " else ""
    ensures Prefix(if s < 0 then -s else s, 10, f, false) == ""
  {
  }

  /** The sign of a signed number: a minus for every negative one, and for the others what the flags ask for. */
  function SignFor(d: Directive, s: int): string {
    if s < 0 then "-" else if '+' in d.flags then "+" else if ' ' in d.flags then " " else ""
  }

  lemma SignForIs(d: Directive, s: int)
    ensures SignFor(d, s) == if s < 0 then "-" else if '+' in d.flags then "+" else if ' ' in d.flags then " " else ""
  {
  }

  /** %d and %i print the two's-complement value of their argument: its sign, and the digits of its magnitude. */
  lemma SignedShown(d: Directive, c: char, x: int, s: int, args: seq<Arg>, k: nat)
    requires d.WellFormed() && '\'' !in d.flags && k < |args| && args[k] == Int(x) && (c == 'd' || c == 'i')
    requires Converted(s, x, d.Range())
    ensures Shows(Output(d, c, args, k), d, SignFor(d, s), "", 10, if s < 0 then -s else s, false)
  {
    hide *;
    OutputSigned(d, c, x, s, args, k);
    FlagsIs(d);
    SignIs(s, d.Flags());
    SignForIs(d, s);
    ShowsInt(d, SignFor(d, s), if s < 0 then -s else s, 10, false, d.Flags());
  }

  lemma SignJoins(lead: nat, sign: string, ds: string, trail: nat)
    ensures sign == "" ==> Laid(lead, sign, "", ds, trail) == Padded(lead, "", ds, trail)
    ensures sign == " " ==> Laid(lead, sign, "", ds, trail) == Padded(lead + 1, "", ds, trail)
    ensures sign == "-" || sign == "+" ==> Laid(lead, sign, "", ds, trail) == Padded(lead, [sign[0]], ds, trail)
  {
    assert Repeat(' ', lead) + " " == Repeat(' ', lead + 1);
    assert Repeat(' ', lead) + "" == Repeat(' ', lead);
    assert "-" == ['-'] && "+" == ['+'];
  }

  lemma ReadsSigned(text: string, lead: nat, sign: string, ds: string, trail: nat, v: int)
    requires text == Laid(lead, sign, "", ds, trail) && ds != "" && AllDigits(ds, 10) && ValueOf(ds, 10) == v < TWO64
    requires sign in ["", " ", "+", "-"]
    ensures ReadsAs(text, 10, (if sign == "-" then -v else v) % 0x1_0000_0000_0000_0000)
  {
    hide AllDigits, ValueOf, Parse, Repeat, Laid, Padded;
    SignJoins(lead, sign, ds, trail);
    SmallWord(v);
    if sign == "" {
      ParsePadded(lead, "", ds, trail, 10, 10);
      LaidSpaces(lead, "", ds, trail);
      assert Parse(text, 10) == Parsed(v, Some(lead + 0 + |ds|));
    } else if sign == " " {
      ParsePadded(lead + 1, "", ds, trail, 10, 10);
      LaidSpaces(lead + 1, "", ds, trail);
      assert Parse(text, 10) == Parsed(v, Some(lead + 1 + 0 + |ds|));
    } else {
      ParseSigned(lead, sign[0], ds, trail, 10);
      LaidSpaces(lead, [sign[0]], ds, trail);
      assert Parse(text, 10).end == Some(lead + 1 + |ds|);
    }
  }

  /** They read back as that value modulo 2^64. */
  lemma SignedReadsBack(d: Directive, c: char, x: int, s: int, args: seq<Arg>, k: nat)
    requires d.WellFormed() && '\'' !in d.flags && k < |args| && args[k] == Int(x) && (c == 'd' || c == 'i')
    requires Converted(s, x, d.Range())
    ensures ReadsAs(Output(d, c, args, k), 10, s % 0x1_0000_0000_0000_0000)
  {
    var text := Output(d, c, args, k);
    SignedShown(d, c, x, s, args, k);
    var v: nat := if s < 0 then -s else s;
    var lead, ds, trail :|
      text == Laid(lead, SignFor(d, s), "", ds, trail) && ds != "" && AllDigits(ds, 10) && ValueOf(ds, 10) == v;
    hide Output, Laid, AllDigits, ValueOf, ReadsAs, Directive.WellFormed, Directive.Range, Shows;
    ReadsSigned(text, lead, SignFor(d, s), ds, trail, v);
  }

  // ----- grouped numbers -----

  /** With the flag ' : sign, prefix, zeros and the grouped digits of the number, among spaces. */
  ghost predicate ShowsGrouped(text: string, sign: string, prefix: string, base: nat, v: nat) {
    exists lead, zeros, g, ds, trail ::
      && text == Laid(lead, sign, prefix, Repeat('0', zeros) + g, trail) && GroupedAs(g, ds)
      && ds != "" && AllDigits(ds, base) && ValueOf(ds, base) == v && (DigitOf(ds[0]) == Some(0) <==> v == 0)
  }

  lemma QuotedLayout(sign: string, v: nat, base: nat, width: nat, precision: int, f: Flags, caps: bool)
    requires 2 <= base <= 16 && f.quote
    ensures var l := LayoutOf(sign, v, base, width, precision, f, caps);
      l.sign == sign && l.prefix == Prefix(v, base, f, caps) && l.body == Group(Digits(v, base, caps))
  {
    hide Digits, Prefix, Group, NumSep;
  }

  lemma GroupedText(text: string, sign: string, prefix: string, base: nat, v: nat, lead: nat, zeros: nat, g: string,
                    ds: string, trail: nat)
    requires text == Laid(lead, sign, prefix, Repeat('0', zeros) + g, trail) && GroupedAs(g, ds)
    requires ds != "" && AllDigits(ds, base) && ValueOf(ds, base) == v && (DigitOf(ds[0]) == Some(0) <==> v == 0)
    ensures ShowsGrouped(text, sign, prefix, base, v)
  {
    hide Laid, Repeat, GroupedAs, AllDigits, ValueOf, DigitOf;
  }

  lemma GroupedInt(sign: string, v: nat, base: nat, width: nat, precision: int, f: Flags, caps: bool)
    requires 2 <= base <= 16 && f.quote
    ensures ShowsGrouped(FmtInt(sign, v, base, width, precision, f, caps), sign, Prefix(v, base, f, caps), base, v)
  {
    hide *;
    var l := LayoutOf(sign, v, base, width, precision, f, caps);
    var ds := Digits(v, base, caps);
    QuotedLayout(sign, v, base, width, precision, f, caps);
    FmtIntIs(sign, v, base, width, precision, f, caps);
    LaidText(l);
    DigitsDenote(v, base, caps);
    GroupPlaces(ds, base);
    GroupedText(l.Text(), sign, l.prefix, base, v, l.lead, l.zeros, Group(ds), ds, l.trail);
  }

  /** The same numbers in groups, signed and unsigned. */
  lemma GroupedShown(d: Directive, c: char, base: nat, x: int, s: int, args: seq<Arg>, k: nat)
    requires d.WellFormed() && '\'' in d.flags && k < |args| && args[k] == Int(x) && Converted(s, x, d.Range())
    requires || ((c == 'u' || c == 'd' || c == 'i') && base == 10)
             || (c == 'o' && base == 8) || ((c == 'x' || c == 'X') && base == 16)
    ensures var v := x % d.Range();
      if c == 'd' || c == 'i' then
        ShowsGrouped(Output(d, c, args, k), SignFor(d, s), "", 10, if s < 0 then -s else s)
      else
        ShowsGrouped(Output(d, c, args, k), "",
          if '#' in d.flags && v > 0 && base == 16 then (if c == 'X' then "0X" else "0x") else "", base, v)
  {
    hide *;
    FlagsIs(d);
    if c == 'd' || c == 'i' {
      OutputSigned(d, c, x, s, args, k);
      SignIs(s, d.Flags());
      SignForIs(d, s);
      GroupedInt(SignFor(d, s), if s < 0 then -s else s, 10, d.Width(), d.Precision(), d.Flags(), false);
    } else {
      OutputUnsigned(d, c, base, x, args, k);
      PrefixIs(x % d.Range(), base, d.Flags(), c == 'X');
      GroupedInt("", x % d.Range(), base, d.Width(), d.Precision(), d.Flags(), c == 'X');
    }
  }

  // ----- the padding that C99 asks for -----

  /** Integers are printed as C99 asks, unless number and precision are both 0; the alternative octal form is right even
      then. */
  lemma UnsignedAsAsked(d: Directive, c: char, base: nat, x: int, args: seq<Arg>, k: nat)
    requires d.WellFormed() && '\'' !in d.flags && k < |args| && args[k] == Int(x)
    requires (c == 'u' && base == 10) || (c == 'o' && base == 8) || ((c == 'x' || c == 'X') && base == 16)
    ensures var v := x % d.Range();
      Output(d, c, args, k) == C99Int("", v, base, d.Width(), d.Precision(), d.Flags(), c == 'X') <==>
      !(v == 0 && d.Precision() == 0) || ('#' in d.flags && c == 'o')
  {
    hide *;
    OutputUnsigned(d, c, base, x, args, k);
    FlagsIs(d);
    WellFormedIs(d);
    ZeroPrecisionZero("", x % d.Range(), base, d.Width(), d.Precision(), d.Flags(), c == 'X');
  }

  lemma SignedAsAsked(d: Directive, c: char, x: int, s: int, args: seq<Arg>, k: nat)
    requires d.WellFormed() && '\'' !in d.flags && k < |args| && args[k] == Int(x) && (c == 'd' || c == 'i')
    requires Converted(s, x, d.Range())
    ensures var v := if s < 0 then -s else s;
      Output(d, c, args, k) == C99Int(SignFor(d, s), v, 10, d.Width(), d.Precision(), d.Flags(), false) <==>
      !(s == 0 && d.Precision() == 0)
  {
    hide *;
    OutputSigned(d, c, x, s, args, k);
    FlagsIs(d);
    WellFormedIs(d);
    SignIs(s, d.Flags());
    SignForIs(d, s);
    assert '0' !in SignFor(d, s);
    ZeroPrecisionZero(SignFor(d, s), if s < 0 then -s else s, 10, d.Width(), d.Precision(), d.Flags(), false);
  }

  // ----- strings, characters, pointers -----

  /** Spaces to the width, behind the text with the flag - and in front without it. */
  ghost predicate Spaced(text: string, d: Directive, shown: string) {
    && (exists pad :: text == if '-' in d.flags then shown + Repeat(' ', pad) else Repeat(' ', pad) + shown)
    && |text| == if |shown| < d.Width() then d.Width() else |shown|
  }

  lemma PaddedIs(text: string, d: Directive, shown: string, pad: nat)
    requires text == if '-' in d.flags then shown + Repeat(' ', pad) else Repeat(' ', pad) + shown
    requires pad == Max(d.Width() - |shown|, 0)
    ensures Spaced(text, d, shown)
  {
    hide Directive.Width;
  }

  lemma StrText(value: Option<string>, width: nat, precision: int, minus: bool)
    ensures var whole := if value.None? then "(null)" else value.value;
      var shown := if 0 <= precision < |whole| then whole[..precision] else whole;
      FmtStr(value, width, precision, minus) ==
      if minus then shown + Repeat(' ', Max(width - |shown|, 0)) else Repeat(' ', Max(width - |shown|, 0)) + shown
  {
    hide Repeat, Max;
  }

  lemma ConvertString(f: Flags, width: nat, precision: int, m: Modifier, s: Option<string>, args: seq<Arg>, k: nat)
    requires k < |args| && args[k] == Str(s)
    ensures Convert('s', f, width, precision, m, args, k) == FmtStr(s, width, precision, f.minus)
  {
    hide FmtInt, FmtStr, Bits, ToSigned, ToUnsigned, SignOf;
  }

  lemma OutputString(d: Directive, s: Option<string>, args: seq<Arg>, k: nat)
    requires d.WellFormed() && k < |args| && args[k] == Str(s)
    ensures Output(d, 's', args, k) == FmtStr(s, d.Width(), d.Precision(), '-' in d.flags)
  {
    hide *;
    EndsIs('s');
    OutputIs(d, 's', args, k);
    FlagsIs(d);
    ConvertString(d.Flags(), d.Width(), d.Precision(), d.Modifier(), s, args, k);
  }

  /** A string, cut to the precision and padded with spaces to the width. */
  lemma StringShown(d: Directive, s: Option<string>, args: seq<Arg>, k: nat)
    requires d.WellFormed() && k < |args| && args[k] == Str(s)
    ensures var whole := if s.None? then "(null)" else s.value;
      Spaced(Output(d, 's', args, k), d, if 0 <= d.Precision() < |whole| then whole[..d.Precision()] else whole)
  {
    hide *;
    OutputString(d, s, args, k);
    StrText(s, d.Width(), d.Precision(), '-' in d.flags);
    var whole := if s.None? then "(null)" else s.value;
    var shown := if 0 <= d.Precision() < |whole| then whole[..d.Precision()] else whole;
    MaxIs(d.Width() - |shown|);
    PaddedIs(Output(d, 's', args, k), d, shown, Max(d.Width() - |shown|, 0));
  }

  lemma ConvertChars(c: char, f: Flags, width: nat, precision: int, m: Modifier, args: seq<Arg>, k: nat)
    ensures Convert('%', f, width, precision, m, args, k) == "%"
    ensures c !in "diuoxXcsp%" ==> Convert(c, f, width, precision, m, args, k) == ""
  {
    hide FmtInt, FmtStr, Bits, ToSigned, ToUnsigned, SignOf;
  }

  lemma ConvertLowByte(f: Flags, width: nat, precision: int, m: Modifier, args: seq<Arg>, k: nat)
    requires k < |args| && args[k].Int?
    ensures Convert('c', f, width, precision, m, args, k) == [(args[k].v % 256) as char]
  {
    PowersOfTwo();
    hide FmtInt, FmtStr, Bits, ToSigned, SignOf, TwoTo;
  }

  /** A character is the argument's lowest eight bits, whatever else the directive says; %% is one percent sign, and any
      conversion that is not known prints nothing. */
  lemma CharShown(d: Directive, c: char, args: seq<Arg>, k: nat)
    requires d.WellFormed() && Ends(c)
    ensures k < |args| && args[k].Int? ==> Output(d, 'c', args, k) == [(args[k].v % 256) as char]
    ensures Output(d, '%', args, k) == "%"
    ensures c !in "diuoxXcsp%" ==> Output(d, c, args, k) == ""
  {
    hide *;
    EndsIs('c');
    EndsIs('%');
    OutputIs(d, 'c', args, k);
    OutputIs(d, '%', args, k);
    OutputIs(d, c, args, k);
    ConvertChars(c, d.Flags(), d.Width(), d.Precision(), d.Modifier(), args, k);
    if k < |args| && args[k].Int? {
      ConvertLowByte(d.Flags(), d.Width(), d.Precision(), d.Modifier(), args, k);
    }
  }

  lemma ConvertPointer(f: Flags, width: nat, precision: int, m: Modifier, x: int, args: seq<Arg>, k: nat)
    requires k < |args| && args[k] == Int(x)
    ensures var v := x % 0x1_0000_0000_0000_0000;
      Convert('p', f, width, precision, m, args, k) ==
      if v == 0 then FmtStr(Some("(nil)"), width, -1, f.minus)
      else FmtInt("", v, 16, width, precision, f.(num := true), false)
  {
    PowersOfTwo();
    hide TwoTo, FmtInt, FmtStr, Bits, ToSigned, SignOf;
  }

  lemma OutputPointer(d: Directive, x: int, args: seq<Arg>, k: nat)
    requires d.WellFormed() && k < |args| && args[k] == Int(x)
    ensures var v := x % 0x1_0000_0000_0000_0000;
      Output(d, 'p', args, k) ==
      if v == 0 then FmtStr(Some("(nil)"), d.Width(), -1, '-' in d.flags)
      else FmtInt("", v, 16, d.Width(), d.Precision(), d.Flags().(num := true), false)
  {
    hide *;
    EndsIs('p');
    OutputIs(d, 'p', args, k);
    FlagsIs(d);
    ConvertPointer(d.Flags(), d.Width(), d.Precision(), d.Modifier(), x, args, k);
  }

  /** A null pointer is shown as (nil), and any other as a hexadecimal number with its prefix. */
  lemma PointerShown(d: Directive, x: int, args: seq<Arg>, k: nat)
    requires d.WellFormed() && '\'' !in d.flags && k < |args| && args[k] == Int(x)
    ensures var v := x % 0x1_0000_0000_0000_0000;
      if v == 0 then Spaced(Output(d, 'p', args, k), d, "(nil)")
      else Shows(Output(d, 'p', args, k), d, "", "0x", 16, v, false)
  {
    hide *;
    OutputPointer(d, x, args, k);
    FlagsIs(d);
    var v := x % 0x1_0000_0000_0000_0000;
    if v == 0 {
      StrText(Some("(nil)"), d.Width(), -1, '-' in d.flags);
      MaxIs(d.Width() - 5);
      PaddedIs(Output(d, 'p', args, k), d, "(nil)", Max(d.Width() - 5, 0));
    } else {
      PrefixIs(v, 16, d.Flags().(num := true), false);
      ShowsInt(d, "", v, 16, false, d.Flags().(num := true));
    }
  }

  // ----- widths and precisions that are arguments, or too large -----

  lemma StarChars(r: string)
    ensures var s := "*.*" + r;
      s != "" && !IsFlag(s[0]) && s[0] == '*' && s[1..] != "" && s[1..][0] == '.' && s[1..][1..] != ""
      && s[1..][1..][0] == '*' && s[1..][1..][1..] == r
  {
    var s := "*.*" + r;
    assert s[1..] == ".*" + r && s[1..][1..] == "*" + r;
  }

  lemma NoModifier(c: char, rest: string)
    requires Ends(c)
    ensures TakeModifier([c] + rest) == (Plain, [c] + rest) && ([c] + rest)[0] == c && ([c] + rest)[1..] == rest
  {
  }

  lemma StarIsNoNumeral()
    ensures !IsNumeral('*')
  {
  }

  lemma WidthStar(s: string, f: Flags, v: int, args: seq<Arg>, k: nat)
    requires s != "" && s[0] == '*' && k < |args| && args[k].Int? && v == ToSigned(args[k].v, 32)
    ensures AfterFlags(s, f, 0, args, k) ==
            if v < 0 then AfterWidth(s[1..], f.(minus := true), -v, args, k + 1)
            else AfterWidth(s[1..], f, v, args, k + 1)
  {
    StarIsNoNumeral();
    NumberStep(s, 0);
    hide TakeNumber, AfterWidth, ToSigned, IsNumeral;
  }

  lemma PointStar(s: string, f: Flags, width: nat, v: int, args: seq<Arg>, k: nat)
    requires |s| > 1 && s[0] == '.' && s[1..] != "" && s[1..][0] == '*'
    requires k < |args| && args[k].Int? && v == ToSigned(args[k].v, 32)
    ensures AfterWidth(s, f, width, args, k)
         == AfterPrecision(s[1..][1..], f, width, if v < 0 then -1 else v, args, k + 1)
  {
    StarIsNoNumeral();
    NumberStep(s[1..], 0);
    hide TakeNumber, AfterPrecision, ToSigned, IsNumeral;
  }

  lemma NoFlags()
    ensures NO_FLAGS == Flags(false, false, false, false, false, false)
  {
  }

  /** Width and precision can be arguments, converted to int, and then come before the argument that is printed; a
      negative width is its magnitude with the flag -, and a negative precision is none. */
  lemma StarsRead(fs: string, c: char, rest: string, width: int, precision: int, args: seq<Arg>, k: nat)
    requires (forall f :: f in fs ==> f in "-+ #0'") && Ends(c)
    requires k + 1 < |args| && args[k].Int? && args[k + 1].Int?
    requires Converted(width, args[k].v, 0x1_0000_0000) && Converted(precision, args[k + 1].v, 0x1_0000_0000)
    ensures var f := Flags('-' in fs || width < 0, '+' in fs, ' ' in fs, '#' in fs, '0' in fs, '\'' in fs);
      Format("%" + (fs + ("*.*" + ([c] + rest))), args, k)
      == Then(Convert(c, f, if width < 0 then -width else width, if precision < 0 then -1 else precision, Plain, args,
                      k + 2),
              Format(rest, args, if c in "diuoxXcspn" then k + 3 else k + 2))
  {
    hide *;
    var r1 := [c] + rest;
    var r2 := "*.*" + r1;
    PowersOfTwo();
    StarChars(r1);
    FlagsTaken(fs, r2, NO_FLAGS);
    JoinedIs(NO_FLAGS, fs);
    NoFlags();
    FormatStep("%" + (fs + r2), fs, r2, Joined(NO_FLAGS, fs), args, k);
    ConvertedIs(width, args[k].v, 32, 0x1_0000_0000);
    ConvertedIs(precision, args[k + 1].v, 32, 0x1_0000_0000);
    WidthStar(r2, Joined(NO_FLAGS, fs), width, args, k);
    var f := if width < 0 then Joined(NO_FLAGS, fs).(minus := true) else Joined(NO_FLAGS, fs);
    var w: nat := if width < 0 then -width else width;
    PointStar(r2[1..], f, w, precision, args, k + 1);
    NoModifier(c, rest);
    TakersAre(c);
    ModifierStep(r1, r1, Plain, f, w, if precision < 0 then -1 else precision, args, k + 2);
    ConversionStep(r1, f, w, if precision < 0 then -1 else precision, Plain, args, k + 2);
  }

  lemma RefusedWidth(s: string, f: Flags, args: seq<Arg>, k: nat)
    requires TakeNumber(s, 0).0 == None
    ensures AfterFlags(s, f, 0, args, k) == ("", true)
  {
    hide TakeNumber, AfterWidth;
  }

  lemma RefusedPrecision(s: string, f: Flags, args: seq<Arg>, k: nat)
    requires s != "" && s[0] == '.' && TakeNumber(s, 0) == (Some(0), s) && TakeNumber(s[1..], 0).0 == None
    ensures AfterFlags(s, f, 0, args, k) == ("", true)
  {
    hide TakeNumber, AfterPrecision;
    assert AfterPoint(s[1..], f, 0, 0, args, k) == ("", true);
    assert AfterWidth(s, f, 0, args, k) == ("", true);
  }

  lemma Pointed(ds: string, rest: string)
    ensures var s := "." + (ds + rest); s[0] == '.' && s[1..] == ds + rest && !IsFlag(s[0]) && !IsNumeral(s[0])
  {
  }

  /** A width or a precision that does not fit in an int ends the output at once, with an error. */
  lemma TooLarge(fs: string, ds: string, point: bool, rest: string, args: seq<Arg>, k: nat)
    requires (forall c :: c in fs ==> c in "-+ #0'") && AllDigits(ds, 10) && ValueOf(ds, 10) > 0x7FFF_FFFF
    requires (rest == "" || !IsNumeral(rest[0])) && (point || ds == "" || ds[0] != '0')
    ensures Format("%" + (fs + (if point then "." + (ds + rest) else ds + rest)), args, k) == ("", true)
  {
    hide *;
    var r := if point then "." + (ds + rest) else ds + rest;
    NoDigits(10);
    assert "" + ds == ds;
    NumberTaken("", ds, rest);
    Pointed(ds, rest);
    DigitAt(ds, 10);
    NotAFlag(ds[0]);
    NumberStep(r, 0);
    FlagsTaken(fs, r, NO_FLAGS);
    FormatStep("%" + (fs + r), fs, r, Joined(NO_FLAGS, fs), args, k);
    if point {
      RefusedPrecision(r, Joined(NO_FLAGS, fs), args, k);
    } else {
      RefusedWidth(r, Joined(NO_FLAGS, fs), args, k);
    }
  }
}
