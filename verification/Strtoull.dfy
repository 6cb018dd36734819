/** strtoull of lv2/src/libc_c.c, and its round trip with the integers that the formatted printer prints. */
module Strtoull {
  import opened Common
  import opened FormatSpec

  const ULLONG_MAX: nat := TWO64 - 1
  /** Error codes come back as the value, converted to the unsigned result type. */
  const EINVAL: nat := TWO64 - 2147418110
  const ERANGE: nat := TWO64 - 2147418084

  /** The value returned and where endptr points; None when endptr is not set. */
  datatype Parsed = Parsed(value: nat, end: Option<nat>)

  predicate IsSpace(c: char) {
    c == ' ' || c == '\U{0C}' || c == '\n' || c == '\r' || c == '\t' || c == '\U{0B}'
  }

  function SkipSpaces(s: string, i: nat): (j: nat)
    requires i <= |s|
    ensures i <= j <= |s| && !IsSpace(At(s, j)) && forall k :: i <= k < j ==> IsSpace(s[k])
    decreases |s| - i
  {
    if i < |s| && IsSpace(s[i]) then SkipSpaces(s, i + 1) else i
  }

  /** The end of the digits from i on. */
  function DigitsEnd(s: string, i: nat, base: nat): (j: nat)
    requires i <= |s|
    ensures i <= j <= |s| && !(j < |s| && IsDigitIn(s[j], base)) && forall k :: i <= k < j ==> IsDigitIn(s[k], base)
    decreases |s| - i
  {
    if i < |s| && IsDigitIn(s[i], base) then DigitsEnd(s, i + 1, base) else i
  }

  predicate HasHexPrefix(s: string, i: nat, base: int) {
    (base == 0 || base == 16) && At(s, i) == '0' && (At(s, i + 1) == 'x' || At(s, i + 1) == 'X')
  }

  /** The base of the number that starts at i. */
  function BaseAt(s: string, i: nat, base: int): int {
    if HasHexPrefix(s, i, base) then 16
    else if base == 0 then (if At(s, i) == '0' then 8 else 10)
    else base
  }

  /** What stands before the digits: whether there is a minus, where the digits start, and their base. */
  datatype Head = Head(neg: bool, start: nat, base: nat)

  function HeadOf(s: string, base: int): (h: Head)
    requires 0 <= base <= 36 && base != 1
    ensures h.start <= |s| && 2 <= h.base <= 36
  {
    var i0 := SkipSpaces(s, 0);
    var neg := At(s, i0) == '-';
    var i1 := if neg || At(s, i0) == '+' then i0 + 1 else i0;
    Head(neg, if HasHexPrefix(s, i1, base) then i1 + 2 else i1, BaseAt(s, i1, base))
  }

  /** strtoull: spaces, a sign, a prefix, and the longest run of digits, read as one number. */
  function Parse(s: string, base: int): Parsed {
    if base < 0 || base == 1 || base > 36 then Parsed(EINVAL, Some(0))
    else
      var h := HeadOf(s, base);
      var j := DigitsEnd(s, h.start, h.base);
      var v := ValueOf(s[h.start..j], h.base);
      if h.start == j then Parsed(0, Some(0))
      else if v > ULLONG_MAX then Parsed(ERANGE, None)
      else Parsed(if h.neg then (TWO64 - v) % TWO64 else v, Some(j))
  }

  lemma OneMoreTimes(a: nat, c: nat)
    ensures (a + 1) * c == a * c + c
  {
  }

  lemma CutoffCases(acc: nat, c: nat, base: nat, q: nat, r: nat, max: nat)
    requires c < base && r < base && q * base + r == max
    ensures (acc > q || (acc == q && c > r)) <==> acc * base + c > max
  {
    if acc > q {
      MulMono(q + 1, acc, base);
      OneMoreTimes(q, base);
    } else if acc < q {
      MulMono(acc + 1, q, base);
      OneMoreTimes(acc, base);
    }
  }

  /** The cutoff test fires exactly when the next digit would take the number past the largest 64-bit value. */
  lemma CutoffExact(acc: nat, c: nat, base: nat)
    requires 2 <= base && c < base
    ensures var cutoff, cutlim := ULLONG_MAX / base, ULLONG_MAX % base;
      (acc > cutoff || (acc == cutoff && c > cutlim)) <==> acc * base + c > ULLONG_MAX
  {
    CutoffCases(acc, c, base, ULLONG_MAX / base, ULLONG_MAX % base, ULLONG_MAX);
  }

  lemma LongerIsLarger(ds: string, base: nat)
    requires ds != "" && base >= 1
    ensures ValueOf(ds[..|ds| - 1], base) <= ValueOf(ds, base)
  {
    var v := ValueOf(ds[..|ds| - 1], base);
    hide DigitOf;
    MulMono(1, base, v);
  }

  /** A run of digits never denotes less than its beginning. */
  lemma {:induction false} ValueGrows(ds: string, n: nat, base: nat)
    requires n <= |ds| && base >= 1
    ensures ValueOf(ds[..n], base) <= ValueOf(ds, base)
  {
    if n < |ds| {
      var h := ds[..|ds| - 1];
      LongerIsLarger(ds, base);
      hide ValueOf;
      ValueGrows(h, n, base);
      assert h[..n] == ds[..n];
    } else {
      assert ds[..n] == ds;
    }
  }

  lemma NextDigit(s: string, i: nat, j: nat, base: nat)
    requires i <= j < |s| && IsDigitIn(s[j], base)
    ensures ValueOf(s[i..j + 1], base) == ValueOf(s[i..j], base) * base + DigitOf(s[j]).value
  {
    assert s[i..j + 1][..j - i] == s[i..j];
  }

  lemma DigitsEndFrom(s: string, i: nat, j: nat, base: nat)
    requires i <= j <= |s| && forall k :: i <= k < j ==> IsDigitIn(s[k], base)
    ensures DigitsEnd(s, i, base) == DigitsEnd(s, j, base)
    decreases j - i
  {
    if i < j {
      DigitsEndFrom(s, i + 1, j, base);
    }
  }

  lemma StopsHere(s: string, i: nat, base: nat)
    requires i <= |s| && !(i < |s| && IsDigitIn(s[i], base))
    ensures DigitsEnd(s, i, base) == i
  {
  }

  lemma NoValue(s: string, i: nat, base: nat)
    requires i <= |s|
    ensures ValueOf(s[i..i], base) == 0
  {
  }

  lemma DigitTest(s: string, i: nat, base: nat)
    requires i <= |s|
    ensures (DigitOf(At(s, i)).Some? && DigitOf(At(s, i)).value < base) <==> i < |s| && IsDigitIn(s[i], base)
    ensures i < |s| ==> At(s, i) == s[i]
  {
  }

  /** Once a prefix is too large, so is the whole number. */
  lemma Overflows(s: string, i: nat, j: nat, base: nat)
    requires i <= j < |s| && base >= 2 && (forall k :: i <= k <= j ==> IsDigitIn(s[k], base))
    requires ValueOf(s[i..j + 1], base) > ULLONG_MAX
    ensures i < DigitsEnd(s, i, base) && ValueOf(s[i..DigitsEnd(s, i, base)], base) > ULLONG_MAX
  {
    DigitsEndFrom(s, i, j + 1, base);
    var e := DigitsEnd(s, i, base);
    ValueGrows(s[i..e], j + 1 - i, base);
    assert s[i..e][..j + 1 - i] == s[i..j + 1];
  }

  /** The accumulation loop with its cutoff test. */
  method Accumulate(str: string, start: nat, base: nat) returns (overflow: bool, acc: nat, i: nat)
    requires start <= |str| && 2 <= base <= 36
    ensures var e := DigitsEnd(str, start, base); var v := ValueOf(str[start..e], base);
      && overflow == (v > ULLONG_MAX)
      && (overflow ==> start < e)
      && (!overflow ==> i == e && acc == v)
  {
    hide *;
    i, acc, overflow := start, 0, false;
    NoValue(str, start, base);
    var cutoff, cutlim := ULLONG_MAX / base, ULLONG_MAX % base;
    while true
      invariant start <= i <= |str| && (forall k :: start <= k < i ==> IsDigitIn(str[k], base))
      invariant acc <= ULLONG_MAX && acc == ValueOf(str[start..i], base) && !overflow
      decreases |str| - i
    {
      var c := DigitOf(At(str, i));
      DigitTest(str, i, base);
      if c.None? || c.value >= base {
        break;
      }
      NextDigit(str, start, i, base);
      CutoffExact(acc, c.value, base);
      if acc > cutoff || (acc == cutoff && c.value > cutlim) {
        Overflows(str, start, i, base);
        overflow := true;
        return;
      }
      acc := acc * base + c.value;
      i := i + 1;
    }
    DigitsEndFrom(str, start, i, base);
    StopsHere(str, i, base);
  }

  lemma SpaceStep(s: string, i: nat)
    requires i <= |s|
    ensures IsSpace(At(s, i)) ==> i < |s| && SkipSpaces(s, i) == SkipSpaces(s, i + 1)
    ensures !IsSpace(At(s, i)) ==> SkipSpaces(s, i) == i
  {
  }

  lemma SignInside(s: string, i: nat)
    requires i <= |s| && (At(s, i) == '-' || At(s, i) == '+')
    ensures i < |s|
  {
  }

  lemma PrefixInside(s: string, i: nat, base: int)
    requires i <= |s|
    ensures HasHexPrefix(s, i, base) <==>
            (base == 0 || base == 16) && At(s, i) == '0' && (At(s, i + 1) == 'x' || At(s, i + 1) == 'X')
    ensures HasHexPrefix(s, i, base) ==> i + 2 <= |s|
    ensures BaseAt(s, i, base) == if HasHexPrefix(s, i, base) then 16
                                  else if base == 0 then (if At(s, i) == '0' then 8 else 10)
                                  else base
  {
  }

  /** Spaces, sign and prefix. */
  method ReadHead(str: string, base0: int) returns (h: Head)
    requires 0 <= base0 <= 36 && base0 != 1
    ensures h == HeadOf(str, base0)
  {
    hide SkipSpaces, BaseAt, HasHexPrefix, IsSpace, At;
    var base := base0;
    var i := 0;
    while IsSpace(At(str, i))
      invariant i <= |str| && SkipSpaces(str, 0) == SkipSpaces(str, i)
      decreases |str| - i
    {
      SpaceStep(str, i);
      i := i + 1;
    }
    SpaceStep(str, i);
    var neg := At(str, i) == '-';
    if neg || At(str, i) == '+' {
      SignInside(str, i);
      i := i + 1;
    }
    PrefixInside(str, i, base0);
    if (base == 0 || base == 16) && At(str, i) == '0' && (At(str, i + 1) == 'x' || At(str, i + 1) == 'X') {
      i := i + 2;
      base := 16;
    }
    if base == 0 {
      base := if At(str, i) == '0' then 8 else 10;
    }
    h := Head(neg, i, base);
  }

  method StrToULL(str: string, base: int) returns (r: Parsed)
    ensures r == Parse(str, base)
  {
    if base < 0 || base == 1 || base > 36 {
      return Parsed(EINVAL, Some(0));
    }
    hide ValueOf, DigitsEnd, HeadOf;
    var h := ReadHead(str, base);
    var overflow, acc, end := Accumulate(str, h.start, h.base);
    if overflow {
      return Parsed(ERANGE, None);
    }
    if h.neg && end > h.start {
      acc := (TWO64 - acc) % TWO64;
    }
    NoValue(str, h.start, h.base);
    r := Parsed(acc, Some(if end > h.start then end else 0));
  }

  // ----- round trip with fmtint -----

  /** Spaces, a prefix, digits, spaces. */
  function Padded(lead: nat, prefix: string, ds: string, trail: nat): string {
    Repeat(' ', lead) + prefix + ds + Repeat(' ', trail)
  }

  lemma PaddedParts(lead: nat, prefix: string, ds: string, trail: nat)
    ensures var t := Padded(lead, prefix, ds, trail);
      var n := lead + |prefix|;
      && |t| == n + |ds| + trail && t[n..n + |ds|] == ds
      && (forall k :: 0 <= k < lead ==> t[k] == ' ')
      && (forall k :: 0 <= k < |prefix| ==> t[lead + k] == prefix[k])
      && (forall k :: 0 <= k < |ds| ==> t[n + k] == ds[k])
      && (trail > 0 ==> t[n + |ds|] == ' ')
  {
  }

  lemma {:induction false} SpacesSkipped(s: string, i: nat, j: nat)
    requires i <= j <= |s| && (forall k :: i <= k < j ==> s[k] == ' ') && !IsSpace(At(s, j))
    ensures SkipSpaces(s, i) == j
    decreases j - i
  {
    if i < j {
      SpacesSkipped(s, i + 1, j);
    }
  }

  lemma NoSpaceNoSign(c: char, base: nat)
    requires IsDigitIn(c, base)
    ensures !IsSpace(c) && c != '-' && c != '+' && c != '\0'
  {
  }

  lemma NoX(c: char)
    ensures IsDigitIn(c, 16) ==> c != 'x' && c != 'X'
    ensures !IsDigitIn(' ', 16) && !IsDigitIn(' ', 10) && !IsDigitIn(' ', 8)
  {
  }

  lemma DigitsBelow16(c: char, base: nat)
    requires IsDigitIn(c, base) && base <= 16
    ensures IsDigitIn(c, 16)
  {
  }

  /** The first two characters after the spaces. */
  lemma FrontChars(lead: nat, prefix: string, ds: string, trail: nat, base: nat)
    requires base <= 16 && ds != "" && AllDigits(ds, base)
    requires prefix == "" || prefix == "0x" || prefix == "0X"
    ensures var t := Padded(lead, prefix, ds, trail);
      var c, d := At(t, lead), At(t, lead + 1);
      && !IsSpace(c) && c != '-' && c != '+' && lead + |prefix| <= |t|
      && (prefix == "" ==> c == ds[0] && d != 'x' && d != 'X')
      && (prefix != "" ==> c == '0' && |prefix| == 2 && (d == 'x' || d == 'X'))
  {
    var t := Padded(lead, prefix, ds, trail);
    PaddedParts(lead, prefix, ds, trail);
    assert ds[0] in ds && (|ds| > 1 ==> ds[1] in ds);
    NoSpaceNoSign(ds[0], base);
    if |ds| > 1 {
      DigitsBelow16(ds[1], base);
      NoX(ds[1]);
    }
    hide Padded, IsDigitIn, AllDigits;
    assert prefix == "" ==> t[lead + 0] == ds[0] && (|ds| > 1 ==> t[lead + 1] == ds[1]);
    assert prefix == "" && |ds| == 1 && trail > 0 ==> t[lead + 1] == ' ';
    assert prefix != "" ==> t[lead + 0] == prefix[0] && t[lead + 1] == prefix[1];
  }

  lemma HeadIs(t: string, lead: nat, prefixed: bool, base: nat, asked: int)
    requires SkipSpaces(t, 0) == lead && At(t, lead) != '-' && At(t, lead) != '+'
    requires prefixed ==> base == 16 && At(t, lead) == '0' && (At(t, lead + 1) == 'x' || At(t, lead + 1) == 'X')
    requires !prefixed ==> At(t, lead + 1) != 'x' && At(t, lead + 1) != 'X'
    requires (base == 8 || base == 10 || base == 16)
    requires (asked == base || (asked == 0 && (prefixed || (base == 8 && At(t, lead) == '0'))))
    ensures HeadOf(t, asked) == Head(false, if prefixed then lead + 2 else lead, base)
  {
    hide SkipSpaces, At;
  }

  /** The head of a padded number. */
  lemma PaddedHead(lead: nat, prefix: string, ds: string, trail: nat, base: nat, asked: int)
    requires (base == 8 || base == 10 || base == 16) && ds != "" && AllDigits(ds, base)
    requires prefix == "" || (base == 16 && (prefix == "0x" || prefix == "0X"))
    requires asked == base || (asked == 0 && (prefix != "" || (base == 8 && ds[0] == '0')))
    ensures HeadOf(Padded(lead, prefix, ds, trail), asked) == Head(false, lead + |prefix|, base)
  {
    hide *;
    FrontChars(lead, prefix, ds, trail, base);
    PaddedParts(lead, prefix, ds, trail);
    SpacesSkipped(Padded(lead, prefix, ds, trail), 0, lead);
    HeadIs(Padded(lead, prefix, ds, trail), lead, prefix != "", base, asked);
  }

  lemma BlankIsNoDigit(base: nat)
    ensures !IsDigitIn(' ', base)
  {
  }

  lemma PaddedEnd(lead: nat, prefix: string, ds: string, trail: nat, base: nat)
    requires base <= 16 && AllDigits(ds, base)
    ensures DigitsEnd(Padded(lead, prefix, ds, trail), lead + |prefix|, base) == lead + |prefix| + |ds|
  {
    var t := Padded(lead, prefix, ds, trail);
    var n := lead + |prefix|;
    PaddedParts(lead, prefix, ds, trail);
    BlankIsNoDigit(base);
    hide Padded, IsDigitIn, DigitsEnd;
    forall k | n <= k < n + |ds|
      ensures IsDigitIn(t[k], base)
    {
      assert t[n + (k - n)] == ds[k - n] && ds[k - n] in ds;
    }
    DigitsEndFrom(t, n, n + |ds|, base);
    StopsHere(t, n + |ds|, base);
  }

  lemma ParseIs(s: string, base: int, h: Head, j: nat, v: nat)
    requires 0 <= base <= 36 && base != 1 && HeadOf(s, base) == h && h.start <= |s| && 2 <= h.base
    requires DigitsEnd(s, h.start, h.base) == j && j <= |s| && h.start <= j && ValueOf(s[h.start..j], h.base) == v
    ensures Parse(s, base) ==
            if h.start == j then Parsed(0, Some(0))
            else if v >= TWO64 then Parsed(ERANGE, None)
            else Parsed(if h.neg then (TWO64 - v) % TWO64 else v, Some(j))
  {
    hide HeadOf, DigitsEnd, ValueOf;
  }

  /** The number is read back, with endptr just after its last digit. */
  lemma ParsePadded(lead: nat, prefix: string, ds: string, trail: nat, base: nat, asked: int)
    requires (base == 8 || base == 10 || base == 16) && ds != "" && AllDigits(ds, base) && ValueOf(ds, base) < TWO64
    requires prefix == "" || (base == 16 && (prefix == "0x" || prefix == "0X"))
    requires asked == base || (asked == 0 && (prefix != "" || (base == 8 && ds[0] == '0')))
    ensures Parse(Padded(lead, prefix, ds, trail), asked) == Parsed(ValueOf(ds, base), Some(lead + |prefix| + |ds|))
  {
    hide *;
    var n := lead + |prefix|;
    PaddedHead(lead, prefix, ds, trail, base, asked);
    PaddedParts(lead, prefix, ds, trail);
    PaddedEnd(lead, prefix, ds, trail, base);
    ParseIs(Padded(lead, prefix, ds, trail), asked, Head(false, n, base), n + |ds|, ValueOf(ds, base));
  }

  lemma SignedHead(s: string, lead: nat, base: nat)
    requires SkipSpaces(s, 0) == lead && (At(s, lead) == '-' || At(s, lead) == '+') && 2 <= base <= 36
    requires At(s, lead + 2) != 'x' && At(s, lead + 2) != 'X'
    ensures HeadOf(s, base) == Head(At(s, lead) == '-', lead + 1, base)
  {
    hide SkipSpaces, At;
  }

  lemma SignedFront(lead: nat, sign: char, ds: string, trail: nat, base: nat)
    requires (sign == '-' || sign == '+') && ds != "" && AllDigits(ds, base) && base <= 16
    ensures var s := Padded(lead, [sign], ds, trail);
      && lead < |s| && At(s, lead) == sign && !IsSpace(sign)
      && At(s, lead + 2) != 'x' && At(s, lead + 2) != 'X'
  {
    var s := Padded(lead, [sign], ds, trail);
    PaddedParts(lead, [sign], ds, trail);
    if |ds| > 1 {
      assert ds[1] in ds;
      DigitsBelow16(ds[1], base);
      NoX(ds[1]);
    }
    hide Padded, IsDigitIn, AllDigits;
    assert s[lead + 0] == [sign][0];
    assert |ds| > 1 ==> s[lead + 1 + 1] == ds[1];
    assert |ds| == 1 && trail > 0 ==> s[lead + 2] == ' ';
  }

  lemma NegatedWord(v: int)
    requires 0 <= v < TWO64
    ensures (TWO64 - v) % TWO64 == -v % TWO64
  {
  }

  lemma SmallWord(v: nat)
    requires v < TWO64
    ensures v % TWO64 == v && TWO64 == 0x1_0000_0000_0000_0000
  {
  }

  /** A number behind a minus sign reads as its negative modulo 2^64, and behind a plus sign as itself. */
  lemma ParseSigned(lead: nat, sign: char, ds: string, trail: nat, base: nat)
    requires 2 <= base <= 16 && ds != "" && AllDigits(ds, base) && ValueOf(ds, base) < TWO64
    requires sign == '-' || sign == '+'
    ensures var v: int := ValueOf(ds, base);
      Parse(Padded(lead, [sign], ds, trail), base)
      == Parsed((if sign == '-' then -v else v) % 0x1_0000_0000_0000_0000, Some(lead + 1 + |ds|))
  {
    hide *;
    var s := Padded(lead, [sign], ds, trail);
    SignedFront(lead, sign, ds, trail, base);
    PaddedParts(lead, [sign], ds, trail);
    SpacesSkipped(s, 0, lead);
    SignedHead(s, lead, base);
    PaddedEnd(lead, [sign], ds, trail, base);
    ParseIs(s, base, Head(sign == '-', lead + 1, base), lead + 1 + |ds|, ValueOf(ds, base));
    NegatedWord(ValueOf(ds, base));
    SmallWord(ValueOf(ds, base));
  }

  lemma RangeCode(v: nat)
    ensures ERANGE == 0xFFFF_FFFF_8001_001C && (v > 0xFFFF_FFFF_FFFF_FFFF <==> v >= TWO64)
  {
  }

  lemma WrongBase(s: string, base: int)
    requires base < 0 || base == 1 || base > 36
    ensures Parse(s, base) == Parsed(0xFFFF_FFFF_8001_0002, Some(0))
  {
  }

  /** A number that does not fit reads as the error code with endptr left alone, and so does any text in a base that is
      none, with endptr at its front: both codes are sign-extended to 64 bits. */
  lemma ErrorValues(lead: nat, prefix: string, ds: string, trail: nat, base: nat, s: string, wrong: int)
    requires (base == 8 || base == 10 || base == 16) && ds != "" && AllDigits(ds, base)
    requires prefix == "" || (base == 16 && (prefix == "0x" || prefix == "0X"))
    requires ValueOf(ds, base) > 0xFFFF_FFFF_FFFF_FFFF && (wrong < 0 || wrong == 1 || wrong > 36)
    ensures Parse(Padded(lead, prefix, ds, trail), base) == Parsed(0xFFFF_FFFF_8001_001C, None)
    ensures Parse(s, wrong) == Parsed(0xFFFF_FFFF_8001_0002, Some(0))
  {
    hide *;
    var n := lead + |prefix|;
    var t := Padded(lead, prefix, ds, trail);
    PaddedHead(lead, prefix, ds, trail, base, base);
    PaddedParts(lead, prefix, ds, trail);
    PaddedEnd(lead, prefix, ds, trail, base);
    ParseIs(t, base, Head(false, n, base), n + |ds|, ValueOf(ds, base));
    RangeCode(ValueOf(ds, base));
    WrongBase(s, wrong);
  }

  lemma BlanksAt(w: string, s: string, i: nat)
    ensures At(w + s, |w| + i) == At(s, i)
    ensures i < |s| ==> (w + s)[|w| + i] == s[i]
  {
  }

  lemma {:induction false} BlanksSkipped(w: string, s: string, i: nat)
    requires i <= |s|
    ensures SkipSpaces(w + s, |w| + i) == |w| + SkipSpaces(s, i)
    decreases |s| - i
  {
    BlanksAt(w, s, i);
    if i < |s| && IsSpace(s[i]) {
      BlanksSkipped(w, s, i + 1);
    }
  }

  lemma {:induction false} AllBlanksSkipped(w: string, s: string, i: nat)
    requires i <= |w| && forall c :: c in w ==> c in " \t\n\U{0B}\U{0C}\r"
    ensures SkipSpaces(w + s, i) == SkipSpaces(w + s, |w|)
    decreases |w| - i
  {
    if i < |w| {
      assert w[i] in w && (w + s)[i] == w[i];
      AllBlanksSkipped(w, s, i + 1);
    }
  }

  lemma {:induction false} DigitsEndMoved(w: string, s: string, i: nat, base: nat)
    requires i <= |s|
    ensures DigitsEnd(w + s, |w| + i, base) == |w| + DigitsEnd(s, i, base)
    decreases |s| - i
  {
    BlanksAt(w, s, i);
    hide IsDigitIn;
    if i < |s| && IsDigitIn(s[i], base) {
      DigitsEndMoved(w, s, i + 1, base);
    }
  }

  lemma HeadFrom(s: string, i: nat, j: nat, base: int)
    requires 0 <= base <= 36 && base != 1 && i == SkipSpaces(s, 0)
    requires j == if At(s, i) == '-' || At(s, i) == '+' then i + 1 else i
    ensures HeadOf(s, base)
         == Head(At(s, i) == '-', if HasHexPrefix(s, j, base) then j + 2 else j, BaseAt(s, j, base))
    ensures 0 <= i <= |s|
  {
    hide At, HasHexPrefix, BaseAt;
  }

  lemma PrefixMoved(w: string, s: string, i: nat, base: int)
    ensures HasHexPrefix(w + s, |w| + i, base) == HasHexPrefix(s, i, base)
    ensures BaseAt(w + s, |w| + i, base) == BaseAt(s, i, base)
  {
    BlanksAt(w, s, i);
    BlanksAt(w, s, i + 1);
    hide At;
  }

  lemma HeadMoved(w: string, s: string, base: int)
    requires 0 <= base <= 36 && base != 1 && SkipSpaces(w + s, 0) == |w| + SkipSpaces(s, 0)
    ensures HeadOf(w + s, base) == HeadOf(s, base).(start := |w| + HeadOf(s, base).start)
  {
    hide *;
    var i := SkipSpaces(s, 0);
    var j := if At(s, i) == '-' || At(s, i) == '+' then i + 1 else i;
    BlanksAt(w, s, i);
    PrefixMoved(w, s, j, base);
    HeadFrom(s, i, j, base);
    HeadFrom(w + s, |w| + i, |w| + j, base);
  }

  /** Blanks of all six kinds in front do not matter. */
  lemma BlanksIgnored(w: string, s: string, base: int)
    requires forall c :: c in w ==> c in " \t\n\U{0B}\U{0C}\r"
    ensures var p, q := Parse(w + s, base), Parse(s, base);
      && p.value == q.value && (p.end.None? <==> q.end.None?)
      && (p.end.Some? ==> p.end.value == if q.end.value == 0 then 0 else |w| + q.end.value)
  {
    hide *;
    if 0 <= base <= 36 && base != 1 {
      AllBlanksSkipped(w, s, 0);
      BlanksSkipped(w, s, 0);
      HeadMoved(w, s, base);
      var h := HeadOf(s, base);
      DigitsEndMoved(w, s, h.start, h.base);
      var j := DigitsEnd(s, h.start, h.base);
      assert (w + s)[|w| + h.start..|w| + j] == s[h.start..j];
      ParseIs(s, base, h, j, ValueOf(s[h.start..j], h.base));
      ParseIs(w + s, base, h.(start := |w| + h.start), |w| + j, ValueOf(s[h.start..j], h.base));
    } else {
      WrongBase(s, base);
      WrongBase(w + s, base);
    }
  }

  lemma LayoutFields(v: nat, base: nat, width: nat, precision: int, f: Flags, caps: bool)
    requires 2 <= base <= 16 && -1 <= precision && !f.quote
    ensures var l := LayoutOf("", v, base, width, precision, f, caps);
      && l.sign == "" && l.body == Digits(v, base, caps)
      && (l.prefix == "" || (base == 16 && (l.prefix == "0x" || l.prefix == "0X")))
      && (l.prefix == "" <==> !(f.num && v != 0 && base == 16))
      && (f.num && v != 0 && base == 8 ==> l.zeros > 0)
  {
    hide Digits, Repeat;
  }

  lemma TextIsPadded(l: Layout)
    requires l.sign == ""
    ensures l.Text() == Padded(l.lead, l.prefix, Repeat('0', l.zeros) + l.body, l.trail)
  {
    hide Repeat;
    var z, b, t := Repeat('0', l.zeros), l.body, Repeat(' ', l.trail);
    assert Repeat(' ', l.lead) + "" == Repeat(' ', l.lead);
    assert Repeat(' ', l.lead) + l.prefix + z + b + t == Repeat(' ', l.lead) + l.prefix + (z + b) + t;
  }

  lemma LayoutFacts(v: nat, base: nat, width: nat, precision: int, f: Flags, caps: bool)
    requires 2 <= base <= 16 && -1 <= precision && !f.quote
    ensures var l := LayoutOf("", v, base, width, precision, f, caps);
      var all := Repeat('0', l.zeros) + Digits(v, base, caps);
      && (l.prefix == "" || (base == 16 && (l.prefix == "0x" || l.prefix == "0X")))
      && (l.prefix == "" <==> !(f.num && v != 0 && base == 16))
      && (f.num && v != 0 && base == 8 ==> l.zeros > 0)
      && FmtInt("", v, base, width, precision, f, caps) == Padded(l.lead, l.prefix, all, l.trail)
      && |FmtInt("", v, base, width, precision, f, caps)| - l.trail == l.lead + |l.prefix| + |all|
  {
    LayoutFields(v, base, width, precision, f, caps);
    var l := LayoutOf("", v, base, width, precision, f, caps);
    TextIsPadded(l);
    hide *;
    PaddedParts(l.lead, l.prefix, Repeat('0', l.zeros) + Digits(v, base, caps), l.trail);
  }

  lemma FirstZero(n: nat, ds: string)
    requires ds != ""
    ensures Repeat('0', n) + ds != "" && (n > 0 || DigitOf(ds[0]) == Some(0) ==> (Repeat('0', n) + ds)[0] == '0')
  {
  }

  lemma ZeroAlone()
    ensures AllDigits("0", 8) && ValueOf("0", 8) == 0
  {
    assert "0"[..0] == "";
  }

  lemma ZeroText(n: nat, base: nat, caps: bool)
    requires 2 <= base <= 16
    ensures var all := Repeat('0', n) + Digits(0, base, caps);
      AllDigits(all, 8) && ValueOf(all, 8) == 0 && |all| == n + 1 && all[0] == '0'
  {
    assert Digits(0, base, caps) == "" + ['0'] == "0";
    ZeroAlone();
    ZerosInFront(n, "0", 8);
  }

  /** What fmtint prints for %o, %u, %x and %X reads back as the same number in the same base, whatever the width,
      the precision and the flags 0, - and #; base 0 recognises %#o and %#x too. */
  lemma PrintThenParse(v: nat, base: nat, width: nat, precision: int, f: Flags, caps: bool, asked: int)
    requires v < TWO64 && (base == 8 || base == 10 || base == 16) && -1 <= precision && !f.quote
    requires asked == base || (asked == 0 && f.num && base != 10)
    ensures var l := LayoutOf("", v, base, width, precision, f, caps);
      var t := FmtInt("", v, base, width, precision, f, caps);
      Parse(t, asked) == Parsed(v, Some(|t| - l.trail))
  {
    hide *;
    var l := LayoutOf("", v, base, width, precision, f, caps);
    var ds := Digits(v, base, caps);
    LayoutFacts(v, base, width, precision, f, caps);
    DigitsDenote(v, base, caps);
    ZerosInFront(l.zeros, ds, base);
    FirstZero(l.zeros, ds);
    var all := Repeat('0', l.zeros) + ds;
    if asked == 0 && base == 16 && v == 0 {
      // zero has no prefix, and reads as an octal number
      ZeroText(l.zeros, base, caps);
      ParsePadded(l.lead, l.prefix, all, l.trail, 8, 0);
    } else {
      ParsePadded(l.lead, l.prefix, all, l.trail, base, asked);
    }
  }

  /** Where a number starts behind spaces and sign. */
  function NumberStart(s: string): nat {
    var i := SkipSpaces(s, 0);
    if At(s, i) == '-' || At(s, i) == '+' then i + 1 else i
  }

  lemma NoDigitAtEnd()
    ensures !IsDigitIn('\0', 16)
  {
  }

  /** Behind a prefix a number is read exactly when a hexadecimal digit follows; otherwise nothing is, although C99
      would read the 0 of the prefix. */
  lemma BarePrefix(s: string, base: int)
    requires (base == 0 || base == 16) && HasHexPrefix(s, NumberStart(s), base)
    ensures Parse(s, base) == Parsed(0, Some(0)) <==> !IsDigitIn(At(s, NumberStart(s) + 2), 16)
  {
    hide ValueOf, IsDigitIn;
    NoDigitAtEnd();
  }
}
