/** Numbers as text: what the number printer (printf.c) writes, what the number
    parsers (strtoul.c) read, and how the two undo each other. */
module NumberText {
  import opened Words
  import opened Divide

  const HALF: nat := 0x8000_0000_0000_0000

  // ---- digits ----

  /** `hex_digits_l[d]` or `hex_digits_u[d]` */
  function DigitChar(d: nat, lower: bool): char
    requires d < 16
  {
    if lower then "0123456789abcdef"[d] else "0123456789ABCDEF"[d]
  }

  /** The digit a character stands for, whatever the radix. */
  function DigitOf(c: char): Option<nat>
  {
    if '0' <= c <= '9' then Some((c - '0') as nat)
    else if 'a' <= c <= 'z' then Some((c - 'a') as nat + 10)
    else if 'A' <= c <= 'Z' then Some((c - 'A') as nat + 10)
    else None
  }

  predicate IsDigit(c: char, radix: nat)
  {
    DigitOf(c).Some? && DigitOf(c).value < radix
  }

  ghost predicate AllDigits(s: string, radix: nat)
  {
    forall k :: 0 <= k < |s| ==> IsDigit(s[k], radix)
  }

  lemma DigitCharOf(d: nat, lower: bool)
    requires d < 16
    ensures DigitOf(DigitChar(d, lower)) == Some(d)
  {
    var c := DigitChar(d, lower);
    if d < 10 {
      assert c == "0123456789"[d];
    } else {
      assert c == (if lower then "abcdef" else "ABCDEF")[d - 10];
    }
  }

  /** The number a digit string denotes (Horner's rule). */
  function Value(s: string, radix: nat): nat
    requires AllDigits(s, radix)
  {
    if s == "" then 0 else Times(Value(s[..|s| - 1], radix), radix) + DigitOf(s[|s| - 1]).value
  }

  lemma ValueSnoc(s: string, c: char, radix: nat)
    requires AllDigits(s, radix) && IsDigit(c, radix)
    ensures AllDigits(s + [c], radix)
    ensures Value(s + [c], radix) == Value(s, radix) * radix + DigitOf(c).value
  {
    TimesIsProduct(Value(s, radix), radix);
    assert (s + [c])[..|s|] == s;
  }

  // ---- printing ----

  predicate Printable(base: int)
  {
    base == 2 || base == 8 || base == 10 || base == 16
  }

  function Base(base: int): nat
    ensures Printable(Base(base))
  {
    if Printable(base) then base else 10
  }

  /** The digits of `n`, most significant first; nothing for 0. */
  function Digits(n: nat, base: nat, lower: bool): string
    requires 2 <= base <= 16
  {
    if n == 0 then "" else
    DivSmaller(n, base);
    Digits(n / base, base, lower) + [DigitChar(n % base, lower)]
  }

  lemma DivSmaller(n: nat, base: nat)
    requires n > 0 && base >= 2
    ensures n / base < n && n / base <= n / 2
    ensures n == n / base * base + n % base
  {
    var q := n / base;
    assert n == base * q + n % base;
    assert base * q >= 2 * q by { assert base * q == 2 * q + (base - 2) * q; }
  }

  function Zeros(n: nat): string
  {
    seq(n, _ => '0')
  }

  function Blanks(n: nat): string
  {
    seq(n, _ => ' ')
  }

  datatype Format = Format(base: int, lower: bool, width: int, precision: int, pad: char, left: bool)

  function Max(a: int, b: int): int
  {
    if a > b then a else b
  }

  /** Sign and magnitude of a 64-bit argument. */
  predicate Negative(number: Dword, signed: bool)
  {
    signed && number >= HALF
  }

  function Magnitude(number: Dword, signed: bool): Dword
  {
    if Negative(number, signed) then DWORD - number else number
  }

  /** The digits printed: none at all for 0 with precision 0. */
  function Numeral(n: nat, f: Format): string
  {
    if n == 0 then (if f.precision == 0 then "" else "0") else Digits(n, Base(f.base), f.lower)
  }

  function ZeroCount(f: Format, digits: nat, sign: nat): nat
  {
    if f.precision >= 0 then Max(f.precision - digits, 0)
    else if f.pad == '0' then Max(f.width - digits - sign, 0)
    else 0
  }

  function SpaceCount(f: Format, digits: nat, sign: nat): nat
  {
    if f.precision >= 0 then Max(f.width - digits - ZeroCount(f, digits, sign) - sign, 0)
    else if f.pad == '0' then 0
    else Max(f.width - digits - sign, 0)
  }

  function Sign(negative: bool): string
  {
    if negative then "-" else ""
  }

  /** Zeros and digits, without sign and spaces. */
  function Body(n: nat, negative: bool, f: Format): string
  {
    Zeros(ZeroCount(f, |Numeral(n, f)|, |Sign(negative)|)) + Numeral(n, f)
  }

  function Spaces(n: nat, negative: bool, f: Format): string
  {
    Blanks(SpaceCount(f, |Numeral(n, f)|, |Sign(negative)|))
  }

  function Assemble(left: bool, spaces: string, sign: string, body: string): string
  {
    if left then sign + body + spaces else spaces + sign + body
  }

  /** What `pr_number` writes. */
  function Render(number: Dword, signed: bool, f: Format): string
  {
    var negative, n := Negative(number, signed), Magnitude(number, signed);
    Assemble(f.left, Spaces(n, negative, f), Sign(negative), Body(n, negative, f))
  }

  /** The printed length, whatever the padding style. */
  lemma RenderLength(number: Dword, signed: bool, f: Format)
    ensures var sign := |Sign(Negative(number, signed))|;
      |Render(number, signed, f)| == Max(f.width, sign + Max(f.precision, |Numeral(Magnitude(number, signed), f)|))
  {
  }

  // ---- the printed text, character by character ----

  /** `t` is `width` characters or more: the sign, `zeros` zeros and the numeral side
      by side, filled up with blanks behind them when `left`, else in front. */
  ghost predicate Framed(t: string, left: bool, sign: string, zeros: nat, numeral: string, width: int)
  {
    var n := |sign| + zeros + |numeral|;
    && |t| == (if width > n then width else n)
    && var at := if left then 0 else |t| - n;
    && t[at..at + |sign|] == sign
    && (forall k :: at + |sign| <= k < at + |sign| + zeros ==> t[k] == '0')
    && t[at + |sign| + zeros..at + n] == numeral
    && (forall k :: 0 <= k < at || at + n <= k < |t| ==> t[k] == ' ')
  }

  lemma AssembleFramed(left: bool, blanks: nat, sign: string, zeros: nat, numeral: string, width: int)
    requires blanks == (if width > |sign| + zeros + |numeral| then width - (|sign| + zeros + |numeral|) else 0)
    ensures Framed(Assemble(left, Blanks(blanks), sign, Zeros(zeros) + numeral), left, sign, zeros, numeral, width)
  {
    var n := |sign| + zeros + |numeral|;
    var body := Zeros(zeros) + numeral;
    var t := Assemble(left, Blanks(blanks), sign, body);
    var at := if left then 0 else |t| - n;
    assert t[at..at + |sign|] == sign;
    assert t[at + |sign|..at + n] == body;
    assert t[at + |sign| + zeros..at + n] == body[zeros..] == numeral;
    forall k | at + |sign| <= k < at + |sign| + zeros ensures t[k] == '0' { assert t[k] == body[k - (at + |sign|)]; }
  }

  /** `pr_number`, for every number and format. With a precision, zeros fill the
      numeral up to it, whatever the pad character, and blanks the rest of the width.
      Without one, a pad character '0' fills the width with zeros behind the sign and
      leaves no blank on either side; any other fills it with blanks and adds no
      zero. */
  lemma RenderLayout(number: Dword, signed: bool, f: Format)
    ensures var t, sign := Render(number, signed, f), if signed && number >= HALF then "-" else "";
      var numeral := Numeral(if signed && number >= HALF then DWORD - number else number, f);
      && (f.precision >= 0 ==>
            Framed(t, f.left, sign, if f.precision > |numeral| then f.precision - |numeral| else 0, numeral, f.width))
      && (f.precision < 0 && f.pad == '0' ==>
            Framed(t, f.left, sign,
                   if f.width > |sign| + |numeral| then f.width - |sign| - |numeral| else 0, numeral, f.width))
      && (f.precision < 0 && f.pad != '0' ==> Framed(t, f.left, sign, 0, numeral, f.width))
  {
    Layout(Magnitude(number, signed), Negative(number, signed), f);
  }

  lemma Layout(n: Dword, negative: bool, f: Format)
    ensures var sign, numeral := Sign(negative), Numeral(n, f);
      Framed(Assemble(f.left, Spaces(n, negative, f), sign, Body(n, negative, f)), f.left, sign,
             ZeroCount(f, |numeral|, |sign|), numeral, f.width)
  {
    var sign, numeral := Sign(negative), Numeral(n, f);
    AssembleFramed(f.left, SpaceCount(f, |numeral|, |sign|), sign, ZeroCount(f, |numeral|, |sign|), numeral, f.width);
  }

  /** The numeral: in the base asked for, or 10 when that is none of 2, 8, 10 and 16,
      without leading zeros, with letters in the case asked for. */
  lemma NumeralIs(n: nat, f: Format)
    ensures var base := if f.base == 2 || f.base == 8 || f.base == 10 || f.base == 16 then f.base else 10;
      && (n == 0 ==> Numeral(n, f) == if f.precision == 0 then "" else "0")
      && (n > 0 ==> Numeral(n, f) != "" && Numeral(n, f)[0] != '0')
      && AllDigits(Numeral(n, f), base) && Value(Numeral(n, f), base) == n
      && (forall c :: c in Numeral(n, f) ==> '0' <= c <= '9' || (if f.lower then 'a' <= c <= 'f' else 'A' <= c <= 'F'))
  {
    var base := Base(f.base);
    if n > 0 {
      DigitsValue(n, base, f.lower);
      DigitsForm(n, base, f.lower);
    } else if f.precision != 0 {
      assert IsDigit('0', base);
      ValueSnoc("", '0', base);
      assert "" + "0" == "0";
    }
  }

  lemma {:induction false} DigitsForm(n: nat, base: nat, lower: bool)
    requires 2 <= base <= 16 && n > 0
    ensures Digits(n, base, lower) != "" && Digits(n, base, lower)[0] != '0'
    ensures forall c :: c in Digits(n, base, lower) ==>
      '0' <= c <= '9' || (if lower then 'a' <= c <= 'f' else 'A' <= c <= 'F')
    decreases n
  {
    DivSmaller(n, base);
    var q, d := n / base, n % base;
    CharForm(d, lower);
    assert Digits(n, base, lower) == Digits(q, base, lower) + [DigitChar(d, lower)];
    if q > 0 {
      DigitsForm(q, base, lower);
    } else {
      assert d == n && Digits(q, base, lower) == "";
    }
  }

  lemma CharForm(d: nat, lower: bool)
    requires d < 16
    ensures var c := DigitChar(d, lower);
      ('0' <= c <= '9' || (if lower then 'a' <= c <= 'f' else 'A' <= c <= 'F')) && (c == '0' ==> d == 0)
  {
    DigitCharOf(d, lower);
    if d >= 10 {
      assert DigitChar(d, lower) == (if lower then "abcdef" else "ABCDEF")[d - 10];
    }
  }

  // ---- what was printed denotes the number ----

  lemma {:induction false} DigitsValue(n: nat, base: nat, lower: bool)
    requires 2 <= base <= 16
    ensures AllDigits(Digits(n, base, lower), base)
    ensures Value(Digits(n, base, lower), base) == n
    decreases n
  {
    if n > 0 {
      DivSmaller(n, base);
      DigitsValue(n / base, base, lower);
      DigitCharOf(n % base, lower);
      ValueSnoc(Digits(n / base, base, lower), DigitChar(n % base, lower), base);
    }
  }

  lemma {:induction false} LeadingZeros(z: nat, s: string, radix: nat)
    requires radix > 0 && AllDigits(s, radix)
    ensures AllDigits(Zeros(z) + s, radix)
    ensures Value(Zeros(z) + s, radix) == Value(s, radix)
    decreases |s|, z
  {
    assert IsDigit('0', radix);
    if s != "" {
      var init, c := s[..|s| - 1], s[|s| - 1];
      LeadingZeros(z, init, radix);
      assert Zeros(z) + s == (Zeros(z) + init) + [c];
      ValueSnoc(Zeros(z) + init, c, radix);
    } else if z > 0 {
      LeadingZeros(z - 1, "", radix);
      assert Zeros(z) + "" == (Zeros(z - 1) + "") + ['0'];
      ValueSnoc(Zeros(z - 1) + "", '0', radix);
    }
  }

  lemma BodyValue(n: nat, negative: bool, f: Format)
    ensures AllDigits(Body(n, negative, f), Base(f.base))
    ensures Value(Body(n, negative, f), Base(f.base)) == n
  {
    var radix, s := Base(f.base), Numeral(n, f);
    if n > 0 {
      DigitsValue(n, radix, f.lower);
    } else if s != "" {
      assert IsDigit('0', radix);
      ValueSnoc("", '0', radix);
      assert "" + "0" == "0";
    }
    LeadingZeros(ZeroCount(f, |s|, |Sign(negative)|), s, radix);
  }

  // ---- parsing ----

  /** `*(str + p)`: the text's end reads as the terminator. */
  function At(s: string, p: nat): char
  {
    if p < |s| then s[p] else '\0'
  }

  /** The first position from `p` that is not a digit. */
  function DigitsEnd(s: string, p: nat, radix: nat): (e: nat)
    requires p <= |s|
    ensures p <= e <= |s|
    ensures AllDigits(s[p..e], radix)
    ensures !IsDigit(At(s, e), radix)
    decreases |s| - p
  {
    if p < |s| && IsDigit(s[p], radix) then
      var e := DigitsEnd(s, p + 1, radix);
      assert s[p..e] == [s[p]] + s[p + 1..e];
      e
    else p
  }

  lemma {:induction false} DigitsEndIs(s: string, p: nat, e: nat, radix: nat)
    requires p <= e <= |s| && AllDigits(s[p..e], radix) && !IsDigit(At(s, e), radix)
    ensures DigitsEnd(s, p, radix) == e
    decreases e - p
  {
    if p < e {
      assert s[p..e][0] == s[p];
      var rest := s[p + 1..e];
      assert forall k :: 0 <= k < |rest| ==> rest[k] == s[p..e][k + 1];
      DigitsEndIs(s, p + 1, e, radix);
    }
  }

  /** Where the digits start and in which radix; None is the lone "0" of radix 0. */
  datatype Start = Start(pos: nat, radix: int)

  function Prefix(s: string, p: nat, radix: int): (r: Option<Start>)
    requires p < |s|
    ensures r.Some? ==> r.value.pos <= |s|
  {
    if radix != 0 then Some(Start(p, radix))
    else if At(s, p) != '0' then Some(Start(p, 10))
    else if At(s, p + 1) == '\0' then None
    else if At(s, p + 1) == 'x' || At(s, p + 1) == 'X' then Some(Start(p + 2, 16))
    else if At(s, p + 1) == 'b' || At(s, p + 1) == 'B' then Some(Start(p + 2, 2))
    else Some(Start(p + 1, 8))
  }

  predicate ValidRadix(radix: int)
  {
    2 <= radix <= 36
  }

  /** A parse: the value, and the end pointer where one is stored. */
  datatype Parsed = Parsed(value: nat, end: Option<nat>)

  /** `strtoull`: no sign, no leading space, the value modulo 2^64. */
  function Strtoull(str: Option<string>, radix: int): Parsed
  {
    if str.None? || At(str.value, 0) == '\0' then Parsed(0, None) else
    var start := Prefix(str.value, 0, radix);
    if start.None? || !ValidRadix(start.value.radix) then Parsed(0, None) else
    ScanUnsigned(str.value, start.value.pos, start.value.radix)
  }

  function ScanUnsigned(s: string, p: nat, radix: nat): Parsed
    requires p <= |s|
  {
    var e := DigitsEnd(s, p, radix);
    Parsed(Value(s[p..e], radix) % DWORD, Some(e))
  }

  /** A signed parse; Overflows stands for the signed overflow of `value * radix
      + digit`, which C leaves undefined. */
  datatype SignedParsed = Overflows | SignedParsed(value: int, end: Option<nat>)

  function SignLength(s: string): nat
  {
    if At(s, 0) == '+' || At(s, 0) == '-' then 1 else 0
  }

  /** `strtoll`: an optional sign, and a lone sign sends the end pointer back. */
  function Strtoll(str: Option<string>, radix: int): SignedParsed
  {
    if str.None? || At(str.value, 0) == '\0' then SignedParsed(0, None) else
    var s, sign := str.value, SignLength(str.value);
    if At(s, sign) == '\0' then SignedParsed(0, Some(0)) else
    var start := Prefix(s, sign, radix);
    if start.None? || !ValidRadix(start.value.radix) then SignedParsed(0, None) else
    ScanSigned(s, start.value.pos, start.value.radix, At(s, 0) == '-')
  }

  function ScanSigned(s: string, p: nat, radix: nat, negative: bool): SignedParsed
    requires p <= |s|
  {
    var e := DigitsEnd(s, p, radix);
    var v: int := Value(s[p..e], radix);
    if v >= HALF then Overflows else SignedParsed(if negative then -v else v, Some(e))
  }

  // ---- the parsers undo the printer ----

  /** Nothing, or something that starts with a blank. */
  predicate Blank(s: string)
  {
    s == "" || s[0] == ' '
  }

  lemma TextParts(sign: string, body: string, tail: string, radix: nat)
    requires AllDigits(body, radix) && Blank(tail)
    ensures var s, e := sign + body + tail, |sign| + |body|;
      && s[|sign|..e] == body
      && DigitsEnd(s, |sign|, radix) == e
  {
    var s, e := sign + body + tail, |sign| + |body|;
    assert s[|sign|..e] == body;
    assert tail != "" ==> s[e] == tail[0];
    DigitsEndIs(s, |sign|, e, radix);
  }

  lemma FirstChar(body: string, tail: string, radix: nat)
    requires AllDigits(body, radix) && Blank(tail) && body + tail != ""
    ensures At(body + tail, 0) != '\0' && SignLength(body + tail) == 0
  {
    if body != "" { assert IsDigit(body[0], radix); }
  }

  /** Digits, then nothing or a blank: the digits' value and their end. */
  lemma ParseText(body: string, tail: string, radix: nat)
    requires ValidRadix(radix) && AllDigits(body, radix) && Blank(tail)
    ensures Strtoull(Some(body + tail), radix) ==
      if body + tail == "" then Parsed(0, None)
      else Parsed(Value(body, radix) % DWORD, Some(|body|))
  {
    if body + tail != "" {
      TextParts("", body, tail, radix);
      assert "" + body + tail == body + tail;
      FirstChar(body, tail, radix);
    }
  }

  lemma ParseNumber(s: string, body: string, tail: string, radix: nat, number: Dword)
    requires ValidRadix(radix) && AllDigits(body, radix) && Blank(tail)
    requires s == body + tail && Value(body, radix) == number
    ensures s == "" ==> number == 0
    ensures Strtoull(Some(s), radix) == if s == "" then Parsed(0, None) else Parsed(number, Some(|body|))
  {
    ParseText(body, tail, radix);
  }

  /** The part of `strtoll` after the sign. */
  lemma ScanSignedText(sign: string, body: string, tail: string, radix: nat, negative: bool)
    requires ValidRadix(radix) && AllDigits(body, radix) && Blank(tail)
    ensures ScanSigned(sign + body + tail, |sign|, radix, negative) ==
      if Value(body, radix) >= HALF then Overflows
      else SignedParsed(if negative then -(Value(body, radix) as int) else Value(body, radix), Some(|sign| + |body|))
  {
    TextParts(sign, body, tail, radix);
  }

  lemma StrtollScans(s: string, radix: int)
    requires ValidRadix(radix) && At(s, 0) != '\0' && At(s, SignLength(s)) != '\0'
    ensures Strtoll(Some(s), radix) == ScanSigned(s, SignLength(s), radix, At(s, 0) == '-')
  {
  }

  lemma ParseNegativeText(s: string, body: string, tail: string, radix: nat, n: int)
    requires ValidRadix(radix) && AllDigits(body, radix) && Blank(tail) && body != ""
    requires s == "-" + body + tail && Value(body, radix) == n
    ensures Strtoll(Some(s), radix) == if n >= HALF then Overflows else SignedParsed(-n, Some(1 + |body|))
  {
    assert IsDigit(body[0], radix);
    assert s[0] == '-' && s[1] == body[0];
    StrtollScans(s, radix);
    ScanSignedText("-", body, tail, radix, true);
  }

  lemma ParsePositiveText(s: string, body: string, tail: string, radix: nat, n: int)
    requires ValidRadix(radix) && AllDigits(body, radix) && Blank(tail)
    requires s == body + tail && Value(body, radix) == n
    ensures Strtoll(Some(s), radix) ==
      if s == "" then SignedParsed(0, None)
      else if n >= HALF then Overflows
      else SignedParsed(n, Some(|body|))
    ensures s == "" ==> n == 0
  {
    if s != "" {
      assert "" + body + tail == s;
      FirstChar(body, tail, radix);
      StrtollScans(s, radix);
      ScanSignedText("", body, tail, radix, false);
      assert At(s, 0) != '-';
    }
  }

  function Tail(number: Dword, signed: bool, f: Format): string
  {
    if f.left then Spaces(Magnitude(number, signed), Negative(number, signed), f) else ""
  }

  predicate LeadingSpace(number: Dword, signed: bool, f: Format)
  {
    !f.left && Spaces(Magnitude(number, signed), Negative(number, signed), f) != ""
  }

  lemma RenderParts(number: Dword, signed: bool, f: Format)
    ensures Blank(Tail(number, signed, f))
    ensures var s, n, negative := Render(number, signed, f), Magnitude(number, signed), Negative(number, signed);
      if LeadingSpace(number, signed, f) then Blank(s) && s != ""
      else s == Sign(negative) + Body(n, negative, f) + Tail(number, signed, f)
  {
  }

  lemma RenderPlain(number: Dword, signed: bool, f: Format)
    requires !LeadingSpace(number, signed, f) && !Negative(number, signed)
    ensures Render(number, signed, f) == Body(number, false, f) + Tail(number, signed, f)
    ensures Blank(Tail(number, signed, f))
  {
    RenderParts(number, signed, f);
    assert Sign(false) + Body(number, false, f) == Body(number, false, f);
  }

  lemma PrintParseBlank(number: Dword, f: Format)
    requires LeadingSpace(number, false, f)
    ensures Render(number, false, f) != ""
    ensures Strtoull(Some(Render(number, false, f)), Base(f.base)) == Parsed(0, Some(0))
  {
    var s := Render(number, false, f);
    RenderParts(number, false, f);
    ParseText("", s, Base(f.base));
    assert "" + s == s;
  }

  lemma PrintParseDigits(number: Dword, f: Format)
    requires !LeadingSpace(number, false, f)
    ensures Render(number, false, f) == "" ==> number == 0
    ensures Strtoull(Some(Render(number, false, f)), Base(f.base)) ==
      if Render(number, false, f) == "" then Parsed(0, None) else Parsed(number, Some(|Body(number, false, f)|))
  {
    var body, tail := Body(number, false, f), Tail(number, false, f);
    RenderPlain(number, false, f);
    BodyValue(number, false, f);
    ParseNumber(Render(number, false, f), body, tail, Base(f.base), number);
  }

  /** Printing then parsing with the same radix, for every number and format:
      the number and the end of its digits, unless blanks come first; an empty
      text reads as 0 with no end stored. */
  lemma PrintParse(number: Dword, f: Format)
    ensures var s := Render(number, false, f);
      Strtoull(Some(s), Base(f.base)) ==
        if s == "" then Parsed(0, None)
        else if LeadingSpace(number, false, f) then Parsed(0, Some(0))
        else Parsed(number, Some(|Body(number, false, f)|))
    ensures Render(number, false, f) == "" ==> number == 0
  {
    if LeadingSpace(number, false, f) {
      PrintParseBlank(number, f);
    } else {
      PrintParseDigits(number, f);
    }
  }

  /** A 64-bit pattern read as a signed number. */
  function Signed(number: Dword): int
  {
    if number >= HALF then number - DWORD else number
  }

  /** `pr_int` then `strtoll`: every signed number comes back with the end of
      its digits, except that the magnitude of INT64_MIN overflows. */
  lemma PrintParseSigned(number: Dword, f: Format)
    requires f.base == 10
    ensures LeadingSpace(number, true, f) ==>
      Strtoll(Some(Render(number, true, f)), 10) == SignedParsed(0, Some(0))
    ensures Render(number, true, f) == "" ==>
      Strtoll(Some(Render(number, true, f)), 10) == SignedParsed(0, None)
    ensures Render(number, true, f) != "" && !LeadingSpace(number, true, f) ==>
      var n, negative := Magnitude(number, true), Negative(number, true);
      Strtoll(Some(Render(number, true, f)), 10) ==
        if number == HALF then Overflows
        else SignedParsed(Signed(number), Some(|Sign(negative)| + |Body(n, negative, f)|))
    ensures Render(number, true, f) == "" ==> number == 0
  {
    if LeadingSpace(number, true, f) { SignedBlank(number, f); } else { SignedDigits(number, f); }
  }

  lemma SignedDigits(number: Dword, f: Format)
    requires f.base == 10 && !LeadingSpace(number, true, f)
    ensures Render(number, true, f) == "" ==> number == 0
    ensures Strtoll(Some(Render(number, true, f)), 10) ==
      if Render(number, true, f) == "" then SignedParsed(0, None)
      else if number == HALF then Overflows
      else SignedParsed(Signed(number), Some(|Sign(Negative(number, true))|
             + |Body(Magnitude(number, true), Negative(number, true), f)|))
  {
    if number >= HALF { SignedNegative(number, f); } else { SignedPositive(number, f); }
  }

  lemma SignedBlank(number: Dword, f: Format)
    requires LeadingSpace(number, true, f)
    ensures Render(number, true, f) != ""
    ensures Strtoll(Some(Render(number, true, f)), 10) == SignedParsed(0, Some(0))
  {
    var s := Render(number, true, f);
    RenderParts(number, true, f);
    assert "" + s == s;
    ParsePositiveText(s, "", s, 10, 0);
  }

  lemma SignedNegative(number: Dword, f: Format)
    requires f.base == 10 && !LeadingSpace(number, true, f) && number >= HALF
    ensures Render(number, true, f) != ""
    ensures Strtoll(Some(Render(number, true, f)), 10) ==
      if number == HALF then Overflows
      else SignedParsed(Signed(number), Some(1 + |Body(Magnitude(number, true), true, f)|))
  {
    var n := Magnitude(number, true);
    var body, tail := Body(n, true, f), Tail(number, true, f);
    RenderParts(number, true, f);
    BodyValue(n, true, f);
    ParseNegativeText(Render(number, true, f), body, tail, 10, n);
  }

  lemma SignedPositive(number: Dword, f: Format)
    requires f.base == 10 && !LeadingSpace(number, true, f) && number < HALF
    ensures Render(number, true, f) == "" ==> number == 0
    ensures Strtoll(Some(Render(number, true, f)), 10) ==
      if Render(number, true, f) == "" then SignedParsed(0, None)
      else SignedParsed(number, Some(|Body(number, false, f)|))
  {
    var s, body, tail := Render(number, true, f), Body(number, false, f), Tail(number, true, f);
    RenderPlain(number, true, f);
    BodyValue(number, false, f);
    ParsePositiveText(s, body, tail, 10, number);
  }

  // ---- radix 0 and refused texts ----

  /** Text that starts with digits of `radix` at `p`, up to a blank or the end. */
  lemma ScanAt(s: string, p: nat, body: string, tail: string, radix: nat)
    requires p <= |s| && s[p..] == body + tail && AllDigits(body, radix) && Blank(tail)
    ensures DigitsEnd(s, p, radix) == p + |body| <= |s| && s[p..p + |body|] == body
  {
    assert s == s[..p] + body + tail;
    TextParts(s[..p], body, tail, radix);
  }

  /** The prefix that announces a base. */
  predicate Announces(prefix: string, base: nat)
  {
    match base
    case 10 => prefix == ""
    case 8 => prefix == "0"
    case 16 => prefix == "0x" || prefix == "0X"
    case 2 => prefix == "0b" || prefix == "0B"
    case _ => false
  }

  /** Radix 0: a number other than 0 reads back when it is written with the prefix of
      its base: none for 10, "0" for 8, "0x" or "0X" for 16, "0b" or "0B" for 2; and
      the end pointer lies behind its digits. */
  lemma AutoRadix(n: Dword, lower: bool, prefix: string, base: nat)
    requires n > 0 && Announces(prefix, base)
    ensures 2 <= base <= 16
    ensures Strtoull(Some(prefix + Digits(n, base, lower)), 0) == Parsed(n, Some(|prefix| + |Digits(n, base, lower)|))
  {
    var d := Digits(n, base, lower);
    DigitsForm(n, base, lower);
    DigitsValue(n, base, lower);
    AutoText(n, d, prefix, base);
  }

  lemma AutoText(n: Dword, d: string, prefix: string, base: nat)
    requires Announces(prefix, base) && d != "" && d[0] != '0' && AllDigits(d, base) && Value(d, base) == n
    ensures Strtoull(Some(prefix + d), 0) == Parsed(n, Some(|prefix| + |d|))
  {
    var s := prefix + d;
    assert s[|prefix|..] == d + "";
    ScanAt(s, |prefix|, d, "", base);
    AutoPrefix(d, prefix, base);
    StrtoullScans(s, 0, Start(|prefix|, base));
  }

  lemma AutoPrefix(d: string, prefix: string, base: nat)
    requires Announces(prefix, base) && d != "" && d[0] != '0' && IsDigit(d[0], base)
    ensures At(prefix + d, 0) != '\0' && Prefix(prefix + d, 0, 0) == Some(Start(|prefix|, base))
  {
    var s := prefix + d;
    assert |prefix| < |s| && s[|prefix|] == d[0];
    assert |prefix| > 0 ==> s[0] == prefix[0];
    assert |prefix| > 1 ==> s[1] == prefix[1];
  }

  lemma StrtoullScans(s: string, radix: int, start: Start)
    requires At(s, 0) != '\0' && Prefix(s, 0, radix) == Some(start) && ValidRadix(start.radix)
    ensures Strtoull(Some(s), radix) == ScanUnsigned(s, start.pos, start.radix)
  {
  }

  /** A sign in front of a text, also of one with a radix prefix: `strtoll` reads the
      digits that `strtoull` reads behind it, negated for a minus, unless that
      overflows; a plus changes nothing but the end. */
  lemma SignedPrefix(s: string, t: string, radix: int, start: Start)
    requires |t| == |s| + 1 && t[1..] == s && (t[0] == '+' || t[0] == '-')
    requires At(s, 0) != '\0' && Prefix(s, 0, radix) == Some(start) && ValidRadix(start.radix)
    ensures Strtoull(Some(s), radix) == ScanUnsigned(s, start.pos, start.radix)
    ensures Strtoll(Some(t), radix) == ShiftEnd(ScanSigned(s, start.pos, start.radix, t[0] == '-'))
  {
    StrtoullScans(s, radix, start);
    PrefixShift(s, t, radix);
    assert t[1] == s[0];
    StrtollSigned(t, radix, Start(1 + start.pos, start.radix));
    SignedScan(s, t, start.pos, start.radix, t[0] == '-');
  }

  /** The same parse one character further on. */
  function ShiftEnd(r: SignedParsed): SignedParsed
  {
    if r.SignedParsed? && r.end.Some? then r.(end := Some(r.end.value + 1)) else r
  }

  lemma SignedScan(s: string, t: string, p: nat, radix: nat, negative: bool)
    requires p <= |s| && |t| == |s| + 1 && t[1..] == s
    ensures ScanSigned(t, 1 + p, radix, negative) == ShiftEnd(ScanSigned(s, p, radix, negative))
  {
    DigitsShift(s, t, p, radix);
    var e := DigitsEnd(s, p, radix);
    assert t[1 + p..1 + e] == s[p..e];
  }

  lemma StrtollSigned(t: string, radix: int, start: Start)
    requires |t| > 1 && (t[0] == '+' || t[0] == '-') && t[1] != '\0'
    requires Prefix(t, 1, radix) == Some(start) && ValidRadix(start.radix)
    ensures Strtoll(Some(t), radix) == ScanSigned(t, start.pos, start.radix, t[0] == '-')
  {
  }

  lemma PrefixShift(s: string, t: string, radix: int)
    requires |t| == |s| + 1 && t[1..] == s && At(s, 0) != '\0'
    requires Prefix(s, 0, radix).Some?
    ensures Prefix(t, 1, radix) == Some(Start(1 + Prefix(s, 0, radix).value.pos, Prefix(s, 0, radix).value.radix))
  {
    assert At(t, 1) == At(s, 0);
    assert |s| > 1 ==> t[2] == t[1..][1] == s[1];
    assert At(t, 2) == At(s, 1);
  }

  lemma {:induction false} DigitsShift(s: string, t: string, p: nat, radix: nat)
    requires p <= |s| && |t| == |s| + 1 && t[1..] == s
    ensures DigitsEnd(t, p + 1, radix) == DigitsEnd(s, p, radix) + 1
    decreases |s| - p
  {
    if p < |s| {
      assert t[p + 1] == t[1..][p] == s[p];
      DigitsShift(s, t, p + 1, radix);
    }
  }

  /** What the parsers refuse: NULL, the empty text, a lone "0" in radix 0 and a radix
      outside 2 to 36 give 0 and store no end; a lone sign gives 0 and the start. */
  lemma Refused(s: string, radix: int)
    ensures Strtoull(None, radix) == Parsed(0, None) && Strtoll(None, radix) == SignedParsed(0, None)
    ensures Strtoull(Some(""), radix) == Parsed(0, None) && Strtoll(Some(""), radix) == SignedParsed(0, None)
    ensures Strtoull(Some("0"), 0) == Parsed(0, None) && Strtoll(Some("0"), 0) == SignedParsed(0, None)
    ensures radix < 0 || radix == 1 || radix > 36 ==> Strtoull(Some(s), radix) == Parsed(0, None)
    ensures (radix < 0 || radix == 1 || radix > 36) && s != "+" && s != "-" && (forall c :: c in s ==> c != '\0') ==>
      Strtoll(Some(s), radix) == SignedParsed(0, None)
    ensures Strtoll(Some("+"), radix) == SignedParsed(0, Some(0))
    ensures Strtoll(Some("-"), radix) == SignedParsed(0, Some(0))
  {
    if s != "" && s != "+" && s != "-" && (forall c :: c in s ==> c != '\0') {
      assert s[0] in s;
      if |s| > 1 { assert s[1] in s; }
      assert |s| == 1 ==> s == [s[0]];
    }
  }

  /** The digit values of all characters: 0 to 9, then 10 to 35 for the letters of
      either case, and none for any other. */
  lemma DigitsOfAll(c: char)
    ensures DigitOf(c) ==
      if c in "0123456789" then Some((c as int) - 48)
      else if c in "abcdefghijklmnopqrstuvwxyz" then Some((c as int) - 87)
      else if c in "ABCDEFGHIJKLMNOPQRSTUVWXYZ" then Some((c as int) - 55)
      else None
  {
    RangeChars(c, "0123456789", '0');
    RangeChars(c, "abcdefghijklmnopqrstuvwxyz", 'a');
    RangeChars(c, "ABCDEFGHIJKLMNOPQRSTUVWXYZ", 'A');
  }

  lemma RangeChars(c: char, s: string, first: char)
    requires forall k :: 0 <= k < |s| ==> s[k] as int == first as int + k
    ensures c in s <==> first as int <= c as int < first as int + |s|
  {
    if first as int <= c as int < first as int + |s| { assert s[c as int - first as int] == c; }
  }
}
