/** The number printer of printf.c: `pr_number`, `pr_uint` and `pr_int`. */
module Printf {
  import opened Words
  import opened Divide
  import opened NumberText

  const MAX_BUFFER_SIZE: nat := 64

  // ---- digits by shifting ----

  lemma LowBit(j: nat)
    ensures And(j, 1) == j % 2
  {
    if j > 0 { AndZero(j / 2); assert And(j, 1) == j % 2 + 2 * And(j / 2, 0); }
  }

  lemma AndTwo(j: nat)
    ensures And(j, 3) == j % 4
  {
    if j > 0 { LowBit(j / 2); assert And(j, 3) == j % 2 + 2 * And(j / 2, 1); }
  }

  lemma AndThree(j: nat)
    ensures And(j, 7) == j % 8
  {
    if j > 0 { AndTwo(j / 2); assert And(j, 7) == j % 2 + 2 * And(j / 2, 3); }
  }

  lemma AndFour(j: nat)
    ensures And(j, 15) == j % 16
  {
    if j > 0 {
      AndThree(j / 2);
      assert And(j, 15) == j % 2 + 2 * And(j / 2, 7);
      LowFour(j, j / 2);
    }
  }

  lemma LowFour(j: nat, h: nat)
    requires h == j / 2
    ensures j % 16 == j % 2 + 2 * (h % 8)
  {
    var q, r := h / 8, 2 * (h % 8) + j % 2;
    assert j == 16 * q + r && r < 16;
    assert (16 * q + r) % 16 == r;
  }

  /** The digit loops of the four bases differ only in this step: masks and
      shifts, or for base 10 the runtime division. */
  method NextDigit(j: Dword, base: nat) returns (digit: nat, rest: Dword)
    requires Printable(base)
    ensures digit == j % base && rest == j / base && digit < 16
  {
    match base
    case 2 =>
      LowBit(j);
      digit, rest := And(j, 1), Shr(j, 1);
    case 8 =>
      AndThree(j);
      digit, rest := And(j, 7), Shr(j, 3);
    case 16 =>
      AndFour(j);
      digit, rest := And(j, 15), Shr(j, 4);
    case _ =>
      var q, r := UDivMod(j, 10);
      digit, rest := r.value, q;
  }

  // ---- the digit buffer, least significant digit first ----

  function Reversed(s: string): string
  {
    if s == "" then "" else [s[|s| - 1]] + Reversed(s[..|s| - 1])
  }

  /** `i` digits are in the buffer and the number `j` remains. */
  ghost predicate Filled(number: Dword, base: nat, lower: bool, s: string, j: Dword)
  {
    && 2 <= base <= 16
    && |s| <= 64
    && j < Pow2(64 - |s|)
    && Digits(number, base, lower) == Digits(j, base, lower) + Reversed(s)
  }

  lemma FilledStart(number: Dword, base: nat, lower: bool)
    requires 2 <= base <= 16
    ensures Filled(number, base, lower, "", number)
  {
    Pow64();
  }

  lemma FilledStep(number: Dword, base: nat, lower: bool, s: string, j: Dword, digit: nat, rest: Dword)
    requires Filled(number, base, lower, s, j) && j > 0
    requires digit == j % base && rest == j / base && digit < 16
    ensures |s| < 64
    ensures Filled(number, base, lower, s + [DigitChar(digit, lower)], rest)
  {
    var c := DigitChar(digit, lower);
    DivSmaller(j, base);
    assert (s + [c])[..|s|] == s;
    assert Reversed(s + [c]) == [c] + Reversed(s);
    assert Digits(j, base, lower) == Digits(rest, base, lower) + [c];
  }

  lemma FilledEnd(number: Dword, base: nat, lower: bool, s: string, j: Dword)
    requires Filled(number, base, lower, s, j) && (j == 0 || |s| == 64)
    ensures Digits(number, base, lower) == Reversed(s)
  {
  }

  class Output {
    var text: string
    var count: nat

    /** The counting output object: `count` is the length, modulo 2^32. */
    ghost predicate Valid()
      reads this
    {
      count == |text| % WORD
    }

    constructor ()
      ensures Valid() && text == ""
    {
      text, count := "", 0;
    }

    method OutputChar(c: char)
      requires Valid()
      modifies this
      ensures Valid() && text == old(text) + [c]
    {
      text := text + [c];
      count := (count + 1) % WORD;
    }

    method OutputZeros(n: nat)
      requires Valid()
      modifies this
      ensures Valid() && text == old(text) + Zeros(n)
    {
      var zeros := n;
      while zeros > 0
        invariant 0 <= zeros <= n && Valid()
        invariant text == old(text) + Zeros(n - zeros)
      {
        zeros := zeros - 1;
        OutputChar('0');
      }
    }

    method OutputSpaces(n: nat)
      requires Valid()
      modifies this
      ensures Valid() && text == old(text) + Blanks(n)
    {
      var spaces := n;
      while spaces > 0
        invariant 0 <= spaces <= n && Valid()
        invariant text == old(text) + Blanks(n - spaces)
      {
        spaces := spaces - 1;
        OutputChar(' ');
      }
    }

    /** The digits come out in the opposite order. */
    method OutputDigits(buffer: array<char>, n: nat)
      requires Valid() && n <= buffer.Length
      modifies this
      ensures Valid() && text == old(text) + Reversed(buffer[..n])
    {
      var digits := n;
      while digits > 0
        invariant 0 <= digits <= n && Valid()
        invariant text + Reversed(buffer[..digits]) == old(text) + Reversed(buffer[..n])
      {
        digits := digits - 1;
        OutputChar(buffer[digits]);
        assert buffer[..digits + 1][..digits] == buffer[..digits];
      }
    }
  }

  method Put(buffer: array<char>, i: nat, c: char)
    requires i < buffer.Length
    modifies buffer
    ensures buffer[..i + 1] == old(buffer[..i]) + [c]
  {
    buffer[i] := c;
  }

  /** All digits of any nonzero 64-bit number fit the buffer, in every base. */
  method FillNonzero(buffer: array<char>, number: Dword, base: nat, lower: bool) returns (i: nat)
    requires buffer.Length == MAX_BUFFER_SIZE && Printable(base)
    modifies buffer
    ensures i <= MAX_BUFFER_SIZE && Reversed(buffer[..i]) == Digits(number, base, lower)
  {
    var j := number;
    i := 0;
    FilledStart(number, base, lower);
    assert buffer[..0] == "";
    while j != 0 && i < MAX_BUFFER_SIZE
      invariant i <= MAX_BUFFER_SIZE
      invariant Filled(number, base, lower, buffer[..i], j)
      decreases MAX_BUFFER_SIZE - i
    {
      var digit, rest := NextDigit(j, base);
      FilledStep(number, base, lower, buffer[..i], j, digit, rest);
      Put(buffer, i, DigitChar(digit, lower));
      i, j := i + 1, rest;
    }
    FilledEnd(number, base, lower, buffer[..i], j);
  }

  method FillDigits(buffer: array<char>, number: Dword, base: nat, lower: bool) returns (i: nat)
    requires buffer.Length == MAX_BUFFER_SIZE && Printable(base)
    modifies buffer
    ensures i <= MAX_BUFFER_SIZE
    ensures Reversed(buffer[..i]) == if number == 0 then "0" else Digits(number, base, lower)
  {
    if number == 0 {
      buffer[0] := '0';
      i := 1;
      assert buffer[..1][..0] == "";
    } else {
      i := FillNonzero(buffer, number, base, lower);
    }
  }

  /** `(uint64_t)(-(int64_t)(number + 1)) + 1` */
  function Negate(number: Dword): (m: Dword)
    requires number >= HALF
    ensures m == DWORD - number
  {
    var t := (number + 1) % DWORD;
    (-Signed(t)) % DWORD + 1
  }

  method PrNumber(out: Output, buffer: array<char>, number: Dword, signed: bool, f: Format)
    requires out.Valid() && buffer.Length == MAX_BUFFER_SIZE
    modifies out, buffer
    ensures out.Valid() && out.text == old(out.text) + Render(number, signed, f)
  {
    var negative, digits := SignAndDigits(buffer, number, signed, f);
    ReversedLength(buffer[..digits]);
    var zeros, spaces := Padding(f, digits, negative);
    Emit(out, buffer, digits, zeros, spaces, negative == 1, f.left);
  }

  /** The first half of `pr_number`: sign, magnitude and digits. */
  method SignAndDigits(buffer: array<char>, number: Dword, signed: bool, f: Format) returns (negative: nat, digits: nat)
    requires buffer.Length == MAX_BUFFER_SIZE
    modifies buffer
    ensures negative == (if Negative(number, signed) then 1 else 0) && digits <= MAX_BUFFER_SIZE
    ensures Reversed(buffer[..digits]) == Numeral(Magnitude(number, signed), f)
  {
    var base := if !Printable(f.base) then 10 else f.base;
    var n := number;
    negative := 0;
    if signed && Signed(number) < 0 {
      negative, n := 1, Negate(number);
    }
    digits := FillDigits(buffer, n, base, f.lower);
    if f.precision == 0 && n == 0 {
      digits := 0;
    }
  }

  method Padding(f: Format, digits: nat, negative: nat) returns (zeros: nat, spaces: nat)
    ensures zeros == ZeroCount(f, digits, negative) && spaces == SpaceCount(f, digits, negative)
  {
    zeros, spaces := 0, 0;
    if f.precision >= 0 {
      zeros := Max(f.precision - digits, 0);
      spaces := Max(f.width - digits - zeros - negative, 0);
    } else if f.pad == '0' {
      zeros := Max(f.width - digits - negative, 0);
    } else {
      spaces := Max(f.width - digits - negative, 0);
    }
  }

  lemma ReversedLength(s: string)
    ensures |Reversed(s)| == |s|
  {
  }

  method Emit(out: Output, buffer: array<char>, digits: nat, zeros: nat, spaces: nat, negative: bool, left: bool)
    requires out.Valid() && digits <= buffer.Length
    modifies out
    ensures out.Valid()
    ensures out.text == old(out.text) +
      Assemble(left, Blanks(spaces), Sign(negative), Zeros(zeros) + Reversed(buffer[..digits]))
  {
    if !left {
      out.OutputSpaces(spaces);
    }
    if negative {
      out.OutputChar('-');
    }
    out.OutputZeros(zeros);
    out.OutputDigits(buffer, digits);
    if left {
      out.OutputSpaces(spaces);
    }
  }

  method PrUint(out: Output, buffer: array<char>, number: Dword, f: Format)
    requires out.Valid() && buffer.Length == MAX_BUFFER_SIZE
    modifies out, buffer
    ensures out.Valid() && out.text == old(out.text) + Render(number, false, f)
  {
    PrNumber(out, buffer, number, false, f);
  }

  /** Signed numbers are always printed in base 10. */
  method PrInt(out: Output, buffer: array<char>, number: int, f: Format)
    requires out.Valid() && buffer.Length == MAX_BUFFER_SIZE
    requires -(HALF as int) <= number < HALF
    modifies out, buffer
    ensures out.Valid() && out.text == old(out.text) + Render(number % DWORD, true, f.(base := 10, lower := false))
  {
    PrNumber(out, buffer, number % DWORD, true, f.(base := 10, lower := false));
  }
}
