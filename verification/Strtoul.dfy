/** The number parsers `strtoull` and `strtoll` (strtoul.c). */
module Strtoul {
  import opened Words
  import opened Divide
  import opened NumberText

  lemma MulMod(a: nat, b: nat, m: nat)
    requires m > 0
    ensures a % m * b % m == a * b % m
  {
    var q, r := a / m, a % m;
    assert a * b == (q * m + r) * b == (q * b) * m + r * b;
    AddMultiple(r * b, q * b, m);
  }

  lemma {:induction false} AddMultiple(x: nat, k: nat, m: nat)
    requires m > 0
    ensures (k * m + x) % m == x % m
  {
    if k > 0 {
      AddMultiple(x, k - 1, m);
      assert k * m + x == m + ((k - 1) * m + x);
      assert (m + ((k - 1) * m + x)) % m == ((k - 1) * m + x) % m by { ModStep((k - 1) * m + x, m); }
    }
  }

  lemma ModStep(x: nat, m: nat)
    requires m > 0
    ensures (m + x) % m == x % m
  {
    var q, r := x / m, x % m;
    assert m + x == (q + 1) * m + r;
    DivUnique(m + x, m, q + 1, r);
  }

  /** One digit of an accumulation modulo 2^64. */
  lemma AccumulateMod(v: nat, radix: nat, digit: nat)
    ensures (v % DWORD * radix + digit) % DWORD == (v * radix + digit) % DWORD
  {
    MulMod(v, radix, DWORD);
    var a, b := v % DWORD * radix, v * radix;
    AddMod(a, b, digit);
  }

  lemma AddMod(a: nat, b: nat, d: nat)
    requires a % DWORD == b % DWORD
    ensures (a + d) % DWORD == (b + d) % DWORD
  {
  }

  /** The digit classes of the loop body. */
  method ReadDigit(c: char) returns (digit: int)
    ensures digit == if DigitOf(c).Some? then DigitOf(c).value else -1
  {
    if '0' <= c <= '9' {
      digit := c as int - '0' as int;
    } else if 'a' <= c <= 'z' {
      digit := c as int - 'a' as int + 10;
    } else if 'A' <= c <= 'Z' {
      digit := c as int - 'A' as int + 10;
    } else {
      digit := -1;
    }
  }

  /** The radix-0 prefixes; None is the early return on a lone "0". */
  method ReadPrefix(s: string, p: nat, radix: int) returns (start: Option<Start>)
    requires p < |s|
    ensures start == Prefix(s, p, radix)
  {
    var q, r := p, radix;
    if r == 0 {
      if At(s, q) == '0' {
        q := q + 1;
        if At(s, q) == '\0' {
          return None;
        } else if At(s, q) == 'x' || At(s, q) == 'X' {
          q, r := q + 1, 16;
        } else if At(s, q) == 'b' || At(s, q) == 'B' {
          q, r := q + 1, 2;
        } else {
          r := 8;
        }
      } else {
        r := 10;
      }
    }
    start := Some(Start(q, r));
  }

  lemma SliceSnoc(s: string, a: nat, p: nat, radix: nat)
    requires a <= p < |s| && AllDigits(s[a..p], radix) && IsDigit(s[p], radix)
    ensures AllDigits(s[a..p + 1], radix)
    ensures Value(s[a..p + 1], radix) == Value(s[a..p], radix) * radix + DigitOf(s[p]).value
  {
    assert s[a..p + 1] == s[a..p] + [s[p]];
    ValueSnoc(s[a..p], s[p], radix);
  }

  method AccumulateUnsigned(s: string, start: nat, radix: nat) returns (value: Dword, p: nat)
    requires start <= |s|
    ensures Parsed(value, Some(p)) == ScanUnsigned(s, start, radix)
  {
    value, p := 0, start;
    while At(s, p) != '\0'
      invariant start <= p <= |s|
      invariant AllDigits(s[start..p], radix)
      invariant value == Value(s[start..p], radix) % DWORD
      decreases |s| - p
    {
      var digit := ReadDigit(s[p]);
      if digit < 0 || digit >= radix {
        break;
      }
      AccumulateMod(Value(s[start..p], radix), radix, digit);
      SliceSnoc(s, start, p, radix);
      value := (value * radix + digit) % DWORD;
      p := p + 1;
    }
    DigitsEndIs(s, start, p, radix);
  }

  /** `strtoull` */
  method ReadUnsigned(str: Option<string>, radix: int) returns (r: Parsed)
    ensures r == Strtoull(str, radix)
  {
    if str.None? || At(str.value, 0) == '\0' {
      return Parsed(0, None);
    }
    var start := ReadPrefix(str.value, 0, radix);
    if start.None? || start.value.radix < 2 || start.value.radix > 36 {
      return Parsed(0, None);
    }
    var value, p := AccumulateUnsigned(str.value, start.value.pos, start.value.radix);
    r := Parsed(value, Some(p));
  }

  lemma TimesAtLeast(v: nat, radix: nat)
    requires radix >= 1
    ensures v * radix >= v
  {
    assert v * radix == v + v * (radix - 1);
  }

  /** More digits never make the number smaller. */
  lemma {:induction false} ValueGrows(s: string, a: nat, p: nat, e: nat, radix: nat)
    requires a <= p <= e <= |s| && radix >= 1 && AllDigits(s[a..e], radix)
    ensures AllDigits(s[a..p], radix)
    ensures Value(s[a..p], radix) <= Value(s[a..e], radix)
    decreases e - p
  {
    assert s[a..p] == s[a..e][..p - a];
    if p < e {
      assert s[p] == s[a..e][p - a];
      SliceSnoc(s, a, p, radix);
      TimesAtLeast(Value(s[a..p], radix), radix);
      ValueGrows(s, a, p + 1, e, radix);
    }
  }

  /** Stops where the signed accumulation would overflow. */
  method AccumulateSigned(s: string, start: nat, radix: nat) returns (overflow: bool, value: int, p: nat)
    requires start <= |s| && radix >= 1
    ensures start <= p <= |s|
    ensures overflow == (Value(s[start..DigitsEnd(s, start, radix)], radix) >= HALF)
    ensures !overflow ==> p == DigitsEnd(s, start, radix) && value == Value(s[start..p], radix)
  {
    overflow, value, p := false, 0, start;
    while At(s, p) != '\0'
      invariant start <= p <= DigitsEnd(s, start, radix)
      invariant AllDigits(s[start..p], radix)
      invariant value == Value(s[start..p], radix) < HALF
      decreases |s| - p
    {
      var digit := ReadDigit(s[p]);
      if digit < 0 || digit >= radix {
        break;
      }
      SliceSnoc(s, start, p, radix);
      if p == DigitsEnd(s, start, radix) {
        assert false;
      }
      ValueGrows(s, start, p + 1, DigitsEnd(s, start, radix), radix);
      if value * radix + digit >= HALF {
        return true, value, p;
      }
      value := value * radix + digit;
      p := p + 1;
    }
    DigitsEndIs(s, start, p, radix);
  }

  /** `strtoll` */
  method ReadSigned(str: Option<string>, radix: int) returns (r: SignedParsed)
    ensures r == Strtoll(str, radix)
  {
    if str.None? || At(str.value, 0) == '\0' {
      return SignedParsed(0, None);
    }
    var s, p, negative := str.value, 0, false;
    if At(s, p) == '+' || At(s, p) == '-' {
      if At(s, p) == '-' {
        negative := true;
      }
      p := p + 1;
      if At(s, p) == '\0' {
        return SignedParsed(0, Some(0));
      }
    }
    var start := ReadPrefix(s, p, radix);
    if start.None? || start.value.radix < 2 || start.value.radix > 36 {
      return SignedParsed(0, None);
    }
    var overflow, value, e := AccumulateSigned(s, start.value.pos, start.value.radix);
    if overflow {
      return Overflows;
    }
    if negative {
      value := -value;
    }
    r := SignedParsed(value, Some(e));
  }
}
