/** `strtol` as `utils::StrToLong` and `utils::HexStrToLong` use it, and the matching printers. */
module Numbers {
  import opened Text
  import opened Iteration

  const LONG_MAX: int := 0x7FFF_FFFF_FFFF_FFFF
  const LONG_MIN: int := -0x8000_0000_0000_0000
  const SIZE_T: nat := 0x1_0000_0000_0000_0000

  datatype Base = Decimal | Hex

  predicate IsDigitOf(c: char, base: Base) {
    IsDigit(c) || (base.Hex? && ('a' <= c <= 'f' || 'A' <= c <= 'F'))
  }

  function DigitValue(c: char): (d: nat)
    requires IsDigitOf(c, Hex)
    ensures d < 16 && (IsDigit(c) ==> d < 10)
  {
    if IsDigit(c) then (c - '0') as int
    else if 'a' <= c then (c - 'a') as int + 10
    else (c - 'A') as int + 10
  }

  /** The digits of base 16 in the order of their values, letters in either case, and those of base 10. */
  lemma DigitsMean(c: char, d: nat)
    requires d < 16
    ensures IsDigitOf(c, Hex) && DigitValue(c) == d <==> c == "0123456789abcdef"[d] || c == "0123456789ABCDEF"[d]
    ensures IsDigitOf(c, Decimal) && DigitValue(c) == d <==> d < 10 && c == "0123456789"[d]
  {
    var lower, upper := "0123456789abcdef", "0123456789ABCDEF";
    assert lower[d] == if d < 10 then '0' + d as char else 'a' + (d - 10) as char;
    assert upper[d] == if d < 10 then '0' + d as char else 'A' + (d - 10) as char;
    assert d < 10 ==> "0123456789"[d] == '0' + d as char;
  }

  predicate AllDigits(s: string, base: Base) {
    forall i {:trigger IsDigitOf(s[i], base)} | 0 <= i < |s| :: IsDigitOf(s[i], base)
  }

  function Value(s: string, base: Base): nat
    requires AllDigits(s, base)
  {
    if s == "" then 0
    else
      var high := Value(s[..|s| - 1], base);
      (if base.Hex? then 16 * high else 10 * high) + DigitValue(s[|s| - 1])
  }

  function Sixteenth(n: nat): nat { n / 16 }

  function Tenth(n: nat): nat { n / 10 }

  /** Positional notation: the digit `k` places in front of the last is what `k` divisions leave, modulo the base. */
  lemma {:induction false} PlacesOfValue(s: string, base: Base, k: nat)
    requires AllDigits(s, base) && k <= |s|
    ensures base.Hex? ==> Iterate(Sixteenth, Value(s, base), k) == Value(s[..|s| - k], base)
    ensures base.Decimal? ==> Iterate(Tenth, Value(s, base), k) == Value(s[..|s| - k], base)
    decreases k
  {
    if k == 0 {
      assert s[..|s|] == s;
    } else {
      assert IsDigitOf(s[|s| - 1], base);
      PlacesOfValue(s[..|s| - 1], base, k - 1);
      assert s[..|s| - 1][..|s| - k] == s[..|s| - k];
    }
  }

  lemma LastDigit(s: string, base: Base)
    requires s != "" && AllDigits(s, base)
    ensures IsDigitOf(s[|s| - 1], base)
    ensures Value(s, base) % (if base.Hex? then 16 else 10) == DigitValue(s[|s| - 1])
  {
    assert IsDigitOf(s[|s| - 1], base);
    if base.Hex? {
      RemainderBy16(Value(s[..|s| - 1], base), DigitValue(s[|s| - 1]));
    } else {
      RemainderBy10(Value(s[..|s| - 1], base), DigitValue(s[|s| - 1]));
    }
  }

  lemma RemainderBy16(high: nat, d: nat)
    requires d < 16
    ensures (16 * high + d) % 16 == d
  {
  }

  lemma RemainderBy10(high: nat, d: nat)
    requires d < 10
    ensures (10 * high + d) % 10 == d
  {
  }

  lemma HexPlaces(s: string, k: nat)
    requires AllDigits(s, Hex) && k < |s|
    ensures IsDigitOf(s[|s| - 1 - k], Hex)
    ensures Iterate(Sixteenth, Value(s, Hex), k) % 16 == DigitValue(s[|s| - 1 - k])
    ensures Iterate(Sixteenth, Value(s, Hex), |s|) == 0
  {
    PlacesOfValue(s, Hex, k);
    PlacesOfValue(s, Hex, |s|);
    LastDigit(s[..|s| - k], Hex);
  }

  lemma DecimalPlaces(s: string, k: nat)
    requires AllDigits(s, Decimal) && k < |s|
    ensures IsDigitOf(s[|s| - 1 - k], Decimal)
    ensures Iterate(Tenth, Value(s, Decimal), k) % 10 == DigitValue(s[|s| - 1 - k])
    ensures Iterate(Tenth, Value(s, Decimal), |s|) == 0
  {
    PlacesOfValue(s, Decimal, k);
    PlacesOfValue(s, Decimal, |s|);
    LastDigit(s[..|s| - k], Decimal);
  }

  /** What follows one sign. */
  function Unsigned(s: string): string {
    if s != "" && (s[0] == '+' || s[0] == '-') then s[1..] else s
  }

  /** What follows, in base 16, a prefix `0x`: with leading space and a sign gone, the digits that `strtol` reads. */
  function Unprefixed(s: string, base: Base): string {
    if base.Hex? && |s| > 2 && s[0] == '0' && (s[1] == 'x' || s[1] == 'X') && IsDigitOf(s[2], Hex) then s[2..] else s
  }

  /**
   `strtol` on a NUL-free string, with -1 for text that it does not use up and for values out of range.
   Nothing at all counts as zero, because an empty string is used up.
   */
  function StrToLong(s: string, base: Base): (r: int)
    ensures LONG_MIN <= r <= LONG_MAX
  {
    var t := SkipSpace(s);
    var digits := Unprefixed(Unsigned(t), base);
    if s == "" then 0
    else if digits == "" || !AllDigits(digits, base) then -1
    else
      var v: int := Value(digits, base);
      var signed := if t[0] == '-' then -v else v;
      if LONG_MIN <= signed <= LONG_MAX then signed else -1
  }

  function DigitChar(d: nat): (c: char)
    requires d < 16
    ensures IsDigitOf(c, Hex) && DigitValue(c) == d && (d < 10 ==> IsDigit(c))
  {
    if d < 10 then '0' + d as char else 'a' + (d - 10) as char
  }

  /** `n` as printed by `operator<<`, in lower case in base 16. */
  function Print(n: nat, base: Base): (s: string)
    ensures s != "" && AllDigits(s, base)
    decreases n
  {
    if base.Hex? then
      (if n < 16 then "" else Print(n / 16, base)) + [DigitChar(n % 16)]
    else
      (if n < 10 then "" else Print(n / 10, base)) + [DigitChar(n % 10)]
  }

  lemma {:induction false} ValueOfPrint(n: nat, base: Base)
    ensures Value(Print(n, base), base) == n
    decreases n
  {
    var s := Print(n, base);
    if base.Hex? {
      if n < 16 {
        assert s[..|s| - 1] == "";
      } else {
        ValueOfPrint(n / 16, base);
        assert s[..|s| - 1] == Print(n / 16, base);
      }
    } else {
      if n < 10 {
        assert s[..|s| - 1] == "";
      } else {
        ValueOfPrint(n / 10, base);
        assert s[..|s| - 1] == Print(n / 10, base);
      }
    }
  }

  /** A string of digits is read as its value. */
  lemma StrToLongOfDigits(s: string, base: Base)
    requires s != "" && AllDigits(s, base) && Value(s, base) <= LONG_MAX
    ensures StrToLong(s, base) == Value(s, base)
  {
    assert IsDigitOf(s[0], base);
    assert SkipSpace(s) == s && Unsigned(s) == s;
    assert Unprefixed(s, base) == s by {
      if |s| > 2 { assert IsDigitOf(s[1], base); }
    }
  }

  /** White space, perhaps a sign, perhaps a prefix in base 16, and digits. */
  predicate IsNumeral(space: string, sign: string, prefix: string, digits: string, base: Base) {
    && (forall i | 0 <= i < |space| :: IsSpace(space[i])) && (sign == "" || sign == "+" || sign == "-")
    && (prefix == "" || (base.Hex? && (prefix == "0x" || prefix == "0X"))) && digits != "" && AllDigits(digits, base)
  }

  function InRange(v: int): int {
    if -0x8000_0000_0000_0000 <= v <= 0x7FFF_FFFF_FFFF_FFFF then v else -1
  }

  lemma SignOff(sign: string, t: string)
    requires (sign == "" || sign == "+" || sign == "-") && t != "" && IsDigitOf(t[0], Hex)
    ensures Unsigned(sign + t) == t && !IsSpace((sign + t)[0]) && ((sign + t)[0] == '-' <==> sign == "-")
  {
    if sign == "" {
      assert sign + t == t;
    } else {
      assert (sign + t)[1..] == t;
    }
  }

  lemma PrefixOff(prefix: string, digits: string, base: Base)
    requires IsNumeral("", "", prefix, digits, base)
    ensures Unprefixed(prefix + digits, base) == digits && IsDigitOf((prefix + digits)[0], Hex)
  {
    var t := prefix + digits;
    assert IsDigitOf(digits[0], base);
    if prefix == "" {
      assert t == digits;
      if |digits| > 2 { assert IsDigitOf(digits[1], base); }
    } else {
      assert t[2] == digits[0] && t[2..] == digits;
    }
  }

  lemma DigitsAreRead(s: string, t: string, digits: string, base: Base)
    requires s != "" && t != "" && SkipSpace(s) == t && Unprefixed(Unsigned(t), base) == digits
    requires digits != "" && AllDigits(digits, base)
    ensures var v: int := Value(digits, base); StrToLong(s, base) == InRange(if t[0] == '-' then -v else v)
  {
  }

  /** Such a text is read as the number it spells, if that is in range ... */
  lemma NumeralIsRead(space: string, sign: string, prefix: string, digits: string, base: Base)
    requires IsNumeral(space, sign, prefix, digits, base)
    ensures var v: int := Value(digits, base);
            StrToLong(space + (sign + (prefix + digits)), base) == InRange(if sign == "-" then -v else v)
  {
    var u := prefix + digits;
    PrefixOff(prefix, digits, base);
    SignOff(sign, u);
    SkipSpaceOff(space, sign + u);
    DigitsAreRead(space + (sign + u), sign + u, digits, base);
  }

  lemma SignInFront(t: string) returns (sign: string)
    ensures t == sign + Unsigned(t) && (sign == "" || sign == "+" || sign == "-")
    ensures t != "" ==> (t[0] == '-' <==> sign == "-")
  {
    sign := if t != "" && (t[0] == '+' || t[0] == '-') then [t[0]] else "";
  }

  lemma PrefixInFront(u: string, base: Base) returns (prefix: string)
    ensures u == prefix + Unprefixed(u, base)
    ensures prefix == "" || (base.Hex? && (prefix == "0x" || prefix == "0X"))
  {
    prefix := if Unprefixed(u, base) == u then "" else u[..2];
  }

  /** ... and any other text but the empty one is not a number. */
  lemma OnlyNumeralsAreRead(s: string, base: Base) returns (space: string, sign: string, prefix: string, digits: string)
    requires s != "" && StrToLong(s, base) != -1
    ensures s == space + (sign + (prefix + digits)) && IsNumeral(space, sign, prefix, digits, base)
  {
    space := SpaceInFront(s);
    sign := SignInFront(SkipSpace(s));
    prefix := PrefixInFront(Unsigned(SkipSpace(s)), base);
    digits := Unprefixed(Unsigned(SkipSpace(s)), base);
  }

  lemma {:induction false} SpaceInFront(s: string) returns (space: string)
    ensures s == space + SkipSpace(s) && forall i | 0 <= i < |space| :: IsSpace(space[i])
  {
    if s != "" && IsSpace(s[0]) {
      var others := SpaceInFront(s[1..]);
      space := [s[0]] + others;
      assert s == [s[0]] + (others + SkipSpace(s));
    } else {
      space := "";
    }
  }

  /** A line of hexadecimal digits, upper case or lower case, that says `n`; zeros in front do not matter. */
  predicate IsSpelling(line: string, n: nat) {
    line != "" && AllDigits(line, Hex) && Value(line, Hex) == n
  }

  lemma PrintIsSpelling(n: nat)
    ensures IsSpelling(Print(n, Hex), n)
  {
    ValueOfPrint(n, Hex);
  }

  lemma NoDigitNoNumber(s: string)
    requires |s| == 1 && !IsSpace(s[0]) && !IsDigit(s[0])
    ensures StrToLong(s, Decimal) == -1
  {
    assert AllDigits(s, Decimal) ==> IsDigitOf(s[0], Decimal);
  }

  /** Printed numbers are read back. */
  lemma StrToLongOfPrint(n: nat, base: Base)
    requires n <= LONG_MAX
    ensures StrToLong(Print(n, base), base) == n
  {
    ValueOfPrint(n, base);
    StrToLongOfDigits(Print(n, base), base);
  }

  /** Printed numbers do not start with a superfluous zero, so a positive one has no more digits than its value. */
  lemma {:induction false} PrintIsShort(n: nat, base: Base)
    requires n > 0
    ensures |Print(n, base)| <= n
    decreases n
  {
    if base.Hex? && n >= 16 {
      PrintIsShort(n / 16, base);
    } else if base.Decimal? && n >= 10 {
      PrintIsShort(n / 10, base);
    }
  }
}
