/** Decimal numerals as Go's package `strconv` prints and reads them. */
module Decimal {
  const MAX_INT := 0x7FFF_FFFF_FFFF_FFFF
  const MIN_INT := -0x8000_0000_0000_0000

  predicate IsDigit(c: char) {
    '0' <= c <= '9'
  }

  predicate AllDigits(s: string) {
    forall i | 0 <= i < |s| :: IsDigit(s[i])
  }

  function Digit(n: nat): char
    requires n < 10
  {
    ('0' as int + n) as char
  }

  /** `FormatInt` for non-negative numbers. */
  function FormatNat(n: nat): (s: string)
    ensures s != "" && AllDigits(s)
  {
    if n < 10 then [Digit(n)] else FormatNat(n / 10) + [Digit(n % 10)]
  }

  function FormatInt(n: int): string {
    if n < 0 then "-" + FormatNat(-n) else FormatNat(n)
  }

  function NatValue(s: string): nat
    requires AllDigits(s)
  {
    if s == "" then 0 else 10 * NatValue(s[..|s| - 1]) + (s[|s| - 1] as int - '0' as int)
  }

  datatype Parsed = Number(value: int) | SyntaxError | RangeError

  /** `Atoi`: an optional sign and at least one digit; the number must fit into 64 bits. */
  function Atoi(s: string): Parsed {
    var signed := s != "" && (s[0] == '-' || s[0] == '+');
    var digits := if signed then s[1..] else s;
    if digits == "" || !AllDigits(digits) then SyntaxError
    else
      var n: int := if signed && s[0] == '-' then 0 - NatValue(digits) else NatValue(digits);
      if MIN_INT <= n <= MAX_INT then Number(n) else RangeError
  }

  lemma {:induction false} NatValueOfFormat(n: nat)
    ensures NatValue(FormatNat(n)) == n
  {
    var s := FormatNat(n);
    if n >= 10 {
      NatValueOfFormat(n / 10);
      assert s[..|s| - 1] == FormatNat(n / 10);
    } else {
      assert s[..0] == "";
    }
  }

  /** Reading a printed number gives the number. */
  lemma AtoiOfFormat(n: int)
    requires MIN_INT <= n <= MAX_INT
    ensures Atoi(FormatInt(n)) == Number(n)
  {
    hide FormatNat, NatValue;
    if n < 0 {
      NatValueOfFormat(-n);
      assert FormatInt(n)[1..] == FormatNat(-n);
    } else {
      NatValueOfFormat(n);
      assert IsDigit(FormatNat(n)[0]);
    }
  }

  /** An optional sign, then digits, with any number of zeros in front. */
  predicate IsNumeral(s: string, sign: string, digits: string, n: int) {
    && s == sign + digits && (sign == "" || sign == "+" || sign == "-") && digits != "" && AllDigits(digits)
    && n == (if sign == "-" then -1 else 1) * NatValue(digits)
  }

  /** What `Atoi` reads: exactly these numerals, of numbers of 64 bits. */
  lemma AtoiExactly(s: string, n: int)
    ensures Atoi(s) == Number(n) <==> MIN_INT <= n <= MAX_INT && exists sign, digits :: IsNumeral(s, sign, digits, n)
  {
    hide NatValue;
    if Atoi(s) == Number(n) {
      var signed := s[0] == '-' || s[0] == '+';
      assert s == [s[0]] + s[1..] && s == "" + s;
      assert IsNumeral(s, if signed then [s[0]] else "", if signed then s[1..] else s, n);
    }
    if sign, digits :| IsNumeral(s, sign, digits, n) {
      assert IsDigit(digits[0]);
      if sign == "" {
        assert s == digits;
      } else {
        assert s[1..] == digits && s[0] == sign[0];
      }
    }
  }

  /** Different numbers are printed differently, whatever their size. */
  lemma FormatIsInjective(m: int, n: int)
    requires FormatInt(m) == FormatInt(n)
    ensures m == n
  {
    hide FormatNat, NatValue;
    if m < 0 {
      NatValueOfFormat(-m);
      assert FormatInt(m)[1..] == FormatNat(-m);
    } else {
      NatValueOfFormat(m);
      assert IsDigit(FormatNat(m)[0]);
    }
    if n < 0 {
      NatValueOfFormat(-n);
      assert FormatInt(n)[1..] == FormatNat(-n);
    } else {
      NatValueOfFormat(n);
      assert IsDigit(FormatNat(n)[0]);
    }
  }

  /** A printed number consists of digits and a minus sign. */
  lemma FormatBytes(n: int)
    ensures forall i | 0 <= i < |FormatInt(n)| :: FormatInt(n)[i] == '-' || IsDigit(FormatInt(n)[i])
  {
  }
}
