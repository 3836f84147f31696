/** prefs_number() of src/prefs.c: a decimal number read downwards, so that the lowest LONG
    needs no special case, with every intermediate within 32 bits. */
module PrefsNumber {
  import opened Machine

  newtype int32 = x: int | -0x8000_0000 <= x < 0x8000_0000

  const PREFS_NUMBER_LEAST: int32 := -0x8000_0000
  const PREFS_NUMBER_MOST: int32 := 0x7FFF_FFFF

  // ---- what a number is -----------------------------------------------------------------

  ghost predicate AllDigits(s: string) {
    forall i :: 0 <= i < |s| ==> IsDigit(s[i])
  }

  function DigitValue(c: char): int {
    c as int - '0' as int
  }

  /** The mathematical value of decimal digits. */
  ghost function Value(s: string): int {
    if s == [] then 0 else Value(s[..|s| - 1]) * 10 + DigitValue(s[|s| - 1])
  }

  function Unsigned(s: string): string {
    if s != [] && (s[0] == '-' || s[0] == '+') then s[1..] else s
  }

  /** An optional sign and at least one digit, and nothing else. */
  ghost predicate IsNumber(s: string) {
    Unsigned(s) != [] && AllDigits(Unsigned(s))
  }

  ghost function NumberValue(s: string): int {
    if s != [] && s[0] == '-' then -Value(Unsigned(s)) else Value(Unsigned(s))
  }

  // ---- prefs_number -----------------------------------------------------------------------

  /** C division: toward zero. */
  function TruncDiv(a: int32, b: int32): int32
    requires b > 0
  {
    (if a >= 0 then a as int / b as int else -(-(a as int) / b as int)) as int32
  }

  /** Succeeds if and only if the whole string is a number within the limits; `outAfter` is
      its value then, and what it was otherwise. */
  method ParseNumber(value: string, least: int32, most: int32, out: int32) returns (ok: bool, outAfter: int32)
    ensures ok <==> IsNumber(value) && least as int <= NumberValue(value) <= most as int
    ensures outAfter as int == if ok then NumberValue(value) else out as int
  {
    var negative := value != [] && value[0] == '-';
    var digits := Unsigned(value);
    if digits == [] {
      return false, out;
    }
    var number: int32 := 0;
    var i := 0;
    while i < |digits|
      invariant 0 <= i <= |digits|
      invariant AllDigits(digits[..i])
      invariant number <= 0 && number as int == -Value(digits[..i])
    {
      assert digits[..i + 1][..i] == digits[..i];
      if !IsDigit(digits[i]) {
        assert !AllDigits(digits);
        return false, out;
      }
      var digit := DigitValue(digits[i]) as int32;
      GuardIsExact(number, digit);
      if number < TruncDiv(PREFS_NUMBER_LEAST + digit, 10) {
        if AllDigits(digits) {
          assert AllDigits(digits[..i + 1]);
          MoreDigitsMoreValue(digits, i + 1);
        }
        return false, out;
      }
      number := number * 10 - digit;
      i := i + 1;
    }
    assert digits[..i] == digits;
    if !negative {
      if number == PREFS_NUMBER_LEAST {
        return false, out;
      }
      number := -number;
    }
    if number < least || number > most {
      return false, out;
    }
    return true, number;
  }

  /** The test before a digit is taken: exactly whether the next value still fits, and
      neither the product nor the difference leaves 32 bits then. */
  lemma GuardIsExact(number: int32, digit: int32)
    requires 0 <= digit <= 9 && number <= 0
    ensures number < TruncDiv(PREFS_NUMBER_LEAST + digit, 10) <==>
              number as int * 10 - digit as int < PREFS_NUMBER_LEAST as int
    ensures number >= TruncDiv(PREFS_NUMBER_LEAST + digit, 10) ==> number as int * 10 >= PREFS_NUMBER_LEAST as int
  {
    var x := -(PREFS_NUMBER_LEAST as int + digit as int);
    assert 10 * (x / 10) <= x < 10 * (x / 10) + 10;
  }

  /** Every further digit leaves the value at least as large. */
  lemma {:induction false} MoreDigitsMoreValue(s: string, k: nat)
    requires AllDigits(s) && k <= |s|
    ensures 0 <= Value(s[..k]) <= Value(s)
    decreases |s|
  {
    if k == |s| {
      assert s[..k] == s;
      if k > 0 { MoreDigitsMoreValue(s[..k - 1], k - 1); assert s[..k - 1][..k - 1] == s[..k - 1]; }
    } else {
      MoreDigitsMoreValue(s[..|s| - 1], k);
      assert s[..|s| - 1][..k] == s[..k];
    }
  }
}
