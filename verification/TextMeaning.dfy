/** What the conversions of src/textfmt.c print, said without the functions that compute it:
    how a specification is written, which characters a number is read back from, where padding
    goes, what is left of a string. */
module TextMeaning {
  import opened Machine
  import opened TextFormat
  import R = RoundTrip

  // ---- reading numerals ---------------------------------------------------------------------

  predicate IsNumeral(c: char, radix: nat, upper: bool) {
    '0' <= c <= '9' || (radix == 16 && if upper then 'A' <= c <= 'F' else 'a' <= c <= 'f')
  }

  function NumeralValue(c: char): int {
    if '0' <= c <= '9' then c as int - '0' as int
    else if 'a' <= c <= 'f' then c as int - 'a' as int + 10
    else c as int - 'A' as int + 10
  }

  ghost function Reads(s: string, radix: nat): int {
    if s == [] then 0 else Reads(s[..|s| - 1], radix) * radix + NumeralValue(s[|s| - 1])
  }

  ghost predicate Numerals(s: string, radix: nat, upper: bool) {
    forall i :: 0 <= i < |s| ==> IsNumeral(s[i], radix, upper)
  }

  /** `s` is the shortest numeral of `v`: no leading zero but in "0". */
  ghost predicate Canonical(s: string, radix: nat, upper: bool, v: int) {
    s != [] && Numerals(s, radix, upper) && Reads(s, radix) == v && (|s| > 1 ==> s[0] != '0')
  }

  lemma ReadsAppends(s: string, c: char, radix: nat)
    ensures Reads(s + [c], radix) == Reads(s, radix) * radix + NumeralValue(c)
  {
    assert (s + [c])[..|s|] == s;
  }

  lemma DigitIsNumeral(d: nat, radix: nat, upper: bool)
    requires d < radix && (radix == 10 || radix == 16)
    ensures IsNumeral(DigitChar(d, upper), radix, upper) && NumeralValue(DigitChar(d, upper)) == d
    ensures DigitChar(d, upper) == '0' <==> d == 0
  {
  }

  lemma DigitsUnfold(v: nat, radix: nat, upper: bool)
    requires radix == 10 || radix == 16
    ensures v < radix ==> Digits(v, radix, upper) == [DigitChar(v, upper)]
    ensures v >= radix ==>
              && 0 < v / radix < v && v == v / radix * radix + v % radix
              && Digits(v, radix, upper) == Digits(v / radix, radix, upper) + [DigitChar(v % radix, upper)]
  {
  }

  lemma {:induction false} DigitsAreCanonical(v: nat, radix: nat, upper: bool)
    requires radix == 10 || radix == 16
    ensures Canonical(Digits(v, radix, upper), radix, upper, v)
    ensures v > 0 ==> Digits(v, radix, upper)[0] != '0'
    decreases v
  {
    DigitsUnfold(v, radix, upper);
    if v < radix {
      DigitIsNumeral(v, radix, upper);
      ReadsAppends([], DigitChar(v, upper), radix);
      assert [] + [DigitChar(v, upper)] == [DigitChar(v, upper)];
    } else {
      DigitsAreCanonical(v / radix, radix, upper);
      DigitIsNumeral(v % radix, radix, upper);
      ReadsAppends(Digits(v / radix, radix, upper), DigitChar(v % radix, upper), radix);
    }
  }

  // ---- padding --------------------------------------------------------------------------------

  ghost predicate AllOf(s: string, c: char) {
    forall i :: 0 <= i < |s| ==> s[i] == c
  }

  /** `text` is `body` padded to `width`: behind it with blanks if left-justified, otherwise in
      front of it with zeros or blanks. */
  ghost predicate Padded(text: string, body: string, left: bool, zeros: bool, width: nat) {
    && |text| == (if width > |body| then width else |body|)
    && if left then text[..|body|] == body && AllOf(text[|body|..], ' ')
       else text[|text| - |body|..] == body && AllOf(text[..|text| - |body|], if zeros then '0' else ' ')
  }

  lemma LaidIsPadded(left: bool, zeros: bool, width: nat, body: string)
    ensures Padded(Laid(left, zeros, width, false, body), body, left, zeros, width)
  {
    var fill := width - |body| - |""|;
    var pad := Repeat(if !left && zeros then '0' else ' ', fill);
    var text := Laid(left, zeros, width, false, body);
    if left {
      assert text == body + pad;
    } else {
      assert text == pad + body;
    }
  }

  // ---- the conversions --------------------------------------------------------------------------

  /** %u: the cell in decimal. */
  lemma UnsignedText(spec: Spec, cell: u32, heap: Heap) returns (digits: string)
    requires spec.conv == 'u'
    ensures Canonical(digits, 10, false, cell)
    ensures var (text, used) := Convert(spec, cell, heap);
            used == 1 && Padded(text, digits, spec.left, spec.zero, spec.width)
  {
    digits := Digits(cell, 10, false);
    DigitsAreCanonical(cell, 10, false);
    NumberIsPadded(spec, cell, heap, digits);
  }

  lemma NumberIsPadded(spec: Spec, cell: u32, heap: Heap, body: string)
    requires spec.conv in {'u', 'x', 'X'} && body == Body(spec, cell, heap)
    ensures var (text, used) := Convert(spec, cell, heap);
            used == 1 && Padded(text, body, spec.left, spec.zero, spec.width)
  {
    LaidIsPadded(spec.left, ZeroPadded(spec), spec.width, body);
  }

  /** %x and %X: the cell in hexadecimal, with small or capital letters. */
  lemma HexText(spec: Spec, cell: u32, heap: Heap) returns (digits: string)
    requires spec.conv == 'x' || spec.conv == 'X'
    ensures Canonical(digits, 16, spec.conv == 'X', cell)
    ensures var (text, used) := Convert(spec, cell, heap);
            used == 1 && Padded(text, digits, spec.left, spec.zero, spec.width)
  {
    digits := Digits(cell, 16, spec.conv == 'X');
    DigitsAreCanonical(cell, 16, spec.conv == 'X');
    assert digits == Body(spec, cell, heap);
    NumberIsPadded(spec, cell, heap, digits);
  }

  /** %p: the cell in hexadecimal, at least eight characters, zeros in front. */
  lemma PointerText(spec: Spec, cell: u32, heap: Heap) returns (digits: string)
    requires spec.conv == 'p'
    ensures Canonical(digits, 16, false, cell)
    ensures var (text, used) := Convert(spec, cell, heap);
            used == 1 && Padded(text, digits, spec.left, true, if spec.width < 8 then 8 else spec.width)
  {
    digits := Digits(cell, 16, false);
    DigitsAreCanonical(cell, 16, false);
    LaidIsPadded(spec.left, ZeroPadded(spec), Width(spec), digits);
  }

  /** %d and %i: blanks, or a sign and zeros, and the magnitude of the signed cell. */
  lemma SignedText(spec: Spec, cell: u32, heap: Heap) returns (digits: string)
    requires spec.conv == 'd' || spec.conv == 'i'
    ensures Canonical(digits, 10, false, if cell < 0x8000_0000 then cell else 0x1_0000_0000 - cell)
    ensures var (text, used) := Convert(spec, cell, heap);
            && used == 1
            && (cell < 0x8000_0000 ==> Padded(text, digits, spec.left, spec.zero, spec.width))
            && (cell >= 0x8000_0000 && (spec.left || !spec.zero) ==>
                  Padded(text, "-" + digits, spec.left, false, spec.width))
            && (cell >= 0x8000_0000 && !spec.left && spec.zero ==>
                  text != [] && text[0] == '-' &&
                  Padded(text[1..], digits, false, true, if spec.width > 0 then spec.width - 1 else 0))
  {
    var m := Magnitude(cell);
    digits := Digits(m, 10, false);
    DigitsAreCanonical(m, 10, false);
    if cell < 0x8000_0000 {
      LaidIsPadded(spec.left, ZeroPadded(spec), spec.width, digits);
    } else {
      NegativeIsPadded(spec.left, ZeroPadded(spec), spec.width, digits);
    }
  }

  lemma NegativeIsPadded(left: bool, zeros: bool, width: nat, digits: string)
    requires !(left && zeros)
    ensures var text := Laid(left, zeros, width, true, digits);
            if zeros then
              text != [] && text[0] == '-' && Padded(text[1..], digits, false, true, if width > 0 then width - 1 else 0)
            else Padded(text, "-" + digits, left, false, width)
  {
    var fill := width - |digits| - |"-"|;
    var text := Laid(left, zeros, width, true, digits);
    if left {
      assert text == ("-" + digits) + Repeat(' ', fill);
    } else if zeros {
      assert text == "-" + (Repeat('0', fill) + digits);
      assert text[1..] == Repeat('0', fill) + digits;
    } else {
      assert text == Repeat(' ', fill) + ("-" + digits);
    }
  }

  /** The longest prefix of `s` that the precision allows. */
  ghost predicate Cut(part: string, s: string, prec: Option<nat>) {
    && |part| <= |s| && part == s[..|part|]
    && (prec.None? ==> part == s)
    && (prec.Some? ==> |part| <= prec.value && (|part| < prec.value ==> part == s))
  }

  /** %s: the string the cell points to, "(null)" for none, no more of it than the precision
      allows, and never padded with zeros. */
  lemma StringText(spec: Spec, cell: u32, heap: Heap) returns (part: string)
    requires spec.conv == 's'
    ensures Cut(part, if cell == 0 then "(null)" else heap(cell), spec.prec)
    ensures var (text, used) := Convert(spec, cell, heap);
            used == 1 && Padded(text, part, spec.left, false, spec.width)
  {
    part := Body(spec, cell, heap);
    LaidIsPadded(spec.left, ZeroPadded(spec), spec.width, part);
  }

  /** %c: the low byte of the cell. */
  lemma CharacterText(spec: Spec, cell: u32, heap: Heap)
    requires spec.conv == 'c'
    ensures var (text, used) := Convert(spec, cell, heap);
            used == 1 && Padded(text, [(cell % 256) as char], spec.left, false, spec.width)
  {
    LaidIsPadded(spec.left, ZeroPadded(spec), spec.width, [(cell % 256) as char]);
  }

  /** %%: itself, and no cell. */
  lemma PercentText(spec: Spec, cell: u32, heap: Heap)
    requires spec.conv == '%'
    ensures var (text, used) := Convert(spec, cell, heap);
            used == 0 && Padded(text, "%", spec.left, false, spec.width)
  {
    LaidIsPadded(spec.left, ZeroPadded(spec), spec.width, "%");
  }

  // ---- how a specification is written ---------------------------------------------------------

  ghost predicate MadeOf(s: string, cs: set<char>) {
    forall i :: 0 <= i < |s| ==> s[i] in cs
  }

  /** `s` goes on with something that is not one of these characters. */
  ghost predicate StopsAt(s: string, cs: set<char>) {
    s == [] || s[0] !in cs
  }

  lemma {:induction false} FlagsRead(flags: string, rest: string, left: bool, zero: bool)
    requires MadeOf(flags, {'-', '0'}) && StopsAt(rest, {'-', '0'})
    ensures Flags(flags + rest, left, zero) == (left || '-' in flags, zero || '0' in flags, rest)
    decreases |flags|
  {
    if flags == [] {
      assert flags + rest == rest;
    } else {
      var more := flags[1..];
      assert (flags + rest)[0] == flags[0] && (flags + rest)[1..] == more + rest;
      assert flags == [flags[0]] + more;
      FlagsRead(more, rest, left || flags[0] == '-', zero || flags[0] == '0');
    }
  }

  const DIGITS: set<char> := {'0', '1', '2', '3', '4', '5', '6', '7', '8', '9'}

  lemma {:induction false} CountReads(digits: string, rest: string, n: nat)
    requires MadeOf(digits, DIGITS) && StopsAt(rest, DIGITS)
    ensures Count(digits + rest, n).1 == rest
    ensures n == 0 ==> Count(digits + rest, 0).0 == Reads(digits, 10)
    decreases |digits|
  {
    DigitsReadBack(digits);
    NotDigits(rest);
    R.CountDigits(digits, rest, n);
    if n == 0 { ShiftIsReads(digits); }
  }

  lemma DigitsReadBack(digits: string)
    requires MadeOf(digits, DIGITS)
    ensures R.N.AllDigits(digits)
  {
    forall i | 0 <= i < |digits| ensures IsDigit(digits[i]) { assert digits[i] in DIGITS; }
  }

  lemma NotDigits(rest: string)
    requires StopsAt(rest, DIGITS)
    ensures rest == [] || !IsDigit(rest[0])
  {
  }

  lemma {:induction false} ShiftIsReads(digits: string)
    requires R.N.AllDigits(digits)
    ensures R.Shift(0, digits) == Reads(digits, 10)
    decreases |digits|
  {
    if digits != [] {
      var init, c := digits[..|digits| - 1], digits[|digits| - 1];
      assert digits == init + [c];
      ShiftIsReads(init);
      R.ShiftAppends(0, init, c);
      ReadsAppends(init, c, 10);
    }
  }

  lemma {:induction false} ModifiersRead(mods: string, rest: string)
    requires MadeOf(mods, {'h', 'l', 'z'}) && StopsAt(rest, {'h', 'l', 'z'})
    ensures Modifiers(mods + rest) == rest
    decreases |mods|
  {
    if mods == [] {
      assert mods + rest == rest;
    } else {
      assert (mods + rest)[0] == mods[0] && (mods + rest)[1..] == mods[1..] + rest;
      ModifiersRead(mods[1..], rest);
    }
  }

  function PrecisionPart(prec: Option<string>): string {
    if prec.Some? then "." + prec.value else ""
  }

  lemma PrecisionReads(prec: Option<string>, rest: string)
    requires prec.Some? ==> MadeOf(prec.value, DIGITS)
    requires StopsAt(rest, DIGITS) && StopsAt(rest, {'.'})
    ensures Precision(PrecisionPart(prec) + rest).1 == rest
    ensures Precision(PrecisionPart(prec) + rest).0.Some? == prec.Some?
    ensures prec.Some? ==> Precision(PrecisionPart(prec) + rest).0.value == Reads(prec.value, 10)
  {
    var f := PrecisionPart(prec) + rest;
    if prec.Some? {
      assert f[0] == '.' && f[1..] == prec.value + rest;
      CountReads(prec.value, rest, 0);
    } else {
      assert f == rest;
    }
  }

  /** A conversion character that nothing before it can swallow. */
  predicate Converts(c: char) {
    c !in {'-', '.', 'h', 'l', 'z'} && c !in DIGITS
  }

  function Written(flags: string, width: string, prec: Option<string>, mods: string, conv: char, rest: string): string {
    flags + (width + (PrecisionPart(prec) + (mods + ([conv] + rest))))
  }

  /** The ranges of a specification in turn: any flags in any order, a width that does not start
      with a zero, a precision, any modifiers, and the conversion. Modifiers say nothing. */
  lemma SpecReads(flags: string, width: string, prec: Option<string>, mods: string, conv: char, rest: string)
    requires MadeOf(flags, {'-', '0'}) && MadeOf(width, DIGITS) && (width != [] ==> width[0] != '0')
    requires (prec.Some? ==> MadeOf(prec.value, DIGITS)) && MadeOf(mods, {'h', 'l', 'z'}) && Converts(conv)
    ensures var (spec, after) := ParseSpec(Written(flags, width, prec, mods, conv, rest));
            && after == rest && spec.conv == conv
            && (spec.left <==> '-' in flags) && (spec.zero <==> '0' in flags)
            && spec.width == Reads(width, 10)
            && spec.prec.Some? == prec.Some? && (prec.Some? ==> spec.prec.value == Reads(prec.value, 10))
  {
    var f4 := [conv] + rest;
    var f3 := mods + f4;
    var f2 := PrecisionPart(prec) + f3;
    var f1 := width + f2;
    PartStops(mods, f4, DIGITS);
    PartStops(mods, f4, {'.'});
    ModifiersRead(mods, f4);
    PrecisionReads(prec, f3);
    PrecisionStops(prec, f3);
    CountReads(width, f2, 0);
    WidthStops(width, f2);
    FlagsRead(flags, f1, false, false);
    assert f4[0] == conv && f4[1..] == rest;
  }

  lemma PartStops(s: string, t: string, cs: set<char>)
    requires StopsAt(t, cs) && forall i :: 0 <= i < |s| ==> s[i] !in cs
    ensures StopsAt(s + t, cs)
  {
    if s == [] { assert s + t == t; } else { assert (s + t)[0] == s[0]; }
  }

  lemma PrecisionStops(prec: Option<string>, rest: string)
    requires StopsAt(rest, DIGITS) && StopsAt(rest, {'-', '0'})
    ensures StopsAt(PrecisionPart(prec) + rest, DIGITS) && StopsAt(PrecisionPart(prec) + rest, {'-', '0'})
  {
    if prec.None? { assert PrecisionPart(prec) + rest == rest; }
  }

  lemma WidthStops(width: string, rest: string)
    requires MadeOf(width, DIGITS) && (width != [] ==> width[0] != '0') && StopsAt(rest, {'-', '0'})
    ensures StopsAt(width + rest, {'-', '0'})
  {
    if width == [] { assert width + rest == rest; } else { assert (width + rest)[0] == width[0] && width[0] in DIGITS; }
  }

  // ---- whole formats ----------------------------------------------------------------------------

  /** A format of one conversion prints the conversion of its specification. */
  lemma OneConversion(flags: string, width: string, prec: Option<string>, mods: string, conv: char,
                      cells: Cells, heap: Heap) returns (spec: Spec)
    requires MadeOf(flags, {'-', '0'}) && MadeOf(width, DIGITS) && (width != [] ==> width[0] != '0')
    requires (prec.Some? ==> MadeOf(prec.value, DIGITS)) && MadeOf(mods, {'h', 'l', 'z'}) && Converts(conv)
    ensures spec.conv == conv && (spec.left <==> '-' in flags) && (spec.zero <==> '0' in flags)
    ensures spec.width == Reads(width, 10)
    ensures spec.prec.Some? == prec.Some? && (prec.Some? ==> spec.prec.value == Reads(prec.value, 10))
    ensures Denote("%" + Written(flags, width, prec, mods, conv, ""), cells, heap, 0) == Convert(spec, cells(0), heap)
  {
    SpecReads(flags, width, prec, mods, conv, "");
    var f := "%" + Written(flags, width, prec, mods, conv, "");
    assert f[1..] == Written(flags, width, prec, mods, conv, "");
    spec := ParseSpec(f[1..]).0;
    DenotePercent(f, spec, "", cells, heap, 0);
    var (text, used) := Convert(spec, cells(0), heap);
    assert text + "" == text;
  }

  /** The same conversion with and without modifiers prints the same. */
  lemma ModifiersSayNothing(flags: string, width: string, prec: Option<string>, mods: string, conv: char,
                            cells: Cells, heap: Heap)
    requires MadeOf(flags, {'-', '0'}) && MadeOf(width, DIGITS) && (width != [] ==> width[0] != '0')
    requires (prec.Some? ==> MadeOf(prec.value, DIGITS)) && MadeOf(mods, {'h', 'l', 'z'}) && Converts(conv)
    ensures Denote("%" + Written(flags, width, prec, mods, conv, ""), cells, heap, 0) ==
            Denote("%" + Written(flags, width, prec, "", conv, ""), cells, heap, 0)
  {
    var one := OneConversion(flags, width, prec, mods, conv, cells, heap);
    var two := OneConversion(flags, width, prec, "", conv, cells, heap);
  }

  lemma PlainConversion(conv: char, cells: Cells, heap: Heap)
    requires Converts(conv)
    ensures Denote(['%', conv], cells, heap, 0) == Convert(Spec(false, false, 0, None, conv), cells(0), heap)
  {
    var spec := OneConversion("", "", None, "", conv, cells, heap);
    assert "%" + Written("", "", None, "", conv, "") == ['%', conv];
    assert spec == Spec(false, false, 0, None, conv);
  }

  lemma UnpaddedIs(text: string, body: string, left: bool, zeros: bool)
    requires Padded(text, body, left, zeros, 0)
    ensures text == body
  {
  }

  /** "%u": the cell in decimal. */
  lemma PlainUnsigned(f: string, cells: Cells, heap: Heap)
    requires |f| == 2 && f[0] == '%' && f[1] == 'u'
    ensures Canonical(Denote(f, cells, heap, 0).0, 10, false, cells(0)) && Denote(f, cells, heap, 0).1 == 1
  {
    assert f == ['%', f[1]];
    PlainConversion(f[1], cells, heap);
    var digits := UnsignedText(Spec(false, false, 0, None, f[1]), cells(0), heap);
    UnpaddedIs(Denote(f, cells, heap, 0).0, digits, false, false);
  }

  /** "%x" and "%X": the cell in hexadecimal, in small and in capital letters. */
  lemma PlainHex(f: string, cells: Cells, heap: Heap)
    requires |f| == 2 && f[0] == '%' && (f[1] == 'x' || f[1] == 'X')
    ensures Canonical(Denote(f, cells, heap, 0).0, 16, f[1] == 'X', cells(0)) && Denote(f, cells, heap, 0).1 == 1
  {
    assert f == ['%', f[1]];
    PlainConversion(f[1], cells, heap);
    var digits := HexText(Spec(false, false, 0, None, f[1]), cells(0), heap);
    UnpaddedIs(Denote(f, cells, heap, 0).0, digits, false, false);
  }

  /** "%s": the string, or "(null)". */
  lemma PlainString(f: string, cells: Cells, heap: Heap)
    requires |f| == 2 && f[0] == '%' && f[1] == 's'
    ensures Denote(f, cells, heap, 0) == (if cells(0) == 0 then "(null)" else heap(cells(0)), 1)
  {
    assert f == ['%', f[1]];
    PlainConversion(f[1], cells, heap);
    var part := StringText(Spec(false, false, 0, None, f[1]), cells(0), heap);
    UnpaddedIs(Denote(f, cells, heap, 0).0, part, false, false);
  }

  /** "%.Ns": the longest prefix of at most N characters. */
  lemma CutString(f: string, digits: string, cells: Cells, heap: Heap)
    requires MadeOf(digits, DIGITS) && f == "%" + Written("", "", Some(digits), "", 's', "")
    ensures Cut(Denote(f, cells, heap, 0).0, if cells(0) == 0 then "(null)" else heap(cells(0)), Some(Prec(digits)))
    ensures Denote(f, cells, heap, 0).1 == 1
  {
    var spec := OneConversion("", "", Some(digits), "", 's', cells, heap);
    var part := StringText(spec, cells(0), heap);
    UnpaddedIs(Denote(f, cells, heap, 0).0, part, false, false);
  }

  ghost function Prec(digits: string): nat {
    if Reads(digits, 10) >= 0 then Reads(digits, 10) else 0
  }

  /** "%c" and "%%": the low byte of the cell, and the percent sign, which takes no cell. */
  lemma PlainCharacter(f: string, cells: Cells, heap: Heap)
    requires |f| == 2 && f[0] == '%' && (f[1] == 'c' || f[1] == '%')
    ensures Denote(f, cells, heap, 0) == if f[1] == 'c' then ([(cells(0) % 256) as char], 1) else ("%", 0)
  {
    assert f == ['%', f[1]];
    PlainConversion(f[1], cells, heap);
    var spec := Spec(false, false, 0, None, f[1]);
    if f[1] == 'c' {
      CharacterText(spec, cells(0), heap);
      UnpaddedIs(Denote(f, cells, heap, 0).0, [(cells(0) % 256) as char], false, false);
    } else {
      PercentText(spec, cells(0), heap);
      UnpaddedIs(Denote(f, cells, heap, 0).0, "%", false, false);
    }
  }

  lemma {:induction false} ReadsSkipsZeros(zeros: string, s: string, radix: nat)
    requires AllOf(zeros, '0')
    ensures Reads(zeros + s, radix) == Reads(s, radix)
    decreases |s|, |zeros|
  {
    if s == [] {
      assert zeros + s == zeros;
      if zeros != [] {
        ReadsSkipsZeros(zeros[..|zeros| - 1], [], radix);
        assert zeros[..|zeros| - 1] + [] == zeros[..|zeros| - 1];
      }
    } else {
      var init, c := s[..|s| - 1], s[|s| - 1];
      assert zeros + s == (zeros + init) + [c] && s == init + [c];
      ReadsSkipsZeros(zeros, init, radix);
      ReadsAppends(zeros + init, c, radix);
      ReadsAppends(init, c, radix);
    }
  }

  lemma ZeroPaddedReads(text: string, digits: string, width: nat, v: int)
    requires Padded(text, digits, false, true, width) && Canonical(digits, 16, false, v)
    ensures Numerals(text, 16, false) && Reads(text, 16) == v
  {
    var n := |text| - |digits|;
    assert text == text[..n] + text[n..];
    ReadsSkipsZeros(text[..n], digits, 16);
    forall i | 0 <= i < |text| ensures IsNumeral(text[i], 16, false) {
      if i < n { assert text[i] == text[..n][i]; } else { assert text[i] == digits[i - n]; }
    }
  }

  /** "%p": eight hexadecimal digits for every cell, which read as the cell. */
  lemma PlainPointer(f: string, cells: Cells, heap: Heap)
    requires |f| == 2 && f[0] == '%' && f[1] == 'p'
    ensures var text := Denote(f, cells, heap, 0).0;
            |text| == 8 && Numerals(text, 16, false) && Reads(text, 16) == cells(0)
  {
    assert f == ['%', f[1]];
    PlainConversion(f[1], cells, heap);
    var digits := PointerText(Spec(false, false, 0, None, f[1]), cells(0), heap);
    ZeroPaddedReads(Denote(f, cells, heap, 0).0, digits, 8, cells(0));
    EightAtMost(digits, cells(0));
  }

  /** "%0Nx" for a width N of at least eight, with any modifiers: N hexadecimal digits that read
      as the cell. */
  lemma PaddedHex(f: string, width: string, mods: string, cells: Cells, heap: Heap)
    requires MadeOf(width, DIGITS) && width != [] && width[0] != '0' && MadeOf(mods, {'h', 'l', 'z'})
    requires f == "%" + Written("0", width, None, mods, 'x', "") && Reads(width, 10) >= 8
    ensures var text := Denote(f, cells, heap, 0).0;
            |text| == Reads(width, 10) && Numerals(text, 16, false) && Reads(text, 16) == cells(0)
  {
    var spec := OneConversion("0", width, None, mods, 'x', cells, heap);
    var digits := HexText(spec, cells(0), heap);
    ZeroPaddedReads(Denote(f, cells, heap, 0).0, digits, spec.width, cells(0));
    EightAtMost(digits, cells(0));
  }

  lemma {:induction false} LongReadsLarge(s: string, radix: nat)
    requires s != [] && Numerals(s, radix, false) && s[0] != '0' && radix > 0
    ensures Reads(s, radix) >= Power(radix, |s| - 1)
  {
    var init, c := s[..|s| - 1], s[|s| - 1];
    assert IsNumeral(c, radix, false) && NumeralValue(c) >= 0;
    if init == [] {
      assert s[0] == c && NumeralValue(c) >= 1;
      assert Reads(init, radix) == 0;
    } else {
      assert init[0] == s[0];
      LongReadsLarge(init, radix);
      assert Reads(init, radix) * radix >= Power(radix, |init| - 1) * radix;
      assert Power(radix, |s| - 1) == radix * Power(radix, |init| - 1);
    }
  }

  /** A canonical hexadecimal numeral of 32 bits has at most eight digits. */
  lemma EightAtMost(s: string, v: u32)
    requires Canonical(s, 16, false, v)
    ensures |s| <= 8
  {
    assert Power(16, 4) == 0x1_0000 && Power(16, 8) == 0x1_0000_0000;
    if |s| > 8 {
      LongReadsLarge(s, 16);
      PowerGrows(8, |s| - 1);
    }
  }

  lemma {:induction false} PowerGrows(m: nat, n: nat)
    requires m <= n
    ensures Power(16, m) <= Power(16, n)
  {
    if m < n { PowerGrows(m, n - 1); }
  }
}
