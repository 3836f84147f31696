/** What src/textfmt.c prints, src/prefs.c reads back: every 32-bit number, in every width
    and with every flag, on its own and as the value of a settings line. */
module RoundTrip {
  import opened Machine
  import opened TextFormat
  import E = TextEngine
  import N = PrefsNumber
  import P = PrefsSplit

  // ---- digits ---------------------------------------------------------------------------

  lemma ValueAppends(s: string, c: char)
    ensures N.Value(s + [c]) == N.Value(s) * 10 + N.DigitValue(c)
    ensures N.AllDigits(s) && IsDigit(c) ==> N.AllDigits(s + [c])
  {
    assert (s + [c])[..|s|] == s;
  }

  lemma DigitCharValue(d: nat)
    requires d < 10
    ensures IsDigit(DigitChar(d, false)) && N.DigitValue(DigitChar(d, false)) == d
  {
  }

  lemma DigitsUnfold(v: nat)
    requires v >= 10
    ensures v / 10 < v && v == v / 10 * 10 + v % 10
    ensures Digits(v, 10, false) == Digits(v / 10, 10, false) + [DigitChar(v % 10, false)]
  {
  }

  /** The digits of a number are decimal digits with the number as their value. */
  lemma {:induction false} DigitsHaveValue(v: nat)
    ensures N.AllDigits(Digits(v, 10, false)) && N.Value(Digits(v, 10, false)) == v
  {
    if v < 10 {
      assert Digits(v, 10, false) == [] + [DigitChar(v, false)];
      DigitCharValue(v);
      ValueAppends([], DigitChar(v, false));
    } else {
      DigitsUnfold(v);
      DigitsHaveValue(v / 10);
      DigitCharValue(v % 10);
      ValueAppends(Digits(v / 10, 10, false), DigitChar(v % 10, false));
    }
  }

  lemma {:induction false} ZerosAreZero(n: int)
    ensures N.AllDigits(Repeat('0', n)) && N.Value(Repeat('0', n)) == 0
    decreases if n > 0 then n else 0
  {
    if n > 0 {
      ZerosAreZero(n - 1);
      ValueAppends(Repeat('0', n - 1), '0');
    }
  }

  /** Leading zeros change nothing. */
  lemma {:induction false} LeadingZeros(n: int, s: string)
    requires N.AllDigits(s)
    ensures N.AllDigits(Repeat('0', n) + s) && N.Value(Repeat('0', n) + s) == N.Value(s)
  {
    var zeros := Repeat('0', n);
    if s == [] {
      ZerosAreZero(n);
      assert zeros + s == zeros;
    } else {
      var init, last := s[..|s| - 1], s[|s| - 1];
      LeadingZeros(n, init);
      assert zeros + s == (zeros + init) + [last];
      ValueAppends(zeros + init, last);
    }
  }

  /** Digits behind a minus sign form a number, and a value that prefs_split() keeps as it is. */
  lemma MinusAndDigits(digits: string)
    requires N.AllDigits(digits) && digits != []
    ensures var text := "-" + digits;
            N.IsNumber(text) && N.NumberValue(text) == -N.Value(digits) && P.IsValue(text)
  {
    var text := "-" + digits;
    DigitsAreValue(digits);
    assert text[1..] == digits && text[0] == '-';
    P.OneLineJoins("-", digits);
    assert text[|text| - 1] == digits[|digits| - 1];
  }

  lemma DigitsAlone(digits: string)
    requires N.AllDigits(digits) && digits != []
    ensures N.IsNumber(digits) && N.NumberValue(digits) == N.Value(digits) && P.IsValue(digits)
  {
    DigitsAreValue(digits);
    assert IsDigit(digits[0]);
    assert N.Unsigned(digits) == digits;
  }

  lemma DigitsAreValue(s: string)
    requires N.AllDigits(s) && s != []
    ensures P.IsValue(s)
  {
    forall i | 0 <= i < |s| ensures !P.IsEol(s[i]) && !P.IsBlank(s[i]) {
      assert IsDigit(s[i]);
    }
  }

  lemma SignedDigits(negative: bool, zeros: int, v: nat)
    ensures var text := (if negative then "-" else "") + (Repeat('0', zeros) + Digits(v, 10, false));
            && N.IsNumber(text) && N.NumberValue(text) == (if negative then 0 - v else v)
            && P.IsValue(text)
  {
    var digits := Repeat('0', zeros) + Digits(v, 10, false);
    DigitsHaveValue(v);
    LeadingZeros(zeros, Digits(v, 10, false));
    if negative {
      MinusAndDigits(digits);
    } else {
      DigitsAlone(digits);
      assert (if negative then "-" else "") + digits == digits;
    }
  }

  // ---- one conversion -------------------------------------------------------------------

  function Sign(spec: Spec, cell: u32): string {
    if Negative(spec, cell) then "-" else ""
  }

  /** The padding a %d needs. */
  function Fill(spec: Spec, cell: u32): int {
    spec.width - |Digits(Magnitude(cell), 10, false)| - |Sign(spec, cell)|
  }

  /** What a %d prints between its blanks: sign, zeros, digits. */
  function Core(spec: Spec, cell: u32): string {
    var zeros := Repeat('0', if ZeroPadded(spec) then Fill(spec, cell) else 0);
    Sign(spec, cell) + (zeros + Digits(Magnitude(cell), 10, false))
  }

  /** A signed conversion prints its core between blanks; zero padding leaves no blanks, and
      neither does a width that needs none. */
  lemma PrintedAroundCore(spec: Spec, cell: u32, heap: Heap) returns (before: string, after: string)
    requires spec.conv == 'd' || spec.conv == 'i'
    ensures Convert(spec, cell, heap) == (before + (Core(spec, cell) + after), 1)
    ensures P.Blanks(before) && P.Blanks(after)
    ensures ZeroPadded(spec) || Fill(spec, cell) <= 0 <==> before == after == ""
  {
    before, after := LaidAround(spec.left, ZeroPadded(spec), spec.width, Negative(spec, cell),
        Digits(Magnitude(cell), 10, false));
  }

  lemma LaidAround(left: bool, zeros: bool, width: nat, negative: bool, body: string)
    returns (before: string, after: string)
    requires !(left && zeros)
    ensures var sign := if negative then "-" else "";
            var fill := width - |body| - |sign|;
            && Laid(left, zeros, width, negative, body) ==
               before + (sign + (Repeat('0', if zeros then fill else 0) + body) + after)
            && (zeros || fill <= 0 <==> before == after == "")
    ensures P.Blanks(before) && P.Blanks(after)
  {
    var sign := if negative then "-" else "";
    var fill := width - |body| - |sign|;
    var blanks := Repeat(' ', fill);
    if left {
      before, after := "", blanks;
      Rejoin("", sign, "", body, blanks);
    } else if zeros {
      before, after := "", "";
      Rejoin("", sign, Repeat('0', fill), body, "");
    } else {
      before, after := blanks, "";
      Rejoin(blanks, sign, "", body, "");
    }
  }

  lemma Rejoin(a: string, b: string, c: string, d: string, e: string)
    ensures a + (b + (c + d) + e) == a + b + c + d + e
    ensures a == "" && c == "" ==> a + b + c + d + e == b + d + e
    ensures a == "" && e == "" ==> a + b + c + d + e == b + c + d
    ensures c == "" && e == "" ==> a + b + c + d + e == a + b + d
  {
  }

  /** The core is a number to prefs_number(), and it is the number that was printed, the
      lowest LONG included. */
  lemma CoreReadsBack(spec: Spec, cell: u32)
    requires spec.conv == 'd' || spec.conv == 'i'
    ensures N.IsNumber(Core(spec, cell)) && N.NumberValue(Core(spec, cell)) == Signed(cell)
    ensures P.IsValue(Core(spec, cell))
  {
    SignedDigits(Negative(spec, cell), if ZeroPadded(spec) then Fill(spec, cell) else 0, Magnitude(cell));
  }

  // ---- format strings ---------------------------------------------------------------------

  /** The text of a format that is one conversion. */
  lemma SingleConversion(f: string, spec: Spec, cells: Cells, heap: Heap)
    requires ParseSpec(f) == (spec, "")
    ensures Denote("%" + f, cells, heap, 0).0 == Convert(spec, cells(0), heap).0
  {
    var format := "%" + f;
    assert format[1..] == f;
    var text := Convert(spec, cells(0), heap).0;
    assert text + [] == text;
  }

  lemma {:induction false} CountDigits(s: string, rest: string, n: nat)
    requires N.AllDigits(s) && (rest == [] || !IsDigit(rest[0]))
    ensures Count(s + rest, n) == (Shift(n, s), rest)
    decreases |s|
  {
    if s == [] {
      assert s + rest == rest;
    } else {
      assert (s + rest)[0] == s[0] && (s + rest)[1..] == s[1..] + rest;
      CountDigits(s[1..], rest, n * 10 + (s[0] as int - '0' as int));
    }
  }

  /** The number read so far, with the digits of `s` behind it. */
  function Shift(n: nat, s: string): nat
    requires N.AllDigits(s)
    decreases |s|
  {
    if s == [] then n else Shift(n * 10 + (s[0] as int - '0' as int), s[1..])
  }

  lemma {:induction false} ShiftAppends(n: nat, s: string, c: char)
    requires N.AllDigits(s) && IsDigit(c)
    ensures N.AllDigits(s + [c]) && Shift(n, s + [c]) == Shift(n, s) * 10 + N.DigitValue(c)
    decreases |s|
  {
    if s != [] {
      assert (s + [c])[1..] == s[1..] + [c];
      ShiftAppends(n * 10 + (s[0] as int - '0' as int), s[1..], c);
    }
  }

  lemma {:induction false} ShiftOfDigits(v: nat)
    ensures N.AllDigits(Digits(v, 10, false)) && Shift(0, Digits(v, 10, false)) == v
    ensures v > 0 ==> Digits(v, 10, false)[0] != '0'
  {
    if v < 10 {
      assert Digits(v, 10, false)[1..] == [];
    } else {
      ShiftOfDigits(v / 10);
      ShiftAppends(0, Digits(v / 10, 10, false), DigitChar(v % 10, false));
    }
  }

  /** "%0Nd" parses as a zero-padded conversion of width N, for every N. */
  lemma ZeroPaddedSpec(n: nat)
    requires n > 0
    ensures ParseSpec("0" + Digits(n, 10, false) + "d") == (Spec(false, true, n, None, 'd'), "")
  {
    var digits := Digits(n, 10, false);
    ShiftOfDigits(n);
    var f := "0" + digits + "d";
    assert f[1..] == digits + "d" && (digits + "d")[0] == digits[0];
    assert Flags(f, false, false) == Flags(digits + "d", false, true) == (false, true, digits + "d");
    CountDigits(digits, "d", 0);
    assert "d"[1..] == "";
  }

  /** Printed with %0Nd and read with prefs_number(), every 32-bit number comes back. */
  lemma ZeroPaddedRoundTrip(n: nat, cells: Cells, heap: Heap)
    requires n > 0
    ensures var text := Denote("%" + ("0" + Digits(n, 10, false) + "d"), cells, heap, 0).0;
            N.IsNumber(text) && N.NumberValue(text) == Signed(cells(0))
  {
    ZeroPaddedSpec(n);
    NumberRoundTrip("0" + Digits(n, 10, false) + "d", Spec(false, true, n, None, 'd'), cells, heap);
  }

  /** Blanks around a number make it none. */
  lemma BlanksSpoil(before: string, core: string, after: string)
    requires N.IsNumber(core) && P.Blanks(before) && P.Blanks(after) && (before != "" || after != "")
    ensures !N.IsNumber(before + (core + after))
  {
    var text := before + (core + after);
    var digits := N.Unsigned(text);
    if before != "" {
      assert text[0] == before[0] && P.IsBlank(before[0]);
      assert !IsDigit(digits[0]);
    } else {
      assert text[|text| - 1] == after[|after| - 1] && P.IsBlank(after[|after| - 1]);
      assert digits[|digits| - 1] == text[|text| - 1];
    }
  }

  /** The same for any %d and %i: the printed text is a number if and only if it is zero-padded
      or the number fills the width, and then it is the number that was printed. */
  lemma NumberRoundTrip(f: string, spec: Spec, cells: Cells, heap: Heap)
    requires ParseSpec(f) == (spec, "") && (spec.conv == 'd' || spec.conv == 'i')
    ensures var text := Denote("%" + f, cells, heap, 0).0;
            && (N.IsNumber(text) <==> ZeroPadded(spec) || Fill(spec, cells(0)) <= 0)
            && (N.IsNumber(text) ==> N.NumberValue(text) == Signed(cells(0)))
  {
    SingleConversion(f, spec, cells, heap);
    var core := Core(spec, cells(0));
    var before, after := PrintedAroundCore(spec, cells(0), heap);
    CoreReadsBack(spec, cells(0));
    if before == after == "" {
      assert "" + (core + "") == core;
    } else {
      BlanksSpoil(before, core, after);
    }
  }

  /** %d itself. */
  lemma PlainRoundTrip(cells: Cells, heap: Heap)
    ensures var text := Denote("%d", cells, heap, 0).0;
            N.IsNumber(text) && N.NumberValue(text) == Signed(cells(0))
  {
    assert "d"[1..] == "";
    assert "%" + "d" == "%d";
    NumberRoundTrip("d", Spec(false, false, 0, None, 'd'), cells, heap);
  }

  // ---- settings lines -----------------------------------------------------------------------

  /** A character in front of a format whose denotation is known. */
  lemma PrependCharacter(c: char, f: string, d: (string, nat), cells: Cells, heap: Heap, k: nat)
    requires c != '%' && Denote(f, cells, heap, k) == d
    ensures Denote([c] + f, cells, heap, k) == ([c] + d.0, d.1)
  {
    DenoteCharacter(c, f, cells, heap, k);
  }

  /** The format "%s = %..." with a conversion and a newline. */
  function SettingFormat(f: string): string {
    "%" + ("s" + (" = " + ("%" + f)))
  }

  lemma FormatIsCString(f: CString)
    ensures '\0' !in SettingFormat(f)
  {
    var head := "%s = %";
    assert SettingFormat(f) == head + f;
    assert forall i :: 0 <= i < |head| ==> head[i] != '\0';
  }

  lemma SettingLine(f: string, spec: Spec, cells: Cells, heap: Heap)
    requires ParseSpec(f) == (spec, "\n") && cells(0) != 0
    ensures Denote(SettingFormat(f), cells, heap, 0).0 ==
            heap(cells(0)) + (" = " + (Convert(spec, cells(1), heap).0 + "\n"))
  {
    var tail := " = " + ("%" + f);
    StringSpec(tail);
    StringConversion(cells(0), heap);
    assert ("%" + ("s" + tail))[1..] == "s" + tail;
    DenotePercent("%" + ("s" + tail), Spec(false, false, 0, None, 's'), tail, cells, heap, 0);
    LineTail(f, spec, cells, heap);
  }

  lemma LineTail(f: string, spec: Spec, cells: Cells, heap: Heap)
    requires ParseSpec(f) == (spec, "\n")
    ensures Denote(" = " + ("%" + f), cells, heap, 1).0 == " = " + (Convert(spec, cells(1), heap).0 + "\n")
  {
    assert ("%" + f)[1..] == f;
    DenotePercent("%" + f, spec, "\n", cells, heap, 1);
    NewlineDenotes(cells, heap, 1 + Convert(spec, cells(1), heap).1);
    BlankEqualsBlank("%" + f, Denote("%" + f, cells, heap, 1), cells, heap, 1);
  }

  lemma BlankEqualsBlank(f: string, d: (string, nat), cells: Cells, heap: Heap, k: nat)
    requires Denote(f, cells, heap, k) == d
    ensures Denote(" = " + f, cells, heap, k) == (" = " + d.0, d.1)
  {
    var f1, d1 := [' '] + f, ([' '] + d.0, d.1);
    PrependCharacter(' ', f, d, cells, heap, k);
    var f2, d2 := ['='] + f1, (['='] + d1.0, d1.1);
    PrependCharacter('=', f1, d1, cells, heap, k);
    PrependCharacter(' ', f2, d2, cells, heap, k);
    assert [' '] + f2 == " = " + f && [' '] + d2.0 == " = " + d.0;
  }

  lemma NewlineDenotes(cells: Cells, heap: Heap, k: nat)
    ensures Denote("\n", cells, heap, k).0 == "\n"
  {
    PrependCharacter('\n', "", ("", k), cells, heap, k);
    assert ['\n'] + "" == "\n";
  }

  lemma StringSpec(rest: string)
    ensures ParseSpec("s" + rest) == (Spec(false, false, 0, None, 's'), rest)
  {
    assert ("s" + rest)[1..] == rest;
  }

  lemma StringConversion(cell: u32, heap: Heap)
    requires cell != 0
    ensures Convert(Spec(false, false, 0, None, 's'), cell, heap) == (heap(cell), 1)
  {
    assert "" + "" + heap(cell) == heap(cell);
  }

  /** A setting printed as "key = number" with any flags and any width is split into the key
      and a value that reads back as the number. */
  lemma SettingRoundTrip(f: string, spec: Spec, cells: Cells, heap: Heap)
    requires ParseSpec(f) == (spec, "\n") && (spec.conv == 'd' || spec.conv == 'i')
    requires cells(0) != 0 && P.IsKey(heap(cells(0)))
    ensures var setting := P.Split(Denote(SettingFormat(f), cells, heap, 0).0);
            && setting.Some? && setting.value.0 == heap(cells(0))
            && N.IsNumber(setting.value.1) && N.NumberValue(setting.value.1) == Signed(cells(1))
  {
    var key: string := heap(cells(0));
    SettingLine(f, spec, cells, heap);
    var before, after := PrintedAroundCore(spec, cells(1), heap);
    var core := Core(spec, cells(1));
    CoreReadsBack(spec, cells(1));
    P.SplitRecovers("", key, " ", " " + before, core, after, "\n");
    Rearrange(key, before, core, after);
  }

  lemma Rearrange(key: string, b: string, c: string, a: string)
    ensures key + (" = " + (b + (c + a) + "\n")) == "" + (key + " " + "=" + (" " + b + (c + a))) + "\n"
  {
    var m := b + (c + a);
    assert " " + b + (c + a) == " " + m;
    assert key + " " + "=" + (" " + m) == key + " = " + m;
    assert key + (" = " + (m + "\n")) == key + " = " + m + "\n";
  }

  // ---- through the buffer ---------------------------------------------------------------------

  ghost predicate NoNul(s: string) {
    forall i :: 0 <= i < |s| ==> s[i] != '\0'
  }

  lemma NoNulJoins(s: string, t: string)
    requires NoNul(s) && NoNul(t)
    ensures NoNul(s + t)
  {
    forall i | 0 <= i < |s + t| ensures (s + t)[i] != '\0' {
      assert (s + t)[i] == if i < |s| then s[i] else t[i - |s|];
    }
  }

  lemma NumberHasNoNul(s: string)
    requires N.IsNumber(s)
    ensures NoNul(s)
  {
    forall i | 0 <= i < |s| ensures s[i] != '\0' {
      var d := N.Unsigned(s);
      if |d| < |s| && i > 0 { assert s[i] == d[i - 1] && IsDigit(d[i - 1]); }
      if |d| == |s| { assert IsDigit(d[i]); }
    }
  }

  lemma LineHasNoNul(f: string, spec: Spec, cells: Cells, heap: Heap)
    requires ParseSpec(f) == (spec, "\n") && (spec.conv == 'd' || spec.conv == 'i') && cells(0) != 0
    ensures NoNul(Denote(SettingFormat(f), cells, heap, 0).0)
  {
    SettingLine(f, spec, cells, heap);
    var before, after := PrintedAroundCore(spec, cells(1), heap);
    var core := Core(spec, cells(1));
    CoreReadsBack(spec, cells(1));
    NumberHasNoNul(core);
    NoNulJoins(core, after);
    NoNulJoins(before, core + after);
    NoNulJoins(before + (core + after), "\n");
    NoNulJoins(" = ", before + (core + after) + "\n");
    NoNulJoins(heap(cells(0)), " = " + (before + (core + after) + "\n"));
  }

  method ReadString(line: array<char>, at: nat, ghost s: string) returns (r: string)
    requires P.Holds(line, at, s)
    ensures r == s
  {
    r := [];
    while line[at + |r|] != '\0'
      invariant |r| <= |s| && r == s[..|r|]
      decreases |s| - |r|
    {
      r := r + [line[at + |r|]];
    }
  }

  /** _SNPrintfArgs() into a buffer with room, prefs_split() of that buffer, prefs_number() of
      the value: the key and the number that went in. */
  method SettingSurvives(line: array<char>, f: CString, ghost spec: Spec, cells: Cells, heap: Heap)
    returns (ok: bool, key: string, number: N.int32)
    requires ParseSpec(f) == (spec, "\n") && (spec.conv == 'd' || spec.conv == 'i')
    requires cells(0) != 0 && P.IsKey(heap(cells(0)))
    requires |Denote(SettingFormat(f), cells, heap, 0).0| < line.Length
    modifies line
    ensures ok && key == heap(cells(0)) && number as int == Signed(cells(1))
  {
    ghost var text := Denote(SettingFormat(f), cells, heap, 0).0;
    FormatIsCString(f);
    var format: CString := SettingFormat(f);
    var n := E.SNPrintfArgs(line, line.Length, Some(format), cells, heap);
    LineHasNoNul(f, spec, cells, heap);
    SettingRoundTrip(f, spec, cells, heap);
    assert P.Holds(line, 0, text) by { StoredHolds(line, text); }
    var split, k, v := P.SplitLine(line, text, 0, 0);
    key := ReadString(line, k, P.Split(text).value.0);
    var value := ReadString(line, v, P.Split(text).value.1);
    ok, number := N.ParseNumber(value, N.PREFS_NUMBER_LEAST, N.PREFS_NUMBER_MOST, 0);
  }

  lemma StoredHolds(line: array<char>, text: string)
    requires NoNul(text) && |text| < line.Length
    requires line[..][..|text|] == text && line[|text|] == '\0'
    ensures P.Holds(line, 0, text)
  {
    forall k | 0 <= k < |text| ensures line[k] == text[k] {
      assert line[..][..|text|][k] == line[k];
    }
  }
}
