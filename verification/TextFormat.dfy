/** src/textfmt.c: what a format string denotes. Every argument is one 32-bit cell; a %s cell
    is the address of a C string. TextEngine.dfy has the loops that emit it. */
module TextFormat {
  import opened Machine

  /** The characters of a C string before its NUL. */
  type CString = s: string | '\0' !in s

  type Cells = nat -> u32

  type Heap = u32 -> CString

  // ---- digits ---------------------------------------------------------------------------

  function DigitChar(d: nat, upper: bool): char
    requires d < 16
  {
    if upper then "0123456789ABCDEF"[d] else "0123456789abcdef"[d]
  }

  /** The digits of `v`, most significant first, "0" for zero. */
  function Digits(v: nat, radix: nat, upper: bool): (s: string)
    requires 2 <= radix <= 16
    ensures |s| > 0
    decreases v
  {
    if v < radix then [DigitChar(v, upper)]
    else
      assert v / radix < v;
      Digits(v / radix, radix, upper) + [DigitChar(v % radix, upper)]
  }

  // ---- the conversion specification ---------------------------------------------------------

  /** %[-][0][width][.prec][h|l|z]type; `conv` is NUL when the format ends here. */
  datatype Spec = Spec(left: bool, zero: bool, width: nat, prec: Option<nat>, conv: char)

  function Flags(f: string, left: bool, zero: bool): (r: (bool, bool, string))
    ensures |r.2| <= |f|
  {
    if f != [] && f[0] == '-' then Flags(f[1..], true, zero)
    else if f != [] && f[0] == '0' then Flags(f[1..], left, true)
    else (left, zero, f)
  }

  function Count(f: string, soFar: nat): (r: (nat, string))
    ensures |r.1| <= |f|
  {
    if f != [] && IsDigit(f[0]) then Count(f[1..], soFar * 10 + (f[0] as int - '0' as int)) else (soFar, f)
  }

  function Modifiers(f: string): (r: string)
    ensures |r| <= |f|
  {
    if f != [] && (f[0] == 'h' || f[0] == 'l' || f[0] == 'z') then Modifiers(f[1..]) else f
  }

  function Precision(f: string): (r: (Option<nat>, string))
    ensures |r.1| <= |f|
  {
    if f != [] && f[0] == '.' then var (n, rest) := Count(f[1..], 0); (Some(n), rest) else (None, f)
  }

  /** The specification behind a '%', and the format behind it. */
  function ParseSpec(f: string): (r: (Spec, string))
    ensures |r.1| <= |f|
  {
    var (left, zero, f1) := Flags(f, false, false);
    var (width, f2) := Count(f1, 0);
    var (prec, f3) := Precision(f2);
    var f4 := Modifiers(f3);
    if f4 == [] then (Spec(left, zero, width, prec, '\0'), [])
    else (Spec(left, zero, width, prec, f4[0]), f4[1..])
  }

  // ---- one conversion -------------------------------------------------------------------------

  function Signed(cell: u32): int {
    if cell >= 0x8000_0000 then cell - TWO32 else cell
  }

  function Magnitude(cell: u32): u32 {
    if cell >= 0x8000_0000 then TWO32 - cell else cell
  }

  predicate Known(conv: char) {
    TakesCell(conv) || conv == '%'
  }

  predicate TakesCell(conv: char) {
    conv == 's' || conv == 'c' || conv == 'd' || conv == 'i' || conv == 'u' || conv == 'x' || conv == 'X' || conv == 'p'
  }

  /** What is printed of a cell, without sign and padding. */
  function Body(spec: Spec, cell: u32, heap: Heap): string
    requires Known(spec.conv)
  {
    match spec.conv
    case 's' =>
      var s := if cell == 0 then "(null)" else heap(cell);
      if spec.prec.Some? && spec.prec.value < |s| then s[..spec.prec.value] else s
    case 'c' => [(cell % 256) as char]
    case 'd' => Digits(Magnitude(cell), 10, false)
    case 'i' => Digits(Magnitude(cell), 10, false)
    case 'u' => Digits(cell, 10, false)
    case 'x' => Digits(cell, 16, false)
    case 'X' => Digits(cell, 16, true)
    case 'p' => Digits(cell, 16, false)
    case _ => "%"
  }

  predicate Negative(spec: Spec, cell: u32) {
    (spec.conv == 'd' || spec.conv == 'i') && cell >= 0x8000_0000
  }

  /** %p is padded to eight digits at least. */
  function Width(spec: Spec): nat {
    if spec.conv == 'p' && spec.width < 8 then 8 else spec.width
  }

  predicate ZeroPadded(spec: Spec) {
    if spec.conv == 'p' then true
    else spec.zero && !spec.left && spec.conv != 's' && spec.conv != 'c' && spec.conv != '%'
  }

  function Repeat(c: char, n: int): (s: string)
    ensures |s| == if n > 0 then n else 0
    ensures forall i :: 0 <= i < |s| ==> s[i] == c
  {
    if n <= 0 then [] else Repeat(c, n - 1) + [c]
  }

  /** Sign, padding and body in their order: blanks before the sign or behind the body,
      zeros between sign and body. */
  function Laid(left: bool, zeros: bool, width: nat, negative: bool, body: string): string {
    var sign := if negative then "-" else "";
    var fill := width - |body| - |sign|;
    if left then sign + body + Repeat(' ', fill)
    else if zeros then sign + Repeat('0', fill) + body
    else Repeat(' ', fill) + sign + body
  }

  /** One conversion: its text, and the cells it took. */
  function Convert(spec: Spec, cell: u32, heap: Heap): (string, nat) {
    if !Known(spec.conv) then (if spec.conv == '\0' then "%" else ['%', spec.conv], 0)
    else
      (Laid(spec.left, ZeroPadded(spec), Width(spec), Negative(spec, cell), Body(spec, cell, heap)),
       if TakesCell(spec.conv) then 1 else 0)
  }

  /** The text of a format and the cells it consumes from position `k` on. */
  function Denote(f: string, cells: Cells, heap: Heap, k: nat): (string, nat)
    decreases |f|
  {
    if f == [] then ([], k)
    else if f[0] != '%' then
      var (rest, k') := Denote(f[1..], cells, heap, k); ([f[0]] + rest, k')
    else
      var (spec, f') := ParseSpec(f[1..]);
      var (text, used) := Convert(spec, cells(k), heap);
      var (rest, k') := Denote(f', cells, heap, k + used);
      (text + rest, k')
  }

  /** The denotation of a format that starts with a conversion, and of one that does not. */
  lemma DenotePercent(f: string, spec: Spec, f': string, cells: Cells, heap: Heap, k: nat)
    requires f != [] && f[0] == '%' && (spec, f') == ParseSpec(f[1..])
    ensures var rest := Denote(f', cells, heap, k + Convert(spec, cells(k), heap).1);
            Denote(f, cells, heap, k) == (Convert(spec, cells(k), heap).0 + rest.0, rest.1)
  {
  }

  lemma DenoteCharacter(c: char, f: string, cells: Cells, heap: Heap, k: nat)
    requires c != '%'
    ensures var rest := Denote(f, cells, heap, k);
            Denote([c] + f, cells, heap, k) == ([c] + rest.0, rest.1)
  {
    assert ([c] + f)[1..] == f;
  }

  // ---- what a conversion comes to ---------------------------------------------------------------

  /** A known conversion is exactly as long as its width or as what it prints, whichever is
      more, and takes one cell unless it is %%. An unknown one is echoed and takes none. */
  lemma ConversionLength(spec: Spec, cell: u32, heap: Heap)
    ensures var (text, used) := Convert(spec, cell, heap);
            if Known(spec.conv) then
              var printed := |Body(spec, cell, heap)| + (if Negative(spec, cell) then 1 else 0);
              |text| == (if Width(spec) > printed then Width(spec) else printed) &&
              used == (if spec.conv == '%' then 0 else 1)
            else used == 0 && text == (if spec.conv == '\0' then "%" else "%" + [spec.conv])
  {
  }

  /** No 32-bit number has more than ten digits in radix 10 or eight in radix 16: the digit
      buffer has room for them. */
  lemma {:induction false} DigitsFit(v: nat, radix: nat, upper: bool, limit: nat, n: nat)
    requires 2 <= radix <= 16 && v < limit && limit <= Power(radix, n)
    ensures v > 0 || n > 0 ==> |Digits(v, radix, upper)| <= n
    decreases n
  {
    if v >= radix {
      assert Power(radix, n) == radix * Power(radix, n - 1);
      QuotientBelow(v, radix, Power(radix, n - 1));
      DigitsFit(v / radix, radix, upper, Power(radix, n - 1), n - 1);
    }
  }

  function Power(b: nat, n: nat): nat {
    if n == 0 then 1 else b * Power(b, n - 1)
  }

  lemma QuotientBelow(v: nat, radix: nat, p: nat)
    requires radix > 0 && v < radix * p
    ensures v / radix < p
  {
    var q := v / radix;
    assert radix * q <= v;
    ProductMonotone(radix, p, q);
  }

  lemma ProductMonotone(a: nat, p: nat, q: nat)
    ensures p <= q ==> a * p <= a * q
  {
  }
}
