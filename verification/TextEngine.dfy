/** The loops of src/textfmt.c: fmt_core() and its parts emit exactly what the format denotes,
    one character at a time, into the bounded buffer of the snprintf front ends. */
module TextEngine {
  import opened Machine
  import opened TextFormat

  /** struct fmt_buf, with the caller's buffer; `sent` is every character ever emitted and
      `was` the buffer before the first. */
  class FmtBuf {
    const buffer: array?<char>
    const bufsize: nat
    var cursor: nat
    var room: nat
    var length: nat
    ghost var sent: string
    ghost const was: seq<char>

    ghost predicate Usable() {
      buffer != null && bufsize > 0
    }

    /** The buffer holds the first characters sent, as many as fit; the rest is untouched. */
    ghost predicate Valid()
      reads this, buffer
    {
      && (buffer != null ==> bufsize <= buffer.Length && |was| == buffer.Length)
      && length == |sent|
      && (if Usable() then cursor + room == bufsize - 1 else room == 0 && cursor == 0)
      && cursor <= |sent| && (room > 0 ==> cursor == |sent|)
      && (Usable() ==> forall j :: 0 <= j < buffer.Length ==> buffer[j] == if j < cursor then sent[j] else was[j])
      && (buffer != null && !Usable() ==> buffer[..] == was)
    }

    /** fmt_buf_init(). */
    constructor (buffer: array?<char>, bufsize: nat)
      requires buffer != null ==> bufsize <= buffer.Length
      ensures Valid() && sent == "" && this.buffer == buffer && this.bufsize == bufsize
      ensures buffer != null ==> was == buffer[..]
    {
      this.buffer, this.bufsize := buffer, bufsize;
      cursor, room, length := 0, if buffer != null && bufsize > 0 then bufsize - 1 else 0, 0;
      sent := "";
      was := if buffer != null then buffer[..] else [];
    }

    /** fmt_buf_putch(). */
    method Putch(c: char)
      requires Valid()
      modifies this, buffer
      ensures Valid() && sent == old(sent) + [c]
    {
      length := length + 1;
      sent := sent + [c];
      if room > 0 {
        buffer[cursor] := c;
        cursor, room := cursor + 1, room - 1;
      }
    }

    /** fmt_emit(). */
    method Emit(s: string)
      requires Valid()
      modifies this, buffer
      ensures Valid() && sent == old(sent) + s
    {
      var i := 0;
      while i < |s|
        invariant 0 <= i <= |s| && Valid() && sent == old(sent) + s[..i]
      {
        Putch(s[i]);
        i := i + 1;
      }
    }

    /** fmt_pad(). */
    method Pad(c: char, count: int)
      requires Valid()
      modifies this, buffer
      ensures Valid() && sent == old(sent) + Repeat(c, count)
    {
      var i := 0;
      while i < count
        invariant 0 <= i && (i <= count || i == 0) && Valid() && sent == old(sent) + Repeat(c, i)
      {
        Putch(c);
        i := i + 1;
      }
    }

    /** fmt_buf_done(): terminate what was stored. */
    method Done() returns (n: nat)
      requires Valid()
      modifies buffer
      ensures n == |sent|
      ensures Usable() ==> Stored(buffer[..], was, sent, bufsize)
      ensures buffer != null && !Usable() ==> buffer[..] == was
    {
      if buffer != null && bufsize > 0 {
        buffer[cursor] := '\0';
      }
      n := length;
    }
  }

  /** C99 snprintf: the first bufsize - 1 characters at most, a NUL behind them, and nothing
      else of the buffer written. */
  ghost predicate Stored(now: seq<char>, was: seq<char>, text: string, bufsize: nat) {
    var n := if |text| < bufsize then |text| else bufsize - 1;
    && 0 < bufsize <= |now| == |was|
    && now[..n] == text[..n] && now[n] == '\0' && now[n + 1..] == was[n + 1..]
  }

  // ---- digits -----------------------------------------------------------------------------

  /** fmt_digits(): backwards from the end of a 12-character buffer, which it never
      underruns. */
  method FmtDigits(buf: array<char>, v: u32, radix: nat, upper: bool) returns (p: nat)
    requires buf.Length == 12 && (radix == 10 || radix == 16)
    modifies buf
    ensures 2 <= p < 12 && buf[p..] == Digits(v, radix, upper)
  {
    AtMostTenDigits(v, radix, upper);
    p := 12;
    var rest: nat := v;
    ghost var all := Digits(v, radix, upper);
    assert all + buf[12..] == all;
    p, rest := PutDigit(buf, p, rest, radix, upper, all);
    while rest != 0
      invariant 0 <= p < 12
      invariant all == Left(rest, radix, upper) + buf[p..]
      decreases rest
    {
      p, rest := PutDigit(buf, p, rest, radix, upper, all);
    }
  }

  /** What is still to be written once a digit is out. */
  ghost function Left(rest: nat, radix: nat, upper: bool): string
    requires 2 <= radix <= 16
  {
    if rest == 0 then [] else Digits(rest, radix, upper)
  }

  /** One turn of the do loop: the last digit of what is left. */
  method PutDigit(buf: array<char>, p: nat, rest: nat, radix: nat, upper: bool, ghost all: string)
    returns (p': nat, rest': nat)
    requires buf.Length == 12 && (radix == 10 || radix == 16) && p <= 12 && |all| <= 10
    requires all == Digits(rest, radix, upper) + buf[p..]
    modifies buf
    ensures p' == p - 1 && 2 <= p' && rest' <= rest && (rest > 0 ==> rest' < rest)
    ensures all == Left(rest', radix, upper) + buf[p'..]
  {
    LastDigit(rest, radix, upper);
    ghost var tail := buf[p..];
    ghost var c := DigitChar(rest % radix, upper);
    p' := p - 1;
    buf[p'] := DigitChar(rest % radix, upper);
    assert buf[p'..] == [c] + tail;
    rest' := rest / radix;
    assert Left(rest', radix, upper) + [c] + tail == Left(rest', radix, upper) + ([c] + tail);
  }

  lemma AtMostTenDigits(v: u32, radix: nat, upper: bool)
    requires radix == 10 || radix == 16
    ensures |Digits(v, radix, upper)| <= 10
  {
    assert Power(10, 3) == 1000 && Power(10, 6) == 1000_000 && Power(10, 9) == 1000_000_000 &&
        Power(10, 10) == 10_000_000_000;
    assert Power(16, 4) == 0x1_0000 && Power(16, 8) == 0x1_0000_0000;
    DigitsFit(v, radix, upper, TWO32, if radix == 10 then 10 else 8);
  }

  lemma LastDigit(v: nat, radix: nat, upper: bool)
    requires radix == 10 || radix == 16
    ensures 0 <= v % radix < radix && v / radix <= v && (v > 0 ==> v / radix < v) && (v / radix == 0 <==> v < radix)
    ensures v < radix ==> v % radix == v
    ensures Digits(v, radix, upper) ==
            (if v < radix then [] else Digits(v / radix, radix, upper)) + [DigitChar(v % radix, upper)]
  {
  }

  // ---- the format cursor --------------------------------------------------------------------

  method ScanFlags(f: string, at: nat) returns (left: bool, zero: bool, to: nat)
    requires at <= |f|
    ensures at <= to <= |f| && (left, zero, f[to..]) == Flags(f[at..], false, false)
  {
    left, zero, to := false, false, at;
    while to < |f| && (f[to] == '-' || f[to] == '0')
      invariant at <= to <= |f| && Flags(f[to..], left, zero) == Flags(f[at..], false, false)
    {
      assert f[to..][1..] == f[to + 1..];
      if f[to] == '-' {
        left := true;
      } else {
        zero := true;
      }
      to := to + 1;
    }
  }

  method ScanCount(f: string, at: nat) returns (n: nat, to: nat)
    requires at <= |f|
    ensures at <= to <= |f| && (n, f[to..]) == Count(f[at..], 0)
  {
    n, to := 0, at;
    while to < |f| && IsDigit(f[to])
      invariant at <= to <= |f| && Count(f[to..], n) == Count(f[at..], 0)
    {
      assert f[to..][1..] == f[to + 1..];
      n := n * 10 + (f[to] as int - '0' as int);
      to := to + 1;
    }
  }

  method ScanModifiers(f: string, at: nat) returns (to: nat)
    requires at <= |f|
    ensures at <= to <= |f| && f[to..] == Modifiers(f[at..])
  {
    to := at;
    while to < |f| && (f[to] == 'h' || f[to] == 'l' || f[to] == 'z')
      invariant at <= to <= |f| && Modifiers(f[to..]) == Modifiers(f[at..])
    {
      assert f[to..][1..] == f[to + 1..];
      to := to + 1;
    }
  }

  method ScanPrecision(f: string, at: nat) returns (prec: Option<nat>, to: nat)
    requires at <= |f|
    ensures at <= to <= |f| && (prec, f[to..]) == Precision(f[at..])
  {
    prec, to := None, at;
    if at < |f| && f[at] == '.' {
      assert f[at..][1..] == f[at + 1..];
      var n: nat;
      n, to := ScanCount(f, at + 1);
      prec := Some(n);
    }
  }

  method ScanSpec(f: string, at: nat) returns (spec: Spec, to: nat)
    requires at <= |f|
    ensures at <= to <= |f| && (spec, f[to..]) == ParseSpec(f[at..])
  {
    var left, zero, f1 := ScanFlags(f, at);
    var width, f2 := ScanCount(f, f1);
    var prec, f3 := ScanPrecision(f, f2);
    to := ScanModifiers(f, f3);
    var conv := '\0';
    if to < |f| {
      assert f[to..][1..] == f[to + 1..];
      conv := f[to];
      to := to + 1;
    }
    spec := Spec(left, zero, width, prec, conv);
  }

  // ---- one conversion -------------------------------------------------------------------------

  /** The body of a conversion that takes its digits from the 12-character buffer. */
  method NumberBody(spec: Spec, cell: u32) returns (body: string)
    requires spec.conv in {'d', 'i', 'u', 'x', 'X', 'p'}
    ensures forall heap: Heap :: body == Body(spec, cell, heap)
  {
    var buf := new char[12];
    var decimal := spec.conv == 'd' || spec.conv == 'i' || spec.conv == 'u';
    // negated in unsigned space
    var v := if Negative(spec, cell) then Sub32(0, cell) else cell;
    var p := FmtDigits(buf, v, if decimal then 10 else 16, spec.conv == 'X');
    body := buf[p..];
  }

  method StringBody(spec: Spec, cell: u32, heap: Heap) returns (body: string)
    requires spec.conv == 's'
    ensures body == Body(spec, cell, heap)
  {
    var s: string := if cell == 0 then "(null)" else heap(cell);
    var len := 0;
    while len < |s| && (spec.prec.None? || len < spec.prec.value)
      invariant 0 <= len <= |s| && (spec.prec.Some? ==> len <= spec.prec.value)
    {
      len := len + 1;
    }
    body := s[..len];
  }

  /** fmt_pad() when it applies, and nothing otherwise. */
  method PadIf(sink: FmtBuf, applies: bool, c: char, count: int)
    requires sink.Valid()
    modifies sink, sink.buffer
    ensures sink.Valid() && sink.sent == old(sink.sent) + PadText(applies, c, count)
  {
    if applies {
      sink.Pad(c, count);
    } else {
      assert sink.sent + "" == sink.sent;
    }
  }

  function PadText(applies: bool, c: char, count: int): string {
    if applies then Repeat(c, count) else ""
  }

  method SignIf(sink: FmtBuf, negative: bool)
    requires sink.Valid()
    modifies sink, sink.buffer
    ensures sink.Valid() && sink.sent == old(sink.sent) + if negative then "-" else ""
  {
    if negative {
      sink.Putch('-');
    } else {
      assert sink.sent + "" == sink.sent;
    }
  }

  /** The five pieces in turn make up the conversion. */
  lemma LaidInPieces(start: string, s1: string, s2: string, s3: string, s4: string, s5: string,
                     left: bool, zeros: bool, width: nat, negative: bool, body: string)
    requires var sign := if negative then "-" else "";
             var fill := width - |body| - |sign|;
             && s1 == start + PadText(!left && !zeros, ' ', fill) && s2 == s1 + sign
             && s3 == s2 + PadText(!left && zeros, '0', fill) && s4 == s3 + body && s5 == s4 + PadText(left, ' ', fill)
    ensures s5 == start + Laid(left, zeros, width, negative, body)
  {
    var sign := if negative then "-" else "";
    var fill := width - |body| - |sign|;
    if left {
      JoinThree(start, sign, body, Repeat(' ', fill));
      assert s1 == start && s3 == s2;
    } else if zeros {
      JoinThree(start, sign, Repeat('0', fill), body);
      assert s1 == start && s5 == s4;
    } else {
      JoinThree(start, Repeat(' ', fill), sign, body);
      assert s3 == s2 && s5 == s4;
    }
  }

  lemma JoinThree(start: string, a: string, b: string, c: string)
    ensures start + a + b + c == start + (a + b + c)
  {
  }

  method EmitLaid(sink: FmtBuf, left: bool, zeros: bool, width: nat, negative: bool, body: string)
    requires sink.Valid()
    modifies sink, sink.buffer
    ensures sink.Valid() && sink.sent == old(sink.sent) + Laid(left, zeros, width, negative, body)
  {
    var fill := width - |body| - (if negative then 1 else 0);
    ghost var start := sink.sent;
    PadIf(sink, !left && !zeros, ' ', fill);
    ghost var s1 := sink.sent;
    SignIf(sink, negative);
    ghost var s2 := sink.sent;
    PadIf(sink, !left && zeros, '0', fill);
    ghost var s3 := sink.sent;
    sink.Emit(body);
    ghost var s4 := sink.sent;
    PadIf(sink, left, ' ', fill);
    LaidInPieces(start, s1, s2, s3, s4, sink.sent, left, zeros, width, negative, body);
  }

  /** The switch of fmt_core() and what follows it. */
  method EmitConversion(sink: FmtBuf, spec: Spec, cell: u32, heap: Heap) returns (used: nat)
    requires sink.Valid()
    modifies sink, sink.buffer
    ensures sink.Valid() && sink.sent == old(sink.sent) + Convert(spec, cell, heap).0 &&
            used == Convert(spec, cell, heap).1
  {
    if !Known(spec.conv) {
      sink.Putch('%');
      if spec.conv != '\0' {
        sink.Putch(spec.conv);
      }
      return 0;
    }
    var body: string;
    if spec.conv == 's' {
      body := StringBody(spec, cell, heap);
    } else if spec.conv == 'c' {
      body := [(cell % 256) as char];
    } else if spec.conv == '%' {
      body := "%";
    } else {
      body := NumberBody(spec, cell);
    }
    EmitLaid(sink, spec.left, ZeroPadded(spec), Width(spec), Negative(spec, cell), body);
    used := if TakesCell(spec.conv) then 1 else 0;
  }

  /** fmt_core(): the stream of the whole format, and the cells it consumed. */
  method FmtCore(sink: FmtBuf, format: CString, cells: Cells, heap: Heap) returns (k: nat)
    requires sink.Valid()
    modifies sink, sink.buffer
    ensures sink.Valid()
    ensures sink.sent == old(sink.sent) + Denote(format, cells, heap, 0).0 && k == Denote(format, cells, heap, 0).1
  {
    k := 0;
    var f := 0;
    assert format[0..] == format;
    ghost var start, goal := sink.sent, Denote(format, cells, heap, 0);
    while f < |format|
      invariant 0 <= f <= |format| && sink.Valid()
      invariant OnTrack(start, goal, sink.sent, format[f..], cells, heap, k)
    {
      f, k := FmtItem(sink, format, f, cells, heap, k, start, goal);
    }
  }

  /** One turn of the loop of fmt_core(): a character, or a conversion. */
  method FmtItem(sink: FmtBuf, format: string, f: nat, cells: Cells, heap: Heap, k: nat, ghost start: string,
                 ghost goal: (string, nat))
    returns (to: nat, k': nat)
    requires sink.Valid() && f < |format| && OnTrack(start, goal, sink.sent, format[f..], cells, heap, k)
    modifies sink, sink.buffer
    ensures sink.Valid() && f < to <= |format| && OnTrack(start, goal, sink.sent, format[to..], cells, heap, k')
  {
    if format[f] != '%' {
      OneCharacter(start, goal, sink.sent, format, f, cells, heap, k);
      sink.Putch(format[f]);
      return f + 1, k;
    }
    var spec: Spec;
    spec, to := ScanSpec(format, f + 1);
    OneConversion(start, goal, sink.sent, format, f, to, spec, cells, heap, k);
    var used := EmitConversion(sink, spec, cells(k), heap);
    k' := k + used;
  }

  /** What was sent since `start`, and what the rest of the format denotes, are together what
      the whole format denotes. */
  ghost predicate OnTrack(start: string, goal: (string, nat), sent: string, rest: string, cells: Cells, heap: Heap,
                          k: nat) {
    var d := Denote(rest, cells, heap, k);
    start + goal.0 == sent + d.0 && goal.1 == d.1
  }

  lemma OneCharacter(start: string, goal: (string, nat), sent: string, format: string, f: nat, cells: Cells,
                     heap: Heap, k: nat)
    requires f < |format| && format[f] != '%' && OnTrack(start, goal, sent, format[f..], cells, heap, k)
    ensures OnTrack(start, goal, sent + [format[f]], format[f + 1..], cells, heap, k)
  {
    var tail := format[f + 1..];
    assert format[f..] == [format[f]] + tail;
    DenoteCharacter(format[f], tail, cells, heap, k);
    var rest := Denote(tail, cells, heap, k).0;
    assert sent + ([format[f]] + rest) == sent + [format[f]] + rest;
  }

  lemma OneConversion(start: string, goal: (string, nat), sent: string, format: string, f: nat, to: nat, spec: Spec,
                      cells: Cells, heap: Heap, k: nat)
    requires f < to <= |format| && format[f] == '%' && OnTrack(start, goal, sent, format[f..], cells, heap, k)
    requires (spec, format[to..]) == ParseSpec(format[f + 1..])
    ensures OnTrack(start, goal, sent + Convert(spec, cells(k), heap).0, format[to..], cells, heap,
            k + Convert(spec, cells(k), heap).1)
  {
    assert format[f..][1..] == format[f + 1..];
    DenotePercent(format[f..], spec, format[to..], cells, heap, k);
    var text := Convert(spec, cells(k), heap).0;
    var rest := Denote(format[to..], cells, heap, k + Convert(spec, cells(k), heap).1).0;
    assert sent + (text + rest) == sent + text + rest;
  }

  /** The text of a format that may be NULL. */
  function Text(format: Option<CString>, cells: Cells, heap: Heap): string {
    if format.Some? then Denote(format.value, cells, heap, 0).0 else ""
  }

  /** _SNPrintfArgs(); `format` is None for a NULL format. */
  method SNPrintfArgs(buffer: array?<char>, bufsize: nat, format: Option<CString>, cells: Cells, heap: Heap)
    returns (n: nat)
    requires buffer != null ==> bufsize <= buffer.Length
    modifies buffer
    ensures n == |Text(format, cells, heap)|
    ensures buffer != null && bufsize > 0 ==> Stored(buffer[..], old(buffer[..]), Text(format, cells, heap), bufsize)
    ensures buffer != null && bufsize == 0 ==> buffer[..] == old(buffer[..])
  {
    var b := new FmtBuf(buffer, bufsize);
    n := Print(b, format, cells, heap);
  }

  method Print(b: FmtBuf, format: Option<CString>, cells: Cells, heap: Heap) returns (n: nat)
    requires b.Valid() && b.sent == ""
    modifies b, b.buffer
    ensures n == |Text(format, cells, heap)|
    ensures b.Usable() ==> Stored(b.buffer[..], b.was, Text(format, cells, heap), b.bufsize)
    ensures b.buffer != null && !b.Usable() ==> b.buffer[..] == b.was
  {
    if format.Some? {
      var _ := FmtCore(b, format.value, cells, heap);
    }
    assert b.sent == Text(format, cells, heap);
    n := b.Done();
  }
}
