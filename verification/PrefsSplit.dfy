/** prefs_split() of src/prefs.c: one line of a settings file cut into key and value in
    place, by writing NULs over the line. */
module PrefsSplit {
  import opened Machine

  predicate IsBlank(c: char) {
    c == ' ' || c == '\t'
  }

  predicate IsEol(c: char) {
    c == '\n' || c == '\r'
  }

  // ---- what a line says ---------------------------------------------------------------------

  /** The position of the first CR or LF, or the length. */
  function EolAt(s: string): (i: nat)
    ensures i <= |s| && (i < |s| ==> IsEol(s[i]))
    ensures forall j :: 0 <= j < i ==> !IsEol(s[j])
  {
    if s == [] || IsEol(s[0]) then 0 else 1 + EolAt(s[1..])
  }

  /** How many blanks the string starts with. */
  function Lead(s: string): (i: nat)
    ensures i <= |s| && (i < |s| ==> !IsBlank(s[i]))
    ensures forall j :: 0 <= j < i ==> IsBlank(s[j])
  {
    if s == [] || !IsBlank(s[0]) then 0 else 1 + Lead(s[1..])
  }

  /** Where the string ends without the blanks it ends with. */
  function Tail(s: string): (i: nat)
    ensures i <= |s| && (i > 0 ==> !IsBlank(s[i - 1]))
    ensures forall j :: i <= j < |s| ==> IsBlank(s[j])
  {
    if s == [] || !IsBlank(s[|s| - 1]) then |s| else Tail(s[..|s| - 1])
  }

  /** The position of the first '=', or the length. */
  function Equals(s: string): (i: nat)
    ensures i <= |s| && (i < |s| ==> s[i] == '=')
    ensures forall j :: 0 <= j < i ==> s[j] != '='
  {
    if s == [] || s[0] == '=' then 0 else 1 + Equals(s[1..])
  }

  function Chomp(s: string): string {
    s[..EolAt(s)]
  }

  function TrimLeft(s: string): string {
    s[Lead(s)..]
  }

  function TrimRight(s: string): string {
    s[..Tail(s)]
  }

  /** Key and value of a line that starts with no blank. */
  function SplitTrimmed(line: string): Option<(string, string)> {
    if line == [] || line[0] == '#' || line[0] == ';' || Equals(line) == |line| then None
    else
      var key, val := TrimRight(line[..Equals(line)]), TrimRight(TrimLeft(line[Equals(line) + 1..]));
      if key == [] || val == [] then None else Some((key, val))
  }

  /** Key and value of a line, or nothing for a blank line, a comment, a line without '=' and
      one whose key or value is empty. */
  function Split(text: string): Option<(string, string)> {
    SplitTrimmed(TrimLeft(Chomp(text)))
  }

  // ---- the line in memory -------------------------------------------------------------------

  /** The C string at `i` is `s`. */
  ghost predicate Holds(line: array<char>, i: int, s: string)
    reads line
  {
    && 0 <= i && i + |s| < line.Length && line[i + |s|] == '\0'
    && forall k {:trigger line[k]} :: i <= k < i + |s| ==> line[k] == s[k - i] && line[k] != '\0'
  }

  /** Trim the trailing CR/LF: cut the string at the first of them. */
  method CutEol(line: array<char>, ghost text: string)
    requires Holds(line, 0, text)
    modifies line
    ensures Holds(line, 0, Chomp(text))
    ensures forall j :: |text| < j < line.Length ==> line[j] == old(line[j])
  {
    var eol := 0;
    while line[eol] != '\0' && !IsEol(line[eol])
      invariant 0 <= eol <= |text| && forall j :: 0 <= j < eol ==> !IsEol(text[j])
      decreases |text| - eol
    {
      eol := eol + 1;
    }
    assert eol == EolAt(text);
    line[eol] := '\0';
  }

  /** Skip blanks from `i` on. */
  method SkipBlanks(line: array<char>, i: nat, ghost s: string) returns (to: nat)
    requires Holds(line, i, s)
    ensures to == i + Lead(s) && Holds(line, to, TrimLeft(s))
  {
    to := i;
    while IsBlank(line[to])
      invariant i <= to <= i + |s| && forall j :: 0 <= j < to - i ==> IsBlank(s[j])
      decreases i + |s| - to
    {
      to := to + 1;
    }
    assert to - i == Lead(s);
  }

  /** The first '=' of the string at `i`, or its end. */
  method FindEquals(line: array<char>, i: nat, ghost s: string) returns (eq: nat)
    requires Holds(line, i, s)
    ensures eq == i + Equals(s) && line[eq] == if Equals(s) < |s| then '=' else '\0'
  {
    eq := i;
    while line[eq] != '\0' && line[eq] != '='
      invariant i <= eq <= i + |s| && forall j :: 0 <= j < eq - i ==> s[j] != '='
      decreases i + |s| - eq
    {
      eq := eq + 1;
    }
    assert eq - i == Equals(s);
  }

  /** Strip the trailing blanks of the string at `i`. */
  method StripRight(line: array<char>, i: nat, ghost s: string)
    requires Holds(line, i, s)
    modifies line
    ensures Holds(line, i, TrimRight(s))
    ensures forall j :: 0 <= j < line.Length && !(i <= j < i + |s|) ==> line[j] == old(line[j])
  {
    var end := i;
    while line[end] != '\0'
      invariant i <= end <= i + |s|
      decreases i + |s| - end
    {
      end := end + 1;
    }
    while end > i && IsBlank(line[end - 1])
      invariant i <= end <= i + |s| && line[end] == '\0'
      invariant forall j :: end - i <= j < |s| ==> IsBlank(s[j])
      invariant forall j :: i <= j < end ==> line[j] == old(line[j])
      invariant forall j :: 0 <= j < line.Length && !(i <= j < i + |s|) ==> line[j] == old(line[j])
    {
      end := end - 1;
      line[end] := '\0';
    }
    assert end - i == Tail(s);
  }

  /** Strip both halves: the value's leading blanks are skipped, then the trailing ones of
      either are overwritten. */
  method StripHalves(line: array<char>, a: nat, ghost left: string, b: nat, ghost right: string) returns (v: nat)
    requires Holds(line, a, left) && Holds(line, b, right) && a + |left| < b
    modifies line
    ensures Holds(line, a, TrimRight(left)) && Holds(line, v, TrimRight(TrimLeft(right)))
    ensures forall j :: b + |right| < j < line.Length ==> line[j] == old(line[j])
  {
    v := SkipBlanks(line, b, right);
    StripRight(line, v, TrimLeft(right));
    assert Holds(line, a, left);
    StripRight(line, a, left);
  }

  /** Cut the string at `i` at its first '=', if it has one. */
  method CutEquals(line: array<char>, i: nat, ghost s: string) returns (eq: nat, found: bool)
    requires Holds(line, i, s)
    modifies line
    ensures found <==> Equals(s) < |s|
    ensures eq == i + Equals(s)
    ensures found ==> Holds(line, i, s[..Equals(s)]) && Holds(line, eq + 1, s[Equals(s) + 1..])
    ensures forall j :: i + |s| < j < line.Length ==> line[j] == old(line[j])
  {
    eq := FindEquals(line, i, s);
    found := line[eq] == '=';
    if found {
      line[eq] := '\0';
    }
  }

  /** prefs_split(): on a settings line key and value are the C strings at `k` and `v`; on
      refusal both stay what they were. Nothing beyond the line's NUL is written. */
  method SplitLine(line: array<char>, ghost text: string, key: nat, val: nat) returns (ok: bool, k: nat, v: nat)
    requires Holds(line, 0, text)
    modifies line
    ensures ok <==> Split(text).Some?
    ensures ok ==> Holds(line, k, Split(text).value.0) && Holds(line, v, Split(text).value.1)
    ensures !ok ==> k == key && v == val
    ensures forall j :: |text| < j < line.Length ==> line[j] == old(line[j])
  {
    CutEol(line, text);
    var start := SkipBlanks(line, 0, Chomp(text));
    ok, k, v := SplitBody(line, start, TrimLeft(Chomp(text)), key, val);
  }

  method SplitBody(line: array<char>, start: nat, ghost body: string, key: nat, val: nat)
    returns (ok: bool, k: nat, v: nat)
    requires Holds(line, start, body)
    modifies line
    ensures ok <==> SplitTrimmed(body).Some?
    ensures ok ==> Holds(line, k, SplitTrimmed(body).value.0) && Holds(line, v, SplitTrimmed(body).value.1)
    ensures !ok ==> k == key && v == val
    ensures forall j :: start + |body| < j < line.Length ==> line[j] == old(line[j])
  {
    ok, k, v := false, key, val;
    if line[start] == '\0' || line[start] == '#' || line[start] == ';' {
      return;
    }
    var eq, found := CutEquals(line, start, body);
    if !found {
      return;
    }
    var value := StripHalves(line, start, body[..Equals(body)], eq + 1, body[Equals(body) + 1..]);
    if line[start] == '\0' || line[value] == '\0' {
      return;
    }
    ok, k, v := true, start, value;
  }

  // ---- every well-formed setting is recovered -------------------------------------------------

  ghost predicate Blanks(s: string) {
    forall i :: 0 <= i < |s| ==> IsBlank(s[i])
  }

  ghost predicate OneLine(s: string) {
    forall i :: 0 <= i < |s| ==> !IsEol(s[i])
  }

  ghost predicate Trimmed(s: string) {
    s != [] && !IsBlank(s[0]) && !IsBlank(s[|s| - 1])
  }

  ghost predicate IsKey(s: string) {
    Trimmed(s) && OneLine(s) && s[0] != '#' && s[0] != ';' && forall i :: 0 <= i < |s| ==> s[i] != '='
  }

  /** A value may hold anything but a line end, '=' and inner blanks included. */
  ghost predicate IsValue(s: string) {
    Trimmed(s) && OneLine(s)
  }

  lemma ChompEnds(s: string, e: string)
    requires OneLine(s) && (e == [] || IsEol(e[0]))
    ensures Chomp(s + e) == s
  {
    assert EolAt(s + e) == |s| by {
      assert forall j :: 0 <= j < |s| ==> (s + e)[j] == s[j];
      if e != [] { assert (s + e)[|s|] == e[0]; }
    }
  }

  lemma TrimLeftDrops(b: string, s: string)
    requires Blanks(b) && s != [] && !IsBlank(s[0])
    ensures TrimLeft(b + s) == s
  {
    assert Lead(b + s) == |b| by {
      assert (b + s)[|b|] == s[0];
      assert forall j :: 0 <= j < |b| ==> (b + s)[j] == b[j];
    }
  }

  lemma TrimRightDrops(s: string, b: string)
    requires Blanks(b) && s != [] && !IsBlank(s[|s| - 1])
    ensures TrimRight(s + b) == s
  {
    assert Tail(s + b) == |s| by {
      assert (s + b)[|s| - 1] == s[|s| - 1];
      assert forall j :: |s| <= j < |s + b| ==> (s + b)[j] == b[j - |s|];
    }
  }

  lemma OneLineJoins(s: string, t: string)
    requires (OneLine(s) || Blanks(s)) && (OneLine(t) || Blanks(t))
    ensures OneLine(s + t)
  {
    forall i | 0 <= i < |s + t| ensures !IsEol((s + t)[i]) {
      assert (s + t)[i] == if i < |s| then s[i] else t[i - |s|];
    }
  }

  lemma TrimmedRecovers(key: string, b2: string, b3: string, val: string, b4: string)
    requires IsKey(key) && IsValue(val) && Blanks(b2) && Blanks(b3) && Blanks(b4)
    ensures SplitTrimmed(key + b2 + "=" + (b3 + (val + b4))) == Some((key, val))
  {
    var left, right := key + b2, b3 + (val + b4);
    var body := left + "=" + right;
    assert body[0] == key[0];
    assert Equals(body) == |left| by {
      assert body[|left|] == '=';
      assert forall j :: 0 <= j < |left| ==> body[j] == left[j];
    }
    assert body[..|left|] == left && body[|left| + 1..] == right;
    TrimRightDrops(key, b2);
    assert (val + b4)[0] == val[0];
    TrimLeftDrops(b3, val + b4);
    TrimRightDrops(val, b4);
  }

  /** Whatever blanks surround key and value and whatever line end follows, both come back. */
  lemma SplitRecovers(b1: string, key: string, b2: string, b3: string, val: string, b4: string, e: string)
    requires IsKey(key) && IsValue(val) && Blanks(b1) && Blanks(b2) && Blanks(b3) && Blanks(b4)
    requires e == [] || IsEol(e[0])
    ensures Split(b1 + (key + b2 + "=" + (b3 + (val + b4))) + e) == Some((key, val))
  {
    var body := key + b2 + "=" + (b3 + (val + b4));
    assert OneLine(b1 + body) by {
      OneLineJoins(key, b2);
      OneLineJoins(key + b2, "=");
      OneLineJoins(val, b4);
      OneLineJoins(b3, val + b4);
      OneLineJoins(key + b2 + "=", b3 + (val + b4));
      OneLineJoins(b1, body);
    }
    ChompEnds(b1 + body, e);
    assert body[0] == key[0];
    TrimLeftDrops(b1, body);
    TrimmedRecovers(key, b2, b3, val, b4);
  }

  // ---- which lines are settings -----------------------------------------------------------------

  ghost predicate BlankIn(s: string, lo: int, hi: int) {
    forall i :: 0 <= lo <= i < hi <= |s| ==> IsBlank(s[i])
  }

  /** The text before its line end, if it has one. */
  ghost predicate LineOf(text: string, line: string) {
    && |line| <= |text| && line == text[..|line|] && OneLine(line)
    && (|line| < |text| ==> IsEol(text[|line|]))
  }

  /** The first character that is not blank starts a comment. */
  ghost predicate IsComment(line: string) {
    exists i :: 0 <= i < |line| && BlankIn(line, 0, i) && (line[i] == '#' || line[i] == ';')
  }

  /** `q` is the first '='. */
  ghost predicate FirstEquals(line: string, q: nat) {
    q < |line| && line[q] == '=' && forall i :: 0 <= i < q ==> line[i] != '='
  }

  /** Nothing but blanks in front of the first '=', or behind it. */
  ghost predicate EmptyHalf(line: string) {
    exists q: nat :: FirstEquals(line, q) && (BlankIn(line, 0, q) || BlankIn(line, q + 1, |line|))
  }

  ghost predicate NoEquals(line: string) {
    forall i :: 0 <= i < |line| ==> line[i] != '='
  }

  lemma LineIsChomp(text: string, line: string)
    requires LineOf(text, line)
    ensures Chomp(text) == line
  {
  }

  lemma AllBlankTrims(s: string)
    ensures TrimRight(s) == [] <==> BlankIn(s, 0, |s|)
    ensures TrimRight(TrimLeft(s)) == [] <==> BlankIn(s, 0, |s|)
  {
    var a, t := Lead(s), TrimLeft(s);
    assert Tail(s) > 0 ==> !IsBlank(s[Tail(s) - 1]);
    assert Tail(t) > 0 ==> t[Tail(t) - 1] == s[a + Tail(t) - 1];
    assert a < |s| ==> t[0] == s[a];
  }

  /** `body` is the line behind `a` blanks. */
  ghost predicate Behind(line: string, a: nat, body: string) {
    a <= |line| && body == line[a..] && BlankIn(line, 0, a)
  }

  lemma TrimIsBehind(line: string)
    ensures Behind(line, Lead(line), TrimLeft(line))
  {
  }

  lemma BehindBlank(line: string, a: nat, body: string, lo: nat, hi: nat)
    requires Behind(line, a, body) && lo <= hi <= |body|
    ensures BlankIn(line, a + lo, a + hi) <==> BlankIn(body, lo, hi)
    ensures BlankIn(line, 0, a + hi) <==> BlankIn(body, 0, hi)
  {
    assert forall i :: 0 <= i < |body| ==> body[i] == line[a + i];
    if BlankIn(body, lo, hi) {
      forall i | a + lo <= i < a + hi ensures IsBlank(line[i]) { assert body[i - a] == line[i]; }
    }
    if BlankIn(body, 0, hi) {
      forall i | 0 <= i < a + hi ensures IsBlank(line[i]) {
        if i >= a { assert body[i - a] == line[i]; }
      }
    }
  }

  lemma BehindEquals(line: string, a: nat, body: string, q: nat)
    requires Behind(line, a, body)
    ensures FirstEquals(body, q) ==> FirstEquals(line, a + q)
    ensures NoEquals(body) <==> NoEquals(line)
  {
    assert forall i :: 0 <= i < |body| ==> body[i] == line[a + i];
    forall i | 0 <= i < a ensures line[i] != '=' { assert IsBlank(line[i]); }
    if FirstEquals(body, q) {
      forall i | a <= i < a + q ensures line[i] != '=' { assert body[i - a] == line[i]; }
    }
    if NoEquals(body) {
      forall i | a <= i < |line| ensures line[i] != '=' { assert body[i - a] == line[i]; }
    }
  }

  lemma EqualsIsFirst(body: string)
    ensures Equals(body) == |body| <==> NoEquals(body)
    ensures Equals(body) < |body| ==> FirstEquals(body, Equals(body))
  {
  }

  lemma OnlyFirstEquals(line: string, q: nat, r: nat)
    requires FirstEquals(line, q) && FirstEquals(line, r)
    ensures q == r
  {
  }

  lemma HalfIsEmpty(line: string, q: nat)
    requires FirstEquals(line, q)
    ensures EmptyHalf(line) <==> BlankIn(line, 0, q) || BlankIn(line, q + 1, |line|)
  {
    if EmptyHalf(line) {
      var r: nat :| FirstEquals(line, r) && (BlankIn(line, 0, r) || BlankIn(line, r + 1, |line|));
      OnlyFirstEquals(line, q, r);
    }
  }

  lemma PartIsBlank(s: string, lo: nat, hi: nat)
    requires lo <= hi <= |s|
    ensures BlankIn(s[lo..hi], 0, hi - lo) <==> BlankIn(s, lo, hi)
  {
    var part := s[lo..hi];
    if BlankIn(part, 0, hi - lo) {
      forall i | lo <= i < hi ensures IsBlank(s[i]) { assert part[i - lo] == s[i]; }
    }
  }

  lemma CommentIff(line: string)
    ensures IsComment(line) <==> Lead(line) < |line| && (line[Lead(line)] == '#' || line[Lead(line)] == ';')
  {
    var a := Lead(line);
    if IsComment(line) {
      var i :| 0 <= i < |line| && BlankIn(line, 0, i) && (line[i] == '#' || line[i] == ';');
      assert !IsBlank(line[i]);
      assert i == a;
    }
    if a < |line| { assert BlankIn(line, 0, a); }
  }

  /** The halves of what follows the blanks are empty exactly when those of the line are. */
  lemma HalvesTrim(line: string, a: nat, body: string, q: nat)
    requires Behind(line, a, body) && FirstEquals(body, q)
    ensures EmptyHalf(line) <==> TrimRight(body[..q]) == [] || TrimRight(TrimLeft(body[q + 1..])) == []
  {
    BehindEquals(line, a, body, q);
    HalfIsEmpty(line, a + q);
    BehindBlank(line, a, body, 0, q);
    BehindBlank(line, a, body, q + 1, |body|);
    assert body[0..q] == body[..q] && body[q + 1..|body|] == body[q + 1..];
    PartIsBlank(body, 0, q);
    PartIsBlank(body, q + 1, |body|);
    AllBlankTrims(body[..q]);
    AllBlankTrims(body[q + 1..]);
  }

  /** A line is refused exactly when it has no '=', is a comment or has an empty half. */
  lemma RefusedIff(line: string)
    ensures SplitTrimmed(TrimLeft(line)).None? <==> NoEquals(line) || IsComment(line) || EmptyHalf(line)
  {
    var a, body := Lead(line), TrimLeft(line);
    TrimIsBehind(line);
    CommentIff(line);
    assert a < |line| ==> body[0] == line[a];
    EqualsIsFirst(body);
    BehindEquals(line, a, body, 0);
    if Equals(body) < |body| { HalvesTrim(line, a, body, Equals(body)); }
  }

  /** prefs_split() refuses a text exactly when its line, up to the first CR or LF, has no '=',
      as a blank one has not, or is a comment, or has nothing but blanks on one side of its
      first '='. */
  lemma SplitRefusesIff(text: string, line: string)
    requires LineOf(text, line)
    ensures Split(text).None? <==> NoEquals(line) || IsComment(line) || EmptyHalf(line)
  {
    LineIsChomp(text, line);
    RefusedIff(line);
  }
}
