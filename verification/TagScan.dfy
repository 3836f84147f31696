/** The streaming tag search of tools/emu68check.c: one state variable, `matched`,
    carried across the chunks that Read() delivers, with a naive fallback to 0 or 1.

    The search is exact for some tags and not for others. `Searchable` is the exact
    condition, proved in both directions; the rule in the source's comment (the first
    character does not recur) is a special case of it. */
module TagScan {

  /** `tag` occurs in `text`. */
  ghost predicate Occurs(tag: string, text: string) {
    exists i :: 0 <= i <= |text| - |tag| && OccursAt(tag, text, i)
  }

  ghost predicate OccursAt(tag: string, text: string, i: nat) {
    i + |tag| <= |text| && text[i..i + |tag|] == tag
  }

  /** The first `q` characters of `tag` are the last `q` characters of `text`. */
  ghost predicate Pending(tag: string, text: string, q: nat)
    requires q <= |tag|
  {
    q <= |text| && text[|text| - q..] == tag[..q]
  }

  /** `q` is the longest part of the tag, complete or not, that `text` ends with. */
  ghost predicate Longest(tag: string, text: string, q: nat)
    requires q <= |tag|
  {
    Pending(tag, text, q) && forall r | q < r <= |tag| :: !Pending(tag, text, r)
  }

  /** Whenever a proper non-empty prefix of length `b` also ends the first `m`
      characters of the tag, both continue with the same character. */
  ghost predicate Searchable(tag: string) {
    forall b: nat, m: nat | 1 <= b < m < |tag| && Pending(tag, tag[..m], b) :: tag[b] == tag[m]
  }

  /** The condition the source's comment states. */
  ghost predicate FirstDoesNotRecur(tag: string) {
    forall i | 1 <= i < |tag| :: tag[i] != tag[0]
  }

  /** One turn of the inner loop. */
  function Advance(tag: string, matched: nat, c: char): (r: nat)
    requires matched < |tag|
    ensures r <= matched + 1
  {
    if c == tag[matched] then matched + 1 else if c == tag[0] then 1 else 0
  }

  /** The state after `text`; it stays at |tag| once the tag is complete. */
  ghost function After(tag: string, text: string): (r: nat)
    requires tag != []
    ensures r <= |tag| && r <= |text|
  {
    if text == [] then 0
    else
      var before := After(tag, text[..|text| - 1]);
      if before == |tag| then before else Advance(tag, before, text[|text| - 1])
  }

  ghost function Flatten(chunks: seq<string>): string {
    if chunks == [] then [] else Flatten(chunks[..|chunks| - 1]) + chunks[|chunks| - 1]
  }

  lemma AfterOneMore(tag: string, text: string, c: char)
    requires tag != [] && After(tag, text) < |tag|
    ensures After(tag, text + [c]) == Advance(tag, After(tag, text), c)
  {
    assert (text + [c])[..|text|] == text;
  }

  /** The inner loop of check_ours(): one buffer, with `earlier` read before it. */
  method ScanChunk(tag: string, buf: string, start: nat, ghost earlier: string) returns (matched: nat, found: bool)
    requires tag != [] && start == After(tag, earlier) < |tag|
    ensures matched == After(tag, earlier + buf) && (found <==> matched == |tag|)
  {
    matched, found := start, false;
    var i := 0;
    assert earlier + buf[..0] == earlier;
    while i < |buf| && !found
      invariant 0 <= i <= |buf| && matched == After(tag, earlier + buf[..i]) && (found <==> matched == |tag|)
    {
      AfterOneMore(tag, earlier + buf[..i], buf[i]);
      assert earlier + buf[..i + 1] == earlier + buf[..i] + [buf[i]];
      matched := Advance(tag, matched, buf[i]);
      found := matched == |tag|;
      i := i + 1;
    }
    CompleteStays(tag, earlier + buf[..i], buf[i..]);
    assert earlier + buf[..i] + buf[i..] == earlier + buf;
    assert !found ==> buf[..i] == buf;
  }

  lemma FlattenOneMore(chunks: seq<string>, k: nat)
    requires k < |chunks|
    ensures Flatten(chunks[..k + 1]) == Flatten(chunks[..k]) + chunks[k]
  {
    assert chunks[..k + 1][..k] == chunks[..k];
  }

  /** check_ours() from the first Read() to the last: `chunks` are the successive
      buffers of positive length. */
  method CheckOurs(tag: string, chunks: seq<string>) returns (found: bool)
    requires tag != []
    ensures found <==> After(tag, Flatten(chunks)) == |tag|
    ensures Searchable(tag) ==> (found <==> Occurs(tag, Flatten(chunks)))
  {
    found := false;
    var matched := 0;
    var k := 0;
    while k < |chunks| && !found
      invariant 0 <= k <= |chunks| && matched == After(tag, Flatten(chunks[..k])) && (found <==> matched == |tag|)
    {
      FlattenOneMore(chunks, k);
      matched, found := ScanChunk(tag, chunks[k], matched, Flatten(chunks[..k]));
      k := k + 1;
    }
    CompleteStaysFlat(tag, chunks, k);
    assert !found ==> chunks[..k] == chunks;
    if Searchable(tag) {
      CompleteIffOccurs(tag, Flatten(chunks));
    }
  }

  lemma {:induction false} CompleteStays(tag: string, text: string, more: string)
    requires tag != []
    ensures After(tag, text) == |tag| ==> After(tag, text + more) == |tag|
    decreases |more|
  {
    if more == [] {
      assert text + more == text;
    } else {
      CompleteStays(tag, text, more[..|more| - 1]);
      assert (text + more)[..|text + more| - 1] == text + more[..|more| - 1];
    }
  }

  lemma {:induction false} CompleteStaysFlat(tag: string, chunks: seq<string>, k: nat)
    requires tag != [] && k <= |chunks|
    ensures After(tag, Flatten(chunks[..k])) == |tag| ==> After(tag, Flatten(chunks)) == |tag|
    decreases |chunks| - k
  {
    if k == |chunks| {
      assert chunks[..k] == chunks;
    } else {
      CompleteStays(tag, Flatten(chunks[..k]), chunks[k]);
      FlattenOneMore(chunks, k);
      CompleteStaysFlat(tag, chunks, k + 1);
    }
  }

  // ---- Searchable is enough -------------------------------------------------

  /** Two pendings of the same text nest: the shorter ends the longer. */
  lemma PendingsNest(tag: string, text: string, b: nat, m: nat)
    requires b <= m <= |tag| && Pending(tag, text, b) && Pending(tag, text, m)
    ensures Pending(tag, tag[..m], b)
  {
    var tail := text[|text| - m..];
    assert tail[m - b..] == text[|text| - b..];
  }

  lemma PendingGrows(tag: string, text: string, c: char, q: nat)
    requires q < |tag|
    ensures Pending(tag, text + [c], q + 1) <==> Pending(tag, text, q) && tag[q] == c
  {
    if q + 1 <= |text| + 1 {
      var tail := (text + [c])[|text| - q..];
      assert tail == text[|text| - q..] + [c];
      assert tag[..q + 1] == tag[..q] + [tag[q]];
      assert tail[..q] == text[|text| - q..] && tag[..q + 1][..q] == tag[..q];
      assert tail[q] == c && tag[..q + 1][q] == tag[q];
    }
  }

  /** One step keeps the longest pending prefix: the naive fallback loses nothing. */
  lemma AdvanceKeepsLongest(tag: string, text: string, q: nat, c: char)
    requires Searchable(tag) && q < |tag| && Longest(tag, text, q)
    ensures Longest(tag, text + [c], Advance(tag, q, c))
  {
    var next := Advance(tag, q, c);
    assert text[|text|..] == tag[..0];
    forall r | next < r <= |tag|
      ensures !Pending(tag, text + [c], r)
    {
      PendingGrows(tag, text, c, r - 1);
      if Pending(tag, text, r - 1) && tag[r - 1] == c {
        PendingsNest(tag, text, r - 1, q);
      }
    }
    if next > 0 {
      PendingGrows(tag, text, c, next - 1);
    } else {
      assert (text + [c])[|text| + 1..] == tag[..0];
    }
  }

  lemma {:induction false} AfterIsLongest(tag: string, text: string)
    requires tag != [] && Searchable(tag) && !Occurs(tag, text)
    ensures After(tag, text) < |tag| && Longest(tag, text, After(tag, text))
  {
    if text != [] {
      var shorter, c := text[..|text| - 1], text[|text| - 1];
      assert shorter + [c] == text;
      OccursGrows(tag, shorter, c);
      AfterIsLongest(tag, shorter);
      AdvanceKeepsLongest(tag, shorter, After(tag, shorter), c);
    }
  }

  /** One more character completes an occurrence, or there was one before. */
  lemma OccursGrows(tag: string, text: string, c: char)
    ensures Occurs(tag, text + [c]) <==> Occurs(tag, text) || Pending(tag, text + [c], |tag|)
  {
    OccursStays(tag, text, c);
    EndIsPending(tag, text + [c]);
    OccursBefore(tag, text, c);
  }

  lemma OccursStays(tag: string, text: string, c: char)
    ensures Occurs(tag, text) ==> Occurs(tag, text + [c])
  {
    if Occurs(tag, text) {
      var i :| 0 <= i <= |text| - |tag| && OccursAt(tag, text, i);
      OccursAtGrows(tag, text, c, i);
    }
  }

  lemma OccursBefore(tag: string, text: string, c: char)
    ensures Occurs(tag, text + [c]) && !Pending(tag, text + [c], |tag|) ==> Occurs(tag, text)
  {
    var longer := text + [c];
    if Occurs(tag, longer) {
      var i :| 0 <= i <= |longer| - |tag| && OccursAt(tag, longer, i);
      if i < |longer| - |tag| {
        OccursAtGrows(tag, text, c, i);
      } else {
        EndIsPending(tag, longer);
      }
    }
  }

  lemma OccursAtGrows(tag: string, text: string, c: char, i: nat)
    requires i + |tag| <= |text|
    ensures OccursAt(tag, text + [c], i) <==> OccursAt(tag, text, i)
  {
    assert (text + [c])[i..i + |tag|] == text[i..i + |tag|];
  }

  lemma EndIsPending(tag: string, text: string)
    ensures |tag| <= |text| ==> (Pending(tag, text, |tag|) <==> OccursAt(tag, text, |text| - |tag|))
    ensures Pending(tag, text, |tag|) ==> Occurs(tag, text)
  {
    assert tag[..|tag|] == tag;
    if |tag| <= |text| {
      var i := |text| - |tag|;
      assert text[i..i + |tag|] == text[i..];
    }
  }

  /** The state reaches |tag| exactly on the texts that contain the tag. */
  lemma {:induction false} CompleteIffOccurs(tag: string, text: string)
    requires tag != [] && Searchable(tag)
    ensures After(tag, text) == |tag| <==> Occurs(tag, text)
  {
    if !Occurs(tag, text) {
      AfterIsLongest(tag, text);
    } else {
      var shorter, c := text[..|text| - 1], text[|text| - 1];
      assert text == shorter + [c];
      OccursGrows(tag, shorter, c);
      if Occurs(tag, shorter) {
        CompleteIffOccurs(tag, shorter);
      } else {
        AfterIsLongest(tag, shorter);
        AdvanceKeepsLongest(tag, shorter, After(tag, shorter), c);
      }
    }
  }

  lemma FirstDoesNotRecurIsSearchable(tag: string)
    requires FirstDoesNotRecur(tag)
    ensures Searchable(tag)
  {
    forall b: nat, m: nat | 1 <= b < m < |tag|
      ensures !Pending(tag, tag[..m], b)
    {
      assert tag[..m][m - b..][0] == tag[m - b] && tag[..b][0] == tag[0];
    }
  }

  // ---- Searchable is needed -------------------------------------------------

  /** A text the search misses although it holds the tag, for a tag that is not
      searchable. */
  lemma MissedText(tag: string, b: nat, m: nat) returns (text: string)
    requires 1 <= b < m < |tag| && Pending(tag, tag[..m], b) && tag[b] != tag[m]
    ensures Occurs(tag, text) && After(tag, text) != |tag|
  {
    text := tag[..m] + [tag[b]] + tag[b + 1..];
    FallsBack(tag, b, m);
    AfterGrowsByOne(tag, tag[..m] + [tag[b]], tag[b + 1..]);
    OccursInside(tag, b, m);
  }

  /** The state has `m`, meets tag[b] and falls back to 0 or 1. */
  lemma FallsBack(tag: string, b: nat, m: nat)
    requires b < m < |tag| && tag[b] != tag[m]
    ensures After(tag, tag[..m] + [tag[b]]) <= 1
  {
    PrefixAdvances(tag, m);
    AfterOneMore(tag, tag[..m], tag[b]);
  }

  lemma OccursInside(tag: string, b: nat, m: nat)
    requires b < m < |tag| && Pending(tag, tag[..m], b)
    ensures Occurs(tag, tag[..m] + [tag[b]] + tag[b + 1..])
  {
    var text, at := tag[..m] + [tag[b]] + tag[b + 1..], m - b;
    assert tag[..m][at..] == tag[..b];
    assert text[at..] == tag[..m][at..] + ([tag[b]] + tag[b + 1..]);
    assert tag == tag[..b] + ([tag[b]] + tag[b + 1..]);
    assert text[at..at + |tag|] == text[at..];
    assert OccursAt(tag, text, at);
  }

  lemma {:induction false} PrefixAdvances(tag: string, m: nat)
    requires m <= |tag| && tag != []
    ensures After(tag, tag[..m]) == m
  {
    if m > 0 {
      PrefixAdvances(tag, m - 1);
      assert tag[..m][..m - 1] == tag[..m - 1];
    }
  }

  lemma {:induction false} AfterGrowsByOne(tag: string, text: string, more: string)
    requires tag != []
    ensures After(tag, text + more) <= After(tag, text) + |more|
    decreases |more|
  {
    if more == [] {
      assert text + more == text;
    } else {
      AfterGrowsByOne(tag, text, more[..|more| - 1]);
      assert (text + more)[..|text + more| - 1] == text + more[..|more| - 1];
    }
  }

  /** The search is exact on every text if and only if the tag is searchable. */
  lemma ExactIffSearchable(tag: string)
    requires tag != []
    ensures Searchable(tag) <==> forall text :: After(tag, text) == |tag| <==> Occurs(tag, text)
  {
    if Searchable(tag) {
      forall text ensures After(tag, text) == |tag| <==> Occurs(tag, text) {
        CompleteIffOccurs(tag, text);
      }
    } else {
      var b: nat, m: nat :| 1 <= b < m < |tag| && Pending(tag, tag[..m], b) && tag[b] != tag[m];
      var text := MissedText(tag, b, m);
    }
  }

  /** The tags the program passes are searchable. */
  lemma ProgramTagsAreSearchable()
    ensures Searchable("lwip-amiga") && Searchable("bcmpcie")
  {
    FirstDoesNotRecurIsSearchable("lwip-amiga");
    FirstDoesNotRecurIsSearchable("bcmpcie");
  }

  /** A recurring first character can lose a match: "aab" in "aaab". */
  lemma RecurringFirstLosesMatch()
    ensures Occurs("aab", "aaab") && After("aab", "aaab") == 0
  {
    assert OccursAt("aab", "aaab", 1) by { assert "aaab"[1..4] == "aab"; }
    assert "aaab"[..3] == "aaa" && "aaa"[..2] == "aa" && "aa"[..1] == "a" && "a"[..0] == "";
    assert After("aab", "a") == 1 && After("aab", "aa") == 2 && After("aab", "aaa") == 1;
  }
}
