/** Exec's Allocate() and Deallocate() on one MemHeader, as the region pool uses them: a
    first-fit list of free chunks, sorted by address, never touching each other, every
    address and size a multiple of MEM_BLOCKSIZE. */
module ExecMemory {
  import opened Machine

  const MEM_BLOCKSIZE := 8

  datatype Chunk = Chunk(start: nat, size: nat)

  datatype Header = Header(lower: nat, upper: nat, chunks: seq<Chunk>, free: nat)

  ghost predicate In(c: Chunk, x: int) {
    c.start <= x < c.start + c.size
  }

  /** The address lies in one of the chunks. */
  ghost predicate Among(cs: seq<Chunk>, x: int) {
    cs != [] && (In(cs[0], x) || Among(cs[1..], x))
  }

  /** The span a..a+n meets none of the chunks. */
  ghost predicate Clear(cs: seq<Chunk>, a: int, n: int) {
    forall x | a <= x < a + n :: !Among(cs, x)
  }

  function Total(cs: seq<Chunk>): nat {
    if cs == [] then 0 else cs[0].size + Total(cs[1..])
  }

  predicate Rounded(x: int) {
    x % MEM_BLOCKSIZE == 0
  }

  /** A free list within lo..hi: ascending, with a gap between neighbours. */
  predicate Sorted(cs: seq<Chunk>, lo: int, hi: int) {
    cs == [] ||
    (lo <= cs[0].start && cs[0].start + cs[0].size <= hi && cs[0].size > 0 &&
     Rounded(cs[0].start) && Rounded(cs[0].size) &&
     Sorted(cs[1..], cs[0].start + cs[0].size + 1, hi))
  }

  predicate HeaderOk(h: Header) {
    Sorted(h.chunks, h.lower, h.upper) && h.free == Total(h.chunks)
  }

  /** Allocate(): the front of the first chunk that is large enough. */
  function TakeFrom(cs: seq<Chunk>, need: nat): (seq<Chunk>, Option<nat>) {
    if cs == [] || need == 0 then (cs, None)
    else if cs[0].size > need then ([Chunk(cs[0].start + need, cs[0].size - need)] + cs[1..], Some(cs[0].start))
    else if cs[0].size == need then (cs[1..], Some(cs[0].start))
    else var (rest, a) := TakeFrom(cs[1..], need); ([cs[0]] + rest, a)
  }

  /** Deallocate(): in at its address, merged with the neighbours it touches. */
  function GiveTo(cs: seq<Chunk>, a: nat, n: nat): seq<Chunk>
    decreases |cs|
  {
    if cs == [] || a + n < cs[0].start then [Chunk(a, n)] + cs
    else if a + n == cs[0].start then [Chunk(a, n + cs[0].size)] + cs[1..]
    else if cs[0].start + cs[0].size == a then GiveTo(cs[1..], cs[0].start, cs[0].size + n)
    else [cs[0]] + GiveTo(cs[1..], a, n)
  }

  function Allocate(h: Header, need: nat): (Header, Option<nat>) {
    var (chunks, a) := TakeFrom(h.chunks, need);
    (h.(chunks := chunks, free := if a.Some? && h.free >= need then h.free - need else h.free), a)
  }

  function Deallocate(h: Header, a: nat, n: nat): Header {
    h.(chunks := GiveTo(h.chunks, a, n), free := h.free + n)
  }

  // ---- sorted lists -------------------------------------------------------------

  lemma {:induction false} SortedBounds(cs: seq<Chunk>, lo: int, hi: int)
    requires Sorted(cs, lo, hi)
    ensures forall x :: Among(cs, x) ==> lo <= x < hi
  {
    if cs != [] {
      SortedBounds(cs[1..], cs[0].start + cs[0].size + 1, hi);
    }
  }

  /** A list by its head and the rest. */
  lemma ConsFacts(c: Chunk, rest: seq<Chunk>, lo: int, hi: int)
    ensures var cs := [c] + rest;
            && (forall x :: Among(cs, x) <==> In(c, x) || Among(rest, x))
            && Total(cs) == c.size + Total(rest)
            && (Sorted(cs, lo, hi) <==>
                  lo <= c.start && c.start + c.size <= hi && c.size > 0 && Rounded(c.start) && Rounded(c.size) &&
                  Sorted(rest, c.start + c.size + 1, hi))
  {
    assert ([c] + rest)[1..] == rest;
  }

  lemma {:induction false} SortedWidens(cs: seq<Chunk>, lo: int, lo': int, hi: int)
    requires Sorted(cs, lo, hi) && lo' <= lo
    ensures Sorted(cs, lo', hi)
  {
  }

  lemma HeadIsAmong(cs: seq<Chunk>, lo: int, hi: int)
    requires Sorted(cs, lo, hi)
    ensures cs != [] ==> Among(cs, cs[0].start)
  {
    if cs != [] { assert In(cs[0], cs[0].start); }
  }

  /** Two free lists of the same bytes are the same list: a header's state is determined
      by what is free. */
  lemma {:induction false} SortedIsUnique(cs: seq<Chunk>, ds: seq<Chunk>, lo: int, hi: int)
    requires Sorted(cs, lo, hi) && Sorted(ds, lo, hi)
    requires forall x :: Among(cs, x) <==> Among(ds, x)
    ensures cs == ds
  {
    if cs == [] || ds == [] {
      HeadIsAmong(cs, lo, hi);
      HeadIsAmong(ds, lo, hi);
    } else {
      SortedBounds(cs[1..], cs[0].start + cs[0].size + 1, hi);
      SortedBounds(ds[1..], ds[0].start + ds[0].size + 1, hi);
      SortedBounds(cs, cs[0].start, hi);
      SortedBounds(ds, ds[0].start, hi);
      assert In(cs[0], cs[0].start) && In(ds[0], ds[0].start);
      assert Among(ds, cs[0].start) && Among(cs, ds[0].start);
      assert cs[0].start == ds[0].start;
      assert Among(cs, cs[0].start + cs[0].size - 1) && Among(ds, ds[0].start + ds[0].size - 1);
      assert !Among(cs, cs[0].start + cs[0].size) && !Among(ds, ds[0].start + ds[0].size);
      assert cs[0] == ds[0];
      forall x ensures Among(cs[1..], x) <==> Among(ds[1..], x) {
        assert Among(cs, x) <==> Among(ds, x);
      }
      SortedIsUnique(cs[1..], ds[1..], cs[0].start + cs[0].size + 1, hi);
      assert cs == [cs[0]] + cs[1..] && ds == [ds[0]] + ds[1..];
    }
  }

  // ---- allocate -------------------------------------------------------------------

  /** What a successful Allocate() leaves of a list: the span was wholly free and is not now,
      and nothing else changed. */
  ghost predicate TookFrom(cs: seq<Chunk>, rest: seq<Chunk>, a: nat, need: nat) {
    && (forall x | a <= x < a + need :: Among(cs, x))
    && (forall x :: Among(rest, x) <==> Among(cs, x) && !(a <= x < a + need))
    && Total(rest) + need == Total(cs)
  }

  lemma TakeFront(c: Chunk, rest: seq<Chunk>, need: nat, lo: int, hi: int)
    requires Sorted([c] + rest, lo, hi) && Rounded(need) && 0 < need < c.size
    ensures var left := [Chunk(c.start + need, c.size - need)] + rest;
            Sorted(left, lo, hi) && TookFrom([c] + rest, left, c.start, need)
  {
    var d := Chunk(c.start + need, c.size - need);
    ConsFacts(c, rest, lo, hi);
    RoundedTogether(c.start, need);
    RoundedTogether(c.size, need);
    SortedBounds(rest, c.start + c.size + 1, hi);
    ConsFacts(d, rest, lo, hi);
    SplitChunk(c, d, need);
  }

  lemma RoundedTogether(a: int, b: int)
    requires Rounded(a) && Rounded(b)
    ensures Rounded(a + b) && Rounded(a - b)
  {
    var p, q := a / MEM_BLOCKSIZE, b / MEM_BLOCKSIZE;
    assert a + b == MEM_BLOCKSIZE * (p + q) && a - b == MEM_BLOCKSIZE * (p - q);
  }

  lemma SplitChunk(c: Chunk, d: Chunk, need: nat)
    requires need < c.size && d == Chunk(c.start + need, c.size - need)
    ensures forall x :: In(d, x) <==> In(c, x) && !(c.start <= x < c.start + need)
    ensures forall x :: c.start <= x < c.start + need ==> In(c, x)
  {
  }

  lemma TakeWhole(c: Chunk, rest: seq<Chunk>, lo: int, hi: int)
    requires Sorted([c] + rest, lo, hi)
    ensures Sorted(rest, lo, hi) && TookFrom([c] + rest, rest, c.start, c.size)
  {
    ConsFacts(c, rest, lo, hi);
    SortedBounds(rest, c.start + c.size + 1, hi);
    SortedWidens(rest, c.start + c.size + 1, lo, hi);
  }

  lemma TakeBehind(c: Chunk, rest: seq<Chunk>, left: seq<Chunk>, a: nat, need: nat, lo: int, hi: int)
    requires Sorted([c] + rest, lo, hi) && Sorted(left, c.start + c.size + 1, hi) && TookFrom(rest, left, a, need)
    requires c.start + c.size + 1 <= a
    ensures Sorted([c] + left, lo, hi) && TookFrom([c] + rest, [c] + left, a, need)
  {
    ConsFacts(c, rest, lo, hi);
    ConsFacts(c, left, lo, hi);
  }

  /** Success takes a rounded span that was wholly free and nothing else. */
  lemma {:induction false} TakeIsExact(cs: seq<Chunk>, need: nat, lo: int, hi: int)
    requires Sorted(cs, lo, hi) && Rounded(need)
    ensures var (rest, a) := TakeFrom(cs, need);
            && Sorted(rest, lo, hi)
            && (a.None? ==> rest == cs)
            && (a.Some? ==>
                  && need > 0 && Rounded(a.value) && lo <= a.value && a.value + need <= hi
                  && TookFrom(cs, rest, a.value, need))
  {
    if cs != [] && need != 0 {
      var c := cs[0];
      assert cs == [c] + cs[1..];
      if c.size > need {
        TakeFront(c, cs[1..], need, lo, hi);
      } else if c.size == need {
        TakeWhole(c, cs[1..], lo, hi);
      } else {
        TakeIsExact(cs[1..], need, c.start + c.size + 1, hi);
        var (rest, a) := TakeFrom(cs[1..], need);
        if a.Some? { TakeBehind(c, cs[1..], rest, a.value, need, lo, hi); }
      }
    }
  }

  /** First fit: refusal means no chunk is large enough, and success never skips one. */
  lemma {:induction false} TakeIsFirstFit(cs: seq<Chunk>, need: nat, i: nat)
    requires need > 0 && i < |cs|
    ensures var a := TakeFrom(cs, need).1;
            && (a.None? ==> cs[i].size < need)
            && ((forall j | 0 <= j < i :: cs[j].size < need) && cs[i].size >= need ==> a == Some(cs[i].start))
  {
    if cs[0].size < need && i > 0 {
      TakeIsFirstFit(cs[1..], need, i - 1);
      if forall j | 0 <= j < i :: cs[j].size < need {
        forall j | 0 <= j < i - 1 ensures cs[1..][j].size < need { assert cs[1..][j] == cs[j + 1]; }
      }
    }
  }

  // ---- deallocate -----------------------------------------------------------------

  /** Giving back a rounded span of which nothing is free adds exactly that span. */
  lemma {:induction false} GiveIsExact(cs: seq<Chunk>, a: nat, n: nat, lo: int, hi: int)
    requires Sorted(cs, lo, hi) && Rounded(a) && Rounded(n) && n > 0
    requires lo <= a && a + n <= hi && Clear(cs, a, n)
    ensures var r := GiveTo(cs, a, n);
            && Sorted(r, lo, hi)
            && (forall x :: Among(r, x) <==> Among(cs, x) || a <= x < a + n)
            && Total(r) == Total(cs) + n
    decreases |cs|, 1
  {
    if cs == [] {
      ConsFacts(Chunk(a, n), cs, lo, hi);
    } else {
      var c, rest := cs[0], cs[1..];
      SortedBounds(rest, c.start + c.size + 1, hi);
      assert cs == [c] + rest;
      ConsFacts(c, rest, lo, hi);
      assert !Among(cs, a) && !Among(cs, a + n - 1);
      assert In(c, c.start) && Among(cs, c.start);
      if a + n < c.start {
        ConsFacts(Chunk(a, n), cs, lo, hi);
        SortedWidens(cs, c.start, a + n + 1, hi);
      } else if a + n == c.start {
        ConsFacts(Chunk(a, n + c.size), rest, lo, hi);
      } else if c.start + c.size == a {
        GiveMerges(cs, a, n, lo, hi);
      } else {
        assert c.start + c.size < a;
        forall x | a <= x < a + n ensures !Among(rest, x) { assert !Among(cs, x); }
        GiveIsExact(rest, a, n, c.start + c.size + 1, hi);
        ConsFacts(c, GiveTo(rest, a, n), lo, hi);
      }
    }
  }

  /** The span follows the first chunk directly and grows it, perhaps into the next. */
  lemma {:induction false} GiveMerges(cs: seq<Chunk>, a: nat, n: nat, lo: int, hi: int)
    requires Sorted(cs, lo, hi) && Rounded(a) && Rounded(n) && n > 0
    requires a + n <= hi && Clear(cs, a, n)
    requires cs != [] && cs[0].start + cs[0].size == a
    ensures var r := GiveTo(cs, a, n);
            && Sorted(r, lo, hi)
            && (forall x :: Among(r, x) <==> Among(cs, x) || a <= x < a + n)
            && Total(r) == Total(cs) + n
    decreases |cs|, 0
  {
    var c, rest := cs[0], cs[1..];
    SortedBounds(rest, a + 1, hi);
    SortedWidens(rest, a + 1, lo, hi);
    forall x | c.start <= x < c.start + c.size + n ensures !Among(rest, x) {
      if x >= a { assert !Among(cs, x); }
    }
    GiveIsExact(rest, c.start, c.size + n, lo, hi);
    assert GiveTo(cs, a, n) == GiveTo(rest, c.start, c.size + n);
    forall x ensures Among(GiveTo(cs, a, n), x) <==> Among(cs, x) || a <= x < a + n {
      assert Among(cs, x) <==> In(c, x) || Among(rest, x);
    }
  }

  // ---- headers ----------------------------------------------------------------------

  /** What a successful Allocate() did to a header. */
  ghost predicate Took(h: Header, h': Header, a: nat, need: nat) {
    && HeaderOk(h') && h'.lower == h.lower && h'.upper == h.upper
    && need > 0 && Rounded(a) && h.lower <= a && a + need <= h.upper
    && (forall x | a <= x < a + need :: Among(h.chunks, x))
    && (forall x :: Among(h'.chunks, x) <==> Among(h.chunks, x) && !(a <= x < a + need))
    && h'.free + need == h.free
  }

  lemma AllocateIsExact(h: Header, need: nat)
    requires HeaderOk(h) && Rounded(need)
    ensures var (h', a) := Allocate(h, need);
            (a.None? ==> h' == h) && (a.Some? ==> Took(h, h', a.value, need))
  {
    TakeIsExact(h.chunks, need, h.lower, h.upper);
  }

  /** What a Deallocate() of a span that was in use did to a header. */
  ghost predicate Gave(h: Header, h': Header, a: nat, n: nat) {
    && HeaderOk(h') && h'.lower == h.lower && h'.upper == h.upper
    && (forall x :: Among(h'.chunks, x) <==> Among(h.chunks, x) || a <= x < a + n)
    && h'.free == h.free + n
  }

  lemma DeallocateIsExact(h: Header, a: nat, n: nat)
    requires HeaderOk(h) && Rounded(a) && Rounded(n) && n > 0
    requires h.lower <= a && a + n <= h.upper && Clear(h.chunks, a, n)
    ensures Gave(h, Deallocate(h, a, n), a, n)
  {
    GiveIsExact(h.chunks, a, n, h.lower, h.upper);
  }

  /** Deallocate() undoes Allocate() to the last chunk. */
  lemma AllocateThenDeallocate(h: Header, need: nat)
    requires HeaderOk(h) && Rounded(need)
    ensures var (h', a) := Allocate(h, need);
            a.Some? ==> Deallocate(h', a.value, need) == h
  {
    var (h', a) := Allocate(h, need);
    AllocateIsExact(h, need);
    if a.Some? {
      DeallocateIsExact(h', a.value, need);
      var back := Deallocate(h', a.value, need);
      forall x ensures Among(back.chunks, x) <==> Among(h.chunks, x) {
        assert Among(h'.chunks, x) <==> Among(h.chunks, x) && !(a.value <= x < a.value + need);
      }
      SortedIsUnique(back.chunks, h.chunks, h.lower, h.upper);
    }
  }
}
