/** What every operation of the region pool keeps: the invariant, the blocks its callers
    hold, and the bytes the system owns. */
module RegionPoolProofs {
  import opened Machine
  import opened ExecMemory
  import opened RegionPool

  // ---- one puddle -------------------------------------------------------------------

  ghost predicate SamePlace(p: Puddle, q: Puddle) {
    p.src == q.src && p.arena == q.arena && p.size == q.size
  }

  lemma TakeBlockIsExact(pud: Puddle, need: nat)
    requires PuddleOk(pud) && Rounded(need)
    ensures var (pud', a) := TakeBlock(pud, need);
            && (a.None? ==> pud' == pud)
            && (a.Some? ==>
                  && need > 0 && PuddleOk(pud') && SamePlace(pud, pud')
                  && pud'.blocks == [Chunk(a.value, need)] + pud.blocks)
  {
    AllocateIsExact(pud.mh, need);
    var (pud', a) := TakeBlock(pud, need);
    if a.Some? {
      var b := Chunk(a.value, need);
      forall x | b.start <= x < b.start + b.size ensures !Among(pud.blocks, x) {
        assert Among(pud.mh.chunks, x);
      }
      SpansPush(b, pud.blocks, pud.arena, pud.arena + pud.size);
      forall x | pud.arena <= x < pud.arena + pud.size
        ensures Among(pud'.mh.chunks, x) <==> !Among(pud'.blocks, x)
      {
        assert Among(pud'.mh.chunks, x) <==> Among(pud.mh.chunks, x) && !In(b, x);
      }
    }
  }

  lemma HeldIsNotFree(pud: Puddle, b: Chunk)
    requires PuddleOk(pud) && b in pud.blocks
    ensures Clear(pud.mh.chunks, b.start, b.size)
    ensures Rounded(b.start) && Rounded(b.size) && b.size > 0
    ensures pud.mh.lower <= b.start && b.start + b.size <= pud.mh.upper
  {
    DropIsExact(pud.blocks, b, pud.arena, pud.arena + pud.size);
    forall x | b.start <= x < b.start + b.size ensures !Among(pud.mh.chunks, x) {
      assert In(b, x) && Among(pud.blocks, x);
    }
  }

  lemma GiveBlockIsExact(pud: Puddle, a: nat, need: nat)
    requires PuddleOk(pud) && Chunk(a, need) in pud.blocks
    ensures PuddleOk(GiveBlock(pud, a, need)) && SamePlace(pud, GiveBlock(pud, a, need))
    ensures multiset(pud.blocks) == multiset(GiveBlock(pud, a, need).blocks) + multiset{Chunk(a, need)}
  {
    var b := Chunk(a, need);
    HeldIsNotFree(pud, b);
    DropIsExact(pud.blocks, b, pud.arena, pud.arena + pud.size);
    DeallocateIsExact(pud.mh, a, need);
    GiveSwaps(pud, GiveBlock(pud, a, need), b);
  }

  /** What leaves the blocks is what joins the free chunks. */
  lemma GiveSwaps(pud: Puddle, now: Puddle, b: Chunk)
    requires PuddleOk(pud) && b in pud.blocks && SamePlace(pud, now) && Gave(pud.mh, now.mh, b.start, b.size)
    requires SpansOk(now.blocks, pud.arena, pud.arena + pud.size) && Total(now.blocks) + b.size == Total(pud.blocks)
    requires forall x :: Among(now.blocks, x) <==> Among(pud.blocks, x) && !In(b, x)
    requires forall x | In(b, x) :: Among(pud.blocks, x)
    ensures PuddleOk(now)
  {
    forall x | pud.arena <= x < pud.arena + pud.size
      ensures Among(now.mh.chunks, x) <==> !Among(now.blocks, x)
    {
      assert Among(now.mh.chunks, x) <==> Among(pud.mh.chunks, x) || In(b, x);
    }
  }

  lemma FreshPuddleOk(src: nat, arena: nat, size: nat)
    requires size > 0 && Rounded(arena) && Rounded(size)
    ensures PuddleOk(FreshPuddle(src, arena, size))
  {
    var pud := FreshPuddle(src, arena, size);
    ConsFacts(Chunk(arena, size), [], arena, arena + size);
    assert [Chunk(arena, size)] + [] == pud.mh.chunks;
  }

  /** An empty puddle is exactly one whose free bytes are its whole arena. */
  lemma FullyFreeHasNoBlocks(pud: Puddle)
    requires PuddleOk(pud)
    ensures pud.mh.free == pud.size <==> pud.blocks == []
  {
  }

  // ---- the list of puddles ------------------------------------------------------------

  ghost predicate SamePlaces(ps: seq<Puddle>, qs: seq<Puddle>) {
    |ps| == |qs| && forall i :: 0 <= i < |ps| ==> SamePlace(ps[i], qs[i])
  }

  lemma {:induction false} SamePlacesSameBytes(ps: seq<Puddle>, qs: seq<Puddle>)
    requires SamePlaces(ps, qs)
    ensures ArenaBytes(ps) == ArenaBytes(qs)
  {
    if ps != [] {
      assert SamePlace(ps[0], qs[0]);
      forall i | 0 <= i < |ps[1..]| ensures SamePlace(ps[1..][i], qs[1..][i]) {
        assert SamePlace(ps[i + 1], qs[i + 1]);
      }
      SamePlacesSameBytes(ps[1..], qs[1..]);
    }
  }

  lemma PuddlesCons(hs: seq<Header>, pud: Puddle, rest: seq<Puddle>)
    ensures PuddlesOk(hs, [pud] + rest) <==>
              PuddleOk(pud) && ArenaTaken(hs, pud) && ApartFromAll(pud, rest) && PuddlesOk(hs, rest)
    ensures Live([pud] + rest) == pud.blocks + Live(rest)
    ensures ArenaBytes([pud] + rest) == pud.size + ArenaBytes(rest)
  {
    assert ([pud] + rest)[1..] == rest;
  }

  lemma SamePlacesCons(p: Puddle, q: Puddle, ps: seq<Puddle>, qs: seq<Puddle>)
    requires SamePlace(p, q) && SamePlaces(ps, qs)
    ensures SamePlaces([p] + ps, [q] + qs)
  {
  }

  lemma ApartFromSame(p: Puddle, q: Puddle, ps: seq<Puddle>, qs: seq<Puddle>)
    requires SamePlace(p, q) && SamePlaces(ps, qs) && ApartFromAll(p, ps)
    ensures ApartFromAll(q, qs)
  {
    forall j | 0 <= j < |qs| ensures Apart(q, qs[j]) { assert SamePlace(ps[j], qs[j]) && Apart(p, ps[j]); }
  }

  /** A list whose head was replaced by one in the same place. */
  lemma HeadReplaced(hs: seq<Header>, head: Puddle, now: Puddle, rest: seq<Puddle>)
    requires PuddlesOk(hs, [head] + rest) && SamePlace(head, now) && PuddleOk(now)
    ensures PuddlesOk(hs, [now] + rest) && SamePlaces([head] + rest, [now] + rest)
    ensures Live([head] + rest) == head.blocks + Live(rest) && Live([now] + rest) == now.blocks + Live(rest)
  {
    PuddlesCons(hs, head, rest);
    SamePlacesCons(head, now, rest, rest);
    ApartFromSame(head, now, rest, rest);
    PuddlesCons(hs, now, rest);
  }

  /** A list whose tail was replaced by one in the same places. */
  lemma TailReplaced(hs: seq<Header>, head: Puddle, rest: seq<Puddle>, more: seq<Puddle>)
    requires PuddlesOk(hs, [head] + rest) && SamePlaces(rest, more) && PuddlesOk(hs, more)
    ensures PuddlesOk(hs, [head] + more) && SamePlaces([head] + rest, [head] + more)
    ensures Live([head] + rest) == head.blocks + Live(rest) && Live([head] + more) == head.blocks + Live(more)
  {
    PuddlesCons(hs, head, rest);
    SamePlacesCons(head, head, rest, more);
    ApartFromSame(head, head, rest, more);
    PuddlesCons(hs, head, more);
  }

  /** The walk takes one new block from one puddle and changes nothing else. */
  lemma {:induction false} AllocFromIsExact(hs: seq<Header>, ps: seq<Puddle>, need: nat)
    requires PuddlesOk(hs, ps) && Rounded(need)
    ensures var (qs, a) := AllocFrom(ps, need);
            && PuddlesOk(hs, qs) && SamePlaces(ps, qs)
            && (a.None? ==> qs == ps)
            && (a.Some? ==> multiset(Live(qs)) == multiset(Live(ps)) + multiset{Chunk(a.value, need)})
  {
    if ps != [] {
      var head, rest := ps[0], ps[1..];
      assert ps == [head] + rest;
      TakeBlockIsExact(head, need);
      var (pud, a) := TakeBlock(head, need);
      if a.Some? {
        HeadReplaced(hs, head, pud, rest);
        assert Live([pud] + rest) == [Chunk(a.value, need)] + head.blocks + Live(rest);
      } else {
        AllocFromIsExact(hs, rest, need);
        TailReplaced(hs, head, rest, AllocFrom(rest, need).0);
      }
    }
  }

  lemma HeldElsewhereIsOutside(hs: seq<Header>, head: Puddle, rest: seq<Puddle>, b: Chunk)
    requires PuddlesOk(hs, rest) && ApartFromAll(head, rest)
    ensures b in Live(rest) ==> !(head.arena <= b.start < head.arena + head.size)
  {
    if b in Live(rest) {
      LiveIsInside(hs, rest, b);
      var j :| 0 <= j < |rest| && rest[j].arena <= b.start < rest[j].arena + rest[j].size;
      assert Apart(head, rest[j]);
    }
  }

  /** The walk finds the one puddle that holds the block. */
  lemma {:induction false} FreeInIsExact(hs: seq<Header>, ps: seq<Puddle>, a: nat, need: nat)
    requires PuddlesOk(hs, ps) && Chunk(a, need) in Live(ps)
    ensures var qs := FreeIn(ps, a, need);
            && PuddlesOk(hs, qs) && SamePlaces(ps, qs)
            && multiset(Live(ps)) == multiset(Live(qs)) + multiset{Chunk(a, need)}
  {
    var head, rest := ps[0], ps[1..];
    assert ps == [head] + rest;
    PuddlesCons(hs, head, rest);
    BlockIsInside(head, Chunk(a, need));
    if head.mh.lower <= a < head.mh.upper {
      HeldElsewhereIsOutside(hs, head, rest, Chunk(a, need));
      GiveBlockIsExact(head, a, need);
      HeadReplaced(hs, head, GiveBlock(head, a, need), rest);
    } else {
      FreeInIsExact(hs, rest, a, need);
      TailReplaced(hs, head, rest, FreeIn(rest, a, need));
    }
  }

  lemma BlockIsInside(pud: Puddle, b: Chunk)
    requires PuddleOk(pud)
    ensures b in pud.blocks ==>
            pud.arena <= b.start && b.start + b.size <= pud.arena + pud.size && b.size > 0 && Rounded(b.start)
  {
    if b in pud.blocks { DropIsExact(pud.blocks, b, pud.arena, pud.arena + pud.size); }
  }

  /** Every held block lies inside one arena. */
  lemma {:induction false} LiveIsInside(hs: seq<Header>, ps: seq<Puddle>, b: Chunk)
    requires PuddlesOk(hs, ps)
    ensures b in Live(ps) ==>
              exists j :: 0 <= j < |ps| && ps[j].arena <= b.start < ps[j].arena + ps[j].size &&
                          b.start + b.size <= ps[j].arena + ps[j].size && b.size > 0 && Rounded(b.start) &&
                              ArenaTaken(hs, ps[j])
  {
    if b in Live(ps) {
      BlockIsInside(ps[0], b);
      if b !in ps[0].blocks {
        LiveIsInside(hs, ps[1..], b);
        var j :| 0 <= j < |ps[1..]| && ps[1..][j].arena <= b.start < ps[1..][j].arena + ps[1..][j].size &&
                 b.start + b.size <= ps[1..][j].arena + ps[1..][j].size && b.size > 0 && Rounded(b.start) &&
                     ArenaTaken(hs, ps[1..][j]);
        assert ps[1..][j] == ps[j + 1];
      }
    }
  }

  // ---- the system's headers -------------------------------------------------------------

  lemma {:induction false} FreeBytesUpdate(hs: seq<Header>, i: nat, h: Header)
    requires i < |hs|
    ensures FreeBytes(hs[i := h]) + hs[i].free == FreeBytes(hs) + h.free
  {
    if i > 0 {
      FreeBytesUpdate(hs[1..], i - 1, h);
      assert hs[i := h][1..] == hs[1..][i - 1 := h];
    } else {
      assert hs[i := h][1..] == hs[1..];
    }
  }

  lemma HeadersUpdate(hs: seq<Header>, i: nat, h: Header)
    requires HeadersOk(hs) && i < |hs| && HeaderOk(h) && h.lower == hs[i].lower && h.upper == hs[i].upper
    ensures HeadersOk(hs[i := h])
  {
    var hs' := hs[i := h];
    forall k, l | 0 <= k < |hs'| && 0 <= l < |hs'| && k != l
      ensures hs'[k].upper <= hs'[l].lower || hs'[l].upper <= hs'[k].lower
    {
      assert hs[k].upper <= hs[l].lower || hs[l].upper <= hs[k].lower;
    }
  }

  /** The span taken from a header meets no arena taken before. */
  lemma NewArenaApart(hs: seq<Header>, i: nat, h: Header, pud: Puddle, q: Puddle)
    requires HeadersOk(hs) && i < |hs| && Took(hs[i], h, pud.arena, pud.size)
    requires ArenaTaken(hs, q) && q.size > 0
    ensures Apart(pud, q) && ArenaTaken(hs[i := h], q)
  {
    if q.src == i {
      var x := if pud.arena <= q.arena then q.arena else pud.arena;
      assert q.arena <= x < q.arena + q.size ==> !Among(hs[i].chunks, x);
      assert pud.arena <= x < pud.arena + pud.size ==> Among(hs[i].chunks, x);
      forall y | q.arena <= y < q.arena + q.size ensures !Among(h.chunks, y) {
        assert !Among(hs[i].chunks, y);
      }
    }
  }

  lemma {:induction false} NewArenaApartFromAll(hs: seq<Header>, i: nat, h: Header, pud: Puddle, ps: seq<Puddle>)
    requires HeadersOk(hs) && i < |hs| && Took(hs[i], h, pud.arena, pud.size) && PuddlesOk(hs, ps)
    ensures ApartFromAll(pud, ps) && PuddlesOk(hs[i := h], ps)
  {
    if ps != [] {
      NewArenaApart(hs, i, h, pud, ps[0]);
      NewArenaApartFromAll(hs, i, h, pud, ps[1..]);
      forall j | 0 <= j < |ps| ensures Apart(pud, ps[j]) {
        if j > 0 { assert ps[1..][j - 1] == ps[j]; }
      }
    }
  }

  /** dma_pool_grow(): one more puddle, empty; nothing else of the pool changes. */
  lemma GrowIsExact(p: Pool, need: u32, nodeOk: bool)
    requires PoolOk(p)
    ensures var r := Grow(p, need, nodeOk);
            r.Some? ==>
              && PoolOk(r.value) && Wealth(r.value) == Wealth(p) && Live(r.value.puddles) == Live(p.puddles)
              && r.value.puddles != [] && r.value.puddles[1..] == p.puddles
  {
    var size := ArenaSize(need);
    match FindHeader(p.headers, size, 0)
    case None =>
    case Some(i) =>
      var (h, a) := Allocate(p.headers[i], size);
      AllocateIsExact(p.headers[i], size);
      var pud := FreshPuddle(i, a.value, size);
      FreshPuddleOk(i, a.value, size);
      HeadersUpdate(p.headers, i, h);
      FreeBytesUpdate(p.headers, i, h);
      NewArenaApartFromAll(p.headers, i, h, pud, p.puddles);
      var hs' := p.headers[i := h];
      assert ArenaTaken(hs', pud);
      PuddlesCons(hs', pud, p.puddles);
  }

  /** When the puddle itself cannot be allocated, Deallocate() puts the header back as it
      was, chunk for chunk. */
  lemma GrowFailureRestores(p: Pool, need: u32)
    requires PoolOk(p)
    ensures var i := FindHeader(p.headers, ArenaSize(need), 0);
            i.Some? ==>
              var (h, a) := Allocate(p.headers[i.value], ArenaSize(need));
              ReturnArena(p.headers[i.value := h], FreshPuddle(i.value, a.value, ArenaSize(need))) == p.headers
  {
    var i := FindHeader(p.headers, ArenaSize(need), 0);
    if i.Some? { AllocateThenDeallocate(p.headers[i.value], ArenaSize(need)); }
  }

  /** dma_pool_region_alloc(): on success exactly one new block, rounded, of the rounded
      size; on failure every block is as it was. Nothing is created or lost. */
  lemma RegionAllocIsExact(p: Pool, size: u32, nodeOk: bool)
    requires PoolOk(p)
    ensures var (q, a) := RegionAlloc(p, size, nodeOk);
            && PoolOk(q) && Wealth(q) == Wealth(p)
            && multiset(Live(q.puddles)) ==
                 multiset(Live(p.puddles)) +
                 (if a.Some? then multiset{Chunk(a.value, AlignBlock(size))} else multiset{})
  {
    var need := AlignBlock(size);
    AllocFromIsExact(p.headers, p.puddles, need);
    var (ps, a) := AllocFrom(p.puddles, need);
    SamePlacesSameBytes(p.puddles, ps);
    if a.None? {
      GrowIsExact(p, need, nodeOk);
      match Grow(p, need, nodeOk)
      case None =>
      case Some(g) => FirstBlockOfNewPuddle(g, need);
    }
  }

  lemma FirstBlockOfNewPuddle(g: Pool, need: nat)
    requires PoolOk(g) && g.puddles != [] && Rounded(need)
    ensures var (pud, b) := TakeBlock(g.puddles[0], need);
            var q := g.(puddles := [pud] + g.puddles[1..]);
            && PoolOk(q) && Wealth(q) == Wealth(g)
            && multiset(Live(q.puddles)) ==
                 multiset(Live(g.puddles)) + (if b.Some? then multiset{Chunk(b.value, need)} else multiset{})
  {
    var head, rest := g.puddles[0], g.puddles[1..];
    assert g.puddles == [head] + rest;
    var (pud, b) := TakeBlock(head, need);
    PuddlesCons(g.headers, head, rest);
    TakeBlockIsExact(head, need);
    ApartFromSame(head, pud, rest, rest);
    PuddlesCons(g.headers, pud, rest);
  }

  /** dma_pool_region_free() of a block the caller holds takes exactly that block back. */
  lemma RegionFreeIsExact(p: Pool, a: nat, size: u32)
    requires PoolOk(p) && Chunk(a, AlignBlock(size)) in Live(p.puddles)
    ensures var q := RegionFree(p, a, size);
            && PoolOk(q) && Wealth(q) == Wealth(p)
            && multiset(Live(p.puddles)) == multiset(Live(q.puddles)) + multiset{Chunk(a, AlignBlock(size))}
  {
    FreeInIsExact(p.headers, p.puddles, a, AlignBlock(size));
    SamePlacesSameBytes(p.puddles, FreeIn(p.puddles, a, AlignBlock(size)));
  }

  // ---- giving arenas back ----------------------------------------------------------------

  lemma GivenBackApart(hs: seq<Header>, pud: Puddle, h: Header, q: Puddle)
    requires HeadersOk(hs) && pud.src < |hs| && Gave(hs[pud.src], h, pud.arena, pud.size)
    requires ArenaTaken(hs, q) && Apart(pud, q)
    ensures ArenaTaken(hs[pud.src := h], q)
  {
    var chunks := hs[pud.src := h][q.src].chunks;
    forall y | q.arena <= y < q.arena + q.size ensures !Among(chunks, y) {
      assert !Among(hs[q.src].chunks, y);
    }
  }

  lemma {:induction false} GivenBackApartAll(hs: seq<Header>, pud: Puddle, h: Header, ps: seq<Puddle>)
    requires HeadersOk(hs) && pud.src < |hs| && Gave(hs[pud.src], h, pud.arena, pud.size)
    requires PuddlesOk(hs, ps) && ApartFromAll(pud, ps)
    ensures PuddlesOk(hs[pud.src := h], ps)
  {
    if ps != [] {
      assert Apart(pud, ps[0]);
      GivenBackApart(hs, pud, h, ps[0]);
      forall j | 0 <= j < |ps[1..]| ensures Apart(pud, ps[1..][j]) { assert Apart(pud, ps[j + 1]); }
      GivenBackApartAll(hs, pud, h, ps[1..]);
    }
  }

  /** Unlinking the first puddle and giving its arena back. */
  lemma ReturnArenaIsExact(p: Pool)
    requires PoolOk(p) && p.puddles != []
    ensures var q := Pool(ReturnArena(p.headers, p.puddles[0]), p.puddles[1..]);
            PoolOk(q) && Wealth(q) == Wealth(p)
  {
    var pud := p.puddles[0];
    assert PuddleOk(pud) && ArenaTaken(p.headers, pud);
    DeallocateIsExact(p.headers[pud.src], pud.arena, pud.size);
    var h := Deallocate(p.headers[pud.src], pud.arena, pud.size);
    HeadersUpdate(p.headers, pud.src, h);
    FreeBytesUpdate(p.headers, pud.src, h);
    GivenBackApartAll(p.headers, pud, h, p.puddles[1..]);
  }

  function Keep(ps: seq<Puddle>): seq<Puddle> {
    if ps == [] then []
    else if Spare(ps[0]) then Keep(ps[1..])
    else [ps[0]] + Keep(ps[1..])
  }

  /** dma_pool_shrink() unlinks exactly the empty oversize puddles, in place order, keeps
      every block its callers hold, and the bytes of what it unlinks go to the system. */
  lemma {:induction false} ShrinkIsExact(p: Pool)
    requires PoolOk(p)
    ensures var q := Shrink(p);
            && PoolOk(q) && Wealth(q) == Wealth(p)
            && q.puddles == Keep(p.puddles)
            && Live(q.puddles) == Live(p.puddles)
    decreases |p.puddles|
  {
    if p.puddles != [] {
      var head, rest := p.puddles[0], p.puddles[1..];
      assert p.puddles == [head] + rest;
      PuddlesCons(p.headers, head, rest);
      if Spare(head) {
        ReturnArenaIsExact(p);
        FullyFreeHasNoBlocks(head);
        ShrinkIsExact(Pool(ReturnArena(p.headers, head), rest));
        assert [] + Live(rest) == Live(rest);
      } else {
        ShrinkIsExact(p.(puddles := rest));
        ShrinkBesides(p.(puddles := rest), head);
        var q := Shrink(p.(puddles := rest));
        PuddlesCons(q.headers, head, q.puddles);
      }
    }
  }

  /** Shrinking the rest of the list leaves a kept puddle's arena in use. */
  lemma {:induction false} ShrinkBesides(p: Pool, pud: Puddle)
    requires PoolOk(p) && ArenaTaken(p.headers, pud) && ApartFromAll(pud, p.puddles)
    ensures ArenaTaken(Shrink(p).headers, pud) && ApartFromAll(pud, Shrink(p).puddles)
    decreases |p.puddles|
  {
    if p.puddles != [] {
      var head, rest := p.puddles[0], p.puddles[1..];
      forall j | 0 <= j < |rest| ensures Apart(pud, rest[j]) { assert Apart(pud, p.puddles[j + 1]); }
      assert Apart(pud, head);
      if Spare(head) {
        ReturnArenaIsExact(p);
        DeallocateIsExact(p.headers[head.src], head.arena, head.size);
        GivenBackApart(p.headers, head, Deallocate(p.headers[head.src], head.arena, head.size), pud);
        ShrinkBesides(Pool(ReturnArena(p.headers, head), rest), pud);
      } else {
        ShrinkBesides(p.(puddles := rest), pud);
      }
    }
  }

  /** dma_pool_delete() returns every arena: the system has back all the pool took. */
  lemma {:induction false} DeleteIsExact(p: Pool)
    requires PoolOk(p)
    ensures HeadersOk(Delete(p)) && FreeBytes(Delete(p)) == Wealth(p)
    decreases |p.puddles|
  {
    if p.puddles != [] {
      ReturnArenaIsExact(p);
      DeleteIsExact(Pool(ReturnArena(p.headers, p.puddles[0]), p.puddles[1..]));
    }
  }

  // ---- blocks of a pool -------------------------------------------------------------------

  ghost predicate Meet(b: Chunk, c: Chunk) {
    b.start < c.start + c.size && c.start < b.start + b.size
  }

  lemma {:induction false} SpansApart(bs: seq<Chunk>, lo: int, hi: int, i: nat, j: nat)
    requires SpansOk(bs, lo, hi) && i < j < |bs|
    ensures !Meet(bs[i], bs[j])
  {
    if i == 0 {
      SpansMember(bs[1..], lo, hi, j - 1);
      var x := if bs[0].start <= bs[j].start then bs[j].start else bs[0].start;
      assert bs[0].start <= x < bs[0].start + bs[0].size ==> !Among(bs[1..], x);
      assert In(bs[j], x) ==> Among(bs[1..], x);
    } else {
      SpansApart(bs[1..], lo, hi, i - 1, j - 1);
    }
  }

  lemma {:induction false} SpansMember(bs: seq<Chunk>, lo: int, hi: int, i: nat)
    requires SpansOk(bs, lo, hi) && i < |bs|
    ensures lo <= bs[i].start && bs[i].start + bs[i].size <= hi && bs[i].size > 0
    ensures forall x | In(bs[i], x) :: Among(bs, x)
  {
    if i > 0 { SpansMember(bs[1..], lo, hi, i - 1); }
  }

  /** No two blocks the callers of a pool hold share a byte. */
  lemma {:induction false} LiveApart(hs: seq<Header>, ps: seq<Puddle>, i: nat, j: nat)
    requires PuddlesOk(hs, ps) && i < j < |Live(ps)|
    ensures !Meet(Live(ps)[i], Live(ps)[j])
  {
    var head, rest := ps[0], ps[1..];
    var n := |head.blocks|;
    var lo, hi := head.arena, head.arena + head.size;
    if j < n {
      SpansApart(head.blocks, lo, hi, i, j);
    } else if i >= n {
      LiveApart(hs, rest, i - n, j - n);
    } else {
      var b := Live(rest)[j - n];
      SpansMember(head.blocks, lo, hi, i);
      LiveIsInside(hs, rest, b);
      var k :| 0 <= k < |rest| && rest[k].arena <= b.start < rest[k].arena + rest[k].size &&
               b.start + b.size <= rest[k].arena + rest[k].size;
      assert Apart(head, rest[k]);
    }
  }

  lemma TwoPlaces<T>(s: seq<T>, before: seq<T>, b: T, c: T) returns (i: nat, j: nat)
    requires multiset(s) == multiset(before) + multiset{b} && c in before
    ensures i < |s| && j < |s| && i != j && s[i] == b && s[j] == c
  {
    assert multiset(s)[b] == multiset(before)[b] + 1;
    assert b in multiset(s) && c in multiset(before) && c in multiset(s);
    i :| 0 <= i < |s| && s[i] == b;
    j :| 0 <= j < |s| && s[j] == c;
    if b == c {
      var head, tail := s[..i], s[i + 1..];
      assert s == head + [b] + tail;
      assert multiset(head)[b] + multiset(tail)[b] >= 1;
      if b in head {
        j :| 0 <= j < |head| && head[j] == b;
      } else {
        assert b in multiset(tail);
        var k :| 0 <= k < |tail| && tail[k] == b;
        j := i + 1 + k;
      }
    }
  }

  /** A block just added to the held ones meets none of those held before. */
  lemma NewBlockMeetsNone(hs: seq<Header>, ps: seq<Puddle>, before: seq<Chunk>, b: Chunk, c: Chunk)
    requires PuddlesOk(hs, ps) && multiset(Live(ps)) == multiset(before) + multiset{b} && c in before
    ensures !Meet(b, c)
  {
    var i, j := TwoPlaces(Live(ps), before, b, c);
    if i < j { LiveApart(hs, ps, i, j); } else { LiveApart(hs, ps, j, i); }
  }

  /** Held blocks are inside one system header's bounds. */
  lemma LiveIsInHeader(p: Pool, b: Chunk)
    requires PoolOk(p) && b in Live(p.puddles)
    ensures b.size > 0 && Rounded(b.start)
    ensures exists i ::
              && 0 <= i < |p.headers| && p.headers[i].lower <= b.start
              && b.start + b.size <= p.headers[i].upper <= TWO31
  {
    LiveIsInside(p.headers, p.puddles, b);
    var j :| 0 <= j < |p.puddles| && p.puddles[j].arena <= b.start < p.puddles[j].arena + p.puddles[j].size &&
             b.start + b.size <= p.puddles[j].arena + p.puddles[j].size && ArenaTaken(p.headers, p.puddles[j]);
    assert p.headers[p.puddles[j].src].upper <= TWO31;
  }
}
