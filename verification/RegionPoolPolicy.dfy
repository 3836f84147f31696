/** When the region pool of src/dma_mem.c grants a request, from where, and what it gives back
    on a shrink, in terms of the free chunks its callers could look at. */
module RegionPoolPolicy {
  import opened Machine
  import opened ExecMemory
  import opened RegionPool
  import opened RegionPoolProofs

  // ---- one list ------------------------------------------------------------------------

  /** A free chunk is large enough. */
  ghost predicate HasChunk(cs: seq<Chunk>, n: nat) {
    exists i :: 0 <= i < |cs| && cs[i].size >= n
  }

  /** Chunk `c` is the first that is large enough. */
  ghost predicate FirstFit(cs: seq<Chunk>, n: nat, c: nat) {
    c < |cs| && cs[c].size >= n && forall i :: 0 <= i < c ==> cs[i].size < n
  }

  lemma {:induction false} TakeSucceedsIff(cs: seq<Chunk>, need: nat)
    ensures TakeFrom(cs, need).1.Some? <==> need > 0 && HasChunk(cs, need)
  {
    if cs != [] && need != 0 && cs[0].size < need {
      TakeSucceedsIff(cs[1..], need);
      if HasChunk(cs, need) {
        var i :| 0 <= i < |cs| && cs[i].size >= need;
        assert cs[1..][i - 1] == cs[i];
      }
      if HasChunk(cs[1..], need) {
        var i :| 0 <= i < |cs[1..]| && cs[1..][i].size >= need;
        assert cs[i + 1] == cs[1..][i];
      }
    }
  }

  lemma TakePlace(cs: seq<Chunk>, need: nat, c: nat)
    requires need > 0 && FirstFit(cs, need, c)
    ensures TakeFrom(cs, need).1 == Some(cs[c].start)
  {
    TakeIsFirstFit(cs, need, c);
  }

  // ---- the puddles ---------------------------------------------------------------------

  ghost predicate PuddleHasRoom(p: Pool, need: nat) {
    exists j :: 0 <= j < |p.puddles| && HasChunk(p.puddles[j].mh.chunks, need)
  }

  ghost predicate HeaderHasRoom(p: Pool, need: nat) {
    exists i :: 0 <= i < |p.headers| && HasChunk(p.headers[i].chunks, need)
  }

  lemma {:induction false} AllocFromPlace(ps: seq<Puddle>, need: nat, j: nat, c: nat)
    requires need > 0 && j < |ps| && FirstFit(ps[j].mh.chunks, need, c)
    requires forall i :: 0 <= i < j ==> !HasChunk(ps[i].mh.chunks, need)
    ensures AllocFrom(ps, need).1 == Some(ps[j].mh.chunks[c].start)
  {
    TakeSucceedsIff(ps[0].mh.chunks, need);
    if j == 0 {
      TakePlace(ps[0].mh.chunks, need, c);
    } else {
      AllocFromPlace(ps[1..], need, j - 1, c);
    }
  }

  lemma {:induction false} AllocFromSucceedsIff(ps: seq<Puddle>, need: nat)
    ensures AllocFrom(ps, need).1.Some? <==>
            need > 0 && exists j :: 0 <= j < |ps| && HasChunk(ps[j].mh.chunks, need)
  {
    if ps != [] {
      TakeSucceedsIff(ps[0].mh.chunks, need);
      AllocFromSucceedsIff(ps[1..], need);
      forall j | 0 < j < |ps| ensures ps[1..][j - 1] == ps[j] {
      }
    }
  }

  // ---- the headers ---------------------------------------------------------------------

  lemma {:induction false} FindHeaderIff(hs: seq<Header>, size: nat, i: nat)
    requires i <= |hs| && size > 0
    ensures FindHeader(hs, size, i).Some? <==> exists k :: i <= k < |hs| && HasChunk(hs[k].chunks, size)
    ensures FindHeader(hs, size, i).Some? ==>
              var k := FindHeader(hs, size, i).value;
              HasChunk(hs[k].chunks, size) && forall j :: i <= j < k ==> !HasChunk(hs[j].chunks, size)
    decreases |hs| - i
  {
    if i < |hs| {
      TakeSucceedsIff(hs[i].chunks, size);
      FindHeaderIff(hs, size, i + 1);
    }
  }

  /** What an arena takes from a header: the request, 128 KB at least. */
  function ArenaFor(need: nat): nat {
    if need > 131072 then need else 131072
  }

  lemma ArenaSizeIs(need: u32)
    requires need % 8 == 0
    ensures ArenaSize(need) == ArenaFor(need)
  {
    if need > 131072 {
      RoundedIsAligned(need);
    } else {
      RoundedIsAligned(131072);
    }
  }

  lemma RoundedIsAligned(x: u32)
    requires x % 8 == 0
    ensures AlignBlock(x) == x
  {
    var q := x / 8;
    assert x == 8 * q && q < 0x2000_0000;
    assert (x + 7) % TWO32 == 8 * q + 7;
  }

  /** dma_pool_grow() succeeds exactly when some header has the arena in one chunk and the
      puddle node can be allocated; the arena comes from the front of the first chunk that
      fits, of the first header that has one. */
  lemma GrowSucceedsIff(p: Pool, need: u32, nodeOk: bool)
    requires need % 8 == 0
    ensures Grow(p, need, nodeOk).Some? <==> nodeOk && HeaderHasRoom(p, ArenaFor(need))
  {
    ArenaSizeIs(need);
    FindHeaderIff(p.headers, ArenaSize(need), 0);
  }

  lemma GrowPlace(p: Pool, need: u32, i: nat, c: nat)
    requires need % 8 == 0 && i < |p.headers| && FirstFit(p.headers[i].chunks, ArenaFor(need), c)
    requires forall k :: 0 <= k < i ==> !HasChunk(p.headers[k].chunks, ArenaFor(need))
    ensures var r := Grow(p, need, true);
            && r.Some? && r.value.puddles != []
            && var pud := r.value.puddles[0];
               pud.src == i && pud.arena == p.headers[i].chunks[c].start && pud.size == ArenaFor(need)
  {
    ArenaSizeIs(need);
    FindHeaderIff(p.headers, ArenaSize(need), 0);
    assert HasChunk(p.headers[i].chunks, ArenaFor(need));
    TakePlace(p.headers[i].chunks, ArenaFor(need), c);
  }

  // ---- dma_pool_region_alloc() -----------------------------------------------------------

  lemma FreshPuddleGives(src: nat, arena: nat, size: nat, need: nat)
    requires 0 < need <= size
    ensures TakeBlock(FreshPuddle(src, arena, size), need).1 == Some(arena)
  {
    TakePlace([Chunk(arena, size)], need, 0);
  }

  /** What dma_pool_region_alloc() looks for: the size rounded up to eight, or nothing if the
      rounding wraps 32 bits. */
  predicate RoundsTo(size: u32, need: u32) {
    need % 8 == 0 && if size + 7 < TWO32 then size <= need < size + 8 else need == 0
  }

  lemma RoundsToAligned(size: u32, need: u32)
    requires RoundsTo(size, need)
    ensures AlignBlock(size) == need
  {
  }

  /** A request of `size` bytes, `need` when rounded up to eight, is granted if and only if it
      asks for something and a puddle has a large enough chunk, or a header has one for a new
      arena and the puddle node can be allocated. */
  lemma RegionAllocSucceedsIff(p: Pool, size: u32, nodeOk: bool, need: u32)
    requires RoundsTo(size, need)
    ensures RegionAlloc(p, size, nodeOk).1.Some? <==>
            need > 0 && (PuddleHasRoom(p, need) || (nodeOk && HeaderHasRoom(p, ArenaFor(need))))
  {
    RoundsToAligned(size, need);
    AllocFromSucceedsIff(p.puddles, need);
    GrowSucceedsIff(p, need, nodeOk);
    if AllocFrom(p.puddles, need).1.None? && Grow(p, need, nodeOk).Some? {
      GrownPuddleGives(p, need, nodeOk);
    }
  }

  lemma GrownPuddleGives(p: Pool, need: u32, nodeOk: bool)
    requires need % 8 == 0 && Grow(p, need, nodeOk).Some?
    ensures var pud := Grow(p, need, nodeOk).value.puddles[0];
            TakeBlock(pud, need).1 == if need > 0 then Some(pud.arena) else None
  {
    ArenaSizeIs(need);
    var pud := Grow(p, need, nodeOk).value.puddles[0];
    assert pud == FreshPuddle(pud.src, pud.arena, ArenaFor(need));
    if need > 0 { FreshPuddleGives(pud.src, pud.arena, ArenaFor(need), need); }
  }

  /** It comes from the first puddle with room, from the front of its first chunk that fits. */
  lemma RegionAllocFromPuddle(p: Pool, size: u32, nodeOk: bool, need: u32, j: nat, c: nat)
    requires need % 8 == 0 && size <= need < size + 8 && size + 7 < TWO32 && need > 0
    requires j < |p.puddles| && FirstFit(p.puddles[j].mh.chunks, need, c)
    requires forall i :: 0 <= i < j ==> !HasChunk(p.puddles[i].mh.chunks, need)
    ensures RegionAlloc(p, size, nodeOk).1 == Some(p.puddles[j].mh.chunks[c].start)
    ensures |RegionAlloc(p, size, nodeOk).0.puddles| == |p.puddles|
  {
    assert AlignBlock(size) == need;
    AllocFromPlace(p.puddles, need, j, c);
    AllocFromLength(p.puddles, need);
  }

  lemma {:induction false} AllocFromLength(ps: seq<Puddle>, need: nat)
    ensures |AllocFrom(ps, need).0| == |ps|
  {
    if ps != [] { AllocFromLength(ps[1..], need); }
  }

  /** With no room in any puddle it is the front of a new arena. */
  lemma RegionAllocFromHeader(p: Pool, size: u32, need: u32, i: nat, c: nat)
    requires need % 8 == 0 && size <= need < size + 8 && size + 7 < TWO32 && need > 0
    requires !PuddleHasRoom(p, need)
    requires i < |p.headers| && FirstFit(p.headers[i].chunks, ArenaFor(need), c)
    requires forall k :: 0 <= k < i ==> !HasChunk(p.headers[k].chunks, ArenaFor(need))
    ensures RegionAlloc(p, size, true).1 == Some(p.headers[i].chunks[c].start)
    ensures |RegionAlloc(p, size, true).0.puddles| == |p.puddles| + 1
  {
    assert AlignBlock(size) == need;
    AllocFromSucceedsIff(p.puddles, need);
    GrowPlace(p, need, i, c);
    GrownPuddleGives(p, need, true);
  }

  // ---- dma_pool_shrink() -------------------------------------------------------------------

  /** A puddle goes exactly when it was made for more than 128 KB and holds nothing. */
  lemma SpareIs(pud: Puddle)
    requires PuddleOk(pud)
    ensures Spare(pud) <==> pud.size > 131072 && pud.blocks == []
  {
    FullyFreeHasNoBlocks(pud);
  }

  lemma {:induction false} KeepIs(hs: seq<Header>, ps: seq<Puddle>, pud: Puddle)
    requires PuddlesOk(hs, ps)
    ensures pud in Keep(ps) <==> pud in ps && !(pud.size > 131072 && pud.blocks == [])
  {
    if ps != [] {
      SpareIs(ps[0]);
      KeepIs(hs, ps[1..], pud);
    }
  }

  /** After dma_pool_shrink() a puddle of the pool is still there exactly when it holds a block
      or is of the standard size, and no other is. */
  lemma ShrinkDropsExactly(p: Pool, pud: Puddle)
    requires PoolOk(p)
    ensures pud in Shrink(p).puddles <==> pud in p.puddles && !(pud.size > 131072 && pud.blocks == [])
  {
    ShrinkIsExact(p);
    KeepIs(p.headers, p.puddles, pud);
  }
}
