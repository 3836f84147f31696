/** The region pool of src/dma_mem.c: arenas taken from the system's memory headers, and
    blocks taken from the arenas. The state of a pool is a value here, with one function
    per operation; DmaPool.dfy has the pool object whose loops compute them.

    A puddle's `blocks` are the spans its callers hold. */
module RegionPool {
  import opened Machine
  import opened ExecMemory

  const PUDDLE_SIZE := 128 * 1024
  const TWO31 := 0x8000_0000

  datatype Puddle = Puddle(src: nat, arena: nat, size: nat, mh: Header, blocks: seq<Chunk>)

  datatype Pool = Pool(headers: seq<Header>, puddles: seq<Puddle>)

  // ---- operations -----------------------------------------------------------------

  /** ALIGN_UP(x, MEM_BLOCKSIZE) in 32 bits. */
  function AlignBlock(x: u32): (r: u32)
    ensures Rounded(r)
    ensures x + 7 < TWO32 ==> x <= r < x + 8
  {
    (x + 7) % TWO32 / 8 * 8
  }

  /** The first header from `i` on that has `size` bytes in one chunk. */
  function FindHeader(hs: seq<Header>, size: nat, i: nat): (r: Option<nat>)
    requires i <= |hs|
    ensures r.Some? ==> i <= r.value < |hs| && Allocate(hs[r.value], size).1.Some?
    decreases |hs| - i
  {
    if i == |hs| then None
    else if Allocate(hs[i], size).1.Some? then Some(i)
    else FindHeader(hs, size, i + 1)
  }

  function ArenaSize(need: u32): u32 {
    AlignBlock(if need > PUDDLE_SIZE then need else PUDDLE_SIZE)
  }

  /** A new puddle whose whole arena is one free chunk. */
  function FreshPuddle(src: nat, arena: nat, size: nat): Puddle {
    Puddle(src, arena, size, Header(arena, arena + size, [Chunk(arena, size)], size), [])
  }

  /** dma_pool_grow(); `nodeOk`: AllocMem() had room for the puddle itself. */
  function Grow(p: Pool, need: u32, nodeOk: bool): (r: Option<Pool>) {
    var size := ArenaSize(need);
    match FindHeader(p.headers, size, 0)
    case None => None
    case Some(i) =>
      var (h, arena) := Allocate(p.headers[i], size);
      if !nodeOk then None // the arena goes back: see GrowFailureRestores
      else Some(Pool(p.headers[i := h], [FreshPuddle(i, arena.value, size)] + p.puddles))
  }

  function TakeBlock(pud: Puddle, need: nat): (Puddle, Option<nat>) {
    var (mh, a) := Allocate(pud.mh, need);
    (if a.Some? then pud.(mh := mh, blocks := [Chunk(a.value, need)] + pud.blocks) else pud, a)
  }

  /** The walk over the puddles: the first that has room. */
  function AllocFrom(ps: seq<Puddle>, need: nat): (seq<Puddle>, Option<nat>) {
    if ps == [] then (ps, None)
    else
      var (pud, a) := TakeBlock(ps[0], need);
      if a.Some? then ([pud] + ps[1..], a)
      else var (rest, b) := AllocFrom(ps[1..], need); ([ps[0]] + rest, b)
  }

  /** dma_pool_region_alloc(). */
  function RegionAlloc(p: Pool, size: u32, nodeOk: bool): (Pool, Option<nat>) {
    var need := AlignBlock(size);
    var (ps, a) := AllocFrom(p.puddles, need);
    if a.Some? then (p.(puddles := ps), a) else GrowThenTake(p, need, nodeOk)
  }

  /** A new puddle, and a block from it. */
  function GrowThenTake(p: Pool, need: u32, nodeOk: bool): (Pool, Option<nat>) {
    match Grow(p, need, nodeOk)
    case None => (p, None)
    case Some(q) =>
      var (pud, b) := TakeBlock(q.puddles[0], need);
      (q.(puddles := [pud] + q.puddles[1..]), b)
  }

  function Drop(bs: seq<Chunk>, b: Chunk): seq<Chunk> {
    if bs == [] then [] else if bs[0] == b then bs[1..] else [bs[0]] + Drop(bs[1..], b)
  }

  function GiveBlock(pud: Puddle, a: nat, need: nat): Puddle {
    pud.(mh := Deallocate(pud.mh, a, need), blocks := Drop(pud.blocks, Chunk(a, need)))
  }

  /** The walk of dma_pool_region_free(): the first puddle whose bounds hold the address. */
  function FreeIn(ps: seq<Puddle>, a: nat, need: nat): seq<Puddle> {
    if ps == [] then []
    else if ps[0].mh.lower <= a < ps[0].mh.upper then [GiveBlock(ps[0], a, need)] + ps[1..]
    else [ps[0]] + FreeIn(ps[1..], a, need)
  }

  /** dma_pool_region_free(). */
  function RegionFree(p: Pool, a: nat, size: u32): Pool {
    p.(puddles := FreeIn(p.puddles, a, AlignBlock(size)))
  }

  /** An arena grown for one large request, with nothing in use in it. */
  predicate Spare(pud: Puddle) {
    pud.size > PUDDLE_SIZE && pud.mh.free == pud.size
  }

  function ReturnArena(hs: seq<Header>, pud: Puddle): seq<Header> {
    if pud.src < |hs| then hs[pud.src := Deallocate(hs[pud.src], pud.arena, pud.size)] else hs
  }

  /** dma_pool_shrink(), from the head of the list on. */
  function Shrink(p: Pool): Pool
    decreases |p.puddles|
  {
    if p.puddles == [] then p
    else if Spare(p.puddles[0]) then Shrink(Pool(ReturnArena(p.headers, p.puddles[0]), p.puddles[1..]))
    else var q := Shrink(p.(puddles := p.puddles[1..])); q.(puddles := [p.puddles[0]] + q.puddles)
  }

  /** dma_pool_delete(): the headers it leaves behind. */
  function Delete(p: Pool): seq<Header>
    decreases |p.puddles|
  {
    if p.puddles == [] then p.headers
    else Delete(Pool(ReturnArena(p.headers, p.puddles[0]), p.puddles[1..]))
  }

  // ---- the invariant ----------------------------------------------------------------

  /** Spans within lo..hi, no two of which meet. */
  ghost predicate SpansOk(bs: seq<Chunk>, lo: int, hi: int) {
    bs == [] ||
    (lo <= bs[0].start && bs[0].start + bs[0].size <= hi && bs[0].size > 0 &&
     Rounded(bs[0].start) && Rounded(bs[0].size) &&
     Clear(bs[1..], bs[0].start, bs[0].size) && SpansOk(bs[1..], lo, hi))
  }

  /** Free chunks and blocks partition the arena, byte by byte and in bytes. */
  ghost predicate PuddleOk(pud: Puddle) {
    && pud.size > 0 && Rounded(pud.arena) && Rounded(pud.size)
    && pud.mh.lower == pud.arena && pud.mh.upper == pud.arena + pud.size
    && HeaderOk(pud.mh)
    && SpansOk(pud.blocks, pud.arena, pud.arena + pud.size)
    && (forall x | pud.arena <= x < pud.arena + pud.size :: Among(pud.mh.chunks, x) <==> !Among(pud.blocks, x))
    && pud.mh.free + Total(pud.blocks) == pud.size
  }

  /** The arena is inside its system header and in use there. */
  ghost predicate ArenaTaken(hs: seq<Header>, pud: Puddle) {
    && pud.src < |hs|
    && hs[pud.src].lower <= pud.arena && pud.arena + pud.size <= hs[pud.src].upper
    && Clear(hs[pud.src].chunks, pud.arena, pud.size)
  }

  predicate Apart(p: Puddle, q: Puddle) {
    p.arena + p.size <= q.arena || q.arena + q.size <= p.arena
  }

  ghost predicate ApartFromAll(p: Puddle, ps: seq<Puddle>) {
    forall j :: 0 <= j < |ps| ==> Apart(p, ps[j])
  }

  ghost predicate PuddlesOk(hs: seq<Header>, ps: seq<Puddle>) {
    ps == [] ||
    (PuddleOk(ps[0]) && ArenaTaken(hs, ps[0]) && ApartFromAll(ps[0], ps[1..]) && PuddlesOk(hs, ps[1..]))
  }

  /** System headers: Pi DRAM below 2 GB, as dma_mem_init() keeps only those, and none at
      address 0, which Allocate() could not return. */
  ghost predicate HeadersOk(hs: seq<Header>) {
    && (forall i :: 0 <= i < |hs| ==> HeaderOk(hs[i]) && 0 < hs[i].lower && hs[i].upper <= TWO31)
    && (forall i, j :: 0 <= i < |hs| && 0 <= j < |hs| && i != j ==>
          hs[i].upper <= hs[j].lower || hs[j].upper <= hs[i].lower)
  }

  ghost predicate PoolOk(p: Pool) {
    HeadersOk(p.headers) && PuddlesOk(p.headers, p.puddles)
  }

  /** Every block the pool's callers hold. */
  function Live(ps: seq<Puddle>): seq<Chunk> {
    if ps == [] then [] else ps[0].blocks + Live(ps[1..])
  }

  function FreeBytes(hs: seq<Header>): nat {
    if hs == [] then 0 else hs[0].free + FreeBytes(hs[1..])
  }

  function ArenaBytes(ps: seq<Puddle>): nat {
    if ps == [] then 0 else ps[0].size + ArenaBytes(ps[1..])
  }

  /** What the system has free plus what the pool's arenas hold. */
  function Wealth(p: Pool): nat {
    FreeBytes(p.headers) + ArenaBytes(p.puddles)
  }

  // ---- spans --------------------------------------------------------------------------

  lemma {:induction false} SpansBounds(bs: seq<Chunk>, lo: int, hi: int)
    requires SpansOk(bs, lo, hi)
    ensures forall x :: Among(bs, x) ==> lo <= x < hi
  {
    if bs != [] { SpansBounds(bs[1..], lo, hi); }
  }

  lemma SpansPush(b: Chunk, bs: seq<Chunk>, lo: int, hi: int)
    requires SpansOk(bs, lo, hi) && Clear(bs, b.start, b.size)
    requires lo <= b.start && b.start + b.size <= hi && b.size > 0 && Rounded(b.start) && Rounded(b.size)
    ensures SpansOk([b] + bs, lo, hi)
    ensures forall x :: Among([b] + bs, x) <==> In(b, x) || Among(bs, x)
    ensures Total([b] + bs) == b.size + Total(bs)
  {
    assert ([b] + bs)[1..] == bs;
  }

  /** What Drop() of a held block leaves. */
  lemma {:induction false} DropIsExact(bs: seq<Chunk>, b: Chunk, lo: int, hi: int)
    requires SpansOk(bs, lo, hi) && b in bs
    ensures SpansOk(Drop(bs, b), lo, hi)
    ensures forall x :: Among(Drop(bs, b), x) <==> Among(bs, x) && !In(b, x)
    ensures Total(Drop(bs, b)) + b.size == Total(bs)
    ensures multiset(bs) == multiset(Drop(bs, b)) + multiset{b}
    ensures lo <= b.start && b.start + b.size <= hi && b.size > 0 && Rounded(b.start) && Rounded(b.size)
    ensures forall x | In(b, x) :: Among(bs, x)
  {
    var head, rest := bs[0], bs[1..];
    assert bs == [head] + rest;
    SpansBounds(rest, lo, hi);
    if head == b {
      forall x ensures Among(rest, x) <==> Among(bs, x) && !In(b, x) {
        if In(b, x) { assert !Among(rest, x); }
      }
    } else {
      DropIsExact(rest, b, lo, hi);
      var left := Drop(rest, b);
      forall x | head.start <= x < head.start + head.size ensures !Among(left, x) {
        assert !Among(rest, x);
      }
      SpansPush(head, left, lo, hi);
      forall x ensures Among([head] + left, x) <==> Among(bs, x) && !In(b, x) {
        assert Among(left, x) <==> Among(rest, x) && !In(b, x);
        if In(head, x) { assert !Among(rest, x); }
      }
    }
  }
}
