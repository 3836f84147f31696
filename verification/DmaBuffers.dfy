/** dma_alloc() and dma_free() of include/dma_mem.h over the region pool, as a machine: any
    sequence of allocations, frees and shrinks, interleaved with owners writing into their
    buffers, with others writing elsewhere, and with the rest of the system using the same
    memory headers. `held` is what callers hold; `words` is memory where header words are
    kept. */
module DmaBuffers {
  import opened Machine
  import opened ExecMemory
  import opened RegionPool
  import opened RegionPoolProofs
  import opened DmaLayout
  import Policy = RegionPoolPolicy

  datatype Buffer = Buffer(raw: nat, total: u32, align: u32, size: u32)

  datatype Store = Store(pool: Pool, words: map<int, int>, held: map<int, Buffer>)

  datatype Event =
    | Alloc(align: u32, size: u32, nodeOk: bool)
    | Free(ptr: int)
    | ShrinkPool
    | OwnerWrites(ptr: int, at: int, value: int)
    | OthersWrite(at: int, value: int)
    | SystemMoves(headers: seq<Header>)

  function BlockOf(b: Buffer): Chunk {
    Chunk(b.raw, AlignBlock(b.total))
  }

  // ---- the machine ------------------------------------------------------------------

  /** dma_alloc(). */
  function DmaAlloc(s: Store, align: u32, size: u32, nodeOk: bool): (Store, Option<int>) {
    var a := Effective(align);
    var total := TotalSize(a, size);
    var (pool, raw) := RegionAlloc(s.pool, total, nodeOk);
    if raw.None? then (s.(pool := pool), None)
    else
      var ptr := BufferAt(raw.value, a);
      (Store(pool, s.words[ptr - 4 := raw.value][raw.value := total], s.held[ptr := Buffer(raw.value, total, a, size)]),
       Some(ptr))
  }

  /** The words dma_free() reads are there. */
  predicate HeaderReadable(s: Store, ptr: int) {
    ptr - 4 in s.words && s.words[ptr - 4] >= 0 && s.words[ptr - 4] in s.words &&
    0 <= s.words[s.words[ptr - 4]] < TWO32
  }

  /** dma_free(): the block's address from below the buffer, its size from the block. */
  function DmaFree(s: Store, ptr: int): Store
    requires HeaderReadable(s, ptr)
  {
    var raw := s.words[ptr - 4];
    var total := s.words[raw];
    s.(pool := RegionFree(s.pool, raw, total), held := s.held - {ptr})
  }

  ghost predicate Enabled(s: Store, e: Event) {
    match e
    case Alloc(align, size, _) => IsPow2(Effective(align)) && Representable(Effective(align), size)
    case Free(ptr) => ptr in s.held
    case ShrinkPool => true
    case OwnerWrites(ptr, at, _) =>
      ptr in s.held && s.held[ptr].align > 0 &&
      ptr <= at && at + 4 <= ptr + RoundedSize(s.held[ptr].align, s.held[ptr].size)
    case OthersWrite(at, _) =>
      at >= 0 && forall p | p in s.held :: !Meet(Chunk(at, 4), BlockOf(s.held[p]))
    case SystemMoves(headers) =>
      HeadersOk(headers) && PuddlesOk(headers, s.pool.puddles) && SameBounds(s.pool.headers, headers)
  }

  ghost predicate SameBounds(hs: seq<Header>, gs: seq<Header>) {
    |hs| == |gs| && forall i :: 0 <= i < |hs| ==> hs[i].lower == gs[i].lower && hs[i].upper == gs[i].upper
  }

  ghost function Next(s: Store, e: Event): Store
    requires Enabled(s, e)
    requires e.Free? ==> HeaderReadable(s, e.ptr)
  {
    match e
    case Alloc(align, size, nodeOk) => DmaAlloc(s, align, size, nodeOk).0
    case Free(ptr) => DmaFree(s, ptr)
    case ShrinkPool => s.(pool := Shrink(s.pool))
    case OwnerWrites(_, at, value) => s.(words := s.words[at := value])
    case OthersWrite(at, value) => s.(words := s.words[at := value])
    case SystemMoves(headers) => s.(pool := s.pool.(headers := headers))
  }

  // ---- the invariant ------------------------------------------------------------------

  ghost predicate BufferOk(p: int, b: Buffer) {
    && IsPow2(b.align) && 4 <= b.align && Representable(b.align, b.size)
    && b.total == TotalSize(b.align, b.size) && BlockFor(b.raw, b.total)
    && p == BufferAt(b.raw, b.align)
  }

  ghost predicate HeldOk(s: Store, p: int)
    requires p in s.held
  {
    var b := s.held[p];
    && BufferOk(p, b)
    && BlockOf(b) in Live(s.pool.puddles)
    && p - 4 in s.words && s.words[p - 4] == b.raw
    && b.raw in s.words && s.words[b.raw] == b.total
  }

  ghost predicate BlocksApart(held: map<int, Buffer>) {
    forall p, q | p in held && q in held && p != q :: !Meet(BlockOf(held[p]), BlockOf(held[q]))
  }

  ghost predicate StoreOk(s: Store) {
    PoolOk(s.pool) && (forall p | p in s.held :: HeldOk(s, p)) && BlocksApart(s.held)
  }

  /** Both header words lie inside the block and apart from each other and the buffer. */
  lemma WordsInBlock(p: int, b: Buffer)
    requires BufferOk(p, b)
    ensures b.raw + 4 <= p - 4 && p + RoundedSize(b.align, b.size) <= b.raw + AlignBlock(b.total)
  {
    RepresentableFits(b.raw, b.align, b.size);
  }

  /** The pool keeps every held block and, on success, adds one that meets none of them. */
  lemma RegionAllocBesides(s: Store, total: u32, nodeOk: bool)
    requires StoreOk(s)
    ensures var (pool, raw) := RegionAlloc(s.pool, total, nodeOk);
            && PoolOk(pool)
            && (forall p | p in s.held :: BlockOf(s.held[p]) in Live(pool.puddles))
            && (raw.Some? ==>
                  && BlockFor(raw.value, total) && Chunk(raw.value, AlignBlock(total)) in Live(pool.puddles)
                  && forall p | p in s.held :: !Meet(Chunk(raw.value, AlignBlock(total)), BlockOf(s.held[p])))
  {
    RegionAllocIsExact(s.pool, total, nodeOk);
    var (pool, raw) := RegionAlloc(s.pool, total, nodeOk);
    forall p | p in s.held ensures BlockOf(s.held[p]) in Live(pool.puddles) {
      assert HeldOk(s, p);
      assert BlockOf(s.held[p]) in multiset(Live(pool.puddles));
    }
    if raw.Some? {
      var c := Chunk(raw.value, AlignBlock(total));
      assert c in multiset(Live(pool.puddles));
      LiveIsInHeader(pool, c);
      forall p | p in s.held ensures !Meet(c, BlockOf(s.held[p])) {
        assert HeldOk(s, p);
        NewBlockMeetsNone(pool.headers, pool.puddles, Live(s.pool.puddles), c, BlockOf(s.held[p]));
      }
    }
  }

  /** The header words of a new buffer touch no other buffer's. */
  lemma NewWordsApart(p: int, b: Buffer, q: int, c: Buffer)
    requires BufferOk(p, b) && BufferOk(q, c) && !Meet(BlockOf(b), BlockOf(c))
    ensures p != q && p - 4 != q - 4 && p - 4 != c.raw && b.raw != q - 4 && b.raw != c.raw
  {
    WordsInBlock(p, b);
    WordsInBlock(q, c);
  }

  lemma HeldSurvivesAlloc(s: Store, s': Store, p: int, ptr: int, b: Buffer)
    requires p in s.held && HeldOk(s, p) && p in s'.held && s'.held[p] == s.held[p]
    requires BlockOf(s.held[p]) in Live(s'.pool.puddles)
    requires s'.words == s.words[ptr - 4 := b.raw][b.raw := b.total]
    requires BufferOk(ptr, b) && !Meet(BlockOf(b), BlockOf(s.held[p]))
    ensures HeldOk(s', p) && p != ptr
  {
    NewWordsApart(ptr, b, p, s.held[p]);
  }

  lemma AllocKeepsOk(s: Store, align: u32, size: u32, nodeOk: bool)
    requires StoreOk(s) && Enabled(s, Alloc(align, size, nodeOk))
    ensures StoreOk(DmaAlloc(s, align, size, nodeOk).0)
  {
    var a := Effective(align);
    var total := TotalSize(a, size);
    RegionAllocBesides(s, total, nodeOk);
    var raw := RegionAlloc(s.pool, total, nodeOk).1;
    var s' := DmaAlloc(s, align, size, nodeOk).0;
    if raw.Some? {
      NewBufferJoins(s, s', BufferAt(raw.value, a), Buffer(raw.value, total, a, size));
    } else {
      forall p | p in s'.held ensures HeldOk(s', p) { assert HeldOk(s, p); }
    }
  }

  lemma NewBufferJoins(s: Store, s': Store, ptr: int, b: Buffer)
    requires StoreOk(s) && PoolOk(s'.pool) && BufferOk(ptr, b) && BlockOf(b) in Live(s'.pool.puddles)
    requires forall p | p in s.held :: BlockOf(s.held[p]) in Live(s'.pool.puddles)
    requires forall p | p in s.held :: !Meet(BlockOf(b), BlockOf(s.held[p]))
    requires s'.words == s.words[ptr - 4 := b.raw][b.raw := b.total] && s'.held == s.held[ptr := b]
    ensures StoreOk(s')
  {
    WordsInBlock(ptr, b);
    forall p | p in s'.held ensures HeldOk(s', p) {
      if p != ptr {
        assert HeldOk(s, p);
        HeldSurvivesAlloc(s, s', p, ptr, b);
      }
    }
  }

  lemma FreeKeepsOk(s: Store, ptr: int)
    requires StoreOk(s) && ptr in s.held
    ensures HeaderReadable(s, ptr) && StoreOk(DmaFree(s, ptr))
  {
    assert HeldOk(s, ptr);
    var b := s.held[ptr];
    RegionFreeIsExact(s.pool, b.raw, b.total);
    var s' := DmaFree(s, ptr);
    forall p | p in s'.held ensures HeldOk(s', p) {
      assert HeldOk(s, p);
      WordsInBlock(p, s.held[p]);
      var c := BlockOf(s.held[p]);
      assert !Meet(c, BlockOf(b));
      assert c in multiset(Live(s.pool.puddles)) && c != BlockOf(b);
      assert c in multiset(Live(s'.pool.puddles));
    }
  }

  lemma WriteKeepsOk(s: Store, e: Event)
    requires StoreOk(s) && Enabled(s, e) && (e.OwnerWrites? || e.OthersWrite?)
    ensures StoreOk(Next(s, e))
  {
    var s' := Next(s, e);
    forall p | p in s'.held ensures HeldOk(s', p) {
      assert HeldOk(s, p);
      WordsInBlock(p, s.held[p]);
      if e.OwnerWrites? && p != e.ptr {
        assert HeldOk(s, e.ptr);
        WordsInBlock(e.ptr, s.held[e.ptr]);
        assert !Meet(BlockOf(s.held[p]), BlockOf(s.held[e.ptr]));
      }
    }
  }

  lemma NextKeepsOk(s: Store, e: Event)
    requires StoreOk(s) && Enabled(s, e)
    ensures e.Free? ==> HeaderReadable(s, e.ptr)
    ensures StoreOk(Next(s, e))
  {
    match e
    case Alloc(align, size, nodeOk) => AllocKeepsOk(s, align, size, nodeOk);
    case Free(ptr) => FreeKeepsOk(s, ptr);
    case ShrinkPool =>
      ShrinkIsExact(s.pool);
      forall p | p in s.held ensures HeldOk(Next(s, e), p) { assert HeldOk(s, p); }
    case SystemMoves(headers) =>
      forall p | p in s.held ensures HeldOk(Next(s, e), p) { assert HeldOk(s, p); }
    case _ => WriteKeepsOk(s, e);
  }

  // ---- what a call comes to ----------------------------------------------------------------

  /** dma_alloc() of `size` bytes on a power of two `align`, stated by the request: nothing on
      failure; on success a new buffer on the alignment asked for, with the bytes asked for
      inside a block of its own behind two header words, and for a cache-line alignment with
      every line of those bytes to itself. */
  lemma AllocGivesWhatWasAsked(s: Store, align: u32, size: u32, nodeOk: bool)
    requires StoreOk(s) && IsPow2(align) && Representable(if align < 4 then 4 else align, size)
    ensures var (s', r) := DmaAlloc(s, align, size, nodeOk);
            && (r.None? ==> s'.held == s.held && s'.words == s.words)
            && (r.Some? ==> Granted(s, s', align, size, r.value))
  {
    var a: u32 := if align < 4 then 4 else align;
    assert IsPow2(a) by { assert IsPow2(4); }
    PoolGivesBuffer(s, a, size, nodeOk);
    var (pool, raw) := RegionAlloc(s.pool, TotalSize(a, size), nodeOk);
    AllocRecords(s, align, a, size, nodeOk, pool, raw);
    if raw.Some? {
      var p, b := BufferAt(raw.value, a), Buffer(raw.value, TotalSize(a, size), a, size);
      LayoutAsAsked(align, size, p, b);
      NewAmongHeld(s, p, b);
    }
  }

  lemma PoolGivesBuffer(s: Store, a: u32, size: u32, nodeOk: bool)
    requires StoreOk(s) && IsPow2(a) && 4 <= a && Representable(a, size)
    ensures var (pool, raw) := RegionAlloc(s.pool, TotalSize(a, size), nodeOk);
            raw.Some? ==>
              var b := Buffer(raw.value, TotalSize(a, size), a, size);
              && BufferOk(BufferAt(raw.value, a), b) && BlockOf(b) in Live(pool.puddles)
              && forall q | q in s.held :: !Meet(BlockOf(b), BlockOf(s.held[q]))
  {
    RegionAllocBesides(s, TotalSize(a, size), nodeOk);
  }

  /** What dma_alloc() leaves behind, given what the pool answered. */
  lemma AllocRecords(s: Store, align: u32, a: u32, size: u32, nodeOk: bool, pool: Pool, raw: Option<nat>)
    requires a == (if align < 4 then 4 else align) && (pool, raw) == RegionAlloc(s.pool, TotalSize(a, size), nodeOk)
    ensures var (s', r) := DmaAlloc(s, align, size, nodeOk);
            && s'.pool == pool
            && (raw.None? ==> r.None? && s'.held == s.held && s'.words == s.words)
            && (raw.Some? ==>
                  && r == Some(BufferAt(raw.value, a))
                  && s'.held == s.held[r.value := Buffer(raw.value, TotalSize(a, size), a, size)])
  {
  }

  /** The address is on the alignment, the bytes lie in the block behind two words, and a
      cache-line alignment has their lines to itself. */
  ghost predicate LaidOutAs(align: u32, size: u32, p: int, block: Chunk) {
    && 0 <= p && align > 0 && Multiple(p, align)
    && block.start + 8 <= p && p + size <= block.start + block.size
    && (align >= 64 ==>
          forall y: nat, x: nat :: p <= y < p + size && x / 64 == y / 64 ==> p <= x < block.start + block.size)
  }

  lemma LayoutAsAsked(align: u32, size: u32, p: int, b: Buffer)
    requires BufferOk(p, b) && IsPow2(align) && b.align == (if align < 4 then 4 else align) && b.size == size
    ensures LaidOutAs(align, size, p, BlockOf(b))
  {
    RepresentableFits(b.raw, b.align, b.size);
    if align < 4 {
      SmallAlignment(p, align);
    }
    forall y: nat, x: nat | align >= 64 && p <= y < p + size && x / 64 == y / 64
      ensures p <= x < b.raw + AlignBlock(b.total)
    {
      OwnsWholeLines(b.raw, b.align, b.size, y, x);
    }
  }

  lemma NewAmongHeld(s: Store, p: int, b: Buffer)
    requires StoreOk(s) && BufferOk(p, b) && forall q | q in s.held :: !Meet(BlockOf(b), BlockOf(s.held[q]))
    ensures p !in s.held
  {
    if p in s.held {
      assert HeldOk(s, p);
      NewWordsApart(p, b, p, s.held[p]);
    }
  }

  /** Buffer `p` is new in `s'` and is what was asked for. */
  ghost predicate Granted(s: Store, s': Store, align: u32, size: u32, p: int) {
    && p !in s.held && s'.held.Keys == s.held.Keys + {p} && (forall q | q in s.held :: s'.held[q] == s.held[q])
    && BlockOf(s'.held[p]) in Live(s'.pool.puddles)
    && (forall q | q in s.held :: !Meet(BlockOf(s'.held[p]), BlockOf(s.held[q])))
    && LaidOutAs(align, size, p, BlockOf(s'.held[p]))
  }

  lemma {:induction false} SmallAlignment(p: nat, align: nat)
    requires Multiple(p, 4) && (align == 1 || align == 2 || align == 3) && IsPow2(align)
    ensures Multiple(p, align)
  {
    if p > 0 {
      SmallAlignment(p - 4, align);
      assert Multiple(4, align) by { assert Multiple(4 - align, align); }
      MultiplesAdd(p - 4, 4, align);
    }
  }

  /** It is granted if and only if the region pool has room for the rounded size, the slack of
      the alignment and the two header words. */
  lemma AllocSucceedsIff(s: Store, align: u32, size: u32, nodeOk: bool, need: u32)
    requires var a := if align < 4 then 4 else align;
             Representable(a, size) && Policy.RoundsTo(RoundedSize(a, size) + a + 7, need)
    ensures DmaAlloc(s, align, size, nodeOk).1.Some? <==>
            need > 0 &&
            (Policy.PuddleHasRoom(s.pool, need) || (nodeOk && Policy.HeaderHasRoom(s.pool, Policy.ArenaFor(need))))
  {
    var a: u32 := if align < 4 then 4 else align;
    TotalIs(a, size);
    Policy.RegionAllocSucceedsIff(s.pool, TotalSize(a, size), nodeOk, need);
  }

  /** dma_free() of a buffer its caller holds gives exactly its block back to the pool and
      changes no other holder's. */
  lemma FreeGivesBlockBack(s: Store, ptr: int)
    requires StoreOk(s) && ptr in s.held
    ensures HeaderReadable(s, ptr)
    ensures var s' := DmaFree(s, ptr);
            && s'.held == s.held - {ptr} && s'.words == s.words
            && multiset(Live(s.pool.puddles)) == multiset(Live(s'.pool.puddles)) + multiset{BlockOf(s.held[ptr])}
  {
    assert HeldOk(s, ptr);
    var b := s.held[ptr];
    assert DmaFree(s, ptr).pool == RegionFree(s.pool, b.raw, b.total);
    FreedBlock(s.pool, b);
  }

  lemma FreedBlock(pool: Pool, b: Buffer)
    requires PoolOk(pool) && BlockOf(b) in Live(pool.puddles)
    ensures multiset(Live(pool.puddles)) ==
            multiset(Live(RegionFree(pool, b.raw, b.total).puddles)) + multiset{BlockOf(b)}
  {
    RegionFreeIsExact(pool, b.raw, b.total);
  }

  // ---- every run -----------------------------------------------------------------------

  /** The state after a run from a pool with no puddles over the headers `hs`, if every
      event was possible in turn; a free reads its header words from memory. */
  ghost function Reach(hs: seq<Header>, run: seq<Event>): Option<Store> {
    if run == [] then Some(Store(Pool(hs, []), map[], map[]))
    else
      match Reach(hs, run[..|run| - 1])
      case None => None
      case Some(s) =>
        var e := run[|run| - 1];
        if Enabled(s, e) && (e.Free? ==> HeaderReadable(s, e.ptr)) then Some(Next(s, e)) else None
  }

  lemma {:induction false} EveryRunKeepsOk(hs: seq<Header>, run: seq<Event>)
    requires HeadersOk(hs) && Reach(hs, run).Some?
    ensures StoreOk(Reach(hs, run).value)
  {
    if run != [] {
      EveryRunKeepsOk(hs, run[..|run| - 1]);
      NextKeepsOk(Reach(hs, run[..|run| - 1]).value, run[|run| - 1]);
    }
  }

  /** No event of a run creates or loses a byte: what the system has free plus what the
      arenas hold stays the same, except by what the rest of the system does. */
  lemma EventsConserve(s: Store, e: Event)
    requires StoreOk(s) && Enabled(s, e) && !e.SystemMoves?
    ensures e.Free? ==> HeaderReadable(s, e.ptr)
    ensures Wealth(Next(s, e).pool) == Wealth(s.pool)
  {
    match e
    case Alloc(align, size, nodeOk) => RegionAllocIsExact(s.pool, TotalSize(Effective(align), size), nodeOk);
    case Free(ptr) =>
      assert HeldOk(s, ptr);
      RegionFreeIsExact(s.pool, s.held[ptr].raw, s.held[ptr].total);
    case ShrinkPool => ShrinkIsExact(s.pool);
    case _ =>
  }

  /** The address ranges dma_mem_init() records are the bounds of the headers. */
  ghost predicate InRegion(hs: seq<Header>, a: int, len: int) {
    exists i :: 0 <= i < |hs| && hs[i].lower <= a && a + len <= hs[i].upper
  }

  /** Every buffer a caller holds, after any run: aligned, DMA-reachable as a whole, inside
      its own block with both header words in front of it, intact, and dma_free() of it
      finds them. */
  lemma HeldBufferIsSafe(hs: seq<Header>, run: seq<Event>, s: Store, p: int)
    requires HeadersOk(hs) && Reach(hs, run) == Some(s) && p in s.held
    ensures var b := s.held[p];
            && b.align >= 4 && Multiple(p, b.align)
            && InRegion(s.pool.headers, p, RoundedSize(b.align, b.size)) && b.size <= RoundedSize(b.align, b.size)
            && b.raw + 4 <= p - 4 && p + RoundedSize(b.align, b.size) <= b.raw + AlignBlock(b.total)
            && HeaderReadable(s, p) && s.words[p - 4] == b.raw && s.words[b.raw] == b.total
            && BlockOf(b) in Live(s.pool.puddles)
  {
    EveryRunKeepsOk(hs, run);
    assert HeldOk(s, p);
    var b := s.held[p];
    RepresentableFits(b.raw, b.align, b.size);
    LiveIsInHeader(s.pool, BlockOf(b));
  }

  /** After any run, every byte on a cache line of a line-aligned buffer is the buffer's own:
      no other memory shares it, least of all another block that is held. */
  lemma LinesAreNotShared(hs: seq<Header>, run: seq<Event>, s: Store, p: int, y: nat, x: nat)
    requires HeadersOk(hs) && Reach(hs, run) == Some(s) && p in s.held
    requires s.held[p].align >= DMA_ALIGN_MIN
    requires p <= y < p + RoundedSize(s.held[p].align, s.held[p].size) && x / 64 == y / 64
    ensures p <= x < p + RoundedSize(s.held[p].align, s.held[p].size)
    ensures forall q | q in s.held && q != p :: !In(BlockOf(s.held[q]), x)
  {
    EveryRunKeepsOk(hs, run);
    assert HeldOk(s, p);
    var b := s.held[p];
    OwnsWholeLines(b.raw, b.align, b.size, y, x);
    WordsInBlock(p, b);
    forall q | q in s.held && q != p ensures !In(BlockOf(s.held[q]), x) {
      assert !Meet(BlockOf(b), BlockOf(s.held[q]));
    }
  }

  // ---- requests and blocks over every run ----------------------------------------------------

  /** Event `i` of the run asked for the buffer that is at `p`. */
  ghost predicate AskedFor(run: seq<Event>, i: nat, p: int, block: Chunk) {
    i < |run| && run[i].Alloc? && LaidOutAs(run[i].align, run[i].size, p, block)
  }

  /** What an event leaves of the buffers held: those that were there as they were, and for an
      allocation at most one more, which is what it asked for. */
  lemma NextHolds(s: Store, e: Event, p: int)
    requires StoreOk(s) && Enabled(s, e) && (e.Alloc? ==> IsPow2(e.align))
    ensures e.Free? ==> HeaderReadable(s, e.ptr)
    ensures var s' := Next(s, e);
            p in s'.held ==>
              || (p in s.held && s'.held[p] == s.held[p])
              || (e.Alloc? && LaidOutAs(e.align, e.size, p, BlockOf(s'.held[p])))
  {
    if e.Free? { FreeKeepsOk(s, e.ptr); }
    if e.Alloc? { AllocGivesWhatWasAsked(s, e.align, e.size, e.nodeOk); }
  }

  /** Every request is for a power of two, as dma_alloc() asks of its callers. */
  ghost predicate Powers(run: seq<Event>) {
    forall i :: 0 <= i < |run| && run[i].Alloc? ==> IsPow2(run[i].align)
  }

  /** Every buffer held after any run is one that an allocation of the run asked for, on that
      alignment and of that size. */
  lemma {:induction false} HeldWasAskedFor(hs: seq<Header>, run: seq<Event>, s: Store, p: int)
    requires HeadersOk(hs) && Reach(hs, run) == Some(s) && Powers(run) && p in s.held
    ensures exists i :: AskedFor(run, i, p, BlockOf(s.held[p]))
  {
    if run != [] {
      var before, last := run[..|run| - 1], |run| - 1;
      EveryRunKeepsOk(hs, before);
      var t := Reach(hs, before).value;
      NextHolds(t, run[last], p);
      if p in t.held && s.held[p] == t.held[p] {
        HeldWasAskedFor(hs, before, t, p);
        var i :| AskedFor(before, i, p, BlockOf(t.held[p]));
        assert AskedFor(run, i, p, BlockOf(s.held[p]));
      } else {
        assert AskedFor(run, last, p, BlockOf(s.held[p]));
      }
    }
  }

  /** Somebody holds the block. */
  ghost predicate Held(s: Store, c: Chunk) {
    exists p :: p in s.held && BlockOf(s.held[p]) == c
  }

  /** Every block the pool has given out is somebody's. */
  ghost predicate NothingLeaked(s: Store) {
    forall c :: c in Live(s.pool.puddles) ==> Held(s, c)
  }

  /** One more buffer: the blocks given out before are still held, and the new one is. */
  lemma OneMoreHeld(s: Store, s': Store, p: int, b: Buffer, c: Chunk)
    requires NothingLeaked(s) && p !in s.held && s'.held == s.held[p := b]
    requires c in Live(s.pool.puddles) || c == BlockOf(b)
    ensures Held(s', c)
  {
    if c == BlockOf(b) {
      assert p in s'.held && BlockOf(s'.held[p]) == c;
    } else {
      var q :| q in s.held && BlockOf(s.held[q]) == c;
      assert q in s'.held && BlockOf(s'.held[q]) == c;
    }
  }

  lemma InSum(s: seq<Chunk>, t: seq<Chunk>, more: multiset<Chunk>, c: Chunk)
    requires multiset(s) == multiset(t) + more && c in s
    ensures c in t || c in more
  {
    assert c in multiset(s);
  }

  lemma AllocLeaksNothing(s: Store, e: Event)
    requires StoreOk(s) && NothingLeaked(s) && Enabled(s, e) && e.Alloc?
    ensures NothingLeaked(Next(s, e))
  {
    var s', a := Next(s, e), Effective(e.align);
    PoolGivesBuffer(s, a, e.size, e.nodeOk);
    var (pool, raw) := RegionAlloc(s.pool, TotalSize(a, e.size), e.nodeOk);
    RegionAllocIsExact(s.pool, TotalSize(a, e.size), e.nodeOk);
    AllocRecords(s, e.align, a, e.size, e.nodeOk, pool, raw);
    forall c | c in Live(s'.pool.puddles) ensures Held(s', c) {
      if raw.Some? {
        var p, b := BufferAt(raw.value, a), Buffer(raw.value, TotalSize(a, e.size), a, e.size);
        NewAmongHeld(s, p, b);
        InSum(Live(pool.puddles), Live(s.pool.puddles), multiset{BlockOf(b)}, c);
        OneMoreHeld(s, s', p, b, c);
      } else {
        InSum(Live(pool.puddles), Live(s.pool.puddles), multiset{}, c);
        assert Held(s, c);
      }
    }
  }

  /** A block that is left when another went back is held by somebody else. */
  lemma StillHeld(s: Store, ptr: int, after: seq<Chunk>, c: Chunk) returns (p: int)
    requires StoreOk(s) && NothingLeaked(s) && ptr in s.held && c in after
    requires multiset(Live(s.pool.puddles)) == multiset(after) + multiset{BlockOf(s.held[ptr])}
    ensures p in s.held && p != ptr && BlockOf(s.held[p]) == c
  {
    assert c in multiset(Live(s.pool.puddles));
    assert Held(s, c);
    p :| p in s.held && BlockOf(s.held[p]) == c;
    NewBlockMeetsNone(s.pool.headers, s.pool.puddles, after, BlockOf(s.held[ptr]), c);
    LiveIsInHeader(s.pool, c);
  }

  lemma FreeLeaksNothing(s: Store, ptr: int)
    requires StoreOk(s) && NothingLeaked(s) && ptr in s.held
    ensures HeaderReadable(s, ptr) && NothingLeaked(DmaFree(s, ptr))
  {
    FreeGivesBlockBack(s, ptr);
    var s' := DmaFree(s, ptr);
    forall c | c in Live(s'.pool.puddles) ensures Held(s', c) {
      var p := StillHeld(s, ptr, Live(s'.pool.puddles), c);
      assert p in s'.held && s'.held[p] == s.held[p];
    }
  }

  lemma NextLeaksNothing(s: Store, e: Event)
    requires StoreOk(s) && NothingLeaked(s) && Enabled(s, e)
    ensures e.Free? ==> HeaderReadable(s, e.ptr)
    ensures NothingLeaked(Next(s, e))
  {
    if e.Alloc? {
      AllocLeaksNothing(s, e);
    } else if e.Free? {
      FreeLeaksNothing(s, e.ptr);
    } else {
      if e.ShrinkPool? { ShrinkIsExact(s.pool); }
      var s' := Next(s, e);
      forall c | c in Live(s'.pool.puddles) ensures Held(s', c) { assert Held(s, c); }
    }
  }

  /** After any run the blocks the pool has given out are exactly those of the buffers held: a
      buffer that was freed is free memory again. */
  lemma {:induction false} LiveIsHeld(hs: seq<Header>, run: seq<Event>, s: Store, c: Chunk)
    requires HeadersOk(hs) && Reach(hs, run) == Some(s)
    ensures NothingLeaked(s)
    ensures c in Live(s.pool.puddles) <==> Held(s, c)
  {
    EveryRunKeepsOk(hs, run);
    if run != [] {
      var before := run[..|run| - 1];
      var t := Reach(hs, before).value;
      EveryRunKeepsOk(hs, before);
      LiveIsHeld(hs, before, t, c);
      NextLeaksNothing(t, run[|run| - 1]);
    }
    if Held(s, c) {
      var p :| p in s.held && BlockOf(s.held[p]) == c;
      assert HeldOk(s, p);
    }
  }
}
