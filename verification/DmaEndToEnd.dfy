/** The allocator and the cache protocol together: a buffer from dma_alloc() owns its cache
    lines, so the protocol on it is sound for the buffer and invisible to everyone else. */
module DmaEndToEnd {
  import opened Machine
  import opened ExecMemory
  import opened RegionPool
  import opened DmaLayout
  import A = DmaBuffers
  import C = Coherence
  import opened CacheUnit
  import opened DmaTransfer
  import RegionPoolProofs
  import R = DmaRegions
  import S = Slab

  /** Line `line` of a range inside the buffer is one that the buffer owns. */
  lemma TouchedLineIsOwned(addr: nat, len: nat, line: int) returns (y: int)
    requires Touched(addr, len, line)
    ensures addr <= y < addr + len && y / LINE == line
  {
    y := if addr / LINE == line then addr else line * LINE;
  }

  /** Byte `x` belongs to buffer `p` of the allocator. */
  ghost predicate OfBuffer(s: A.Store, p: int, x: int) {
    p in s.held && s.held[p].align > 0 && p <= x < p + RoundedSize(s.held[p].align, s.held[p].size)
  }

  /** Every byte that belongs to none of these buffers: header words, the slack of their blocks,
      the neighbours on both sides, and all other memory, whoever owns it. */
  ghost predicate Elsewhere(s: A.Store, ps: seq<int>, x: int) {
    forall k :: 0 <= k < |ps| ==> !OfBuffer(s, ps[k], x)
  }

  /** Each range lies inside its own line-aligned buffer. */
  ghost predicate InBuffers(s: A.Store, ps: seq<int>, spans: seq<Span>) {
    && |ps| == |spans|
    && (forall j, k :: 0 <= j < k < |ps| ==> ps[j] != ps[k])
    && forall k :: 0 <= k < |ps| ==> InBuffer(s, ps[k], spans[k])
  }

  ghost predicate InBuffer(s: A.Store, p: int, sp: Span) {
    && p in s.held && s.held[p].align >= DMA_ALIGN_MIN
    && p <= sp.addr && sp.addr + sp.len <= p + RoundedSize(s.held[p].align, s.held[p].size)
  }

  /** After any run of the allocator, every byte on a line that a range inside a line-aligned
      buffer walks over is the buffer's own. */
  lemma NothingElseIsTouched(hs: seq<Header>, allocs: seq<A.Event>, s: A.Store, p: int, sp: Span, x: nat)
    requires HeadersOk(hs) && A.Reach(hs, allocs) == Some(s) && InBuffer(s, p, sp)
    requires Walks(sp, x / LINE)
    ensures OfBuffer(s, p, x)
  {
    var y := TouchedLineIsOwned(sp.addr, sp.len, x / LINE);
    A.LinesAreNotShared(hs, allocs, s, p, y, x);
  }

  /** Ranges inside different buffers share no line. */
  lemma BuffersShareNoLine(hs: seq<Header>, allocs: seq<A.Event>, s: A.Store, ps: seq<int>, spans: seq<Span>)
    requires HeadersOk(hs) && A.Reach(hs, allocs) == Some(s) && InBuffers(s, ps, spans)
    ensures NoSharedLines(spans)
  {
    forall j, k, i | 0 <= j < k < |spans| && Walks(spans[j], i) ensures !Walks(spans[k], i) {
      if Walks(spans[k], i) {
        var x := TouchedLineIsOwned(spans[j].addr, spans[j].len, i);
        assert InBuffer(s, ps[j], spans[j]) && InBuffer(s, ps[k], spans[k]);
        NothingElseIsTouched(hs, allocs, s, ps[k], spans[k], x);
        BuffersDisjoint(hs, allocs, s, ps[j], ps[k], x);
        assert OfBuffer(s, ps[j], x);
      }
    }
  }

  lemma BuffersDisjoint(hs: seq<Header>, allocs: seq<A.Event>, s: A.Store, p: int, q: int, x: nat)
    requires HeadersOk(hs) && A.Reach(hs, allocs) == Some(s) && p != q && p in s.held && OfBuffer(s, q, x)
    ensures !OfBuffer(s, p, x)
  {
    A.EveryRunKeepsOk(hs, allocs);
    assert A.HeldOk(s, p) && A.HeldOk(s, q);
    A.WordsInBlock(p, s.held[p]);
    A.WordsInBlock(q, s.held[q]);
    assert !RegionPoolProofs.Meet(A.BlockOf(s.held[p]), A.BlockOf(s.held[q]));
  }

  lemma ElsewhereIsUntouched(hs: seq<Header>, allocs: seq<A.Event>, s: A.Store, ps: seq<int>, spans: seq<Span>, x: nat)
    requires HeadersOk(hs) && A.Reach(hs, allocs) == Some(s) && InBuffers(s, ps, spans) && Elsewhere(s, ps, x)
    ensures Owner(spans, x / LINE).None?
  {
    var k := Owner(spans, x / LINE);
    if k.Some? {
      assert InBuffer(s, ps[k.value], spans[k.value]);
      NothingElseIsTouched(hs, allocs, s, ps[k.value], spans[k.value], x);
    }
  }

  /** A write while the device works: the device's own inside a range, or a store to any byte
      that is none of the buffers', on a line the CPU has. */
  ghost predicate Fair(s: A.Store, ps: seq<int>, lines: seq<C.Line>, spans: seq<Span>, e: Action) {
    && e.a / LINE < |lines|
    && (e.Device? ==> exists k :: 0 <= k < |spans| && InSpan(spans[k], e.a))
    && (e.Cpu? ==> Elsewhere(s, ps, e.a) && lines[e.a / LINE].phase.Idle?)
  }

  /** The whole promise: after any run of the allocator, a transfer over ranges inside any
      number of line-aligned buffers reads back exactly what the device wrote, and every byte
      outside the buffers is what the CPU last stored there; the caller need know nothing
      about cache lines. */
  method BufferTransfer(ghost hs: seq<Header>, ghost allocs: seq<A.Event>, ghost s: A.Store, ghost ps: seq<int>,
                        cache: Cache, spans: seq<Span>, before: Batch, behind: Batch, script: seq<Action>)
    returns (ghost armed: seq<C.Data>)
    requires HeadersOk(hs) && A.Reach(hs, allocs) == Some(s) && InBuffers(s, ps, spans)
    requires cache.Ok() && Fit(spans, |cache.lines|) && Closes(spans, before) && Closes(spans, behind)
    requires forall i :: 0 <= i < |cache.lines| && Owner(spans, i).Some? ==> cache.lines[i].phase.Idle?
    requires forall k :: 0 <= k < |script| ==> Fair(s, ps, cache.lines, spans, script[k])
    modifies cache
    ensures cache.Ok() && |cache.lines| == |old(cache.lines)|
    ensures forall k, a: nat :: 0 <= k < |spans| && InSpan(spans[k], a) &&
                                (Written(script, a) || spans[k].readFromRam || !spans[k].writeToRam) ==>
              ByteIs(cache.lines, a, script, old(cache.lines))
    ensures forall x: nat :: Elsewhere(s, ps, x) && x / LINE < |old(cache.lines)| &&
                             old(cache.lines)[x / LINE].phase.Idle? ==>
              ByteIs(cache.lines, x, script, old(cache.lines))
    ensures forall k, a: nat :: 0 <= k < |spans| && InSpan(spans[k], a) &&
                                (spans[k].readFromRam || !spans[k].writeToRam) ==>
              DeviceByteIs(armed, a, old(cache.lines))
  {
    ghost var first := cache.lines;
    BuffersShareNoLine(hs, allocs, s, ps, spans);
    forall k | 0 <= k < |script| ensures Proper(first, spans, script[k]) {
      assert Fair(s, ps, first, spans, script[k]);
      if script[k].Cpu? { ElsewhereIsUntouched(hs, allocs, s, ps, spans, script[k].a); }
    }
    armed := Transfer(cache, spans, before, behind, script);
    forall k, a: nat | 0 <= k < |spans| && InSpan(spans[k], a) && (spans[k].readFromRam || !spans[k].writeToRam)
      ensures DeviceByteIs(armed, a, first)
    {
      DeviceByte(first, armed, spans, k, a);
    }
    forall k, a: nat | 0 <= k < |spans| && InSpan(spans[k], a) &&
        (Written(script, a) || spans[k].readFromRam || !spans[k].writeToRam)
      ensures ByteIs(cache.lines, a, script, first)
    {
      SpanByte(first, cache.lines, spans, script, k, a);
    }
    forall x: nat | Elsewhere(s, ps, x) && x / LINE < |first| && first[x / LINE].phase.Idle?
      ensures ByteIs(cache.lines, x, script, first)
    {
      ElsewhereIsUntouched(hs, allocs, s, ps, spans, x);
      OtherByte(first, cache.lines, spans, script, x);
    }
  }

  /** The CPU reads at `a` what plain memory would hold. */
  ghost predicate ByteIs(lines: seq<C.Line>, a: nat, script: seq<Action>, before: seq<C.Line>) {
    && a / LINE < |lines| == |before|
    && |C.View(lines[a / LINE])| == LINE && |C.View(before[a / LINE])| == LINE
    && C.View(lines[a / LINE])[a % LINE] == Plain(script, a, C.View(before[a / LINE])[a % LINE])
  }

  /** The device found at `a`, when it was started, what the CPU had there before. */
  ghost predicate DeviceByteIs(armed: seq<C.Data>, a: nat, before: seq<C.Line>) {
    && a / LINE < |armed| == |before|
    && |armed[a / LINE]| == LINE && |C.View(before[a / LINE])| == LINE
    && armed[a / LINE][a % LINE] == C.View(before[a / LINE])[a % LINE]
  }

  lemma DeviceByte(before: seq<C.Line>, armed: seq<C.Data>, spans: seq<Span>, k: nat, a: nat)
    requires |armed| == |before| && NoSharedLines(spans) && Fit(spans, |before|)
    requires forall i :: 0 <= i < |armed| ==> DeviceFinds(before[i], armed[i], i, spans)
    requires k < |spans| && InSpan(spans[k], a) && (spans[k].readFromRam || !spans[k].writeToRam)
    ensures DeviceByteIs(armed, a, before)
  {
    SpanLines(spans, k, a);
    assert DeviceFinds(before[a / LINE], armed[a / LINE], a / LINE, spans);
  }

  ghost predicate AllPlain(before: seq<C.Line>, after: seq<C.Line>, spans: seq<Span>, script: seq<Action>) {
    |after| == |before| && forall i :: 0 <= i < |after| ==> AsPlainMemory(before[i], after[i], i, spans, script)
  }

  lemma SpanByte(before: seq<C.Line>, after: seq<C.Line>, spans: seq<Span>, script: seq<Action>, k: nat, a: nat)
    requires AllPlain(before, after, spans, script) && NoSharedLines(spans) && Fit(spans, |after|)
    requires k < |spans| && InSpan(spans[k], a) && (Written(script, a) || spans[k].readFromRam || !spans[k].writeToRam)
    ensures ByteIs(after, a, script, before)
  {
    SpanLines(spans, k, a);
    var i := a / LINE;
    assert a == LINE * i + a % LINE;
    assert AsPlainMemory(before[i], after[i], i, spans, script);
  }

  lemma OtherByte(before: seq<C.Line>, after: seq<C.Line>, spans: seq<Span>, script: seq<Action>, x: nat)
    requires AllPlain(before, after, spans, script) && x / LINE < |after|
    requires Owner(spans, x / LINE).None? && before[x / LINE].phase.Idle?
    ensures ByteIs(after, x, script, before)
  {
    var i := x / LINE;
    assert x == LINE * i + x % LINE;
    assert AsPlainMemory(before[i], after[i], i, spans, script);
  }

  // ---- dma_addr_reachable() ----------------------------------------------------------------

  lemma {:induction false} ShrinkKeepsBounds(p: Pool)
    ensures A.SameBounds(p.headers, Shrink(p).headers)
    decreases |p.puddles|
  {
    if p.puddles != [] {
      var rest := p.puddles[1..];
      ShrinkKeepsBounds(if Spare(p.puddles[0]) then Pool(ReturnArena(p.headers, p.puddles[0]), rest)
          else p.(puddles := rest));
    }
  }

  /** No event moves the bounds of the memory headers. */
  lemma NextKeepsBounds(s: A.Store, e: A.Event)
    requires A.Enabled(s, e) && (e.Free? ==> A.HeaderReadable(s, e.ptr))
    ensures A.SameBounds(s.pool.headers, A.Next(s, e).pool.headers)
  {
    if e.ShrinkPool? { ShrinkKeepsBounds(s.pool); }
  }

  lemma {:induction false} RunKeepsBounds(hs: seq<Header>, run: seq<A.Event>)
    requires A.Reach(hs, run).Some?
    ensures A.SameBounds(hs, A.Reach(hs, run).value.pool.headers)
  {
    if run != [] {
      RunKeepsBounds(hs, run[..|run| - 1]);
      NextKeepsBounds(A.Reach(hs, run[..|run| - 1]).value, run[|run| - 1]);
    }
  }

  /** Even an empty buffer starts inside its block. */
  lemma BufferStartsInside(b: A.Buffer, p: int)
    requires A.BufferOk(p, b)
    ensures p + 1 <= b.raw + AlignBlock(b.total)
  {
    A.WordsInBlock(p, b);
    if RoundedSize(b.align, b.size) == 0 {
      AlignmentLimit(b.align);
      BufferAboveHeader(b.raw, b.align);
      assert b.align == 2 * (b.align / 2) && b.total == b.align + 7;
      OddBlock(b.align / 2);
    }
  }

  lemma AlignmentLimit(align: u32)
    requires IsPow2(align)
    ensures align <= TWO31
  {
    LargePow2();
    Pow2Below(align, 0x8000_0000);
  }

  lemma OddBlock(half: nat)
    requires 2 * half <= TWO31
    ensures AlignBlock(2 * half + 7) >= 2 * half + 8
  {
    AlignBlockCovers(2 * half + 7);
    var blocks := AlignBlock(2 * half + 7) / 8;
    assert AlignBlock(2 * half + 7) == 8 * blocks;
  }

  /** Every buffer a caller holds after any run passes dma_addr_reachable() against the
      regions the pool was created with. */
  lemma HeldBufferIsReachable(hs: seq<Header>, run: seq<A.Event>, s: A.Store, p: int, regions: seq<R.Range>)
    requires HeadersOk(hs) && A.Reach(hs, run) == Some(s) && p in s.held
    requires |regions| == |hs| && forall i :: 0 <= i < |hs| ==>
             regions[i].start == hs[i].lower && regions[i].end == hs[i].upper
    ensures R.Reachable(regions, p, if s.held[p].size == 0 then 1 else s.held[p].size)
  {
    var b := s.held[p];
    A.HeldBufferIsSafe(hs, run, s, p);
    A.EveryRunKeepsOk(hs, run);
    assert A.HeldOk(s, p);
    BufferStartsInside(b, p);
    RunKeepsBounds(hs, run);
    RegionPoolProofs.LiveIsInHeader(s.pool, A.BlockOf(b));
    var i :| 0 <= i < |hs| && s.pool.headers[i].lower <= b.raw &&
        b.raw + AlignBlock(b.total) <= s.pool.headers[i].upper;
    assert regions[i].start <= p && p + (if b.size == 0 then 1 else b.size) <= regions[i].end;
  }

  // ---- slabs -----------------------------------------------------------------------------------

  /** A DMA slab on a held buffer: every slot is aligned, lies inside the buffer and one region of
      the context, and has its cache lines to itself. */
  lemma SlabOnBuffer(hs: seq<Header>, run: seq<A.Event>, s: A.Store, p: nat, regions: seq<R.Range>,
                     objSize: u32, capacity: u32, slot: nat, y: nat, x: nat)
    requires HeadersOk(hs) && A.Reach(hs, run) == Some(s) && p in s.held
    requires |regions| == |hs| && forall i :: 0 <= i < |hs| ==>
             regions[i].start == hs[i].lower && regions[i].end == hs[i].upper
    requires var align := s.held[p].align;
             align >= DMA_ALIGN_MIN && objSize > 0 && Multiple(objSize, align)
    requires Times(capacity, objSize) <= s.held[p].size && slot in S.Slots(p, objSize, capacity)
    requires slot <= y < slot + objSize && x / LINE == y / LINE
    ensures Multiple(slot, s.held[p].align)
    ensures p <= slot && slot + objSize <= p + s.held[p].size && R.Reachable(regions, slot, objSize)
    ensures slot <= x < slot + objSize
  {
    A.HeldBufferIsSafe(hs, run, s, p);
    A.EveryRunKeepsOk(hs, run);
    assert A.HeldOk(s, p);
    S.SlotBounds(p, objSize, capacity);
    S.SlotOwnsLines(p, objSize, s.held[p].align, capacity, slot, y, x);
    S.SlotIsAligned(p, objSize, s.held[p].align, capacity, slot);
    HeldBufferIsReachable(hs, run, s, p, regions);
  }

  /** Buffers held from dma_alloc() can back slabs: what slab_grow() asks of the memory it
      threads holds after any run of the allocator. */
  lemma HeldBuffersBackSlabs(hs: seq<Header>, run: seq<A.Event>, s: A.Store, p: int, q: int, bytes: nat)
    requires HeadersOk(hs) && A.Reach(hs, run) == Some(s) && p in s.held && q in s.held && p != q
    requires bytes <= s.held[p].size && bytes <= s.held[q].size
    ensures p > 0 && q > 0 && S.SlabApart(p, q, bytes)
    ensures s.held[p].align > 0 && Multiple(p, s.held[p].align)
  {
    A.HeldBufferIsSafe(hs, run, s, p);
    A.HeldBufferIsSafe(hs, run, s, q);
    A.EveryRunKeepsOk(hs, run);
    assert !RegionPoolProofs.Meet(A.BlockOf(s.held[p]), A.BlockOf(s.held[q]));
  }
}
