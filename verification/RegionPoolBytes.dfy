/** Which bytes a region pool and its memory headers own together, header by header: no
    operation changes them, and deleting the pool gives every one of them back, so that the
    headers are again what they were, chunk for chunk. */
module RegionPoolBytes {
  import opened Machine
  import opened ExecMemory
  import opened RegionPool
  import opened RegionPoolProofs
  import opened DmaLayout
  import A = DmaBuffers

  /** The byte lies in an arena that was taken from header `i`. */
  ghost predicate InArena(ps: seq<Puddle>, i: nat, x: int) {
    ps != [] && ((ps[0].src == i && ps[0].arena <= x < ps[0].arena + ps[0].size) || InArena(ps[1..], i, x))
  }

  /** It is free in header `i`, or the pool has it from there. */
  ghost predicate Owns(p: Pool, i: nat, x: int)
    requires i < |p.headers|
  {
    Among(p.headers[i].chunks, x) || InArena(p.puddles, i, x)
  }

  ghost predicate SameOwned(p: Pool, q: Pool) {
    && A.SameBounds(p.headers, q.headers)
    && forall i, x :: 0 <= i < |p.headers| ==> (Owns(p, i, x) <==> Owns(q, i, x))
  }

  lemma SameOwnedChains(p: Pool, q: Pool, r: Pool)
    requires SameOwned(p, q) && SameOwned(q, r)
    ensures SameOwned(p, r)
  {
    forall i, x | 0 <= i < |p.headers| ensures Owns(p, i, x) <==> Owns(r, i, x) {
      assert Owns(p, i, x) <==> Owns(q, i, x);
    }
  }

  // ---- the operations ---------------------------------------------------------------------

  lemma {:induction false} SamePlacesSameArenas(ps: seq<Puddle>, qs: seq<Puddle>, i: nat, x: int)
    requires SamePlaces(ps, qs)
    ensures InArena(ps, i, x) <==> InArena(qs, i, x)
  {
    if ps != [] {
      assert SamePlace(ps[0], qs[0]);
      forall j | 0 <= j < |ps[1..]| ensures SamePlace(ps[1..][j], qs[1..][j]) {
        assert SamePlace(ps[j + 1], qs[j + 1]);
      }
      SamePlacesSameArenas(ps[1..], qs[1..], i, x);
    }
  }

  lemma SamePlacesSameOwned(p: Pool, ps: seq<Puddle>)
    requires SamePlaces(p.puddles, ps)
    ensures SameOwned(p, p.(puddles := ps))
  {
    forall i, x | 0 <= i < |p.headers| ensures Owns(p, i, x) <==> Owns(p.(puddles := ps), i, x) {
      SamePlacesSameArenas(p.puddles, ps, i, x);
    }
  }

  lemma InArenaCons(pud: Puddle, ps: seq<Puddle>, i: nat, x: int)
    ensures InArena([pud] + ps, i, x) <==> (pud.src == i && pud.arena <= x < pud.arena + pud.size) || InArena(ps, i, x)
  {
    assert ([pud] + ps)[1..] == ps;
  }

  lemma GrowKeepsOwned(p: Pool, need: u32, nodeOk: bool)
    requires PoolOk(p)
    ensures Grow(p, need, nodeOk).Some? ==> SameOwned(p, Grow(p, need, nodeOk).value)
  {
    var k := FindHeader(p.headers, ArenaSize(need), 0);
    if k.Some? && nodeOk {
      var q := Grow(p, need, nodeOk).value;
      AllocateIsExact(p.headers[k.value], ArenaSize(need));
      forall i, x | 0 <= i < |p.headers| ensures Owns(p, i, x) <==> Owns(q, i, x) {
        InArenaCons(q.puddles[0], p.puddles, i, x);
      }
    }
  }

  lemma RegionAllocKeepsOwned(p: Pool, size: u32, nodeOk: bool)
    requires PoolOk(p)
    ensures SameOwned(p, RegionAlloc(p, size, nodeOk).0)
  {
    var need := AlignBlock(size);
    AllocFromIsExact(p.headers, p.puddles, need);
    var (ps, a) := AllocFrom(p.puddles, need);
    if a.Some? {
      SamePlacesSameOwned(p, ps);
    } else if Grow(p, need, nodeOk).Some? {
      var g := Grow(p, need, nodeOk).value;
      GrowIsExact(p, need, nodeOk);
      GrowKeepsOwned(p, need, nodeOk);
      FirstBlockKeepsOwned(g, need);
      SameOwnedChains(p, g, RegionAlloc(p, size, nodeOk).0);
    }
  }

  lemma FirstBlockKeepsOwned(g: Pool, need: nat)
    requires PoolOk(g) && g.puddles != [] && Rounded(need)
    ensures SameOwned(g, g.(puddles := [TakeBlock(g.puddles[0], need).0] + g.puddles[1..]))
  {
    TakeBlockIsExact(g.puddles[0], need);
    SamePlacesCons(g.puddles[0], TakeBlock(g.puddles[0], need).0, g.puddles[1..], g.puddles[1..]);
    assert g.puddles == [g.puddles[0]] + g.puddles[1..];
    SamePlacesSameOwned(g, [TakeBlock(g.puddles[0], need).0] + g.puddles[1..]);
  }

  lemma RegionFreeKeepsOwned(p: Pool, a: nat, size: u32)
    requires PoolOk(p) && Chunk(a, AlignBlock(size)) in Live(p.puddles)
    ensures SameOwned(p, RegionFree(p, a, size))
  {
    FreeInIsExact(p.headers, p.puddles, a, AlignBlock(size));
    SamePlacesSameOwned(p, FreeIn(p.puddles, a, AlignBlock(size)));
  }

  /** Giving the first arena back moves its bytes from the pool to its header. */
  lemma ReturnKeepsOwned(p: Pool)
    requires PoolOk(p) && p.puddles != []
    ensures SameOwned(p, Pool(ReturnArena(p.headers, p.puddles[0]), p.puddles[1..]))
  {
    var pud := p.puddles[0];
    assert PuddleOk(pud) && ArenaTaken(p.headers, pud);
    DeallocateIsExact(p.headers[pud.src], pud.arena, pud.size);
    var q := Pool(ReturnArena(p.headers, pud), p.puddles[1..]);
    assert p.puddles == [pud] + p.puddles[1..];
    forall i, x | 0 <= i < |p.headers| ensures Owns(p, i, x) <==> Owns(q, i, x) {
      InArenaCons(pud, p.puddles[1..], i, x);
    }
  }

  lemma KeepsOwnedBehind(pud: Puddle, p: Pool, q: Pool)
    requires SameOwned(p, q)
    ensures SameOwned(p.(puddles := [pud] + p.puddles), q.(puddles := [pud] + q.puddles))
  {
    var p', q' := p.(puddles := [pud] + p.puddles), q.(puddles := [pud] + q.puddles);
    forall i, x | 0 <= i < |p.headers| ensures Owns(p', i, x) <==> Owns(q', i, x) {
      assert Owns(p, i, x) <==> Owns(q, i, x);
      InArenaCons(pud, p.puddles, i, x);
      InArenaCons(pud, q.puddles, i, x);
    }
  }

  lemma {:induction false} ShrinkKeepsOwned(p: Pool)
    requires PoolOk(p)
    ensures SameOwned(p, Shrink(p))
    decreases |p.puddles|
  {
    if p.puddles != [] {
      var head, rest := p.puddles[0], p.puddles[1..];
      assert p.puddles == [head] + rest;
      PuddlesCons(p.headers, head, rest);
      if Spare(head) {
        var q := Pool(ReturnArena(p.headers, head), rest);
        ReturnArenaIsExact(p);
        ReturnKeepsOwned(p);
        ShrinkKeepsOwned(q);
        SameOwnedChains(p, q, Shrink(q));
      } else {
        ShrinkKeepsOwned(p.(puddles := rest));
        KeepsOwnedBehind(head, p.(puddles := rest), Shrink(p.(puddles := rest)));
      }
    }
  }

  /** dma_pool_delete(): afterwards a byte is free in a header exactly when it was free there or
      lay in an arena from there. */
  lemma {:induction false} DeleteFreesAll(p: Pool)
    requires PoolOk(p)
    ensures HeadersOk(Delete(p)) && SameOwned(p, Pool(Delete(p), []))
    decreases |p.puddles|
  {
    if p.puddles != [] {
      var q := Pool(ReturnArena(p.headers, p.puddles[0]), p.puddles[1..]);
      ReturnArenaIsExact(p);
      ReturnKeepsOwned(p);
      DeleteFreesAll(q);
      SameOwnedChains(p, q, Pool(Delete(p), []));
    }
  }

  // ---- every run ---------------------------------------------------------------------------

  lemma NextKeepsOwned(s: A.Store, e: A.Event)
    requires A.StoreOk(s) && A.Enabled(s, e) && !e.SystemMoves?
    ensures e.Free? ==> A.HeaderReadable(s, e.ptr)
    ensures SameOwned(s.pool, A.Next(s, e).pool)
  {
    match e
    case Alloc(align, size, nodeOk) =>
      RegionAllocKeepsOwned(s.pool, TotalSize(Effective(align), size), nodeOk);
    case Free(ptr) =>
      assert A.HeldOk(s, ptr);
      RegionFreeKeepsOwned(s.pool, s.held[ptr].raw, s.held[ptr].total);
    case ShrinkPool => ShrinkKeepsOwned(s.pool);
    case _ =>
  }

  ghost predicate Undisturbed(run: seq<A.Event>) {
    forall k :: 0 <= k < |run| ==> !run[k].SystemMoves?
  }

  lemma {:induction false} RunKeepsOwned(hs: seq<Header>, run: seq<A.Event>)
    requires HeadersOk(hs) && A.Reach(hs, run).Some? && Undisturbed(run)
    ensures SameOwned(Pool(hs, []), A.Reach(hs, run).value.pool)
  {
    if run != [] {
      var before := run[..|run| - 1];
      RunKeepsOwned(hs, before);
      A.EveryRunKeepsOk(hs, before);
      var s := A.Reach(hs, before).value;
      NextKeepsOwned(s, run[|run| - 1]);
      SameOwnedChains(Pool(hs, []), s.pool, A.Reach(hs, run).value.pool);
    }
  }

  lemma SameOwnedSameHeaders(hs: seq<Header>, gs: seq<Header>, i: nat)
    requires HeadersOk(hs) && HeadersOk(gs) && SameOwned(Pool(hs, []), Pool(gs, [])) && i < |hs|
    ensures |gs| == |hs| && hs[i] == gs[i]
  {
    forall x ensures Among(hs[i].chunks, x) <==> Among(gs[i].chunks, x) {
      assert Owns(Pool(hs, []), i, x) <==> Owns(Pool(gs, []), i, x);
    }
    SortedIsUnique(hs[i].chunks, gs[i].chunks, hs[i].lower, hs[i].upper);
  }

  /** Any run of allocations, frees, shrinks and writes that the rest of the system does not
      interfere with, whatever is still held, followed by dma_pool_delete(), leaves the memory
      headers as they were before dma_pool_create(), chunk for chunk. */
  lemma DeleteRestores(hs: seq<Header>, run: seq<A.Event>)
    requires HeadersOk(hs) && A.Reach(hs, run).Some? && Undisturbed(run)
    ensures Delete(A.Reach(hs, run).value.pool) == hs
  {
    var p := A.Reach(hs, run).value.pool;
    A.EveryRunKeepsOk(hs, run);
    RunKeepsOwned(hs, run);
    DeleteFreesAll(p);
    SameOwnedChains(Pool(hs, []), p, Pool(Delete(p), []));
    forall i | 0 <= i < |hs| ensures hs[i] == Delete(p)[i] { SameOwnedSameHeaders(hs, Delete(p), i); }
  }
}
