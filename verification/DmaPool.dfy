/** The pool object of src/dma_mem.c: a linked list of puddles, changed in place by loops over
    it and over the region table, and proved to compute the functions of RegionPool. Forbid()
    makes each call one step. */
module DmaPool {
  import opened Machine
  import opened ExecMemory
  import opened RegionPool
  import opened RegionPoolProofs

  /** struct dma_puddle. */
  class PuddleNode {
    var pud: Puddle
    var next: PuddleNode?

    constructor (pud: Puddle, next: PuddleNode?)
      ensures this.pud == pud && this.next == next
    {
      this.pud, this.next := pud, next;
    }
  }

  class RegionPoolObject {
    var headers: seq<Header>
    var head: PuddleNode?
    ghost var nodes: seq<PuddleNode>
    ghost var puddles: seq<Puddle>

    /** The node at a position of the list, NULL behind the last. */
    ghost function At(i: nat): PuddleNode?
      reads this
    {
      if i < |nodes| then nodes[i] else null
    }

    /** The list runs through `nodes`, each once, and ends; `puddles` is what they hold. */
    ghost predicate Valid()
      reads this, nodes
    {
      && head == At(0) && |puddles| == |nodes|
      && (forall i :: 0 <= i < |nodes| ==> nodes[i].next == At(i + 1) && nodes[i].pud == puddles[i])
      && NoneTwice(nodes)
    }

    ghost function State(): Pool
      reads this
    {
      Pool(headers, puddles)
    }

    /** dma_pool_create() on a context with regions. */
    constructor (regions: seq<Header>)
      requires HeadersOk(regions)
      ensures Valid() && State() == Pool(regions, []) && PoolOk(State())
    {
      headers, head, nodes, puddles := regions, null, [], [];
    }

    /** The walk over the region table: an arena from the first header with room. */
    method TakeArena(size: nat) returns (found: Option<nat>, arena: nat)
      modifies this`headers
      ensures found == FindHeader(old(headers), size, 0)
      ensures found.None? ==> headers == old(headers)
      ensures found.Some? ==> Some(arena) == Allocate(old(headers)[found.value], size).1
      ensures found.Some? ==> headers == old(headers)[found.value := Allocate(old(headers)[found.value], size).0]
    {
      var i := 0;
      while i < |headers|
        invariant 0 <= i <= |headers| && headers == old(headers)
        invariant FindHeader(headers, size, 0) == FindHeader(headers, size, i)
      {
        var (h, a) := Allocate(headers[i], size);
        if a.Some? {
          headers := headers[i := h];
          return Some(i), a.value;
        }
        i := i + 1;
      }
      return None, 0;
    }

    /** A new node in front of the list. */
    method Prepend(pud: Puddle)
      requires Valid()
      modifies this`head, this`nodes, this`puddles
      ensures Valid() && puddles == [pud] + old(puddles)
      ensures nodes != [] && fresh(nodes[0]) && nodes[1..] == old(nodes)
    {
      var node := new PuddleNode(pud, head);
      nodes, puddles := [node] + nodes, [pud] + puddles;
      head := node;
    }

    /** dma_pool_grow(): a puddle over a new arena, or the arena back on its header when
        the puddle cannot be allocated. */
    method GrowPool(need: u32, nodeOk: bool) returns (grown: bool)
      requires Valid() && PoolOk(State())
      modifies this
      ensures Valid() && (grown <==> Grow(old(State()), need, nodeOk).Some?)
      ensures State() == if grown then Grow(old(State()), need, nodeOk).value else old(State())
      ensures if grown then nodes != [] && fresh(nodes[0]) && nodes[1..] == old(nodes) else nodes == old(nodes)
    {
      ghost var before := State();
      var size := ArenaSize(need);
      var found, arena := TakeArena(size);
      if found.None? {
        return false;
      }
      var pud := FreshPuddle(found.value, arena, size);
      if !nodeOk {
        assert ReturnArena(headers, pud) == before.headers by { GrowFailureRestores(before, need); }
        headers := ReturnArena(headers, pud);
        return false;
      }
      Prepend(pud);
      return true;
    }

    /** A puddle changed where it is. */
    method Update(node: PuddleNode, pud: Puddle, ghost k: nat)
      requires Valid() && k < |nodes| && nodes[k] == node
      modifies node`pud, this`puddles
      ensures Valid() && puddles == old(puddles)[k := pud]
    {
      node.pud := pud;
      puddles := puddles[k := pud];
    }

    /** The walk over the puddle list: a block from the first puddle with room. */
    method TakeFromPuddles(need: nat) returns (r: Option<nat>)
      requires Valid()
      modifies nodes, this`puddles
      ensures Valid() && (puddles, r) == AllocFrom(old(puddles), need)
    {
      var cur := head;
      ghost var k := 0;
      while cur != null
        invariant 0 <= k <= |nodes| && cur == At(k) && Valid() && puddles == old(puddles)
        invariant forall j :: 0 <= j < k ==> TakeBlock(puddles[j], need).1.None?
        decreases |nodes| - k
      {
        var (pud, a) := TakeBlock(cur.pud, need);
        if a.Some? {
          FirstPuddleWithRoom(puddles, need, k);
          Update(cur, pud, k);
          return a;
        }
        cur, k := cur.next, k + 1;
      }
      NoPuddleWithRoom(puddles, need);
      return None;
    }

    /** Grow, and a block from the new puddle, which is the first. */
    method GrowAndTake(need: u32, nodeOk: bool) returns (r: Option<nat>)
      requires Valid() && PoolOk(State())
      modifies this
      ensures Valid() && (State(), r) == GrowThenTake(old(State()), need, nodeOk)
    {
      r := None;
      var grown := GrowPool(need, nodeOk);
      if grown {
        r := TakeFromFirst(need);
      }
    }

    method TakeFromFirst(need: nat) returns (r: Option<nat>)
      requires Valid() && head != null
      modifies head, this`puddles
      ensures Valid() && old(puddles) != [] && headers == old(headers)
      ensures (puddles, r) ==
              ([TakeBlock(old(puddles)[0], need).0] + old(puddles)[1..], TakeBlock(old(puddles)[0], need).1)
    {
      ghost var was := puddles;
      var (pud, b) := TakeBlock(head.pud, need);
      Update(head, pud, 0);
      assert was[0 := pud] == [pud] + was[1..];
      r := b;
    }

    /** dma_pool_region_alloc(). */
    method RegionAllocate(size: u32, nodeOk: bool) returns (r: Option<nat>)
      requires Valid() && PoolOk(State())
      modifies this, nodes
      ensures Valid() && (State(), r) == RegionAlloc(old(State()), size, nodeOk)
      ensures PoolOk(State())
    {
      RegionAllocIsExact(State(), size, nodeOk);
      var need := AlignBlock(size);
      AllocFromIsExact(headers, puddles, need);
      r := TakeFromPuddles(need);
      if r.None? {
        r := GrowAndTake(need, nodeOk);
      }
    }

    /** dma_pool_region_free(); an address of no puddle is only reported. */
    method RegionRelease(a: nat, size: u32)
      requires Valid()
      modifies nodes, this`puddles
      ensures Valid() && State() == RegionFree(old(State()), a, size)
    {
      var need := AlignBlock(size);
      var cur := head;
      ghost var k := 0;
      while cur != null
        invariant 0 <= k <= |nodes| && cur == At(k) && Valid() && puddles == old(puddles)
        invariant forall j :: 0 <= j < k ==> !(puddles[j].mh.lower <= a < puddles[j].mh.upper)
        decreases |nodes| - k
      {
        if cur.pud.mh.lower <= a < cur.pud.mh.upper {
          FirstPuddleHolding(puddles, a, need, k);
          Update(cur, GiveBlock(cur.pud, a, need), k);
          return;
        }
        cur, k := cur.next, k + 1;
      }
      NoPuddleHolding(puddles, a, need);
    }

    /** *link = pud->next for the link in the pool itself. */
    method UnlinkFirst()
      requires Valid() && head != null
      modifies this`head, this`nodes, this`puddles
      ensures Valid() && nodes == old(nodes)[1..] && puddles == old(puddles)[1..]
    {
      head := head.next;
      nodes, puddles := nodes[1..], puddles[1..];
    }

    /** *link = pud->next for the link in the node before it. */
    method UnlinkAfter(prev: PuddleNode, node: PuddleNode, ghost k: nat)
      requires Valid() && 0 < k < |nodes| && nodes[k] == node && prev == nodes[k - 1]
      modifies this`nodes, this`puddles, prev`next
      ensures Valid() && nodes == Cut(old(nodes), k) && puddles == Cut(old(puddles), k)
    {
      CutKeepsNoneTwice(nodes, k);
      assert forall i :: 0 <= i < |nodes| && i != k - 1 ==> nodes[i] != prev;
      prev.next := node.next;
      nodes, puddles := Cut(nodes, k), Cut(puddles, k);
    }

    /** The node that holds the link to a position, NULL for the pool's own. */
    ghost function Before(k: nat): PuddleNode?
      reads this
    {
      if 0 < k <= |nodes| then nodes[k - 1] else null
    }

    /** What the shrink comes to from position `k` on. */
    ghost function Goal(k: nat): Pool
      requires k <= |puddles|
      reads this
    {
      ShrinkFrom(headers, puddles, k)
    }

    /** The arena goes back and the puddle off the list. */
    method DropPuddle(prev: PuddleNode?, cur: PuddleNode, ghost k: nat)
      requires Valid() && k < |nodes| && cur == nodes[k] && prev == Before(k)
      modifies this, if prev == null then {} else {prev}
      ensures Valid() && nodes == Cut(old(nodes), k) && puddles == Cut(old(puddles), k)
      ensures headers == ReturnArena(old(headers), old(puddles)[k])
    {
      headers := ReturnArena(headers, cur.pud);
      if prev == null {
        UnlinkFirst();
      } else {
        UnlinkAfter(prev, cur, k);
      }
    }

    /** One turn of the walk in dma_pool_shrink(): `prev` holds the link to `cur`, and the walk
        goes on at the same link after an unlink. */
    method ShrinkTurn(prev: PuddleNode?, cur: PuddleNode, ghost k: nat)
      returns (prev': PuddleNode?, cur': PuddleNode?, ghost k': nat)
      requires Valid() && k < |nodes| && cur == nodes[k] && prev == Before(k)
      modifies this, if prev == null then {} else {prev}
      ensures Valid() && k' <= |nodes| && cur' == At(k') && prev' == Before(k')
      ensures Goal(k') == old(Goal(k)) && |nodes| - k' < |old(nodes)| - k
      ensures forall n :: n in nodes ==> n in old(nodes)
    {
      ShrinkFromStep(headers, puddles, k);
      cur' := cur.next;
      if Spare(cur.pud) {
        CutKeepsNodes(nodes, k);
        DropPuddle(prev, cur, k);
        prev', k' := prev, k;
      } else {
        prev', k' := cur, k + 1;
      }
    }

    /** dma_pool_shrink(). */
    method ShrinkNow()
      requires Valid()
      modifies this, nodes
      ensures Valid() && State() == Shrink(old(State()))
    {
      var prev: PuddleNode?, cur := null, head;
      ghost var k, goal, all := 0, Shrink(State()), nodes;
      ShrinkFromStart(headers, puddles);
      while cur != null
        invariant 0 <= k <= |nodes| && cur == At(k) && prev == Before(k) && Valid() && Goal(k) == goal
        invariant forall n :: n in nodes ==> n in all
        decreases |nodes| - k
      {
        assert prev != null ==> prev in all;
        prev, cur, k := ShrinkTurn(prev, cur, k);
      }
      ShrunkToEnd(headers, puddles);
    }

    /** dma_pool_delete(): every arena goes back, whatever is still held in it. */
    method DeleteAll()
      requires Valid()
      modifies this
      ensures Valid() && headers == Delete(old(State())) && head == null && puddles == []
    {
      while head != null
        invariant Valid() && Delete(State()) == Delete(old(State()))
        decreases |nodes|
      {
        DeleteOne(State());
        headers := ReturnArena(headers, head.pud);
        UnlinkFirst();
      }
    }
  }

  lemma DeleteOne(p: Pool)
    requires p.puddles != []
    ensures Delete(p) == Delete(Pool(ReturnArena(p.headers, p.puddles[0]), p.puddles[1..]))
  {
  }

  ghost predicate NoneTwice(nodes: seq<PuddleNode>) {
    forall i, j :: 0 <= i < j < |nodes| ==> nodes[i] != nodes[j]
  }

  lemma CutKeepsNoneTwice(nodes: seq<PuddleNode>, k: nat)
    requires k < |nodes| && NoneTwice(nodes)
    ensures NoneTwice(Cut(nodes, k))
  {
  }

  lemma CutKeepsNodes(nodes: seq<PuddleNode>, k: nat)
    requires k < |nodes|
    ensures forall n :: n in Cut(nodes, k) ==> n in nodes
  {
  }

  /** A list without its k-th element. */
  ghost function Cut<T>(s: seq<T>, k: nat): (r: seq<T>)
    requires k < |s|
    ensures |r| == |s| - 1 && forall i :: 0 <= i < |r| ==> r[i] == s[if i < k then i else i + 1]
  {
    s[..k] + s[k + 1..]
  }

  // ---- shrinking --------------------------------------------------------------------------

  /** What a shrink in progress comes to: the puddles before `link` stay. */
  ghost function ShrinkFrom(hs: seq<Header>, ps: seq<Puddle>, link: nat): Pool
    requires link <= |ps|
  {
    var rest := Shrink(Pool(hs, ps[link..]));
    Pool(rest.headers, ps[..link] + rest.puddles)
  }

  lemma ShrinkFromStep(hs: seq<Header>, ps: seq<Puddle>, link: nat)
    requires link < |ps|
    ensures ShrinkFrom(hs, ps, link) ==
              if Spare(ps[link]) then ShrinkFrom(ReturnArena(hs, ps[link]), Cut(ps, link), link)
              else ShrinkFrom(hs, ps, link + 1)
  {
    assert ps[link..][0] == ps[link] && ps[link..][1..] == ps[link + 1..];
    if Spare(ps[link]) {
      var qs := Cut(ps, link);
      assert qs[link..] == ps[link + 1..] && qs[..link] == ps[..link];
    } else {
      var rest := Shrink(Pool(hs, ps[link + 1..]));
      assert ps[..link] + ([ps[link]] + rest.puddles) == ps[..link + 1] + rest.puddles;
    }
  }

  lemma ShrinkFromStart(hs: seq<Header>, ps: seq<Puddle>)
    ensures ShrinkFrom(hs, ps, 0) == Shrink(Pool(hs, ps))
  {
    assert ps[0..] == ps && ps[..0] == [];
  }

  lemma ShrunkToEnd(hs: seq<Header>, ps: seq<Puddle>)
    ensures ShrinkFrom(hs, ps, |ps|) == Pool(hs, ps)
  {
    assert ps[|ps|..] == [] && ps[..|ps|] == ps;
  }

  // ---- walks ------------------------------------------------------------------------------

  lemma {:induction false} FirstPuddleWithRoom(ps: seq<Puddle>, need: nat, i: nat)
    requires i < |ps| && TakeBlock(ps[i], need).1.Some?
    requires forall j :: 0 <= j < i ==> TakeBlock(ps[j], need).1.None?
    ensures AllocFrom(ps, need) == (ps[i := TakeBlock(ps[i], need).0], TakeBlock(ps[i], need).1)
  {
    if i > 0 {
      FirstPuddleWithRoom(ps[1..], need, i - 1);
      assert [ps[0]] + ps[1..][i - 1 := TakeBlock(ps[i], need).0] == ps[i := TakeBlock(ps[i], need).0];
    } else {
      assert [TakeBlock(ps[0], need).0] + ps[1..] == ps[0 := TakeBlock(ps[0], need).0];
    }
  }

  lemma {:induction false} NoPuddleWithRoom(ps: seq<Puddle>, need: nat)
    requires forall j :: 0 <= j < |ps| ==> TakeBlock(ps[j], need).1.None?
    ensures AllocFrom(ps, need) == (ps, None)
  {
    if ps != [] {
      NoPuddleWithRoom(ps[1..], need);
      assert [ps[0]] + ps[1..] == ps;
    }
  }

  lemma {:induction false} FirstPuddleHolding(ps: seq<Puddle>, a: nat, need: nat, i: nat)
    requires i < |ps| && ps[i].mh.lower <= a < ps[i].mh.upper
    requires forall j :: 0 <= j < i ==> !(ps[j].mh.lower <= a < ps[j].mh.upper)
    ensures FreeIn(ps, a, need) == ps[i := GiveBlock(ps[i], a, need)]
  {
    if i > 0 {
      FirstPuddleHolding(ps[1..], a, need, i - 1);
      assert [ps[0]] + ps[1..][i - 1 := GiveBlock(ps[i], a, need)] == ps[i := GiveBlock(ps[i], a, need)];
    } else {
      assert [GiveBlock(ps[0], a, need)] + ps[1..] == ps[0 := GiveBlock(ps[0], a, need)];
    }
  }

  lemma {:induction false} NoPuddleHolding(ps: seq<Puddle>, a: nat, need: nat)
    requires forall j :: 0 <= j < |ps| ==> !(ps[j].mh.lower <= a < ps[j].mh.upper)
    ensures FreeIn(ps, a, need) == ps
  {
    if ps != [] {
      NoPuddleHolding(ps[1..], a, need);
      assert [ps[0]] + ps[1..] == ps;
    }
  }
}
