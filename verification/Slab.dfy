/** The slab allocator of src/slab.c and include/slab.h: a free list threaded through the
    first word of the free slots themselves. `memory` is those words, `chain` the slots on
    the list from its head on, `out` the objects callers hold. */
module Slab {
  import opened Machine
  import opened DmaLayout

  const SLAB_DEFAULT_SIZE := 262144

  /** The slots of one slab. */
  function Slots(data: nat, size: nat, n: nat): seq<nat>
    decreases n
  {
    if n == 0 then [] else [data] + Slots(data + size, size, n - 1)
  }

  /** The slots of all slabs. */
  function AllSlots(slabs: seq<nat>, size: nat, n: nat): seq<nat> {
    if slabs == [] then [] else Slots(slabs[0], size, n) + AllSlots(slabs[1..], size, n)
  }

  /** The list from `head` on is exactly `chain` and ends in NULL: finite and acyclic. */
  ghost predicate Linked(memory: map<nat, nat>, head: nat, chain: seq<nat>)
    decreases |chain|
  {
    if chain == [] then head == 0
    else head == chain[0] && head != 0 && head in memory && Linked(memory, memory[head], chain[1..])
  }

  /** Two slabs of `bytes` bytes do not overlap. */
  ghost predicate SlabApart(a: nat, b: nat, bytes: nat) {
    a + bytes <= b || b + bytes <= a
  }

  ghost predicate ApartFromAll(a: nat, slabs: seq<nat>, bytes: nat) {
    forall i :: 0 <= i < |slabs| ==> SlabApart(a, slabs[i], bytes)
  }

  ghost predicate SlabsOk(slabs: seq<nat>, bytes: nat) {
    slabs == [] || (slabs[0] > 0 && ApartFromAll(slabs[0], slabs[1..], bytes) && SlabsOk(slabs[1..], bytes))
  }

  /** `all` is what is on the list or held, and nothing is both. */
  ghost predicate Divided(all: seq<nat>, chain: seq<nat>, out: set<nat>) {
    && (forall x :: x in chain ==> x !in out)
    && (forall x :: x in all <==> x in chain || x in out)
  }

  /** Each slot of the slabs is on the list once or held, never both. */
  ghost predicate Partition(slabs: seq<nat>, size: nat, n: nat, chain: seq<nat>, out: set<nat>) {
    SlabsOk(slabs, Times(n, size)) && Distinct(chain) && Divided(AllSlots(slabs, size, n), chain, out)
  }

  /** The word at `x` is as it was. */
  ghost predicate SameWord(was: map<nat, nat>, now: map<nat, nat>, x: nat) {
    (x in now <==> x in was) && (x in now ==> now[x] == was[x])
  }

  /** The alignment slab_cache_init() works with. */
  function SlotAlign(dma: bool, align: u32): (r: u32)
    ensures r >= 4 && r >= align && (dma ==> r >= DMA_ALIGN_MIN)
    ensures align >= (if dma then DMA_ALIGN_MIN else 4) ==> r == align
  {
    var least := if dma then DMA_ALIGN_MIN else 4;
    if align < least then least else align
  }

  /** ALIGN_UP(size, align) in 32 bits. */
  function ObjectSize(size: u32, align: u32): u32
    requires align > 0
  {
    MaskDown((size + (align - 1)) % TWO32, align)
  }

  /** The rounded size holds an object if and only if the rounding does not wrap; otherwise it
      is zero. */
  lemma ObjectSizeIffFits(size: u32, align: u32)
    requires size > 0 && align > 0
    ensures ObjectSize(size, align) >= size <==> size + (align - 1) < TWO32
    ensures size + (align - 1) < TWO32 ==>
            ObjectSize(size, align) < size + align && Multiple(ObjectSize(size, align), align)
    ensures size + (align - 1) >= TWO32 ==> ObjectSize(size, align) == 0
  {
    if size + (align - 1) >= TWO32 {
      assert (size + (align - 1)) % TWO32 == size + (align - 1) - TWO32;
    }
  }

  // ---- the cache -------------------------------------------------------------------------

  class SlabCache {
    var free: nat
    var memory: map<nat, nat>
    var slabs: seq<nat>
    var objSize: u32
    var objAlign: u32
    var capacity: u32
    ghost var chain: seq<nat>
    ghost var out: set<nat>

    /** Free and held objects partition the slots of all slabs. */
    ghost predicate Valid()
      reads this
    {
      && objSize > 0 && objAlign > 0 && Multiple(objSize, objAlign) && capacity > 0
      && Linked(memory, free, chain)
      && Partition(slabs, objSize, capacity, chain, out)
    }

    /** slab_cache_init(); `dma`: a region pool backs the data. An object size that rounding
        wraps to zero is divided by when the capacity is left open. */
    constructor (dma: bool, size: u32, align: u32, slots: u32)
      requires size > 0 && size + (SlotAlign(dma, align) - 1) < TWO32
      ensures Valid() && chain == [] && out == {} && slabs == []
      ensures objAlign == SlotAlign(dma, align)
      ensures objAlign == var least := if dma then 64 else 4; if align < least then least else align
      ensures size <= objSize < size + objAlign && Multiple(objSize, objAlign)
      ensures slots != 0 ==> capacity == slots
      ensures slots == 0 ==> capacity == (var fit := SLAB_DEFAULT_SIZE / objSize; if fit < 4 then 4 else fit)
    {
      ObjectSizeIffFits(size, SlotAlign(dma, align));
      var a := SlotAlign(dma, align);
      var rounded := ObjectSize(size, a);
      var n := slots;
      if n == 0 {
        n := SLAB_DEFAULT_SIZE / rounded;
        if n < 4 {
          n := 4;
        }
      }
      free, memory, slabs, objSize, objAlign, capacity := 0, map[], [], rounded, a, n;
      chain, out := [], {};
    }

    /** slab_alloc(): pop the list, or grow. `data` is what the backing allocator would
        return, NULL for nothing. No object is handed out twice. */
    method Alloc(nodeOk: bool, data: nat) returns (obj: nat)
      requires Valid()
      requires data != 0 ==> ApartFromAll(data, slabs, Times(capacity, objSize))
      modifies this
      ensures Valid()
      ensures objSize == old(objSize) && capacity == old(capacity) && objAlign == old(objAlign)
      ensures obj != 0 ==> obj !in old(out) && out == old(out) + {obj} && obj in AllSlots(slabs, objSize, capacity)
      ensures obj == 0 ==> out == old(out) && chain == old(chain) == [] && slabs == old(slabs)
      ensures old(chain) == [] ==> obj == if nodeOk then data else 0
      ensures old(chain) == [] && obj != 0 ==>
                slabs == [data] + old(slabs) && chain == Slots(data + objSize, objSize, capacity - 1)
      ensures old(chain) != [] ==> obj == old(chain)[0] && chain == old(chain)[1..] && slabs == old(slabs)
      ensures forall x :: x in old(out) ==> SameWord(old(memory), memory, x)
    {
      obj := free;
      if obj != 0 {
        free := memory[obj];
        out := out + {obj};
        chain := chain[1..];
        return;
      }
      obj := Grow(nodeOk, data);
    }

    /** slab_free() of an object the caller holds. */
    method Free(obj: nat)
      requires Valid() && obj in out
      modifies this
      ensures Valid()
      ensures out == old(out) - {obj} && chain == [obj] + old(chain) && slabs == old(slabs)
      ensures forall x :: x in out ==> SameWord(old(memory), memory, x)
      ensures objSize == old(objSize) && capacity == old(capacity) && objAlign == old(objAlign)
    {
      SlotsArePositive(slabs, objSize, capacity, obj);
      WordOffTheList(memory, free, chain, obj, free);
      memory := memory[obj := free];
      free := obj;
      chain := [obj] + chain;
      assert chain[1..] == old(chain);
      out := out - {obj};
    }

    /** A holder writes the first word of its object: the list does not run through it. */
    method HolderWrites(obj: nat, value: nat)
      requires Valid() && obj in out
      modifies this`memory
      ensures Valid() && memory == old(memory)[obj := value]
    {
      WordOffTheList(memory, free, chain, obj, value);
      memory := memory[obj := value];
    }

    /** slab_grow(): thread the new slots in front of the list, and hand out the first. */
    method Grow(nodeOk: bool, data: nat) returns (obj: nat)
      requires Valid()
      requires data != 0 ==> ApartFromAll(data, slabs, Times(capacity, objSize))
      modifies this
      ensures Valid()
      ensures objSize == old(objSize) && capacity == old(capacity) && objAlign == old(objAlign)
      ensures obj == if nodeOk then data else 0
      ensures obj == 0 ==> out == old(out) && chain == old(chain) && slabs == old(slabs)
      ensures obj != 0 ==> slabs == [data] + old(slabs) && obj !in old(out) && out == old(out) + {obj}
      ensures obj != 0 ==> chain == Slots(data + objSize, objSize, capacity - 1) + old(chain)
      ensures obj != 0 ==> obj in AllSlots(slabs, objSize, capacity)
      ensures forall x :: x in old(out) ==> SameWord(old(memory), memory, x)
    {
      if !nodeOk || data == 0 {
        return 0;
      }
      NewSlotsAreFree(slabs, objSize, capacity, chain, out, data);
      GrowKeepsPartition(slabs, objSize, capacity, chain, out, data);
      ThreadSlots(data);
      slabs := [data] + slabs;
      free := memory[data];
      chain := Slots(data + objSize, objSize, capacity - 1) + chain;
      out := out + {data};
      return data;
    }

    /** The loop of slab_grow(), ending with the last slot's link to the old list. */
    method ThreadSlots(data: nat)
      requires data > 0 && objSize > 0 && capacity > 0 && Linked(memory, free, chain)
      requires forall x :: x in Slots(data, objSize, capacity) ==> x !in chain
      modifies this`memory
      ensures data in memory
      ensures Linked(memory, memory[data], Slots(data + objSize, objSize, capacity - 1) + chain)
      ensures forall x :: x !in Slots(data, objSize, capacity) ==> SameWord(old(memory), memory, x)
    {
      var slot := data;
      var i := 0;
      while i < capacity - 1
        invariant 0 <= i <= capacity - 1 && slot == data + Times(i, objSize)
        invariant Linked(memory, free, chain) && Threaded(memory, data, data, slot, objSize, i)
        invariant forall x :: x !in Slots(data, objSize, capacity) ==> SameWord(old(memory), memory, x)
      {
        SlotIsMember(data, objSize, capacity, i);
        assert slot !in chain;
        WordOffTheList(memory, free, chain, slot, slot + objSize);
        ThreadGrows(memory, data, data, slot, objSize, i);
        memory := memory[slot := slot + objSize];
        slot := slot + objSize;
        i := i + 1;
      }
      SlotIsMember(data, objSize, capacity, i);
      assert slot !in chain;
      ThreadLinks(memory, data, slot, objSize, capacity, free, chain);
      memory := memory[slot := free];
    }

    /** slab_cache_destroy(): every slab's data goes back to where it came from, each once. */
    method Destroy() returns (released: seq<nat>)
      requires Valid()
      modifies this
      ensures released == old(slabs) && Distinct(released)
      ensures slabs == [] && free == 0 && Valid()
    {
      TimesAtLeast(capacity, objSize);
      ApartIsDistinct(slabs, Times(capacity, objSize));
      released := [];
      while slabs != []
        invariant released + slabs == old(slabs) && objSize == old(objSize) && capacity == old(capacity) &&
                  objAlign == old(objAlign)
        decreases |slabs|
      {
        released := released + [slabs[0]];
        slabs := slabs[1..];
      }
      free := 0;
      chain, out := [], {};
      NothingIsDivided(objSize, capacity);
    }
  }

  lemma NothingIsDivided(size: nat, n: nat)
    ensures Partition([], size, n, [], {})
  {
  }

  // ---- links -----------------------------------------------------------------------------

  /** A word that is not on the list may change without changing the list. */
  lemma {:induction false} WordOffTheList(memory: map<nat, nat>, head: nat, chain: seq<nat>, at: nat, value: nat)
    requires Linked(memory, head, chain) && at !in chain
    ensures Linked(memory[at := value], head, chain)
    decreases |chain|
  {
    if chain != [] { WordOffTheList(memory, memory[head], chain[1..], at, value); }
  }

  /** From `head` the links run through `k` slots from `first` on, up to `slot`, which is
      not written yet. */
  ghost predicate Threaded(memory: map<nat, nat>, head: nat, first: nat, slot: nat, size: nat, k: nat)
    decreases k
  {
    if k == 0 then head == first == slot
    else
      && head == first && head in memory && first < slot
      && Threaded(memory, memory[head], first + size, slot, size, k - 1)
  }

  lemma {:induction false} ThreadGrows(memory: map<nat, nat>, head: nat, first: nat, slot: nat, size: nat, k: nat)
    requires Threaded(memory, head, first, slot, size, k) && size > 0
    ensures Threaded(memory[slot := slot + size], head, first, slot + size, size, k + 1)
    decreases k
  {
    if k > 0 { ThreadGrows(memory, memory[head], first + size, slot, size, k - 1); }
  }

  /** A list by its head and the rest, which may itself be two lists joined. */
  lemma LinkedCons(memory: map<nat, nat>, head: nat, more: seq<nat>, chain: seq<nat>)
    ensures Linked(memory, head, [head] + more + chain) <==>
            head != 0 && head in memory && Linked(memory, memory[head], more + chain)
  {
    var all := [head] + more + chain;
    assert all[0] == head && all[1..] == more + chain;
  }

  lemma {:induction false} ThreadEnds(memory: map<nat, nat>, head: nat, first: nat, slot: nat, size: nat, k: nat,
                                      free: nat, chain: seq<nat>)
    requires Threaded(memory, head, first, slot, size, k) && size > 0 && first > 0
    requires Linked(memory[slot := free], free, chain)
    ensures Linked(memory[slot := free], head, Slots(first, size, k + 1) + chain)
    decreases k
  {
    LinkedCons(memory[slot := free], first, Slots(first + size, size, k), chain);
    SlotsCons(first, size, k + 1);
    if k > 0 {
      ThreadEnds(memory, memory[head], first + size, slot, size, k - 1, free, chain);
    } else {
      assert Slots(first + size, size, k) + chain == chain;
    }
  }

  /** A threaded slab whose last slot takes the old list is one list behind its first slot. */
  lemma ThreadLinks(memory: map<nat, nat>, data: nat, slot: nat, size: nat, n: nat, free: nat, chain: seq<nat>)
    requires n > 0 && size > 0 && data > 0 && slot !in chain && Linked(memory, free, chain)
    requires Threaded(memory, data, data, slot, size, n - 1)
    ensures var now := memory[slot := free];
            data in now && Linked(now, now[data], Slots(data + size, size, n - 1) + chain)
  {
    WordOffTheList(memory, free, chain, slot, free);
    ThreadEnds(memory, data, data, slot, size, n - 1, free, chain);
    var all := Slots(data, size, n) + chain;
    assert all[0] == data && all[1..] == Slots(data + size, size, n - 1) + chain;
  }

  // ---- slots -----------------------------------------------------------------------------

  lemma {:induction false} SlotBounds(data: nat, size: nat, n: nat)
    ensures forall x :: x in Slots(data, size, n) ==> data <= x && x + size <= data + Times(n, size)
    ensures n > 0 ==> data in Slots(data, size, n)
    decreases n
  {
    if n > 0 { SlotBounds(data + size, size, n - 1); }
  }

  /** The slots of a slab by its first. */
  lemma SlotsCons(data: nat, size: nat, n: nat)
    requires n > 0
    ensures Slots(data, size, n) == [data] + Slots(data + size, size, n - 1)
    ensures forall x :: x in Slots(data, size, n) <==> x == data || x in Slots(data + size, size, n - 1)
  {
  }

  lemma {:induction false} SlotIsMember(data: nat, size: nat, n: nat, i: nat)
    requires i < n
    ensures data + Times(i, size) in Slots(data, size, n)
    decreases n
  {
    SlotsCons(data, size, n);
    if i > 0 { SlotIsMember(data + size, size, n - 1, i - 1); }
  }

  lemma {:induction false} DistinctSlots(data: nat, size: nat, n: nat)
    requires size > 0
    ensures Distinct(Slots(data, size, n))
    decreases n
  {
    if n > 0 {
      var more := Slots(data + size, size, n - 1);
      DistinctSlots(data + size, size, n - 1);
      SlotBounds(data + size, size, n - 1);
      assert data !in more;
      DistinctJoin([data], more);
      SlotsCons(data, size, n);
    }
  }

  /** The backing allocator is asked for the 32-bit product of object size and capacity. The
      slots lie inside what it is asked for if and only if the product is below 2^32. */
  lemma SlotsFitIff(data: nat, size: nat, n: nat)
    requires size > 0 && n > 0
    ensures (forall x :: x in Slots(data, size, n) ==> x + size <= data + Times(n, size) % TWO32) <==>
            Times(n, size) < TWO32
  {
    SlotBounds(data, size, n);
    SlotIsMember(data, size, n, n - 1);
    var last := data + Times(n - 1, size);
    assert last + size == data + Times(n, size);
  }

  /** The input that shows it: 65536 objects of 64 KB ask for no bytes at all. */
  lemma ProductWraps()
    ensures Times(0x1_0000, 0x1_0000) % TWO32 == 0
  {
    TimesIsProduct(0x1_0000, 0x1_0000);
  }

  /** A slab apart from the others has none of their slots. */
  lemma {:induction false} NewSlotsAreNew(data: nat, slabs: seq<nat>, size: nat, n: nat)
    requires size > 0 && ApartFromAll(data, slabs, Times(n, size))
    ensures forall x :: x in Slots(data, size, n) ==> x !in AllSlots(slabs, size, n)
  {
    if slabs != [] {
      forall i | 0 <= i < |slabs[1..]| ensures SlabApart(data, slabs[1..][i], Times(n, size)) {
        assert SlabApart(data, slabs[i + 1], Times(n, size));
      }
      NewSlotsAreNew(data, slabs[1..], size, n);
      SlotBounds(data, size, n);
      SlotBounds(slabs[0], size, n);
      assert SlabApart(data, slabs[0], Times(n, size));
    }
  }

  lemma NewSlotsAreFree(slabs: seq<nat>, size: nat, n: nat, chain: seq<nat>, out: set<nat>, data: nat)
    requires Partition(slabs, size, n, chain, out) && size > 0 && ApartFromAll(data, slabs, Times(n, size))
    ensures forall x :: x in Slots(data, size, n) ==> x !in chain
    ensures forall x :: x in out ==> x !in Slots(data, size, n)
  {
    NewSlotsAreNew(data, slabs, size, n);
  }

  lemma NewSlotsApart(data: nat, slabs: seq<nat>, size: nat, n: nat)
    requires size > 0 && n > 0 && ApartFromAll(data, slabs, Times(n, size))
    ensures data !in AllSlots(slabs, size, n) && data !in Slots(data + size, size, n - 1)
    ensures forall x :: x in Slots(data + size, size, n - 1) ==> x !in AllSlots(slabs, size, n)
  {
    NewSlotsAreNew(data, slabs, size, n);
    SlotsCons(data, size, n);
    SlotBounds(data + size, size, n - 1);
  }

  lemma AllSlotsCons(data: nat, slabs: seq<nat>, size: nat, n: nat)
    requires n > 0
    ensures forall x :: x in AllSlots([data] + slabs, size, n) <==>
              x == data || x in Slots(data + size, size, n - 1) || x in AllSlots(slabs, size, n)
  {
    assert ([data] + slabs)[1..] == slabs;
    SlotsCons(data, size, n);
  }

  lemma SlabsCons(data: nat, slabs: seq<nat>, bytes: nat)
    requires SlabsOk(slabs, bytes) && data > 0 && ApartFromAll(data, slabs, bytes)
    ensures SlabsOk([data] + slabs, bytes)
  {
    assert ([data] + slabs)[1..] == slabs;
  }

  /** All slots of a new slab but the first join the list, the first is handed out. */
  lemma GrowKeepsPartition(slabs: seq<nat>, size: nat, n: nat, chain: seq<nat>, out: set<nat>, data: nat)
    requires Partition(slabs, size, n, chain, out) && size > 0 && n > 0 && data > 0
    requires ApartFromAll(data, slabs, Times(n, size))
    ensures Partition([data] + slabs, size, n, Slots(data + size, size, n - 1) + chain, out + {data})
    ensures data !in out && data in AllSlots([data] + slabs, size, n)
  {
    SlabsCons(data, slabs, Times(n, size));
    AllSlotsCons(data, slabs, size, n);
    NewSlotsApart(data, slabs, size, n);
    DivisionGrows(AllSlots(slabs, size, n), AllSlots([data] + slabs, size, n), Slots(data + size, size, n - 1), chain,
        out, data);
    ChainGrows(data, size, n, chain, AllSlots(slabs, size, n));
  }

  lemma DivisionGrows(all: seq<nat>, now: seq<nat>, more: seq<nat>, chain: seq<nat>, out: set<nat>, data: nat)
    requires Divided(all, chain, out) && data !in all && data !in more && (forall x :: x in more ==> x !in all)
    requires forall x :: x in now <==> x == data || x in more || x in all
    ensures Divided(now, more + chain, out + {data})
  {
  }

  lemma ChainGrows(data: nat, size: nat, n: nat, chain: seq<nat>, all: seq<nat>)
    requires size > 0 && n > 0 && Distinct(chain) && (forall x :: x in chain ==> x in all)
    requires forall x :: x in Slots(data + size, size, n - 1) ==> x !in all
    ensures Distinct(Slots(data + size, size, n - 1) + chain)
  {
    DistinctSlots(data + size, size, n - 1);
    DistinctJoin(Slots(data + size, size, n - 1), chain);
  }

  /** Slabs of at least one byte that are apart have different addresses. */
  lemma {:induction false} ApartIsDistinct(slabs: seq<nat>, bytes: nat)
    requires SlabsOk(slabs, bytes) && bytes > 0
    ensures Distinct(slabs)
  {
    if slabs != [] {
      ApartIsDistinct(slabs[1..], bytes);
      forall x | x in slabs[1..] ensures x != slabs[0] {
        var i :| 0 <= i < |slabs[1..]| && slabs[1..][i] == x;
        assert SlabApart(slabs[0], slabs[1..][i], bytes);
      }
      DistinctJoin([slabs[0]], slabs[1..]);
      assert slabs == [slabs[0]] + slabs[1..];
    }
  }

  lemma {:induction false} SlotsArePositive(slabs: seq<nat>, size: nat, n: nat, x: nat)
    requires SlabsOk(slabs, Times(n, size)) && x in AllSlots(slabs, size, n)
    ensures x > 0
  {
    SlotBounds(slabs[0], size, n);
    if x !in Slots(slabs[0], size, n) { SlotsArePositive(slabs[1..], size, n, x); }
  }

  /** Two different slots of one slab do not overlap. */
  lemma {:induction false} SlotsApart(data: nat, size: nat, n: nat, x: nat, y: nat)
    requires size > 0 && x in Slots(data, size, n) && y in Slots(data, size, n) && x < y
    ensures x + size <= y
    decreases n
  {
    SlotBounds(data + size, size, n - 1);
    if x != data { SlotsApart(data + size, size, n - 1, x, y); }
  }

  lemma {:induction false} SlotIsAligned(data: nat, size: nat, align: nat, n: nat, slot: nat)
    requires align > 0 && Multiple(data, align) && Multiple(size, align) && slot in Slots(data, size, n)
    ensures Multiple(slot, align)
    decreases n
  {
    if slot != data {
      MultiplesAdd(data, size, align);
      SlotIsAligned(data + size, size, align, n - 1, slot);
    }
  }

  /** Every slot of a slab whose data and object size keep a cache-line alignment owns whole
      cache lines. */
  lemma {:induction false} SlotOwnsLines(data: nat, size: nat, align: nat, n: nat, slot: nat, y: nat, x: nat)
    requires IsPow2(align) && align >= 64 && Multiple(data, align) && Multiple(size, align) && size > 0
    requires slot in Slots(data, size, n) && slot <= y < slot + size && x / 64 == y / 64
    ensures slot <= x < slot + size
    decreases n
  {
    if slot == data {
      SpanOfLines(data, size, align, y, x);
    } else {
      MultiplesAdd(data, size, align);
      SlotOwnsLines(data + size, size, align, n - 1, slot, y, x);
    }
  }
}
