/** Memory as the 68k sees it: a byte array indexed by address, with a record of every
    address ever loaded from. A run of registers (a long, or one movem.l) is read as a
    whole before any of it is stored. */
module BusModel {
  import opened Machine

  ghost predicate Within(x: int, a: int, k: int) {
    a <= x < a + k
  }

  class Bus {
    const ram: array<byte>
    ghost var loads: set<int>

    constructor (size: nat)
      ensures ram.Length == size && loads == {} && fresh(ram)
    {
      ram := new byte[size];
      loads := {};
    }

    /** Nothing was loaded beyond what was `seen` and lo..hi. */
    ghost predicate LoadedOnly(seen: set<int>, lo: int, hi: int)
      reads this
    {
      forall x :: x in loads ==> x in seen || lo <= x < hi
    }

    method Load(a: int, k: nat) returns (s: seq<byte>)
      requires 0 <= a <= a + k <= ram.Length
      modifies this`loads
      ensures |s| == k && forall i :: 0 <= i < k ==> s[i] == ram[a + i]
      ensures forall x :: x in loads <==> x in old(loads) || Within(x, a, k)
    {
      s := ram[a..a + k];
      loads := loads + set x: int | a <= x < a + k && Within(x, a, k);
    }

    method Store(a: int, s: seq<byte>)
      requires 0 <= a <= a + |s| <= ram.Length
      modifies ram
      ensures forall j {:trigger ram[j]} :: 0 <= j < ram.Length ==>
                ram[j] == if a <= j < a + |s| then s[j - a] else old(ram[j])
    {
      forall i | 0 <= i < |s| {
        ram[a + i] := s[i];
      }
    }
  }

  /** Bytes lo..hi of the destination hold bytes lo..hi of the source as it `was`, and
      every other byte of memory is as it was. */
  ghost predicate Copied(ram: array<byte>, was: seq<byte>, dst: int, src: int, lo: int, hi: int)
    reads ram
  {
    && |was| == ram.Length
    && 0 <= lo <= hi
    && 0 <= src && src + hi <= |was|
    && 0 <= dst && dst + hi <= |was|
    && forall j {:trigger ram[j]} :: 0 <= j < ram.Length ==>
         ram[j] == if dst + lo <= j < dst + hi then was[src + (j - dst)] else was[j]
  }

  /** A copy of `n` bytes under way: offsets lo..hi are done, and it has read nothing but
      the source. */
  ghost predicate Copying(bus: Bus, was: seq<byte>, seen: set<int>, dst: int, src: int, n: int, lo: int, hi: int)
    reads bus, bus.ram
  {
    && Copied(bus.ram, was, dst, src, lo, hi)
    && bus.LoadedOnly(seen, src, src + n)
    && hi <= n && src + n <= |was| && dst + n <= |was|
  }

  /** The regions allow copying from the start: dst below src, or past its end. */
  ghost predicate UpSafe(dst: int, src: int, n: int) {
    dst < src || src + n <= dst
  }

  /** The pointer of a long loop after `k` rounds from `p`. */
  function RoundAt(p: int, k: nat): u32
    requires 0 <= p && p + 4 * k <= TWO32
  {
    Register(p + 4 * k)
  }

  /** A long loop that has `start` bytes of the region behind it and makes at least `least`
      rounds finds its pointer at or past the last long while it is still inside the region.
      One that does not goes on to the longs after the region. */
  ghost predicate StopsInside(p: u32, n: u32, start: nat, least: nat)
    requires 4 <= n && p + n <= TWO32
  {
    exists k: nat :: least <= k && start + 4 * k <= n && RoundAt(p + start, k) >= p + n - 4
  }

  /** A single long that ends with the last byte of the address space: a pointer past it is
      zero, and a loop takes it for one below the last long. */
  predicate LoneTopLong(p: int, n: int) {
    n == 4 && p + n == TWO32
  }

  /** For the long loops of memcpy, memset and a short memmove, which test only after a
      round: they stop inside the region exactly when it is not that one. */
  lemma LongsStopIff(p: u32, n: u32)
    requires 4 <= n && p + n <= TWO32
    ensures StopsInside(p, n, 0, 1) <==> !LoneTopLong(p, n)
    ensures LoneTopLong(p, n) ==> RoundAt(p, 1) == 0 && p + n - 4 > 0 && !(p <= 0 < p + n)
  {
    if n > 4 {
      assert RoundAt(p + 0, (n - 1) / 4) >= p + n - 4;
    } else if p + n < TWO32 {
      assert RoundAt(p + 0, 1) >= p + n - 4;
    }
  }

  /** The next bytes of a copy that goes up, from registers that hold the old source. */
  method StoreUp(bus: Bus, a0: u32, registers: seq<byte>,
                 ghost was: seq<byte>, ghost seen: set<int>, ghost dst: int, ghost src: int, ghost n: int)
    requires a0 + |registers| <= dst + n
    requires Copying(bus, was, seen, dst, src, n, 0, a0 - dst)
    requires forall i :: 0 <= i < |registers| ==> registers[i] == was[src + (a0 - dst) + i]
    modifies bus.ram
    ensures Copying(bus, was, seen, dst, src, n, 0, a0 - dst + |registers|)
  {
    bus.Store(a0, registers);
  }

  /** The next `k` bytes of a copy that goes up: all of them are in registers before any
      is stored. */
  method CarryUp(bus: Bus, a0: u32, a1: u32, k: nat,
                 ghost was: seq<byte>, ghost seen: set<int>, ghost dst: int, ghost src: int, ghost n: int)
    requires a1 - src == a0 - dst && a0 + k <= dst + n && UpSafe(dst, src, n)
    requires Copying(bus, was, seen, dst, src, n, 0, a0 - dst)
    modifies bus`loads, bus.ram
    ensures Copying(bus, was, seen, dst, src, n, 0, a0 - dst + k)
  {
    var registers := bus.Load(a1, k);
    assert forall i :: 0 <= i < k ==> registers[i] == was[a1 + i];
    StoreUp(bus, a0, registers, was, seen, dst, src, n);
  }

  /** One 64-byte block of it, as two movem.l pairs. */
  method CarryBlock(bus: Bus, a0: u32, a1: u32,
                    ghost was: seq<byte>, ghost seen: set<int>, ghost dst: int, ghost src: int, ghost n: int)
    requires dst + n <= TWO32 && src + n <= TWO32
    requires a1 - src == a0 - dst && a0 + 64 <= dst + n && UpSafe(dst, src, n)
    requires Copying(bus, was, seen, dst, src, n, 0, a0 - dst)
    modifies bus`loads, bus.ram
    ensures Copying(bus, was, seen, dst, src, n, 0, a0 - dst + 64)
  {
    CarryUp(bus, a0, a1, 32, was, seen, dst, src, n);
    CarryUp(bus, Add32(a0, 32), Add32(a1, 32), 32, was, seen, dst, src, n);
  }

  /** The .Lblock loop of memcpy and memmove: every whole 64-byte block from the start,
      and the loop ends when the source pointer equals its end. */
  method CarryBlocks(bus: Bus, dst: u32, src: u32, n: u32, ghost was: seq<byte>, ghost seen: set<int>)
    returns (a0: u32, a1: u32)
    requires dst + n <= TWO32 && src + n <= TWO32 && UpSafe(dst, src, n) && n >= 64
    requires Copying(bus, was, seen, dst, src, n, 0, 0)
    modifies bus`loads, bus.ram
    ensures a1 == Register(src + 64 * (n / 64)) && a0 == Register(dst + 64 * (n / 64))
    ensures Copying(bus, was, seen, dst, src, n, 0, 64 * (n / 64))
  {
    a0, a1 := dst, src;
    var blocks := n / 64; // and.l #-64
    var a3 := Add32(src, 64 * blocks);
    ghost var k := 0;
    var more := true;
    while more
      invariant 0 <= k <= blocks && (more <==> k < blocks) && a1 == Register(src + 64 * k) &&
                a0 == Register(dst + 64 * k)
      invariant Copying(bus, was, seen, dst, src, n, 0, 64 * k)
      decreases blocks - k
    {
      CarryBlock(bus, a0, a1, was, seen, dst, src, n);
      a0, a1, k := Add32(a0, 64), Add32(a1, 64), k + 1;
      more := a1 != a3;
    }
  }

  /** The next `k` bytes of a copy that goes down, with dst above src. */
  method CarryDown(bus: Bus, a0: u32, a1: u32, k: nat,
                   ghost was: seq<byte>, ghost seen: set<int>, ghost dst: int, ghost src: int, ghost n: int)
    requires src < dst && dst <= a0 && a1 - src == a0 - dst && a0 + k <= dst + n
    requires Copying(bus, was, seen, dst, src, n, a0 - dst + k, n)
    modifies bus`loads, bus.ram
    ensures Copying(bus, was, seen, dst, src, n, a0 - dst, n)
  {
    var registers := bus.Load(a1, k);
    assert bus.LoadedOnly(seen, src, src + n);
    assert forall i :: 0 <= i < k ==> registers[i] == was[a1 + i];
    bus.Store(a0, registers);
  }
}
