/** src/memcpy_movem.S: regions apart, so the copy may end by storing its last bytes again,
    read afresh from a source that nothing has overwritten. */
module Memcpy {
  import opened Machine
  import opened BusModel

  const MEMCPY_SMALL: u32 := 64

  ghost predicate Apart(dst: int, src: int, n: int) {
    dst + n <= src || src + n <= dst
  }

  /** memcpy(): equal to the byte-by-byte copy for every n, reading only the source. */
  method Copy(bus: Bus, dst: u32, src: u32, n: u32) returns (result: u32)
    requires dst + n <= TWO32 && src + n <= TWO32 && Apart(dst, src, n) && !LoneTopLong(src, n)
    requires dst + n <= bus.ram.Length && src + n <= bus.ram.Length
    modifies bus`loads, bus.ram
    ensures result == dst
    ensures Copied(bus.ram, old(bus.ram[..]), dst, src, 0, n)
    ensures bus.LoadedOnly(old(bus.loads), src, src + n)
  {
    ghost var was, seen := bus.ram[..], bus.loads;
    if n >= MEMCPY_SMALL {
      CopyBlocks(bus, dst, src, n, was, seen);
    } else if n >= 4 {
      CopyLongs(bus, dst, src, n, was, seen);
    } else if n != 0 {
      CopyTiny(bus, dst, src, n, was, seen);
    }
    return dst;
  }

  /** A run of `k` bytes copied again from the source, over bytes that already hold the same
      values and perhaps some new ones. */
  method CopyAgain(bus: Bus, a0: u32, a1: u32, k: nat, ghost dst: u32, ghost src: u32, ghost n: u32, ghost done: nat,
                   ghost was: seq<byte>, ghost seen: set<int>)
    requires Apart(dst, src, n) && a0 - dst == a1 - src && dst <= a0 <= dst + done && a0 + k <= dst + n
    requires Copying(bus, was, seen, dst, src, n, 0, done)
    modifies bus`loads, bus.ram
    ensures Copying(bus, was, seen, dst, src, n, 0, if a0 + k - dst > done then a0 + k - dst else done)
  {
    var registers := bus.Load(a1, k);
    bus.Store(a0, registers);
  }

  /** Of the first n offsets exactly those in `done` are copied. */
  ghost predicate CopiedAt(ram: array<byte>, was: seq<byte>, dst: int, src: int, n: int, done: set<int>)
    reads ram
  {
    && |was| == ram.Length
    && 0 <= src && src + n <= |was|
    && forall j {:trigger ram[j]} :: 0 <= j < ram.Length ==>
         ram[j] == if dst <= j < dst + n && j - dst in done then was[src + (j - dst)] else was[j]
  }

  method CopyByte(bus: Bus, dst: u32, src: u32, n: u32, at: nat, ghost done: set<int>,
                  ghost was: seq<byte>, ghost seen: set<int>)
    requires Apart(dst, src, n) && at < n && dst + n <= bus.ram.Length
    requires CopiedAt(bus.ram, was, dst, src, n, done) && bus.LoadedOnly(seen, src, src + n)
    modifies bus`loads, bus.ram
    ensures CopiedAt(bus.ram, was, dst, src, n, done + {at}) && bus.LoadedOnly(seen, src, src + n)
  {
    var b := bus.Load(src + at, 1);
    bus.Store(dst + at, b);
  }

  /** .Ltiny: bytes 0, n - 1 and n / 2 cover 1, 2 and 3 bytes. */
  method CopyTiny(bus: Bus, dst: u32, src: u32, n: u32, ghost was: seq<byte>, ghost seen: set<int>)
    requires dst + n <= TWO32 && src + n <= TWO32 && Apart(dst, src, n) && 0 < n < 4
    requires Copying(bus, was, seen, dst, src, n, 0, 0)
    modifies bus`loads, bus.ram
    ensures Copying(bus, was, seen, dst, src, n, 0, n)
  {
    CopyByte(bus, dst, src, n, 0, {}, was, seen);
    CopyByte(bus, dst, src, n, n - 1, {0}, was, seen);
    CopyByte(bus, dst, src, n, n / 2, {0, n - 1}, was, seen);
  }

  /** .Llong, then the long ending at n. */
  method CopyLongs(bus: Bus, dst: u32, src: u32, n: u32, ghost was: seq<byte>, ghost seen: set<int>)
    requires dst + n <= TWO32 && src + n <= TWO32 && Apart(dst, src, n) && 4 <= n && !LoneTopLong(src, n)
    requires Copying(bus, was, seen, dst, src, n, 0, 0)
    modifies bus`loads, bus.ram
    ensures Copying(bus, was, seen, dst, src, n, 0, n)
  {
    var a0, a1 := dst, src;
    var d0 := n - 4;
    var d1 := Add32(src, d0);
    var more := true;
    ghost var off := 0;
    while more
      invariant 0 <= off <= n && src + off < TWO32 && a1 == src + off && a0 == Register(dst + off)
      invariant if more then off + 4 <= n && (off + 4 == n ==> src + n < TWO32) else d1 <= a1
      invariant Copying(bus, was, seen, dst, src, n, 0, off)
      decreases n - off
    {
      CarryUp(bus, a0, a1, 4, was, seen, dst, src, n);
      a0, a1, off := Add32(a0, 4), Add32(a1, 4), off + 4;
      more := d1 > a1;
    }
    CopyAgain(bus, dst + d0, src + d0, 4, dst, src, n, off, was, seen);
  }

  /** .Lblock, then the 64-byte block ending at n. */
  method CopyBlocks(bus: Bus, dst: u32, src: u32, n: u32, ghost was: seq<byte>, ghost seen: set<int>)
    requires dst + n <= TWO32 && src + n <= TWO32 && Apart(dst, src, n) && n >= MEMCPY_SMALL
    requires Copying(bus, was, seen, dst, src, n, 0, 0)
    modifies bus`loads, bus.ram
    ensures Copying(bus, was, seen, dst, src, n, 0, n)
  {
    var a0, a1 := CarryBlocks(bus, dst, src, n, was, seen);
    var d0 := Sub32(n % 64, 64); // back to the start of the block ending at n: wraps below zero
    FinalBlock(dst, n);
    FinalBlock(src, n);
    a0, a1 := Add32(a0, d0), Add32(a1, d0);
    CopyHalves(bus, a0, a1, dst, src, n, 64 * (n / 64), was, seen);
  }

  /** The final block in two movem.l pairs, from a1 to a0. */
  method CopyHalves(bus: Bus, a0: u32, a1: u32, ghost dst: u32, ghost src: u32, ghost n: u32, ghost done: nat,
                    ghost was: seq<byte>, ghost seen: set<int>)
    requires dst + n <= TWO32 && src + n <= TWO32 && Apart(dst, src, n)
    requires a0 + 64 == dst + n && a1 + 64 == src + n && n - 64 <= done <= n && n >= 64
    requires Copying(bus, was, seen, dst, src, n, 0, done)
    modifies bus`loads, bus.ram
    ensures Copying(bus, was, seen, dst, src, n, 0, n)
  {
    CopyAgain(bus, a0, a1, 32, dst, src, n, done, was, seen);
    CopyAgain(bus, Add32(a0, 32), Add32(a1, 32), 32, dst, src, n, if done < n - 32 then n - 32 else done, was, seen);
  }

  /** Adding the wrapped (n % 64) - 64 to the end of the whole blocks lands 64 bytes
      below the end of the region. */
  lemma FinalBlock(src: u32, n: u32)
    requires src + n <= TWO32 && n >= 64
    ensures Add32(Register(src + 64 * (n / 64)), Sub32(n % 64, 64)) == src + n - 64
  {
    assert 64 * (n / 64) + n % 64 == n;
    assert Sub32(n % 64, 64) == n % 64 - 64 + TWO32;
  }
}
