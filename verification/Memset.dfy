/** src/memset_movem.S: the fill byte broadcast to a long once, then longs or movem.l
    blocks and one overlapping final store. */
module Memset {
  import opened Machine
  import opened BusModel

  const MEMSET_SMALL: u32 := 64

  /** A long as the four bytes it is stored as, most significant first. */
  function LongBytes(v: u32): (s: seq<byte>)
    ensures |s| == 4
  {
    [(v / 0x100_0000) as byte, (v / 0x1_0000 % 256) as byte, (v / 0x100 % 256) as byte, (v % 256) as byte]
  }

  /** mulu.l #0x01010101 puts the byte into all four lanes without overflow. */
  lemma BroadcastFillsLanes(c: byte)
    ensures c as int * 0x0101_0101 < TWO32
    ensures LongBytes(c as int * 0x0101_0101) == [c, c, c, c]
  {
    var x := c as int;
    Lane(x, 0x1_0101 * x, 0x100_0000);
    Lane(0x101 * x, 0x101 * x, 0x1_0000);
    Lane(0x1_0101 * x, x, 0x100);
    Lane(x, x, 0x100);
    Lane(0x101 * x, x, 0x100);
  }

  lemma Lane(high: int, low: int, unit: nat)
    requires 0 <= low < unit
    ensures (high * unit + low) / unit == high && (high * unit + low) % unit == low
  {
    var v := high * unit + low;
    assert v == unit * (v / unit) + v % unit;
    var d := high - v / unit;
    assert unit * d == v % unit - low;
  }

  /** Eight registers holding the same long, as one movem.l stores them. */
  function EightLongs(v: u32): (s: seq<byte>)
    ensures |s| == 32
  {
    var two := LongBytes(v) + LongBytes(v);
    two + two + two + two
  }

  /** The first `done` bytes of the region hold `c`; every other byte is as it was. */
  ghost predicate Filled(ram: array<byte>, was: seq<byte>, dst: int, done: int, c: byte)
    reads ram
  {
    && |was| == ram.Length
    && 0 <= dst && 0 <= done && dst + done <= |was|
    && forall j {:trigger ram[j]} :: 0 <= j < ram.Length ==>
         ram[j] == if dst <= j < dst + done then c else was[j]
  }

  ghost predicate AllAre(s: seq<byte>, c: byte) {
    forall i :: 0 <= i < |s| ==> s[i] == c
  }

  /** memset(): every byte of the region becomes the low byte of the argument, no other
      byte changes, and nothing is read. */
  method Fill(bus: Bus, dst: u32, argument: u32, n: u32) returns (result: u32)
    requires dst + n <= TWO32 && dst + n <= bus.ram.Length && !LoneTopLong(dst, n)
    modifies bus.ram
    ensures result == dst
    ensures Filled(bus.ram, old(bus.ram[..]), dst, n, (argument % 256) as byte)
  {
    ghost var was := bus.ram[..];
    var c := (argument % 256) as byte;
    BroadcastFillsLanes(c);
    var d1: u32 := c as int * 0x0101_0101;
    if n >= MEMSET_SMALL {
      FillBlocks(bus, dst, d1, n, c, was);
    } else if n >= 4 {
      FillLongs(bus, dst, d1, n, c, was);
    } else if n != 0 {
      bus.Store(dst, [c]);
      bus.Store(Add32(dst, n - 1), [c]);
      bus.Store(Add32(dst, n / 2), [c]);
    }
    return dst;
  }

  /** A store of the pattern that starts inside or at the end of what is done. */
  method FillOver(bus: Bus, at: u32, s: seq<byte>, ghost dst: int, ghost done: nat, ghost c: byte, ghost was: seq<byte>)
    requires AllAre(s, c) && dst <= at <= dst + done <= at + |s| <= bus.ram.Length
    requires Filled(bus.ram, was, dst, done, c)
    modifies bus.ram
    ensures Filled(bus.ram, was, dst, at + |s| - dst, c)
  {
    bus.Store(at, s);
  }

  method FillLongs(bus: Bus, dst: u32, d1: u32, n: u32, ghost c: byte, ghost was: seq<byte>)
    requires dst + n <= TWO32 && dst + n <= bus.ram.Length && 4 <= n && !LoneTopLong(dst, n)
    requires LongBytes(d1) == [c, c, c, c] && Filled(bus.ram, was, dst, 0, c)
    modifies bus.ram
    ensures Filled(bus.ram, was, dst, n, c)
  {
    var a0 := dst;
    var a1 := Add32(dst, n - 4);
    var more := true;
    while more
      invariant dst <= a0 <= dst + n
      invariant if more then a0 + 4 <= dst + n && (a0 + 4 == dst + n ==> dst + n < TWO32) else a1 <= a0
      invariant Filled(bus.ram, was, dst, a0 - dst, c)
      decreases dst + n - a0
    {
      FillOver(bus, a0, LongBytes(d1), dst, a0 - dst, c, was);
      a0 := Add32(a0, 4);
      more := a1 > a0;
    }
    FillOver(bus, a1, LongBytes(d1), dst, a0 - dst, c, was);
  }

  method FillBlocks(bus: Bus, dst: u32, d1: u32, n: u32, ghost c: byte, ghost was: seq<byte>)
    requires dst + n <= TWO32 && dst + n <= bus.ram.Length && n >= MEMSET_SMALL
    requires LongBytes(d1) == [c, c, c, c] && Filled(bus.ram, was, dst, 0, c)
    modifies bus.ram
    ensures Filled(bus.ram, was, dst, n, c)
  {
    var run := EightLongs(d1);
    assert AllAre(run, c);
    var a0 := dst;
    var blocks := n / 64;
    var a3 := Add32(dst, 64 * blocks);
    ghost var k := 0;
    while a0 != a3
      invariant 0 <= k <= blocks && a0 == Register(dst + 64 * k)
      invariant Filled(bus.ram, was, dst, 64 * k, c)
      decreases blocks - k
    {
      FillOver(bus, a0, run, dst, 64 * k, c, was);
      FillOver(bus, Add32(a0, 32), run, dst, 64 * k + 32, c, was);
      a0, k := Add32(a0, 64), k + 1;
    }
    var at := Add32(a0, Sub32(n % 64, 64)); // back to the start of the block ending at n
    assert at == dst + n - 64 by { assert 64 * (n / 64) + n % 64 == n; }
    FillTwice(bus, at, run, dst, n, 64 * blocks, c, was);
  }

  /** The block ending at n, as two movem.l stores. */
  method FillTwice(bus: Bus, at: u32, run: seq<byte>, ghost dst: int, ghost n: int, ghost done: nat, ghost c: byte,
                   ghost was: seq<byte>)
    requires AllAre(run, c) && |run| == 32 && at + 64 == dst + n <= TWO32 &&
             dst <= at <= dst + done <= dst + n <= bus.ram.Length
    requires Filled(bus.ram, was, dst, done, c)
    modifies bus.ram
    ensures Filled(bus.ram, was, dst, n, c)
  {
    bus.Store(at, run);
    FillOver(bus, Add32(at, 32), run, dst, if at + 32 - dst > done then at + 32 - dst else done, c, was);
  }
}
