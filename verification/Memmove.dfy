/** src/memmove_movem.S: every path of the move, register by register. `a0` and `a1` walk
    the two regions, `d0` keeps the long that a direction ends on, `d1` is where the
    walk stops. */
module Memmove {
  import opened Machine
  import opened BusModel

  const MEMMOVE_SMALL: u32 := 64

  /** A source that ends with the last byte of the address space, of a length whose walk
      stops exactly there. */
  predicate TopHazard(src: int, n: int) {
    src + n == TWO32 && (n == 4 || (n >= MEMMOVE_SMALL && n % 64 == 0))
  }

  /** How many bytes the block loop leaves behind for the long loop to start from, and how
      many rounds that loop makes before its first test. */
  function Behind(n: u32): nat {
    if n >= MEMMOVE_SMALL then 64 * (n / 64) else 0
  }

  function RoundsFirst(n: u32): nat {
    if n >= MEMMOVE_SMALL then 0 else 1
  }

  /** The upward walk stops inside the source exactly when the hazard is absent. With it, the
      source pointer is zero when the walk should stop, the test takes zero for a pointer
      that has not got there yet, and the next long is read from address zero. */
  lemma WalkStopsIffNoHazard(src: u32, n: u32)
    requires 4 <= n && src + n <= TWO32
    ensures StopsInside(src, n, Behind(n), RoundsFirst(n)) <==> !TopHazard(src, n)
    ensures TopHazard(src, n) ==> Register(src + n) == 0 && src + n - 4 > 0 && !(src <= 0 < src + n)
  {
    var b := Behind(n);
    if n < MEMMOVE_SMALL {
      LongsStopIff(src, n);
    } else if b < n {
      assert RoundAt(src + b, (n - 1 - b) / 4) >= src + n - 4;
    } else if src + n < TWO32 {
      assert RoundAt(src + b, 0) >= src + n - 4;
    }
  }

  /** memmove(): whatever the overlap and the alignment of two regions inside the address
      space, the destination ends up with the old source, no other byte changes, and nothing
      outside the source is read. */
  method Move(bus: Bus, dst: u32, src: u32, n: u32) returns (result: u32)
    requires dst + n <= TWO32 && src + n <= TWO32
    requires TopHazard(src, n) ==> dst == src
    requires dst + n <= bus.ram.Length && src + n <= bus.ram.Length
    modifies bus`loads, bus.ram
    ensures result == dst
    ensures Copied(bus.ram, old(bus.ram[..]), dst, src, 0, n)
    ensures bus.LoadedOnly(old(bus.loads), src, src + n)
  {
    ghost var was, seen := bus.ram[..], bus.loads;
    var d1 := Sub32(dst, src);
    if d1 == 0 {
      return dst;
    }
    if d1 < n {
      // bcs: dst lies inside the source
      if n >= MEMMOVE_SMALL {
        DownBlocks(bus, dst, src, n, was, seen);
      } else if n < 4 {
        DownBytes(bus, dst, src, n, was, seen);
      } else {
        var first := bus.Load(src, 4);
        DownLongs(bus, dst, src, n, first, Add32(dst, n), Add32(src, n), n, was, seen);
      }
    } else if n >= MEMMOVE_SMALL {
      UpBlocks(bus, dst, src, n, was, seen);
    } else if n < 4 {
      UpBytes(bus, dst, src, n, was, seen);
    } else {
      var last := bus.Load(Add32(src, n - 4), 4);
      UpLongs(bus, dst, src, n, last, dst, src, 0, was, seen);
    }
    return dst;
  }

  /** .Lbyte: n below 4, from the start. */
  method UpBytes(bus: Bus, dst: u32, src: u32, n: u32, ghost was: seq<byte>, ghost seen: set<int>)
    requires dst + n <= TWO32 && src + n <= TWO32 && UpSafe(dst, src, n)
    requires Copying(bus, was, seen, dst, src, n, 0, 0)
    modifies bus`loads, bus.ram
    ensures Copying(bus, was, seen, dst, src, n, 0, n)
  {
    var a0, a1, d0 := dst, src, n;
    while d0 != 0
      invariant 0 <= d0 <= n && a1 == Register(src + (n - d0)) && a0 == Register(dst + (n - d0))
      invariant Copying(bus, was, seen, dst, src, n, 0, n - d0)
    {
      CarryUp(bus, a0, a1, 1, was, seen, dst, src, n);
      a0, a1, d0 := Add32(a0, 1), Add32(a1, 1), d0 - 1;
    }
  }

  /** The last long of the source as it was before anything moved. */
  ghost predicate SavedLast(last: seq<byte>, was: seq<byte>, src: int, n: int) {
    4 <= n && 0 <= src && src + n <= |was| && |last| == 4 &&
    forall i :: 0 <= i < 4 ==> last[i] == was[src + n - 4 + i]
  }

  /** .Llong and .Llast: longs up to the last one, which was saved before anything moved
      and is stored last, over whatever the loop left or already copied. `done` bytes are
      done on entry. */
  method UpLongs(bus: Bus, dst: u32, src: u32, n: u32, last: seq<byte>, a0start: u32, a1start: u32, ghost done: nat,
                 ghost was: seq<byte>, ghost seen: set<int>)
    requires dst + n <= TWO32 && src + n <= TWO32 && UpSafe(dst, src, n)
    requires done + 4 <= n && (done + 4 == n ==> src + n < TWO32) && a1start == src + done && a0start == dst + done
    requires Copying(bus, was, seen, dst, src, n, 0, done)
    requires SavedLast(last, was, src, n)
    modifies bus`loads, bus.ram
    ensures Copying(bus, was, seen, dst, src, n, 0, n)
  {
    var a0, a1 := a0start, a1start;
    var d1 := Add32(src, n - 4);
    var more := true;
    ghost var off := done;
    while more
      invariant 0 <= off <= n && src + off < TWO32 && a1 == src + off && a0 == Register(dst + off)
      invariant if more then off + 4 <= n && (off + 4 == n ==> src + n < TWO32) else d1 <= a1
      invariant Copying(bus, was, seen, dst, src, n, 0, off)
      decreases n - off
    {
      CarryUp(bus, a0, a1, 4, was, seen, dst, src, n);
      a0, a1, off := Add32(a0, 4), Add32(a1, 4), off + 4;
      more := d1 > a1;
    }
    StoreLast(bus, dst, src, n, last, a0, a1, off, was, seen);
  }

  /** .Llast: the overshoot of the source pointer, at most four bytes, is taken off the
      destination pointer, and the saved long goes there. */
  method StoreLast(bus: Bus, dst: u32, src: u32, n: u32, last: seq<byte>, a0: u32, a1: u32, ghost off: nat,
                   ghost was: seq<byte>, ghost seen: set<int>)
    requires dst + n <= TWO32 && src + n <= TWO32
    requires n - 4 <= off <= n && src + off < TWO32 && a1 == src + off && a0 == Register(dst + off)
    requires Copying(bus, was, seen, dst, src, n, 0, off)
    requires SavedLast(last, was, src, n)
    modifies bus.ram
    ensures Copying(bus, was, seen, dst, src, n, 0, n)
  {
    var d1 := Sub32(Add32(src, n - 4), a1);
    var at := Add32(a0, d1);
    assert at == dst + n - 4;
    bus.Store(at, last);
  }

  /** .Lbig: whole 64-byte blocks as two movem.l pairs, then the long loop. */
  method UpBlocks(bus: Bus, dst: u32, src: u32, n: u32, ghost was: seq<byte>, ghost seen: set<int>)
    requires dst + n <= TWO32 && src + n <= TWO32 && UpSafe(dst, src, n) && n >= MEMMOVE_SMALL
    requires !TopHazard(src, n)
    requires Copying(bus, was, seen, dst, src, n, 0, 0)
    modifies bus`loads, bus.ram
    ensures Copying(bus, was, seen, dst, src, n, 0, n)
  {
    var last := bus.Load(Add32(src, n - 4), 4);
    var a0, a1 := CarryBlocks(bus, dst, src, n, was, seen);
    ghost var done := 64 * (n / 64);
    var d1 := Add32(src, n - 4);
    if d1 > a1 {
      UpLongs(bus, dst, src, n, last, a0, a1, done, was, seen);
    } else {
      StoreLast(bus, dst, src, n, last, a0, a1, done, was, seen);
    }
  }

  /** .Ldown_tiny: 2 or 3 bytes, indexed from n down to 1. */
  method DownBytes(bus: Bus, dst: u32, src: u32, n: u32, ghost was: seq<byte>, ghost seen: set<int>)
    requires dst + n <= TWO32 && src + n <= TWO32 && src < dst < src + n
    requires Copying(bus, was, seen, dst, src, n, n, n)
    modifies bus`loads, bus.ram
    ensures Copying(bus, was, seen, dst, src, n, 0, n)
  {
    var d0 := n;
    var more := true;
    while more
      invariant 0 <= d0 <= n && (more <==> d0 != 0)
      invariant Copying(bus, was, seen, dst, src, n, d0, n)
      decreases d0
    {
      CarryDown(bus, Add32(dst, d0 - 1), Add32(src, d0 - 1), 1, was, seen, dst, src, n);
      d0 := d0 - 1;
      more := d0 != 0;
    }
  }

  /** The first long of the source as it was before anything moved. */
  ghost predicate SavedFirst(first: seq<byte>, was: seq<byte>, src: int) {
    0 <= src && src + 4 <= |was| && |first| == 4 && forall i :: 0 <= i < 4 ==> first[i] == was[src + i]
  }

  /** .Ldown_long and .Ldown_last: longs down to the first one, saved before anything
      moved and stored last. `left` bytes are still to be moved on entry. */
  method DownLongs(bus: Bus, dst: u32, src: u32, n: u32, first: seq<byte>, a0start: u32, a1start: u32, ghost left: nat,
                   ghost was: seq<byte>, ghost seen: set<int>)
    requires dst + n <= TWO32 && src < dst < src + n
    requires 4 <= left <= n && a1start == src + left && a0start == Register(dst + left)
    requires Copying(bus, was, seen, dst, src, n, left, n)
    requires SavedFirst(first, was, src)
    modifies bus`loads, bus.ram
    ensures Copying(bus, was, seen, dst, src, n, 0, n)
  {
    var a0, a1 := a0start, a1start;
    var d1 := Add32(src, 4);
    var more := true;
    ghost var off := left;
    while more
      invariant 0 <= off <= n && a1 == src + off && a0 == Register(dst + off)
      invariant if more then 4 <= off else a1 <= d1
      invariant Copying(bus, was, seen, dst, src, n, off, n)
      decreases off
    {
      a0, a1, off := Sub32(a0, 4), Sub32(a1, 4), off - 4;
      CarryDown(bus, a0, a1, 4, was, seen, dst, src, n);
      more := d1 < a1;
    }
    StoreFirst(bus, dst, src, n, first, off, was, seen);
  }

  /** .Ldown_last. */
  method StoreFirst(bus: Bus, dst: u32, src: u32, n: u32, first: seq<byte>, ghost left: nat,
                    ghost was: seq<byte>, ghost seen: set<int>)
    requires n >= 4 && left <= 4
    requires Copying(bus, was, seen, dst, src, n, left, n)
    requires SavedFirst(first, was, src)
    modifies bus.ram
    ensures Copying(bus, was, seen, dst, src, n, 0, n)
  {
    bus.Store(dst, first);
  }

  /** .Ldown_big: whole blocks down from the end, then the long loop. */
  method DownBlocks(bus: Bus, dst: u32, src: u32, n: u32, ghost was: seq<byte>, ghost seen: set<int>)
    requires dst + n <= TWO32 && src < dst < src + n && n >= MEMMOVE_SMALL
    requires Copying(bus, was, seen, dst, src, n, n, n)
    modifies bus`loads, bus.ram
    ensures Copying(bus, was, seen, dst, src, n, 0, n)
  {
    var a3 := Add32(src, n % 64); // and.l #63
    var a0, a1 := Add32(dst, n), Add32(src, n);
    var first := bus.Load(src, 4);
    ghost var k := n / 64;
    ghost var left := n;
    while a1 != a3
      invariant 0 <= k && left == n % 64 + 64 * k <= n && a1 == src + left && a0 == Register(dst + left)
      invariant Copying(bus, was, seen, dst, src, n, left, n)
      decreases k
    {
      CarryDown(bus, Sub32(a0, 32), Sub32(a1, 32), 32, was, seen, dst, src, n);
      CarryDown(bus, Sub32(a0, 64), Sub32(a1, 64), 32, was, seen, dst, src, n);
      a0, a1, k, left := Sub32(a0, 64), Sub32(a1, 64), k - 1, left - 64;
    }
    var d1 := Add32(src, 4);
    if d1 < a1 {
      DownLongs(bus, dst, src, n, first, a0, a1, left, was, seen);
    } else {
      StoreFirst(bus, dst, src, n, first, left, was, seen);
    }
  }
}
