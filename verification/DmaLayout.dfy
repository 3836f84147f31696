/** Where dma_alloc() of include/dma_mem.h puts a buffer inside the block it gets: the
    block's size word first, the block's address just below the buffer, the buffer on its
    alignment; all in 32-bit arithmetic, with `& ~(align - 1)` as rounding down to a
    multiple of a power of two. */
module DmaLayout {
  import opened Machine
  import opened ExecMemory
  import opened RegionPool

  const DMA_ALIGN_MIN := 64

  // ---- powers of two and their multiples -------------------------------------------

  predicate IsPow2(a: nat) {
    a == 1 || (a > 0 && a % 2 == 0 && IsPow2(a / 2))
  }

  /** `x` is a sum of `a`s. */
  ghost predicate Multiple(x: int, a: nat)
    requires a > 0
    decreases if x > 0 then x else 0
  {
    x == 0 || (x >= a && Multiple(x - a, a))
  }

  /** x & ~(align - 1), for a power of two. */
  function MaskDown(x: nat, align: nat): (r: nat)
    requires align > 0
    ensures x - align < r <= x && Multiple(r, align)
  {
    if x < align then 0 else MaskDown(x - align, align) + align
  }

  lemma {:induction false} MultipleDivides(x: nat, a: nat)
    requires a > 0
    ensures Multiple(x, a) ==> exists q: nat :: x == a * q
  {
    if Multiple(x, a) {
      if x == 0 {
        assert x == a * 0;
      } else {
        MultipleDivides(x - a, a);
        var q: nat :| x - a == a * q;
        assert x == a * (q + 1);
      }
    }
  }

  lemma {:induction false} MultipleOfLine(x: nat)
    ensures Multiple(x, 64) <==> x % 64 == 0
  {
    if x >= 64 { MultipleOfLine(x - 64); }
  }

  lemma {:induction false} MultiplesAdd(x: nat, y: nat, a: nat)
    requires a > 0 && Multiple(x, a) && Multiple(y, a)
    ensures Multiple(x + y, a)
    decreases x
  {
    if x > 0 {
      MultiplesAdd(x - a, y, a);
      assert x + y - a == x - a + y;
    }
  }

  lemma {:induction false} MultipleOfMultiple(x: nat, a: nat, b: nat)
    requires a > 0 && b > 0 && Multiple(x, a) && Multiple(a, b)
    ensures Multiple(x, b)
  {
    if x > 0 {
      MultipleOfMultiple(x - a, a, b);
      MultiplesAdd(x - a, a, b);
    }
  }

  /** A power of two below twice another is at most it. */
  lemma {:induction false} Pow2Below(a: nat, c: nat)
    requires IsPow2(a) && IsPow2(c) && a < 2 * c
    ensures a <= c
  {
    if c > 1 && a > 1 {
      Pow2Below(a / 2, c / 2);
    }
  }

  lemma {:induction false} Pow2OfLines(a: nat)
    requires IsPow2(a) && a >= 64
    ensures Multiple(a, 64)
  {
    if a < 128 {
      assert IsPow2(64);
      Pow2Below(a, 64);
    } else {
      Pow2OfLines(a / 2);
      MultiplesAdd(a / 2, a / 2, 64);
    }
  }

  lemma Pow2Twice(a: nat)
    requires IsPow2(a)
    ensures IsPow2(2 * a)
  {
    assert 2 * a / 2 == a && 2 * a % 2 == 0;
  }

  /** 256 * a, one doubling at a time, each with a name of its own. */
  lemma Pow2By256(a: nat, b: nat)
    requires IsPow2(a) && b == 0x100 * a
    ensures IsPow2(b)
  {
    Pow2By16(a, 0x10 * a);
    Pow2By16(0x10 * a, b);
  }

  lemma Pow2By16(a: nat, b: nat)
    requires IsPow2(a) && b == 0x10 * a
    ensures IsPow2(b)
  {
    Pow2By4(a, 4 * a);
    Pow2By4(4 * a, b);
  }

  lemma Pow2By4(a: nat, b: nat)
    requires IsPow2(a) && b == 4 * a
    ensures IsPow2(b)
  {
    Pow2Twice(a);
    Pow2Twice(2 * a);
  }

  lemma LargePow2()
    ensures IsPow2(0x4000_0000) && IsPow2(0x8000_0000)
  {
    var k := 0x40;
    assert IsPow2(k);
    Pow2By256(k, 0x4000);
    Pow2By256(0x4000, 0x40_0000);
    Pow2By256(0x40_0000, 0x4000_0000);
    Pow2Twice(0x4000_0000);
  }

  // ---- the layout ------------------------------------------------------------------

  /** The alignment dma_alloc() works with. */
  function Effective(align: u32): u32 {
    if align < 4 then 4 else align
  }

  /** The size it rounds a cache-line aligned request up to. */
  function RoundedSize(align: u32, size: u32): u32
    requires align > 0
  {
    if align >= DMA_ALIGN_MIN then MaskDown((size + (align - 1)) % TWO32, align) else size
  }

  /** The bytes it asks the region pool for. */
  function TotalSize(align: u32, size: u32): u32
    requires align > 0
  {
    (RoundedSize(align, size) + (align - 1) + 4 + 4) % TWO32
  }

  function BufferAt(raw: nat, align: u32): nat
    requires align > 0
  {
    MaskDown((raw + 4 + 4 + align - 1) % TWO32, align)
  }

  /** No step of the size computation wraps: what a caller must keep to. */
  predicate Representable(align: u32, size: u32)
    requires align > 0
  {
    (align >= DMA_ALIGN_MIN ==> size + (align - 1) < TWO32) &&
    RoundedSize(align, size) + align + 7 < TWO32
  }

  /** A block from the region pool that can hold `total` bytes. */
  predicate BlockFor(raw: nat, total: u32) {
    Rounded(raw) && AlignBlock(total) > 0 && raw + AlignBlock(total) <= TWO31
  }

  lemma AlignBlockCovers(x: u32)
    ensures AlignBlock(x) > 0 ==> x <= AlignBlock(x) <= x + 7
  {
  }

  lemma RoundingCovers(align: u32, size: u32)
    requires DMA_ALIGN_MIN <= align && size + (align - 1) < TWO32
    ensures size <= RoundedSize(align, size) < size + align
  {
  }

  lemma BufferAboveHeader(raw: nat, align: u32)
    requires 4 <= align <= TWO31 && raw + 8 <= TWO31
    ensures raw + 8 <= BufferAt(raw, align) < raw + 8 + align
  {
  }

  /** Without wrap-around: the two header words and then the whole rounded buffer lie
      inside the block, and the buffer is aligned. */
  lemma RepresentableFits(raw: nat, align: u32, size: u32)
    requires IsPow2(align) && 4 <= align && Representable(align, size)
    requires BlockFor(raw, TotalSize(align, size))
    ensures var ptr := BufferAt(raw, align);
            && Multiple(ptr, align)
            && raw + 8 <= ptr && ptr + RoundedSize(align, size) <= raw + AlignBlock(TotalSize(align, size))
            && size <= RoundedSize(align, size)
  {
    TotalIs(align, size);
    AlignBlockCovers(TotalSize(align, size));
    assert align <= TWO31 by { LargePow2(); Pow2Below(align, 0x8000_0000); }
    BufferAboveHeader(raw, align);
    if align >= DMA_ALIGN_MIN { RoundingCovers(align, size); }
  }

  lemma TotalIs(align: u32, size: u32)
    requires align > 0 && Representable(align, size)
    ensures TotalSize(align, size) == RoundedSize(align, size) + align + 7
  {
  }

  /** With wrap-around the buffer runs over the end of the block: a successful dma_alloc()
      returns a buffer its block can hold exactly when the request is representable. */
  lemma FitsIffRepresentable(raw: nat, align: u32, size: u32)
    requires IsPow2(align) && 4 <= align && BlockFor(raw, TotalSize(align, size))
    ensures BufferAt(raw, align) + size <= raw + AlignBlock(TotalSize(align, size)) <==> Representable(align, size)
  {
    if Representable(align, size) {
      RepresentableFits(raw, align, size);
    } else {
      assert align <= TWO31 by { LargePow2(); Pow2Below(align, 0x8000_0000); }
      BufferAboveHeader(raw, align);
      if align >= DMA_ALIGN_MIN && size + (align - 1) >= TWO32 {
        SizeWrapIsSmall(align, size);
      } else if align == TWO31 {
        TopAlignmentIsSmall(size);
      } else {
        assert align <= 0x4000_0000 by { LargePow2(); Pow2Below(align, 0x4000_0000); }
        TotalWrapIsSmall(align, size);
      }
    }
  }

  lemma SizeWrapIsSmall(align: u32, size: u32)
    requires IsPow2(align) && DMA_ALIGN_MIN <= align <= TWO31 && size + (align - 1) >= TWO32
    ensures AlignBlock(TotalSize(align, size)) < 8 + size
  {
    SizeWrapTotal(align, size);
    assert align % 64 == 0 by { Pow2OfLines(align); MultipleOfLine(align); }
    BlockOfLines(align);
  }

  lemma SizeWrapTotal(align: u32, size: u32)
    requires DMA_ALIGN_MIN <= align <= TWO31 && size + (align - 1) >= TWO32
    ensures TotalSize(align, size) == align + 7
  {
    var x := size + (align - 1) - TWO32;
    assert (size + (align - 1)) % TWO32 == x;
    assert MaskDown(x, align) == 0;
    assert RoundedSize(align, size) == 0;
  }

  lemma BlockOfLines(align: u32)
    requires align % 64 == 0 && align <= TWO31
    ensures AlignBlock(align + 7) == align + 8
  {
    assert (align + 14) % TWO32 == align + 14;
    Eighths(align / 8 + 1, 6);
  }

  lemma Eighths(q: nat, r: nat)
    requires r < 8
    ensures (8 * q + r) / 8 == q
  {
  }

  lemma TopAlignmentIsSmall(size: u32)
    requires size + (TWO31 - 1) < TWO32 && !Representable(TWO31, size)
    ensures AlignBlock(TotalSize(TWO31, size)) < 8 + size
  {
    var r := RoundedSize(TWO31, size);
    assert Multiple(r, TWO31);
    assert r == 0 || r == TWO31 by { assert r > 0 ==> Multiple(r - TWO31, TWO31); }
  }

  lemma TotalWrapIsSmall(align: u32, size: u32)
    requires 4 <= align <= 0x4000_0000 && !Representable(align, size)
    requires align >= DMA_ALIGN_MIN ==> size + (align - 1) < TWO32
    ensures AlignBlock(TotalSize(align, size)) < 8 + size
  {
    if align >= DMA_ALIGN_MIN { RoundingCovers(align, size); }
    AlignBlockCovers(TotalSize(align, size));
  }

  /** The request that shows it: 2^32 - 8 bytes on a 4-byte alignment ask the region pool
      for 3 bytes. */
  lemma WrappedRequestIsTiny()
    ensures TotalSize(4, 0xFFFF_FFF8) == 3 && !Representable(4, 0xFFFF_FFF8)
  {
  }

  /** A line-aligned buffer owns its cache lines: every byte of a line it touches is its
      own, so none of them holds a header word or belongs to another block. */
  lemma OwnsWholeLines(raw: nat, align: u32, size: u32, y: nat, x: nat)
    requires IsPow2(align) && DMA_ALIGN_MIN <= align
    requires BufferAt(raw, align) <= y < BufferAt(raw, align) + RoundedSize(align, size)
    requires x / 64 == y / 64
    ensures BufferAt(raw, align) <= x < BufferAt(raw, align) + RoundedSize(align, size)
  {
    SpanOfLines(BufferAt(raw, align), RoundedSize(align, size), align, y, x);
  }

  /** A span whose start and size are multiples of a line-sized power of two is whole lines. */
  lemma SpanOfLines(ptr: nat, n: nat, align: nat, y: nat, x: nat)
    requires IsPow2(align) && align >= 64 && Multiple(ptr, align) && Multiple(n, align)
    requires ptr <= y < ptr + n && x / 64 == y / 64
    ensures ptr <= x < ptr + n
  {
    Pow2OfLines(align);
    MultipleOfMultiple(ptr, align, 64);
    MultipleOfMultiple(n, align, 64);
    MultipleDivides(ptr, 64);
    MultipleDivides(n, 64);
    var p: nat :| ptr == 64 * p;
    var q: nat :| n == 64 * q;
    WholeLines(p, q, y, x);
  }

  lemma WholeLines(p: nat, q: nat, y: nat, x: nat)
    requires 64 * p <= y < 64 * p + 64 * q && x / 64 == y / 64
    ensures 64 * p <= x < 64 * p + 64 * q
  {
    var line := y / 64;
    assert 64 * line <= x < 64 * line + 64 && 64 * line <= y < 64 * line + 64;
  }
}
