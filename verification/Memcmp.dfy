/** src/memory.c memcmp(): long at a time while both pointers are long-aligned, then a byte
    tail that finds the exact differing byte. Nothing is written, so memory is a value. */
module Memcmp {
  import opened Machine

  /** The comparison byte by byte: the difference of the first bytes that differ. */
  ghost function Difference(x: seq<byte>, y: seq<byte>): int
    requires |x| == |y|
  {
    if x == [] then 0
    else if x[0] != y[0] then x[0] as int - y[0] as int
    else Difference(x[1..], y[1..])
  }

  lemma {:induction false} EqualPrefixDrops(x: seq<byte>, y: seq<byte>, k: nat)
    requires |x| == |y| && k <= |x| && x[..k] == y[..k]
    ensures Difference(x, y) == Difference(x[k..], y[k..])
  {
    if k > 0 {
      assert x[0] == x[..k][0] == y[..k][0] == y[0];
      assert x[1..][..k - 1] == x[..k][1..] == y[..k][1..] == y[1..][..k - 1];
      EqualPrefixDrops(x[1..], y[1..], k - 1);
      assert x[1..][k - 1..] == x[k..] && y[1..][k - 1..] == y[k..];
    } else {
      assert x[0..] == x && y[0..] == y;
    }
  }

  /** What the difference means: zero exactly on equal regions, else taken at the first
      differing byte, wherever that is; and swapping the operands negates it. */
  lemma {:induction false} DifferenceIsAtFirst(x: seq<byte>, y: seq<byte>, k: nat)
    requires |x| == |y|
    ensures Difference(x, y) == 0 <==> x == y
    ensures k < |x| && x[..k] == y[..k] && x[k] != y[k] ==> Difference(x, y) == x[k] as int - y[k] as int
    ensures Difference(y, x) == -Difference(x, y)
  {
    if x != [] {
      DifferenceIsAtFirst(x[1..], y[1..], if k > 0 then k - 1 else 0);
      assert x == [x[0]] + x[1..] && y == [y[0]] + y[1..];
      if k < |x| && x[..k] == y[..k] && x[k] != y[k] {
        EqualPrefixDrops(x, y, k);
      }
    }
  }

  /** The four bytes from `a` on as one big-endian long. */
  function LongAt(ram: seq<byte>, a: nat): (v: u32)
    requires a + 4 <= |ram|
  {
    ram[a] as int * 0x100_0000 + ram[a + 1] as int * 0x1_0000 + ram[a + 2] as int * 0x100 + ram[a + 3] as int
  }

  /** Equal longs are equal byte by byte. */
  lemma EqualLongs(ram: seq<byte>, a: nat, b: nat)
    requires a + 4 <= |ram| && b + 4 <= |ram| && LongAt(ram, a) == LongAt(ram, b)
    ensures ram[a..a + 4] == ram[b..b + 4]
  {
    assert ram[a] == ram[b] && ram[a + 1] == ram[b + 1] && ram[a + 2] == ram[b + 2] && ram[a + 3] == ram[b + 3];
    assert ram[a..a + 4] == [ram[a], ram[a + 1], ram[a + 2], ram[a + 3]];
    assert ram[b..b + 4] == [ram[b], ram[b + 1], ram[b + 2], ram[b + 3]];
  }

  /** The difference of the two regions' next `cnt` bytes. */
  ghost function DifferenceFrom(ram: seq<byte>, a: nat, b: nat, cnt: nat): int
    requires a + cnt <= |ram| && b + cnt <= |ram|
  {
    Difference(ram[a..a + cnt], ram[b..b + cnt])
  }

  lemma Skip(ram: seq<byte>, a: nat, b: nat, cnt: nat, k: nat)
    requires a + cnt <= |ram| && b + cnt <= |ram| && k <= cnt
    requires ram[a..a + k] == ram[b..b + k]
    ensures DifferenceFrom(ram, a, b, cnt) == DifferenceFrom(ram, a + k, b + k, cnt - k)
  {
    var x, y := ram[a..a + cnt], ram[b..b + cnt];
    assert x[..k] == ram[a..a + k] && y[..k] == ram[b..b + k];
    assert x[k..] == ram[a + k..a + cnt] && y[k..] == ram[b + k..b + cnt];
    EqualPrefixDrops(x, y, k);
  }

  /** memcmp(): the long path, taken on shared long alignment, never changes the answer. */
  method Compare(ram: seq<byte>, s1: u32, s2: u32, n: u32) returns (r: int)
    requires s1 + n <= |ram| && s2 + n <= |ram|
    ensures r == Difference(ram[s1..s1 + n], ram[s2..s2 + n])
  {
    var a: nat, b: nat, cnt: nat := s1, s2, n;
    if s1 % 4 == 0 && s2 % 4 == 0 { // ((a | b) & 3) == 0
      a, b, cnt := SkipEqualLongs(ram, s1, s2, n);
    }
    while cnt != 0
      invariant 0 <= cnt && a + cnt <= |ram| && b + cnt <= |ram|
      invariant DifferenceFrom(ram, s1, s2, n) == DifferenceFrom(ram, a, b, cnt)
    {
      if ram[a] != ram[b] {
        return ram[a] as int - ram[b] as int;
      }
      assert ram[a..a + 1] == [ram[a]] && ram[b..b + 1] == [ram[b]];
      Skip(ram, a, b, cnt, 1);
      a, b, cnt := a + 1, b + 1, cnt - 1;
    }
    return 0;
  }

  method SkipEqualLongs(ram: seq<byte>, s1: u32, s2: u32, n: u32) returns (a: nat, b: nat, cnt: nat)
    requires s1 + n <= |ram| && s2 + n <= |ram|
    ensures a == s1 + (n - cnt) && b == s2 + (n - cnt) && cnt <= n
    ensures DifferenceFrom(ram, s1, s2, n) == DifferenceFrom(ram, a, b, cnt)
  {
    a, b, cnt := s1, s2, n;
    while cnt >= 4 && LongAt(ram, a) == LongAt(ram, b)
      invariant 0 <= cnt <= n && a == s1 + (n - cnt) && b == s2 + (n - cnt)
      invariant DifferenceFrom(ram, s1, s2, n) == DifferenceFrom(ram, a, b, cnt)
    {
      EqualLongs(ram, a, b);
      Skip(ram, a, b, cnt, 4);
      a, b, cnt := a + 4, b + 4, cnt - 4;
    }
  }
}
