/** Machine words of the 68k side: bytes, 32-bit registers with explicit wrap-around,
    and the small notions the models share. */
module Machine {

  newtype byte = x: int | 0 <= x < 256

  const TWO32 := 0x1_0000_0000

  type u32 = x: int | 0 <= x < 0x1_0000_0000

  datatype Option<+T> = None | Some(value: T)

  function Add32(a: u32, b: int): (r: u32)
    ensures 0 <= a + b < TWO32 ==> r == a + b
    ensures TWO32 <= a + b < 2 * TWO32 ==> r == a + b - TWO32
  {
    (a + b) % TWO32
  }

  function Sub32(a: u32, b: int): (r: u32)
    ensures 0 <= a - b < TWO32 ==> r == a - b
    ensures 0 <= b < TWO32 && a < b ==> r == a - b + TWO32
  {
    (a - b) % TWO32
  }

  /** What a register holds that points one past the byte before `x`: zero at the very top of
      the address space. */
  function Register(x: int): u32
    requires 0 <= x <= TWO32
  {
    if x == TWO32 then 0 else x
  }

  /** n * k as a sum of `n` terms: the size of `n` equal things. */
  function Times(n: nat, k: nat): nat {
    if n == 0 then 0 else k + Times(n - 1, k)
  }

  lemma {:induction false} TimesIsProduct(n: nat, k: nat)
    ensures Times(n, k) == n * k
  {
    if n > 0 {
      TimesIsProduct(n - 1, k);
      assert n * k == (n - 1) * k + k;
    }
  }

  lemma {:induction false} TimesAtLeast(n: nat, k: nat)
    ensures k > 0 ==> Times(n, k) >= n
    ensures k == 0 ==> Times(n, k) == 0
  {
    if n > 0 { TimesAtLeast(n - 1, k); }
  }

  predicate IsDigit(c: char) {
    '0' <= c <= '9'
  }

  /** No element occurs twice. */
  ghost predicate Distinct(s: seq<nat>) {
    forall i, j :: 0 <= i < j < |s| ==> s[i] != s[j]
  }

  lemma DistinctJoin(s: seq<nat>, t: seq<nat>)
    requires Distinct(s) && Distinct(t) && forall x :: x in s ==> x !in t
    ensures Distinct(s + t)
  {
    var st := s + t;
    forall i, j | 0 <= i < j < |st| ensures st[i] != st[j] {
      if i < |s| <= j { assert s[i] in s && st[j] == t[j - |s|] && t[j - |s|] in t; }
    }
  }
}
