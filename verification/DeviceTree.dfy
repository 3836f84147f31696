/** Address translation of src/devtree.c: device-tree cells as 64-bit numbers, and dt_map()
    through the records of a "ranges" or "dma-ranges" property (sections 2.3.8 and 2.3.9
    of the Devicetree Specification v0.4). */
module DeviceTree {
  import opened Machine

  const TWO64 := 0x1_0000_0000_0000_0000

  type u64 = x: int | 0 <= x < 0x1_0000_0000_0000_0000

  // ---- cells ------------------------------------------------------------------------

  /** The cells as one unbounded big-endian number. */
  ghost function BigEndian(cells: seq<u32>): nat {
    if cells == [] then 0 else BigEndian(cells[..|cells| - 1]) * TWO32 + cells[|cells| - 1]
  }

  /** DT_GetNumber(): what 64 bits keep of the number, exact for up to two cells. */
  method GetNumber(cells: seq<u32>) returns (value: u64)
    ensures value == BigEndian(cells) % TWO64
    ensures |cells| <= 2 ==> value == BigEndian(cells)
  {
    value := 0;
    var i := 0;
    while i < |cells|
      invariant 0 <= i <= |cells|
      invariant value == BigEndian(cells[..i]) % TWO64
    {
      assert cells[..i + 1][..i] == cells[..i];
      ShiftKeepsLow(BigEndian(cells[..i]), cells[i]);
      value := value * TWO32 % TWO64 + cells[i]; // (value << 32) | cell
      i := i + 1;
    }
    assert cells[..i] == cells;
    TwoCellsFit(cells);
  }

  lemma RemainderIs(x: int, q: int, r: int)
    requires x == q * TWO64 + r && 0 <= r < TWO64
    ensures x % TWO64 == r
  {
  }

  lemma ShiftKeepsLow(n: nat, c: u32)
    ensures (n % TWO64) * TWO32 % TWO64 + c == (n * TWO32 + c) % TWO64
  {
    var q, m := n / TWO64, n % TWO64;
    var k, r := m / TWO32, m % TWO32;
    assert n == q * TWO64 + m && m == k * TWO32 + r;
    RemainderIs(m * TWO32, k, r * TWO32);
    RemainderIs(n * TWO32 + c, q * TWO32 + k, r * TWO32 + c);
  }

  lemma TwoCellsFit(cells: seq<u32>)
    ensures |cells| <= 2 ==> BigEndian(cells) < TWO64
  {
    if |cells| == 2 {
      assert cells[..1][..0] == [];
      assert BigEndian(cells[..1]) == cells[0];
    } else if |cells| == 1 {
      assert cells[..0] == [];
    }
  }

  // ---- records ------------------------------------------------------------------------

  /** #address-cells of the bus and of its parent, and #size-cells of the bus. */
  datatype Shape = Shape(child: nat, parent: nat, size: nat)
  {
    function Cells(): nat {
      child + parent + size
    }
  }

  /** One record: `from` is the side the address is on, `to` the side it is mapped to. */
  datatype Record = Record(from: u64, to: u64, size: u64)

  ghost function Low64(cells: seq<u32>): u64 {
    BigEndian(cells) % TWO64
  }

  ghost function RecordOf(cells: seq<u32>, shape: Shape, toParent: bool): Record
    requires |cells| == shape.Cells()
  {
    var child := Low64(cells[..shape.child]);
    var parent := Low64(cells[shape.child..shape.child + shape.parent]);
    var size := Low64(cells[shape.child + shape.parent..]);
    if toParent then Record(child, parent, size) else Record(parent, child, size)
  }

  /** The whole records of a property; a record of no cells yields none. */
  ghost function Records(cells: seq<u32>, shape: Shape, toParent: bool): seq<Record> {
    if shape.Cells() == 0 || |cells| < shape.Cells() then []
    else [RecordOf(cells[..shape.Cells()], shape, toParent)] + Records(cells[shape.Cells()..], shape, toParent)
  }

  /** The span lies in the record, over unbounded integers. An empty span must start
      inside it too. */
  predicate Covers(r: Record, addr: int, len: int) {
    r.from <= addr < r.from + r.size && addr + len <= r.from + r.size
  }

  /** The tests dt_map() makes on offsets, none of which can wrap. */
  predicate OffsetTest(r: Record, addr: u64, len: u64) {
    addr >= r.from && addr - r.from < r.size && len <= r.size - (addr - r.from)
  }

  /** The first record that covers the span. */
  function FirstCover(rs: seq<Record>, addr: int, len: int): (r: Option<Record>)
    ensures r.Some? ==> Covers(r.value, addr, len)
  {
    if rs == [] then None
    else if Covers(rs[0], addr, len) then Some(rs[0])
    else FirstCover(rs[1..], addr, len)
  }

  /** It is one of them, with none before it that covers the span; and there is one unless
      no record does. */
  lemma {:induction false} FirstCoverIsFirst(rs: seq<Record>, addr: int, len: int) returns (k: nat)
    ensures k <= |rs| && forall i | 0 <= i < k :: !Covers(rs[i], addr, len)
    ensures FirstCover(rs, addr, len) == if k < |rs| then Some(rs[k]) else None
  {
    if rs == [] || Covers(rs[0], addr, len) {
      k := 0;
    } else {
      k := FirstCoverIsFirst(rs[1..], addr, len);
      k := k + 1;
    }
  }

  // ---- dt_map ---------------------------------------------------------------------------

  /** A translation and the window it came from, on the address's side. */
  datatype Mapped = Mapped(out: u32, start: u32, end: u32)

  function Clip(x: int): u32 {
    if x > 0xFFFF_FFFF || x < 0 then 0xFFFF_FFFF else x
  }

  /** The result of a covering record, in the code's 64-bit arithmetic. */
  function Through(r: Record, addr: int, len: int): Option<Mapped>
    requires Covers(r, addr, len)
  {
    var mapped := (r.to + (addr - r.from)) % TWO64;
    var end := (r.from + r.size) % TWO64;
    if mapped < TWO32 && 1 <= len && mapped + len <= TWO32
    then Some(Mapped(mapped, Clip(r.from), if end == 0 then 0xFFFF_FFFF else Clip(end)))
    else None
  }

  /** What dt_map() answers for a property of these records; an empty property maps every
      address to itself. */
  ghost function Translate(cells: seq<u32>, shape: Shape, toParent: bool, addr: u64, len: u64): Option<Mapped> {
    if cells == [] then
      if addr < TWO32 && 1 <= len && addr + len <= TWO32 then Some(Mapped(addr, 0, 0xFFFF_FFFF)) else None
    else Answer(Records(cells, shape, toParent), addr, len)
  }

  function Answer(rs: seq<Record>, addr: u64, len: u64): Option<Mapped> {
    match FirstCover(rs, addr, len)
    case None => None
    case Some(r) => Through(r, addr, len)
  }

  /** What the loop still has to find from position `at` on. */
  ghost function CoverFrom(cells: seq<u32>, at: nat, shape: Shape, toParent: bool, addr: u64, len: u64): Option<Record>
    requires at <= |cells|
  {
    FirstCover(Records(cells[at..], shape, toParent), addr, len)
  }

  /** The loop over the records: the first one whose offset test holds. */
  method Search(cells: seq<u32>, shape: Shape, toParent: bool, addr: u64, len: u64) returns (hit: Option<Record>)
    ensures hit == FirstCover(Records(cells, shape, toParent), addr, len)
  {
    var n := shape.Cells();
    hit := None;
    var at := 0;
    assert cells[0..] == cells;
    ghost var goal := CoverFrom(cells, 0, shape, toParent, addr, len);
    while hit.None? && n != 0 && |cells| - at >= n
      invariant 0 <= at <= |cells|
      invariant goal == if hit.Some? then hit else CoverFrom(cells, at, shape, toParent, addr, len)
      decreases |cells| - at
    {
      var r := ReadRecord(cells[at..at + n], shape, toParent);
      NextRecord(cells, at, shape, toParent, addr, len);
      if OffsetTest(r, addr, len) {
        hit := Some(r);
      }
      at := at + n;
    }
  }

  /** The last test of dt_map() and the outputs, in the code's 64-bit arithmetic. */
  function Finish(mapped: u64, start: u64, end: u64, len: u64): Option<Mapped> {
    if mapped > 0xFFFF_FFFF || (len - 1) % TWO64 > 0xFFFF_FFFF - mapped then None
    else Some(Mapped(mapped, if start > 0xFFFF_FFFF then 0xFFFF_FFFF else start,
                     if end > 0xFFFF_FFFF || end == 0 then 0xFFFF_FFFF else end))
  }

  lemma FinishTestsSpan(mapped: u64, start: u64, end: u64, len: u64)
    ensures Finish(mapped, start, end, len) ==
              if 1 <= len && mapped + len <= TWO32
              then Some(Mapped(mapped, Clip(start), if end == 0 then 0xFFFF_FFFF else Clip(end))) else None
  {
    if len == 0 {
      RemainderIs(len - 1, -1, TWO64 - 1);
    } else {
      RemainderIs(len - 1, 0, len - 1);
    }
  }

  /** dt_map() on a property that exists. */
  method Map(cells: seq<u32>, shape: Shape, toParent: bool, addr: u64, len: u64) returns (result: Option<Mapped>)
    ensures result == Translate(cells, shape, toParent, addr, len)
  {
    if cells == [] {
      FinishTestsSpan(addr, 0, 0, len);
      return Finish(addr, 0, 0, len);
    }
    var hit := Search(cells, shape, toParent, addr, len);
    if hit.None? {
      return None;
    }
    result := FinishRecord(hit.value, addr, len);
  }

  method FinishRecord(r: Record, addr: u64, len: u64) returns (result: Option<Mapped>)
    requires Covers(r, addr, len)
    ensures result == Through(r, addr, len)
  {
    var mapped := (r.to + (addr - r.from)) % TWO64;
    var end := (r.from + r.size) % TWO64;
    FinishTestsSpan(mapped, r.from, end, len);
    result := Finish(mapped, r.from, end, len);
  }

  method ReadRecord(cells: seq<u32>, shape: Shape, toParent: bool) returns (r: Record)
    requires |cells| == shape.Cells()
    ensures r == RecordOf(cells, shape, toParent)
  {
    var child := GetNumber(cells[..shape.child]);
    var parent := GetNumber(cells[shape.child..shape.child + shape.parent]);
    var size := GetNumber(cells[shape.child + shape.parent..]);
    r := if toParent then Record(child, parent, size) else Record(parent, child, size);
  }

  /** Records from position `at` on: the one there, then those behind it. */
  lemma NextRecord(cells: seq<u32>, at: nat, shape: Shape, toParent: bool, addr: u64, len: u64)
    requires shape.Cells() != 0 && at + shape.Cells() <= |cells|
    ensures var r := RecordOf(cells[at..at + shape.Cells()], shape, toParent);
            CoverFrom(cells, at, shape, toParent, addr, len) ==
              if OffsetTest(r, addr, len) then Some(r)
              else CoverFrom(cells, at + shape.Cells(), shape, toParent, addr, len)
  {
    var n := shape.Cells();
    var rs := Records(cells[at..], shape, toParent);
    assert cells[at..][..n] == cells[at..at + n] && cells[at..][n..] == cells[at + n..];
    assert rs[1..] == Records(cells[at + n..], shape, toParent);
    OffsetTestIsExact(rs[0], addr, len);
  }

  /** The offset tests accept exactly the spans that lie in the record. */
  lemma OffsetTestIsExact(r: Record, addr: u64, len: u64)
    ensures OffsetTest(r, addr, len) <==> Covers(r, addr, len)
    ensures len >= 1 ==> (OffsetTest(r, addr, len) <==> r.from <= addr && addr + len <= r.from + r.size)
  {
  }

  // ---- what a translation means --------------------------------------------------------------

  /** The code's 64-bit result is the record's constant-offset translation exactly when that
      translation does not leave 64 bits. */
  lemma ThroughIsExactIff(r: Record, addr: u64, len: u64)
    requires Covers(r, addr, len) && Through(r, addr, len).Some?
    ensures Through(r, addr, len).value.out == addr + (r.to - r.from) <==> r.to + (addr - r.from) < TWO64
    ensures Through(r, addr, len).value.out + len <= TWO32
  {
  }

  /** The input that shows it: the target side passes 2^64 inside the record, and address 5
      maps to 4. */
  lemma WrappingRecord()
    ensures var r := Record(0, 0xFFFF_FFFF_FFFF_FFFF, 16);
            Covers(r, 5, 1) && Through(r, 5, 1).Some? && Through(r, 5, 1).value.out == 4
  {
    RemainderIs(0xFFFF_FFFF_FFFF_FFFF + 5, 1, 4);
  }

  /** dt_map() on any property: no result without a covering record; with one whose
      translation of this address stays within 64 bits, success exactly when the result span
      fits 32 bits, and the result is the record's constant-offset translation; and a result
      through a record that wraps is never that. */
  lemma TranslateIsExact(cells: seq<u32>, shape: Shape, toParent: bool, addr: u64, len: u64)
    requires cells != []
    ensures var hit := FirstCover(Records(cells, shape, toParent), addr, len);
            var result := Translate(cells, shape, toParent, addr, len);
            && (hit.None? ==> result.None?)
            && (hit.Some? && hit.value.to + (addr - hit.value.from) < TWO64 ==>
                  (result.Some? <==> 1 <= len && addr + (hit.value.to - hit.value.from) + len <= TWO32))
            && (result.Some? ==>
                  (result.value.out == addr + (hit.value.to - hit.value.from) <==>
                      hit.value.to + (addr - hit.value.from) < TWO64))
  {
    var hit := FirstCover(Records(cells, shape, toParent), addr, len);
    if hit.Some? {
      if Through(hit.value, addr, len).Some? { ThroughIsExactIff(hit.value, addr, len); }
      if hit.value.to + (addr - hit.value.from) < TWO64 { ThroughWithoutWrap(hit.value, addr, len); }
    }
  }

  lemma ThroughWithoutWrap(r: Record, addr: u64, len: u64)
    requires Covers(r, addr, len) && r.to + (addr - r.from) < TWO64
    ensures Through(r, addr, len).Some? <==> 1 <= len && addr + (r.to - r.from) + len <= TWO32
    ensures Through(r, addr, len).Some? ==> Through(r, addr, len).value.out == addr + (r.to - r.from)
  {
    RemainderIs(r.to + (addr - r.from), 0, r.to + (addr - r.from));
  }

  // ---- the same on the cells of a property ------------------------------------------------

  /** The number in the `n` cells from `at` on. */
  ghost function Field(cells: seq<u32>, at: nat, n: nat): u64
    requires at + n <= |cells|
  {
    Low64(cells[at..at + n])
  }

  /** Where the k-th record starts. */
  function RecordStart(shape: Shape, k: nat): nat {
    Times(k, shape.Cells())
  }

  ghost predicate HasRecord(cells: seq<u32>, shape: Shape, k: nat) {
    shape.Cells() > 0 && RecordStart(shape, k) + shape.Cells() <= |cells|
  }

  /** Its three fields: an address on the bus, one on the parent's side, and a size. */
  ghost function ChildAddress(cells: seq<u32>, shape: Shape, k: nat): u64
    requires HasRecord(cells, shape, k)
  {
    Field(cells, RecordStart(shape, k), shape.child)
  }

  ghost function ParentAddress(cells: seq<u32>, shape: Shape, k: nat): u64
    requires HasRecord(cells, shape, k)
  {
    Field(cells, RecordStart(shape, k) + shape.child, shape.parent)
  }

  ghost function RangeSize(cells: seq<u32>, shape: Shape, k: nat): u64
    requires HasRecord(cells, shape, k)
  {
    Field(cells, RecordStart(shape, k) + shape.child + shape.parent, shape.size)
  }

  /** The k-th record by its fields, seen from the side the address is on. */
  ghost function FieldsOf(cells: seq<u32>, shape: Shape, toParent: bool, k: nat): Record
    requires HasRecord(cells, shape, k)
  {
    var c, p, z := ChildAddress(cells, shape, k), ParentAddress(cells, shape, k), RangeSize(cells, shape, k);
    if toParent then Record(c, p, z) else Record(p, c, z)
  }

  lemma FieldsBehind(cells: seq<u32>, shape: Shape, toParent: bool, k: nat)
    requires k > 0 && HasRecord(cells, shape, k)
    ensures HasRecord(cells[shape.Cells()..], shape, k - 1)
    ensures FieldsOf(cells[shape.Cells()..], shape, toParent, k - 1) == FieldsOf(cells, shape, toParent, k)
  {
    ChildBehind(cells, shape, k);
    ParentBehind(cells, shape, k);
    SizeBehind(cells, shape, k);
  }

  lemma ChildBehind(cells: seq<u32>, shape: Shape, k: nat)
    requires k > 0 && HasRecord(cells, shape, k)
    ensures HasRecord(cells[shape.Cells()..], shape, k - 1)
    ensures ChildAddress(cells[shape.Cells()..], shape, k - 1) == ChildAddress(cells, shape, k)
  {
    FieldOfRecordBehind(cells, shape, k, 0, shape.child);
  }

  lemma ParentBehind(cells: seq<u32>, shape: Shape, k: nat)
    requires k > 0 && HasRecord(cells, shape, k)
    ensures HasRecord(cells[shape.Cells()..], shape, k - 1)
    ensures ParentAddress(cells[shape.Cells()..], shape, k - 1) == ParentAddress(cells, shape, k)
  {
    FieldOfRecordBehind(cells, shape, k, shape.child, shape.parent);
  }

  lemma SizeBehind(cells: seq<u32>, shape: Shape, k: nat)
    requires k > 0 && HasRecord(cells, shape, k)
    ensures HasRecord(cells[shape.Cells()..], shape, k - 1)
    ensures RangeSize(cells[shape.Cells()..], shape, k - 1) == RangeSize(cells, shape, k)
  {
    FieldOfRecordBehind(cells, shape, k, shape.child + shape.parent, shape.size);
  }

  lemma FieldOfRecordBehind(cells: seq<u32>, shape: Shape, k: nat, off: nat, m: nat)
    requires k > 0 && HasRecord(cells, shape, k) && off + m <= shape.Cells()
    ensures HasRecord(cells[shape.Cells()..], shape, k - 1)
    ensures Field(cells[shape.Cells()..], RecordStart(shape, k - 1) + off, m) ==
            Field(cells, RecordStart(shape, k) + off, m)
  {
    StartBehind(shape, k);
    FieldBehind(cells, shape.Cells(), RecordStart(shape, k - 1) + off, m);
  }

  lemma StartBehind(shape: Shape, k: nat)
    requires k > 0
    ensures RecordStart(shape, k) == shape.Cells() + RecordStart(shape, k - 1)
  {
  }

  lemma {:induction false} RecordIs(cells: seq<u32>, shape: Shape, toParent: bool, k: nat)
    requires HasRecord(cells, shape, k)
    ensures k < |Records(cells, shape, toParent)|
    ensures Records(cells, shape, toParent)[k] == FieldsOf(cells, shape, toParent, k)
    decreases k
  {
    if k == 0 {
      FirstRecordIs(cells, shape, toParent);
    } else {
      FieldsBehind(cells, shape, toParent, k);
      RecordIs(cells[shape.Cells()..], shape, toParent, k - 1);
      RecordsBehind(cells, shape, toParent, k);
    }
  }

  lemma FieldBehind(cells: seq<u32>, n: nat, at: nat, m: nat)
    requires n + at + m <= |cells|
    ensures Field(cells[n..], at, m) == Field(cells, n + at, m)
  {
    assert cells[n..][at..at + m] == cells[n + at..n + at + m];
  }

  lemma RecordsBehind(cells: seq<u32>, shape: Shape, toParent: bool, k: nat)
    requires k > 0 && shape.Cells() > 0 && |cells| >= shape.Cells()
    ensures k - 1 < |Records(cells[shape.Cells()..], shape, toParent)| ==>
              && k < |Records(cells, shape, toParent)|
              && Records(cells, shape, toParent)[k] == Records(cells[shape.Cells()..], shape, toParent)[k - 1]
  {
  }

  lemma FirstRecordIs(cells: seq<u32>, shape: Shape, toParent: bool)
    requires HasRecord(cells, shape, 0)
    ensures |Records(cells, shape, toParent)| > 0
    ensures Records(cells, shape, toParent)[0] == FieldsOf(cells, shape, toParent, 0)
  {
    RecordOfIs(cells[..shape.Cells()], shape, toParent);
    FieldsOfPrefix(cells, shape, toParent);
  }

  lemma FieldInPrefix(cells: seq<u32>, n: nat, at: nat, m: nat)
    requires at + m <= n <= |cells|
    ensures Field(cells[..n], at, m) == Field(cells, at, m)
  {
    assert cells[..n][at..at + m] == cells[at..at + m];
  }

  lemma FieldsOfPrefix(cells: seq<u32>, shape: Shape, toParent: bool)
    requires HasRecord(cells, shape, 0)
    ensures var first, b := cells[..shape.Cells()], shape.child + shape.parent;
            var c, p := Field(first, 0, shape.child), Field(first, shape.child, shape.parent);
            var z := Field(first, b, shape.size);
            FieldsOf(cells, shape, toParent, 0) == if toParent then Record(c, p, z) else Record(p, c, z)
  {
    var n := shape.Cells();
    FieldInPrefix(cells, n, 0, shape.child);
    FieldInPrefix(cells, n, shape.child, shape.parent);
    FieldInPrefix(cells, n, shape.child + shape.parent, shape.size);
  }

  lemma RecordOfIs(first: seq<u32>, shape: Shape, toParent: bool)
    requires |first| == shape.Cells()
    ensures var b := shape.child + shape.parent;
            var c, p := Field(first, 0, shape.child), Field(first, shape.child, shape.parent);
            var z := Field(first, b, shape.size);
            RecordOf(first, shape, toParent) == if toParent then Record(c, p, z) else Record(p, c, z)
  {
    var b := shape.child + shape.parent;
    assert first[..shape.child] == first[0..0 + shape.child];
    assert first[b..] == first[b..b + shape.size];
  }

  lemma {:induction false} RecordsAreThere(cells: seq<u32>, shape: Shape, toParent: bool, k: nat)
    requires k < |Records(cells, shape, toParent)|
    ensures HasRecord(cells, shape, k)
    decreases k
  {
    if k > 0 {
      RecordsBehind(cells, shape, toParent, k);
      RecordsAreThere(cells[shape.Cells()..], shape, toParent, k - 1);
    }
  }

  /** The span lies in the k-th record on the side the address is on: the bus's own on the way
      to the parent, the parent's on the way back. */
  ghost predicate Contains(cells: seq<u32>, shape: Shape, toParent: bool, k: nat, addr: int, len: int) {
    HasRecord(cells, shape, k) &&
    var start := if toParent then ChildAddress(cells, shape, k) else ParentAddress(cells, shape, k);
    start <= addr < start + RangeSize(cells, shape, k) && addr + len <= start + RangeSize(cells, shape, k)
  }

  /** Where the k-th record takes an address: by its own distance from the record's start, from
      the bus's side to the parent's or back. */
  ghost function Moved(cells: seq<u32>, shape: Shape, toParent: bool, k: nat, addr: int): int
    requires HasRecord(cells, shape, k)
  {
    var c, p := ChildAddress(cells, shape, k), ParentAddress(cells, shape, k);
    if toParent then p + (addr - c) else c + (addr - p)
  }

  lemma ContainsIsCovers(cells: seq<u32>, shape: Shape, toParent: bool, k: nat, addr: int, len: int)
    requires HasRecord(cells, shape, k)
    ensures k < |Records(cells, shape, toParent)|
    ensures Contains(cells, shape, toParent, k, addr, len) <==> Covers(Records(cells, shape, toParent)[k], addr, len)
  {
    RecordIs(cells, shape, toParent, k);
  }

  /** dt_map() on the cells: the first record that contains the span decides. Where its
      translation stays within 64 bits, the result is that translation if the span then ends at
      or below 2^32, and nothing otherwise. */
  lemma MapsThroughFirst(cells: seq<u32>, shape: Shape, toParent: bool, addr: u64, len: u64, k: nat)
    requires Contains(cells, shape, toParent, k, addr, len)
    requires forall j :: 0 <= j < k ==> !Contains(cells, shape, toParent, j, addr, len)
    requires Moved(cells, shape, toParent, k, addr) < TWO64
    ensures var out := Moved(cells, shape, toParent, k, addr);
            if len >= 1 && out + len <= TWO32 then Yields(Translate(cells, shape, toParent, addr, len), out)
            else Translate(cells, shape, toParent, addr, len).None?
  {
    FirstContains(cells, shape, toParent, addr, len, k);
    MovedIs(cells, shape, toParent, k, addr);
    ThroughWithoutWrap(FieldsOf(cells, shape, toParent, k), addr, len);
  }

  lemma MovedIs(cells: seq<u32>, shape: Shape, toParent: bool, k: nat, addr: int)
    requires HasRecord(cells, shape, k)
    ensures var r := FieldsOf(cells, shape, toParent, k);
            Moved(cells, shape, toParent, k, addr) == r.to + (addr - r.from)
  {
  }

  lemma FirstContains(cells: seq<u32>, shape: Shape, toParent: bool, addr: u64, len: u64, k: nat)
    requires Contains(cells, shape, toParent, k, addr, len)
    requires forall j :: 0 <= j < k ==> !Contains(cells, shape, toParent, j, addr, len)
    ensures FirstCover(Records(cells, shape, toParent), addr, len) == Some(FieldsOf(cells, shape, toParent, k))
  {
    ContainsIsCovers(cells, shape, toParent, k, addr, len);
    RecordIs(cells, shape, toParent, k);
    var i := FirstCoverIsFirst(Records(cells, shape, toParent), addr, len);
    if i < k {
      RecordsAreThere(cells, shape, toParent, i);
      ContainsIsCovers(cells, shape, toParent, i, addr, len);
    }
  }

  /** Without such a record there is no translation. */
  lemma MapsThroughNone(cells: seq<u32>, shape: Shape, toParent: bool, addr: u64, len: u64)
    requires cells != [] && forall k: nat :: !Contains(cells, shape, toParent, k, addr, len)
    ensures Translate(cells, shape, toParent, addr, len).None?
  {
    var rs := Records(cells, shape, toParent);
    var i := FirstCoverIsFirst(rs, addr, len);
    if i < |rs| {
      RecordsAreThere(cells, shape, toParent, i);
      ContainsIsCovers(cells, shape, toParent, i, addr, len);
    }
  }

  /** An empty property maps every span that ends at or below 2^32 to itself, and no other. */
  lemma EmptyMapsToItself(shape: Shape, toParent: bool, addr: u64, len: u64)
    ensures Yields(Translate([], shape, toParent, addr, len), addr) <==> len >= 1 && addr + len <= TWO32
    ensures Translate([], shape, toParent, addr, len).Some? ==> Yields(Translate([], shape, toParent, addr, len), addr)
  {
  }

  /** The peripherals of a Raspberry Pi 4: the bus has them at 0x7E000000, the CPU at
      0xFE000000. */
  lemma PeripheralAddress(offset: u32)
    requires offset < 0x0180_0000
    ensures var cells: seq<u32> := [0x7E00_0000, 0xFE00_0000, 0x0180_0000];
            Yields(Translate(cells, Shape(1, 1, 1), true, 0x7E00_0000 + offset, 1), 0xFE00_0000 + offset)
  {
    var cells: seq<u32>, shape := [0x7E00_0000, 0xFE00_0000, 0x0180_0000], Shape(1, 1, 1);
    OneCell(cells[0..1]);
    OneCell(cells[1..2]);
    OneCell(cells[2..3]);
    assert RecordStart(shape, 0) == 0;
    MapsThroughFirst(cells, shape, true, 0x7E00_0000 + offset, 1, 0);
  }

  // ---- the window of DT_GetDmaWindow() -----------------------------------------------------

  /** A buffer of at least one byte inside [start, end). */
  predicate Within(a: int, size: int, start: int, end: int) {
    start <= a && 1 <= size && a + size <= end
  }

  /** The answer is a result at this address. */
  predicate Yields(m: Option<Mapped>, out: int) {
    m.Some? && m.value.out == out
  }

  /** Where the reported window of a record ends. */
  function WindowEnd(r: Record): int {
    if r.from + r.size > 0xFFFF_FFFF then 0xFFFF_FFFF else r.from + r.size
  }

  /** The window a translation reported is the record's extent, cut off at 4 GB on the
      address's side; a record that passes 2^64 there reports none. */
  lemma WindowIsExtent(r: Record, phys: u32, len: u32)
    requires Covers(r, phys, len) && Through(r, phys, len).Some?
    ensures var m := Through(r, phys, len).value;
            && m.start == r.from
            && (if r.from + r.size > TWO64 then m.end < m.start
                else if r.from + r.size > 0xFFFF_FFFF then m.end == 0xFFFF_FFFF
                else m.end == r.from + r.size)
  {
    if r.from + r.size < TWO64 {
      RemainderIs(r.from + r.size, 0, r.from + r.size);
    } else {
      RemainderIs(r.from + r.size, 1, r.from + r.size - TWO64);
    }
  }

  /** What the window promises: any buffer inside it translates through the same record, by
      the offset of the one address that was asked for. */
  ghost predicate WindowKept(r: Record, phys: u32, m: Mapped) {
    forall a: u32, size: u32 :: Within(a, size, m.start, m.end) ==>
      Covers(r, a, size) && Yields(Through(r, a, size), a + (m.out - phys))
  }

  /** The target side of the window lies below 4 GB; an empty window promises nothing. */
  predicate WindowFits(r: Record) {
    WindowEnd(r) <= r.from || r.to + (WindowEnd(r) - r.from) <= TWO32
  }

  /** The window is not cut off on the target side: the promise is kept if and only if that
      side fits. */
  lemma WindowTranslates(r: Record, phys: u32, len: u32)
    requires Covers(r, phys, len) && r.from + r.size <= TWO64 && r.to + r.size <= TWO64
    requires Through(r, phys, len).Some?
    ensures WindowKept(r, phys, Through(r, phys, len).value) <==> WindowFits(r)
  {
    var m := Through(r, phys, len).value;
    WindowIsExtent(r, phys, len);
    ThroughWithoutWrap(r, phys, len);
    if WindowFits(r) {
      forall a: u32, size: u32 | Within(a, size, m.start, m.end)
        ensures Covers(r, a, size) && Yields(Through(r, a, size), a + (m.out - phys))
      {
        ThroughWithoutWrap(r, a, size);
      }
    } else {
      var whole := m.end - m.start;
      assert Within(m.start, whole, m.start, m.end);
      ThroughWithoutWrap(r, m.start, whole);
    }
  }

  /** The input that shows it: a gigabyte whose target side passes 4 GB after a quarter. */
  lemma UnclippedWindow()
    ensures var r := Record(0, 0xF000_0000, 0x4000_0000);
            && Through(r, 0, 1) == Some(Mapped(0xF000_0000, 0, 0x4000_0000)) && !WindowFits(r)
            && Within(0x2000_0000, 1, 0, 0x4000_0000) && Covers(r, 0x2000_0000, 1) && Through(r, 0x2000_0000, 1).None?
  {
    var r := Record(0, 0xF000_0000, 0x4000_0000);
    ThroughWithoutWrap(r, 0, 1);
    WindowIsExtent(r, 0, 1);
    ThroughWithoutWrap(r, 0x2000_0000, 1);
  }

  // ---- the window and later lookups ------------------------------------------------------------

  function Max(x: int, y: int): int {
    if x < y then y else x
  }

  function Min(x: int, y: int): int {
    if x < y then x else y
  }

  /** Every lookup inside [start, end) has offset `d`. */
  ghost predicate LookupsAgree(rs: seq<Record>, start: u32, end: u32, d: int) {
    forall a: u32, size: u32 :: Within(a, size, start, end) ==> Yields(Answer(rs, a, size), a + d)
  }

  /** The part of [start, end) on a record's source side, if any, is translated by `d`. */
  predicate PartAgrees(rs: seq<Record>, r: Record, start: u32, end: u32, d: int) {
    var a, b := Max(r.from, start), Min(r.from + r.size, end);
    a < b ==> Yields(Answer(rs, a, b - a), a + d)
  }

  /** The test on the table: one lookup per record that meets the window. */
  predicate PartsAgree(rs: seq<Record>, start: u32, end: u32, d: int) {
    forall k :: 0 <= k < |rs| ==> PartAgrees(rs, rs[k], start, end, d)
  }

  /** A record that is the first to cover a buffer is the first to cover all it has of the
      window. */
  lemma FirstCoverOfPart(rs: seq<Record>, a: int, size: int, start: int, end: int) returns (k: nat)
    requires Within(a, size, start, end) && FirstCover(rs, a, size).Some?
    ensures k < |rs| && FirstCover(rs, a, size) == Some(rs[k])
    ensures var x, y := Max(rs[k].from, start), Min(rs[k].from + rs[k].size, end);
            x <= a && a + size <= y && FirstCover(rs, x, y - x) == Some(rs[k])
  {
    k := FirstCoverIsFirst(rs, a, size);
    var x, y := Max(rs[k].from, start), Min(rs[k].from + rs[k].size, end);
    var j := FirstCoverIsFirst(rs, x, y - x);
    assert Covers(rs[k], x, y - x);
    assert Covers(rs[j], a, size);
  }

  /** A record translates the parts of a span as it translates the span. */
  lemma ThroughParts(r: Record, x: u32, n: u32, a: u32, size: u32)
    requires Covers(r, x, n) && Within(a, size, x, x + n) && Through(r, x, n).Some?
    ensures Covers(r, a, size) && Yields(Through(r, a, size), a + (Through(r, x, n).value.out - x))
  {
    var q := (r.to + (x - r.from)) / TWO64;
    var out := (r.to + (x - r.from)) % TWO64;
    RemainderIs(r.to + (a - r.from), q, out + (a - x));
  }

  /** A buffer inside a window from this table has a covering record. */
  lemma WindowIsCovered(rs: seq<Record>, phys: u32, len: u32, a: u32, size: u32)
    requires Answer(rs, phys, len).Some?
    requires var m := Answer(rs, phys, len).value; Within(a, size, m.start, m.end)
    ensures FirstCover(rs, a, size).Some?
  {
    var k := FirstCoverIsFirst(rs, phys, len);
    WindowIsExtent(rs[k], phys, len);
    assert Covers(rs[k], a, size);
    var j := FirstCoverIsFirst(rs, a, size);
  }

  /** A buffer inside the window is translated as the part of the window is that its record
      meets. */
  lemma PartsDecide(rs: seq<Record>, start: u32, end: u32, d: int, a: u32, size: u32)
    requires Within(a, size, start, end) && FirstCover(rs, a, size).Some? && PartsAgree(rs, start, end, d)
    ensures Yields(Answer(rs, a, size), a + d)
  {
    var k := FirstCoverOfPart(rs, a, size, start, end);
    assert PartAgrees(rs, rs[k], start, end, d);
    var x, y := Max(rs[k].from, start), Min(rs[k].from + rs[k].size, end);
    ThroughParts(rs[k], x, y - x, a, size);
  }

  lemma LookupDecidesPart(rs: seq<Record>, r: Record, start: u32, end: u32, d: int)
    requires LookupsAgree(rs, start, end, d)
    ensures PartAgrees(rs, r, start, end, d)
  {
    var a, b := Max(r.from, start), Min(r.from + r.size, end);
    if a < b { assert Within(a, b - a, start, end); }
  }

  /** For any table and any window it gave: every later lookup inside the window has the
      window's offset if and only if one lookup per record has it, of the part of the window
      that the record meets. */
  lemma WindowAgreesIff(rs: seq<Record>, phys: u32, len: u32)
    requires Answer(rs, phys, len).Some?
    ensures var m := Answer(rs, phys, len).value;
            LookupsAgree(rs, m.start, m.end, m.out - phys) <==> PartsAgree(rs, m.start, m.end, m.out - phys)
  {
    var m := Answer(rs, phys, len).value;
    var d := m.out - phys;
    if LookupsAgree(rs, m.start, m.end, d) {
      forall k | 0 <= k < |rs| ensures PartAgrees(rs, rs[k], m.start, m.end, d) {
        LookupDecidesPart(rs, rs[k], m.start, m.end, d);
      }
    }
    if PartsAgree(rs, m.start, m.end, d) {
      forall a: u32, size: u32 | Within(a, size, m.start, m.end) ensures Yields(Answer(rs, a, size), a + d) {
        WindowIsCovered(rs, phys, len, a, size);
        PartsDecide(rs, m.start, m.end, d, a, size);
      }
    }
  }

  ghost predicate SourcesApart(rs: seq<Record>) {
    forall i, j | 0 <= i < j < |rs| :: rs[i].from + rs[i].size <= rs[j].from || rs[j].from + rs[j].size <= rs[i].from
  }

  /** Records whose source sides are apart pass the test for every window that fits: looking up
      a buffer inside it gives the very address the window promises. */
  lemma WindowAgreesWithLookup(rs: seq<Record>, phys: u32, len: u32)
    requires Answer(rs, phys, len).Some? && SourcesApart(rs)
    requires var r := FirstCover(rs, phys, len).value;
             r.from + r.size <= TWO64 && r.to + r.size <= TWO64 && WindowFits(r)
    ensures var m := Answer(rs, phys, len).value;
            LookupsAgree(rs, m.start, m.end, m.out - phys)
  {
    var i := FirstCoverIsFirst(rs, phys, len);
    var m := Answer(rs, phys, len).value;
    WindowIsExtent(rs[i], phys, len);
    WindowTranslates(rs[i], phys, len);
    forall k | 0 <= k < |rs| ensures PartAgrees(rs, rs[k], m.start, m.end, m.out - phys) {
      ApartPartAgrees(rs, i, k, m, phys);
    }
    WindowAgreesIff(rs, phys, len);
  }

  lemma ApartPartAgrees(rs: seq<Record>, i: nat, k: nat, m: Mapped, phys: u32)
    requires i < |rs| && k < |rs| && SourcesApart(rs) && WindowKept(rs[i], phys, m)
    requires rs[i].from <= m.start && m.end <= rs[i].from + rs[i].size
    ensures PartAgrees(rs, rs[k], m.start, m.end, m.out - phys)
  {
    var a, b := Max(rs[k].from, m.start), Min(rs[k].from + rs[k].size, m.end);
    if a < b {
      assert k == i;
      assert Within(a, b - a, m.start, m.end);
      OnlyCover(rs, i, a, b - a);
    }
  }

  lemma OnlyCover(rs: seq<Record>, i: nat, addr: int, len: int)
    requires SourcesApart(rs) && i < |rs| && Covers(rs[i], addr, len) && len >= 1
    ensures FirstCover(rs, addr, len) == Some(rs[i])
  {
    var k := FirstCoverIsFirst(rs, addr, len);
  }

  /** With overlapping records the promise can fail: this table gives a window from its second
      record, and looking up a smaller buffer inside it finds the first. */
  lemma OverlapBreaksWindow()
    ensures var cells: seq<u32>, shape := [0x8000, 0x1000, 0x100, 0x10_0000, 0, 0x1_0000], Shape(1, 1, 1);
            && Translate(cells, shape, false, 0, 0x2000) == Some(Mapped(0x10_0000, 0, 0x1_0000))
            && Yields(Translate(cells, shape, false, 0x1000, 0x10), 0x8000)
            && !PartsAgree(Records(cells, shape, false), 0, 0x1_0000, 0x10_0000)
  {
    var cells: seq<u32>, shape := [0x8000, 0x1000, 0x100, 0x10_0000, 0, 0x1_0000], Shape(1, 1, 1);
    var rs := [Record(0x1000, 0x8000, 0x100), Record(0, 0x10_0000, 0x1_0000)];
    assert Records(cells, shape, false) == rs by {
      OneCellRecord(cells[..3]);
      assert cells[3..][..3] == cells[3..] && cells[3..][3..] == [];
      OneCellRecord(cells[3..]);
    }
    assert rs[1..] == [rs[1]] && rs[1..][0] == rs[1];
    ThroughWithoutWrap(rs[1], 0, 0x2000);
    WindowIsExtent(rs[1], 0, 0x2000);
    ThroughWithoutWrap(rs[0], 0x1000, 0x10);
    ThroughWithoutWrap(rs[0], 0x1000, 0x100);
    assert !PartAgrees(rs, rs[0], 0, 0x1_0000, 0x10_0000);
  }

  lemma OneCellRecord(cells: seq<u32>)
    requires |cells| == 3
    ensures RecordOf(cells, Shape(1, 1, 1), false) == Record(cells[1], cells[0], cells[2])
  {
    OneCell(cells[..1]);
    OneCell(cells[1..2]);
    OneCell(cells[2..3]);
  }

  lemma OneCell(cells: seq<u32>)
    requires |cells| == 1
    ensures Low64(cells) == cells[0]
  {
    assert cells[..|cells| - 1] == [];
    assert BigEndian(cells) == 0 * TWO32 + cells[0];
    RemainderIs(cells[0], 0, cells[0]);
  }

  /** DT_GetDmaWindow() and DT_GetDmaAddress() refuse an empty span before looking. */
  method DmaWindow(ranges: Option<seq<u32>>, shape: Shape, phys: u32, len: u32) returns (result: Option<Mapped>)
    ensures len == 0 || ranges.None? ==> result.None?
    ensures len != 0 && ranges.Some? ==> result == Translate(ranges.value, shape, false, phys, len)
  {
    if len == 0 || ranges.None? {
      return None;
    }
    result := Map(ranges.value, shape, false, phys, len);
  }

  // ---- DT_GetBaseAddressVirtual() ------------------------------------------------------------

  /** The test for the index-th "reg" record may pass through a product that wrapped. Once it
      has passed, the cells that are read are that record and lie in the property if and only
      if the record's end fits 32 bits. */
  lemma RegTestIsExactIff(reg: seq<u32>, addrCells: u32, sizeCells: u32, index: u32)
    requires |reg| < TWO32 && Times(Add32(index, 1), Add32(addrCells, sizeCells)) % TWO32 <= |reg|
    ensures (var at, record := Times(index, Add32(addrCells, sizeCells)) % TWO32, addrCells + sizeCells;
             at == Times(index, record) && at + record <= |reg|) <==> Times(index + 1, addrCells + sizeCells) < TWO32
  {
    var record := addrCells + sizeCells;
    TimesAtLeast(index + 1, record);
    assert Times(index + 1, record) == record + Times(index, record);
    if Times(index + 1, record) < TWO32 && record > 0 {
      assert Add32(index, 1) == index + 1 && Add32(addrCells, sizeCells) == record;
      Low32(Times(index, record));
      Low32(Times(index + 1, record));
    }
  }

  lemma Low32(x: nat)
    requires x < TWO32
    ensures x % TWO32 == x
  {
  }

  /** The input that shows it: record 2^31 - 1 of two cells each passes the test on an empty
      property, and is read from far outside it. */
  lemma RegTestWraps()
    ensures Times(Add32(0x7FFF_FFFF, 1), 2) % TWO32 == 0 && Times(0x7FFF_FFFF, 2) % TWO32 == 0xFFFF_FFFE
  {
    TimesIsProduct(0x8000_0000, 2);
    TimesIsProduct(0x7FFF_FFFF, 2);
  }

  /** What the call comes to: `Wild` is a read outside the property. */
  datatype Base = Nothing | At(virt: u32) | Wild

  /** The address in these cells through the bus's "ranges", which may be missing. */
  ghost function BaseThrough(cells: seq<u32>, ranges: Option<seq<u32>>, shape: Shape): Base {
    if ranges.None? then Nothing
    else
      match Translate(ranges.value, shape, true, Low64(cells), 1)
      case None => Nothing
      case Some(m) => At(m.out)
  }

  /** DT_GetBaseAddressVirtual(): the index-th "reg" record through the bus's "ranges". */
  method BaseAddress(reg: seq<u32>, addrCells: u32, sizeCells: u32, index: u32,
                     ranges: Option<seq<u32>>, parentCells: nat) returns (result: Base)
    requires |reg| < TWO32
    ensures Times(index + 1, addrCells + sizeCells) < TWO32 ==> !result.Wild?
    ensures Times(index + 1, addrCells + sizeCells) < TWO32 &&
            (addrCells == 0 || |reg| < Times(index + 1, addrCells + sizeCells)) ==>
              result.Nothing?
    ensures addrCells > 0 && Times(index + 1, addrCells + sizeCells) <= |reg| ==>
              var at := Times(index, addrCells + sizeCells);
              result == BaseThrough(reg[at..at + addrCells], ranges, Shape(addrCells, parentCells, sizeCells))
  {
    var record := Add32(addrCells, sizeCells);
    TimesAtLeast(index + 1, addrCells + sizeCells);
    if addrCells == 0 || |reg| < Times(Add32(index, 1), record) % TWO32 {
      return Nothing;
    }
    RegTestIsExactIff(reg, addrCells, sizeCells, index);
    var at := Times(index, record) % TWO32;
    if at + addrCells > |reg| {
      return Wild;
    }
    if ranges.None? {
      return Nothing;
    }
    var addr := GetNumber(reg[at..at + addrCells]);
    var m := Map(ranges.value, Shape(addrCells, parentCells, sizeCells), true, addr, 1);
    result := if m.Some? then At(m.value.out) else Nothing;
  }
}
