/** dma_mem_init() of src/dma_mem.c, which finds the memory headers that are Pi DRAM, and
    dma_addr_reachable() of include/dma_mem.h, which tests an address against them. */
module DmaRegions {
  import opened Machine
  import DT = DeviceTree

  const DMA_MEM_2GB := 0x8000_0000
  const DMA_MEM_MAX_REGIONS := 8

  datatype Range = Range(start: u32, end: u32)

  /** An entry of the system's memory list; `fast`: MEMF_FAST is set. */
  datatype SysHeader = SysHeader(lower: u32, upper: u32, fast: bool)

  // ---- the windows of /memory -------------------------------------------------------------

  /** The part of a /memory record below 2 GB; nothing if it starts above or is empty. */
  function WindowOf(base: DT.u64, size: DT.u64): (w: Option<Range>)
    ensures w.Some? <==> base < DMA_MEM_2GB && size > 0
    ensures w.Some? ==> w.value.start == base
    ensures w.Some? ==> w.value.end == if base + size < DMA_MEM_2GB then base + size else DMA_MEM_2GB
  {
    if base >= DMA_MEM_2GB || size == 0 then None
    else
      var end := (base + size) % DT.TWO64;
      Some(Range(base, if end < base || end > DMA_MEM_2GB then DMA_MEM_2GB else end))
  }

  /** The windows of a "reg" property, at most `room` of them. */
  ghost function Windows(cells: seq<u32>, ac: nat, sc: nat, room: nat): (ws: seq<Range>)
    requires ac + sc > 0
    ensures |ws| <= room
    decreases |cells|
  {
    if |cells| < ac + sc || room == 0 then []
    else
      match WindowOf(DT.Low64(cells[..ac]), DT.Low64(cells[ac..ac + sc]))
      case None => Windows(cells[ac + sc..], ac, sc, room)
      case Some(w) => [w] + Windows(cells[ac + sc..], ac, sc, room - 1)
  }

  ghost predicate BelowLimit(ws: seq<Range>) {
    forall i :: 0 <= i < |ws| ==> ws[i].start < ws[i].end <= DMA_MEM_2GB
  }

  lemma {:induction false} WindowsBelowLimit(cells: seq<u32>, ac: nat, sc: nat, room: nat)
    requires ac + sc > 0
    ensures BelowLimit(Windows(cells, ac, sc, room))
    decreases |cells|
  {
    if |cells| >= ac + sc && room > 0 {
      var w := WindowOf(DT.Low64(cells[..ac]), DT.Low64(cells[ac..ac + sc]));
      WindowsBelowLimit(cells[ac + sc..], ac, sc, if w.None? then room else room - 1);
    }
  }

  ghost function WindowsFrom(reg: seq<u32>, pos: nat, ac: nat, sc: nat, room: nat): seq<Range>
    requires ac + sc > 0 && pos <= |reg|
  {
    Windows(reg[pos..], ac, sc, room)
  }

  /** What the record at `pos` contributes. */
  ghost function WindowAt(reg: seq<u32>, pos: nat, ac: nat, sc: nat): Option<Range>
    requires pos + ac + sc <= |reg|
  {
    WindowOf(DT.Low64(reg[pos..pos + ac]), DT.Low64(reg[pos + ac..pos + ac + sc]))
  }

  lemma NextWindow(reg: seq<u32>, pos: nat, ac: nat, sc: nat, room: nat)
    requires ac + sc > 0 && pos + ac + sc <= |reg| && room > 0
    ensures var w := WindowAt(reg, pos, ac, sc);
            WindowsFrom(reg, pos, ac, sc, room) ==
              if w.None? then WindowsFrom(reg, pos + ac + sc, ac, sc, room)
              else [w.value] + WindowsFrom(reg, pos + ac + sc, ac, sc, room - 1)
  {
    assert reg[pos..][..ac] == reg[pos..pos + ac];
    assert reg[pos..][ac..ac + sc] == reg[pos + ac..pos + ac + sc];
    assert reg[pos..][ac + sc..] == reg[pos + ac + sc..];
  }

  method ReadWindow(reg: seq<u32>, pos: nat, ac: nat, sc: nat) returns (w: Option<Range>)
    requires pos + ac + sc <= |reg|
    ensures w == WindowAt(reg, pos, ac, sc)
  {
    var base := DT.GetNumber(reg[pos..pos + ac]);
    var size := DT.GetNumber(reg[pos + ac..pos + ac + sc]);
    w := WindowOf(base, size);
  }

  /** The variables of the first loop of dma_mem_init(). */
  datatype Scan = Scan(pos: nat, windows: seq<Range>)

  predicate Goes(reg: seq<u32>, ac: nat, sc: nat, s: Scan) {
    s.pos + ac + sc <= |reg| && |s.windows| < DMA_MEM_MAX_REGIONS
  }

  /** One turn of it. */
  ghost function Turn(reg: seq<u32>, ac: nat, sc: nat, s: Scan): Scan
    requires Goes(reg, ac, sc, s)
  {
    var w := WindowAt(reg, s.pos, ac, sc);
    Scan(s.pos + ac + sc, if w.Some? then s.windows + [w.value] else s.windows)
  }

  /** `n` turns, or as many as there are. */
  ghost function Turns(reg: seq<u32>, ac: nat, sc: nat, n: nat): Scan {
    if n == 0 then Scan(0, [])
    else
      var s := Turns(reg, ac, sc, n - 1);
      if Goes(reg, ac, sc, s) then Turn(reg, ac, sc, s) else s
  }

  ghost predicate Ends(reg: seq<u32>, ac: nat, sc: nat, n: nat) {
    !Goes(reg, ac, sc, Turns(reg, ac, sc, n))
  }

  lemma {:induction false} TurnsAdvance(reg: seq<u32>, ac: nat, sc: nat, n: nat)
    requires ac + sc > 0
    ensures Ends(reg, ac, sc, n) || Turns(reg, ac, sc, n).pos >= n
  {
    if n > 0 { TurnsAdvance(reg, ac, sc, n - 1); }
  }

  /** A record of no cells has size 0, is skipped, and is read again. */
  lemma {:induction false} NoCellsNoProgress(reg: seq<u32>, n: nat)
    ensures Turns(reg, 0, 0, n) == Scan(0, [])
  {
    if n > 0 {
      NoCellsNoProgress(reg, n - 1);
      assert reg[0..0] == [];
      assert DT.Low64([]) == 0;
    }
  }

  /** The loop ends, on any property, if and only if a record has cells. */
  lemma LoopEndsIff(reg: seq<u32>, ac: nat, sc: nat)
    ensures (exists n: nat :: Ends(reg, ac, sc, n)) <==> ac + sc > 0
  {
    if ac + sc > 0 {
      TurnsAdvance(reg, ac, sc, |reg| + 1);
      assert Ends(reg, ac, sc, |reg| + 1);
    } else {
      forall n: nat ensures !Ends(reg, ac, sc, n) { NoCellsNoProgress(reg, n); }
    }
  }

  /** What is found so far and what the rest of the property holds. */
  ghost function Outlook(reg: seq<u32>, ac: nat, sc: nat, s: Scan): seq<Range>
    requires ac + sc > 0 && s.pos <= |reg| && |s.windows| <= DMA_MEM_MAX_REGIONS
  {
    s.windows + WindowsFrom(reg, s.pos, ac, sc, DMA_MEM_MAX_REGIONS - |s.windows|)
  }

  lemma AppendThenRest(done: seq<Range>, w: Range, rest: seq<Range>)
    ensures done + [w] + rest == done + ([w] + rest)
  {
  }

  lemma TurnKeepsOutlook(reg: seq<u32>, ac: nat, sc: nat, s: Scan)
    requires ac + sc > 0 && Goes(reg, ac, sc, s)
    ensures Outlook(reg, ac, sc, Turn(reg, ac, sc, s)) == Outlook(reg, ac, sc, s)
  {
    var room := DMA_MEM_MAX_REGIONS - |s.windows|;
    NextWindow(reg, s.pos, ac, sc, room);
    var w := WindowAt(reg, s.pos, ac, sc);
    if w.Some? {
      AppendThenRest(s.windows, w.value, WindowsFrom(reg, s.pos + ac + sc, ac, sc, room - 1));
    }
  }

  lemma OutlookAtEnd(reg: seq<u32>, ac: nat, sc: nat, s: Scan)
    requires ac + sc > 0 && s.pos <= |reg| && |s.windows| <= DMA_MEM_MAX_REGIONS && !Goes(reg, ac, sc, s)
    ensures Outlook(reg, ac, sc, s) == s.windows
  {
  }

  lemma OutlookAtStart(reg: seq<u32>, ac: nat, sc: nat)
    requires ac + sc > 0
    ensures Outlook(reg, ac, sc, Scan(0, [])) == Windows(reg, ac, sc, DMA_MEM_MAX_REGIONS)
  {
    assert reg[0..] == reg;
  }

  ghost predicate OnTrack(reg: seq<u32>, ac: nat, sc: nat, s: Scan, all: seq<Range>)
    requires ac + sc > 0
  {
    s.pos <= |reg| && |s.windows| <= DMA_MEM_MAX_REGIONS && Outlook(reg, ac, sc, s) == all
  }

  lemma TurnStaysOnTrack(reg: seq<u32>, ac: nat, sc: nat, s: Scan, all: seq<Range>)
    requires ac + sc > 0 && OnTrack(reg, ac, sc, s, all) && Goes(reg, ac, sc, s)
    ensures OnTrack(reg, ac, sc, Turn(reg, ac, sc, s), all)
  {
    TurnKeepsOutlook(reg, ac, sc, s);
  }

  lemma TurnsOnce(reg: seq<u32>, ac: nat, sc: nat, n: nat, s: Scan)
    requires n > 0 && s == Turns(reg, ac, sc, n - 1)
    ensures Turns(reg, ac, sc, n) == if Goes(reg, ac, sc, s) then Turn(reg, ac, sc, s) else s
  {
  }

  /** Every turn keeps the outlook, which is that of the first. */
  lemma {:induction false} TurnsStayOnTrack(reg: seq<u32>, ac: nat, sc: nat, n: nat, all: seq<Range>)
    requires ac + sc > 0 && OnTrack(reg, ac, sc, Scan(0, []), all)
    ensures OnTrack(reg, ac, sc, Turns(reg, ac, sc, n), all)
  {
    if n > 0 {
      TurnsStayOnTrack(reg, ac, sc, n - 1, all);
      var s := Turns(reg, ac, sc, n - 1);
      TurnsOnce(reg, ac, sc, n, s);
      if Goes(reg, ac, sc, s) { TurnStaysOnTrack(reg, ac, sc, s, all); }
    }
  }

  /** Where the loop ends it has found the windows of the property. */
  lemma EndsWithWindows(reg: seq<u32>, ac: nat, sc: nat, n: nat)
    requires ac + sc > 0 && Ends(reg, ac, sc, n)
    ensures Turns(reg, ac, sc, n).windows == Windows(reg, ac, sc, DMA_MEM_MAX_REGIONS)
  {
    OutlookAtStart(reg, ac, sc);
    TurnsStayOnTrack(reg, ac, sc, n, Windows(reg, ac, sc, DMA_MEM_MAX_REGIONS));
    OutlookAtEnd(reg, ac, sc, Turns(reg, ac, sc, n));
  }

  /** The first loop of dma_mem_init(), where it ends. */
  method ParseWindows(reg: seq<u32>, addrCells: nat, sizeCells: nat) returns (windows: seq<Range>)
    requires addrCells + sizeCells > 0
    ensures exists n: nat ::
              Ends(reg, addrCells, sizeCells, n) && windows == Turns(reg, addrCells, sizeCells, n).windows
    ensures windows == Windows(reg, addrCells, sizeCells, DMA_MEM_MAX_REGIONS)
    ensures BelowLimit(windows)
  {
    windows := [];
    var pos := 0;
    ghost var n := 0;
    while pos + addrCells + sizeCells <= |reg| && |windows| < DMA_MEM_MAX_REGIONS
      invariant 0 <= pos <= |reg| && Scan(pos, windows) == Turns(reg, addrCells, sizeCells, n)
      decreases |reg| - pos
    {
      TurnsOnce(reg, addrCells, sizeCells, n + 1, Scan(pos, windows));
      var w := ReadWindow(reg, pos, addrCells, sizeCells);
      pos := pos + addrCells + sizeCells;
      if w.Some? {
        windows := windows + [w.value];
      }
      n := n + 1;
    }
    assert Ends(reg, addrCells, sizeCells, n);
    EndsWithWindows(reg, addrCells, sizeCells, n);
    WindowsBelowLimit(reg, addrCells, sizeCells, DMA_MEM_MAX_REGIONS);
  }

  // ---- what a window is, by the cells -------------------------------------------------------

  /** The k-th record of the property: an address, then a size. */
  ghost predicate HasRecord(cells: seq<u32>, ac: nat, sc: nat, k: nat) {
    Times(k, ac + sc) + ac + sc <= |cells|
  }

  ghost function Base(cells: seq<u32>, ac: nat, sc: nat, k: nat): DT.u64
    requires HasRecord(cells, ac, sc, k)
  {
    DT.Field(cells, Times(k, ac + sc), ac)
  }

  ghost function Size(cells: seq<u32>, ac: nat, sc: nat, k: nat): DT.u64
    requires HasRecord(cells, ac, sc, k)
  {
    DT.Field(cells, Times(k, ac + sc) + ac, sc)
  }

  /** The window is the part of the k-th record below 2 GB, and there is some. */
  ghost predicate IsRecord(cells: seq<u32>, ac: nat, sc: nat, k: nat, w: Range) {
    && HasRecord(cells, ac, sc, k)
    && w.start == Base(cells, ac, sc, k) < DMA_MEM_2GB
    && Size(cells, ac, sc, k) > 0
    && w.end == if w.start + Size(cells, ac, sc, k) < DMA_MEM_2GB then w.start + Size(cells, ac, sc, k) else DMA_MEM_2GB
  }

  ghost function Upto(cells: seq<u32>, ac: nat, sc: nat, k: nat): seq<u32>
    requires HasRecord(cells, ac, sc, k)
  {
    cells[..Times(k, ac + sc)]
  }

  /** The records behind the first. */
  lemma FieldsBehind(cells: seq<u32>, ac: nat, sc: nat, k: nat)
    requires k > 0 && HasRecord(cells, ac, sc, k)
    ensures ac + sc <= |cells| && HasRecord(cells[ac + sc..], ac, sc, k - 1)
    ensures Base(cells[ac + sc..], ac, sc, k - 1) == Base(cells, ac, sc, k)
    ensures Size(cells[ac + sc..], ac, sc, k - 1) == Size(cells, ac, sc, k)
  {
    DT.FieldBehind(cells, ac + sc, Times(k - 1, ac + sc), ac);
    DT.FieldBehind(cells, ac + sc, Times(k - 1, ac + sc) + ac, sc);
  }

  lemma RecordBehind(cells: seq<u32>, ac: nat, sc: nat, k: nat, w: Range)
    requires k > 0 && ac + sc <= |cells|
    ensures IsRecord(cells[ac + sc..], ac, sc, k - 1, w) <==> IsRecord(cells, ac, sc, k, w)
  {
    assert HasRecord(cells[ac + sc..], ac, sc, k - 1) <==> HasRecord(cells, ac, sc, k);
    if HasRecord(cells, ac, sc, k) { FieldsBehind(cells, ac, sc, k); }
  }

  /** The first record's window, if it has one. */
  ghost function FirstWindow(cells: seq<u32>, ac: nat, sc: nat): Option<Range>
    requires ac + sc <= |cells|
  {
    WindowOf(DT.Low64(cells[..ac]), DT.Low64(cells[ac..ac + sc]))
  }

  /** The first record, as Windows() takes it. */
  lemma FirstRecord(cells: seq<u32>, ac: nat, sc: nat, w: Range)
    requires ac + sc <= |cells|
    ensures IsRecord(cells, ac, sc, 0, w) <==> FirstWindow(cells, ac, sc) == Some(w)
  {
    assert cells[0..0 + ac] == cells[..ac];
  }

  lemma UptoParts(cells: seq<u32>, ac: nat, sc: nat, k: nat)
    requires k > 0 && HasRecord(cells, ac, sc, k)
    ensures ac + sc <= |Upto(cells, ac, sc, k)| <= |cells| && HasRecord(cells[ac + sc..], ac, sc, k - 1)
    ensures Upto(cells, ac, sc, k)[..ac] == cells[..ac]
    ensures Upto(cells, ac, sc, k)[ac..ac + sc] == cells[ac..ac + sc]
    ensures Upto(cells, ac, sc, k)[ac + sc..] == Upto(cells[ac + sc..], ac, sc, k - 1)
  {
  }

  /** The windows of the records before the k-th, counted from the second record on. */
  lemma UptoBehind(cells: seq<u32>, ac: nat, sc: nat, room: nat, k: nat)
    requires ac + sc > 0 && room > 0 && k > 0 && HasRecord(cells, ac, sc, k)
    ensures ac + sc <= |cells| && HasRecord(cells[ac + sc..], ac, sc, k - 1)
    ensures var w := FirstWindow(cells, ac, sc);
            var rest := Upto(cells[ac + sc..], ac, sc, k - 1);
            Windows(Upto(cells, ac, sc, k), ac, sc, room) ==
              if w.None? then Windows(rest, ac, sc, room) else [w.value] + Windows(rest, ac, sc, room - 1)
  {
    UptoParts(cells, ac, sc, k);
  }

  /** The i-th window is that of the k-th record, and i windows come of those before it. */
  ghost predicate ComesFrom(cells: seq<u32>, ac: nat, sc: nat, room: nat, i: nat, k: nat) {
    && ac + sc > 0 && i < |Windows(cells, ac, sc, room)|
    && IsRecord(cells, ac, sc, k, Windows(cells, ac, sc, room)[i])
    && |Windows(Upto(cells, ac, sc, k), ac, sc, room)| == i
  }

  lemma FirstComesFrom(cells: seq<u32>, ac: nat, sc: nat, room: nat)
    requires 0 < ac + sc <= |cells| && room > 0 && FirstWindow(cells, ac, sc).Some?
    ensures ComesFrom(cells, ac, sc, room, 0, 0)
  {
    FirstRecord(cells, ac, sc, FirstWindow(cells, ac, sc).value);
    assert Upto(cells, ac, sc, 0) == [];
  }

  lemma SkippedComesFrom(cells: seq<u32>, ac: nat, sc: nat, room: nat, i: nat, k: nat)
    requires 0 < ac + sc <= |cells| && room > 0 && FirstWindow(cells, ac, sc).None?
    requires ComesFrom(cells[ac + sc..], ac, sc, room, i, k)
    ensures ComesFrom(cells, ac, sc, room, i, k + 1)
  {
    var w := Windows(cells[ac + sc..], ac, sc, room)[i];
    RecordBehind(cells, ac, sc, k + 1, w);
    UptoBehind(cells, ac, sc, room, k + 1);
  }

  lemma NextComesFrom(cells: seq<u32>, ac: nat, sc: nat, room: nat, i: nat, k: nat)
    requires 0 < ac + sc <= |cells| && room > 0 && FirstWindow(cells, ac, sc).Some?
    requires ComesFrom(cells[ac + sc..], ac, sc, room - 1, i, k)
    ensures ComesFrom(cells, ac, sc, room, i + 1, k + 1)
  {
    var w := Windows(cells[ac + sc..], ac, sc, room - 1)[i];
    RecordBehind(cells, ac, sc, k + 1, w);
    UptoBehind(cells, ac, sc, room, k + 1);
  }

  /** Every window is the part of some record below 2 GB, and they stand in record order. */
  lemma {:induction false} WindowIsRecord(cells: seq<u32>, ac: nat, sc: nat, room: nat, i: nat) returns (k: nat)
    requires ac + sc > 0 && i < |Windows(cells, ac, sc, room)|
    ensures ComesFrom(cells, ac, sc, room, i, k)
    decreases |cells|
  {
    if FirstWindow(cells, ac, sc).None? {
      k := WindowIsRecord(cells[ac + sc..], ac, sc, room, i);
      SkippedComesFrom(cells, ac, sc, room, i, k);
      k := k + 1;
    } else if i > 0 {
      k := WindowIsRecord(cells[ac + sc..], ac, sc, room - 1, i - 1);
      NextComesFrom(cells, ac, sc, room, i - 1, k);
      k := k + 1;
    } else {
      k := 0;
      FirstComesFrom(cells, ac, sc, room);
    }
  }

  /** Every record with something below 2 GB has its window, unless those before it took all
      the room. */
  lemma {:induction false} RecordHasWindow(cells: seq<u32>, ac: nat, sc: nat, room: nat, k: nat, w: Range)
    requires ac + sc > 0 && IsRecord(cells, ac, sc, k, w)
    ensures w in Windows(cells, ac, sc, room) || |Windows(Upto(cells, ac, sc, k), ac, sc, room)| == room
    decreases k
  {
    if room > 0 && k == 0 {
      FirstRecord(cells, ac, sc, w);
    } else if room > 0 {
      UptoBehind(cells, ac, sc, room, k);
      RecordBehind(cells, ac, sc, k, w);
      RecordHasWindow(cells[ac + sc..], ac, sc, if FirstWindow(cells, ac, sc).None? then room else room - 1, k - 1, w);
    }
  }

  // ---- the headers inside them --------------------------------------------------------------

  /** The header lies as a whole inside one of the windows. */
  predicate Inside(h: SysHeader, ws: seq<Range>) {
    exists i :: 0 <= i < |ws| && ws[i].start <= h.lower && h.upper <= ws[i].end
  }

  /** The fast headers inside a window, in list order, at most `room` of them. */
  function Kept(hs: seq<SysHeader>, ws: seq<Range>, room: nat): (rs: seq<Range>)
    ensures |rs| <= room
  {
    if hs == [] || room == 0 then []
    else if hs[0].fast && Inside(hs[0], ws) then [Range(hs[0].lower, hs[0].upper)] + Kept(hs[1..], ws, room - 1)
    else Kept(hs[1..], ws, room)
  }

  /** The inner loop of the second: the first window that holds the header decides. */
  method TestInside(h: SysHeader, windows: seq<Range>) returns (inside: bool)
    ensures inside <==> Inside(h, windows)
  {
    inside := false;
    var i := 0;
    while i < |windows| && !inside
      invariant 0 <= i <= |windows|
      invariant inside ==> Inside(h, windows)
      invariant !inside ==> forall j :: 0 <= j < i ==> !(windows[j].start <= h.lower && h.upper <= windows[j].end)
    {
      inside := h.lower >= windows[i].start && h.upper <= windows[i].end;
      i := i + 1;
    }
  }

  /** The second loop of dma_mem_init(). */
  method CollectRegions(hs: seq<SysHeader>, windows: seq<Range>) returns (regions: seq<Range>)
    ensures regions == Kept(hs, windows, DMA_MEM_MAX_REGIONS)
  {
    regions := [];
    var k := 0;
    while k < |hs| && |regions| < DMA_MEM_MAX_REGIONS
      invariant 0 <= k <= |hs| && |regions| <= DMA_MEM_MAX_REGIONS
      invariant Kept(hs, windows, DMA_MEM_MAX_REGIONS) ==
                regions + Kept(hs[k..], windows, DMA_MEM_MAX_REGIONS - |regions|)
    {
      var inside := false;
      if hs[k].fast {
        inside := TestInside(hs[k], windows);
      }
      assert hs[k..][1..] == hs[k + 1..];
      if inside {
        regions := regions + [Range(hs[k].lower, hs[k].upper)];
      }
      k := k + 1;
    }
  }

  /** Every region is a fast header of the list and ends at or below 2 GB. */
  lemma {:induction false} RegionsArePiDram(hs: seq<SysHeader>, ws: seq<Range>, room: nat, r: Range)
    requires BelowLimit(ws) && r in Kept(hs, ws, room)
    ensures r.end <= DMA_MEM_2GB && SysHeader(r.start, r.end, true) in hs
  {
    if r in Kept(hs[1..], ws, room) {
      RegionsArePiDram(hs[1..], ws, room, r);
    } else if room > 0 && r in Kept(hs[1..], ws, room - 1) {
      RegionsArePiDram(hs[1..], ws, room - 1, r);
    }
  }

  /** Every fast header inside a window is a region, unless all the room was taken by those
      before it. */
  lemma {:induction false} RegionsAreComplete(hs: seq<SysHeader>, ws: seq<Range>, room: nat, i: nat)
    requires i < |hs| && hs[i].fast && Inside(hs[i], ws)
    ensures Range(hs[i].lower, hs[i].upper) in Kept(hs, ws, room) || |Kept(hs[..i], ws, room)| == room
  {
    if room > 0 && i > 0 {
      assert hs[..i][0] == hs[0] && hs[..i][1..] == hs[1..][..i - 1];
      RegionsAreComplete(hs[1..], ws, if hs[0].fast && Inside(hs[0], ws) then room - 1 else room, i - 1);
    }
  }

  /** The i-th region is a fast header inside a window, and i regions come of those before it
      in the list. */
  lemma {:induction false} RegionIsHeader(hs: seq<SysHeader>, ws: seq<Range>, room: nat, i: nat) returns (k: nat)
    requires i < |Kept(hs, ws, room)|
    ensures k < |hs| && hs[k].fast && Inside(hs[k], ws)
    ensures Kept(hs, ws, room)[i] == Range(hs[k].lower, hs[k].upper) && |Kept(hs[..k], ws, room)| == i
  {
    var first := hs[0].fast && Inside(hs[0], ws);
    if first && i == 0 {
      k := 0;
    } else {
      k := RegionIsHeader(hs[1..], ws, if first then room - 1 else room, if first then i - 1 else i);
      k := k + 1;
      assert hs[..k][0] == hs[0] && hs[..k][1..] == hs[1..][..k - 1];
    }
  }

  // ---- dma_addr_reachable ---------------------------------------------------------------------

  /** The span lies in one region as a whole, over unbounded integers. */
  ghost predicate Reachable(regions: seq<Range>, a: int, len: int) {
    exists i :: 0 <= i < |regions| && regions[i].start <= a && a + len <= regions[i].end
  }

  /** dma_addr_reachable() on a context: exact once a region was found; without one it falls
      back on the address being above Chip RAM. A zero length counts as one byte. */
  method AddrReachable(regions: seq<Range>, a: u32, len: u32) returns (ok: bool)
    ensures regions != [] ==> (ok <==> Reachable(regions, a, if len == 0 then 1 else len))
    ensures regions == [] ==> (ok <==> a >= 0x0020_0000 && a + (if len == 0 then 1 else len) < TWO32)
  {
    var end := Add32(a, if len != 0 then len else 1);
    if end < a {
      return false;
    }
    if regions == [] {
      return a >= 0x0020_0000;
    }
    var i := 0;
    while i < |regions|
      invariant 0 <= i <= |regions|
      invariant forall j :: 0 <= j < i ==> !(regions[j].start <= a && end <= regions[j].end)
    {
      if a >= regions[i].start && end <= regions[i].end {
        return true;
      }
      i := i + 1;
    }
    return false;
  }
}
