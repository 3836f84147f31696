/** Whole DMA transfers as a driver does them (cache_pre_dma() on every range, the device at
    work, then cache_post_dma() on every range, each batch with one barrier), with the rest of
    the machine storing elsewhere meanwhile and the cache evicting and prefetching after every
    step. To the CPU it looks like plain memory in which both kinds of write simply happened. */
module DmaTransfer {
  import opened Machine
  import opened Coherence
  import opened CacheUnit

  /** One write while the transfer is under way. */
  datatype Action = Device(a: nat, v: byte) | Cpu(a: nat, v: byte)

  /** Plain memory: the last write to the address, or what was there. */
  ghost function Plain(script: seq<Action>, a: nat, initial: byte): byte {
    if script == [] then initial
    else
      var last := script[|script| - 1];
      if last.a == a then last.v else Plain(script[..|script| - 1], a, initial)
  }

  ghost predicate Written(script: seq<Action>, a: nat) {
    exists k :: 0 <= k < |script| && script[k].a == a
  }

  /** What the address held does not matter once it is written. */
  lemma {:induction false} WrittenForgets(script: seq<Action>, a: nat, x: byte, y: byte)
    requires Written(script, a)
    ensures Plain(script, a, x) == Plain(script, a, y)
  {
    var k :| 0 <= k < |script| && script[k].a == a;
    if k < |script| - 1 {
      assert script[..|script| - 1][k] == script[k];
      WrittenForgets(script[..|script| - 1], a, x, y);
    }
  }

  lemma PlainAppends(script: seq<Action>, e: Action, a: nat, x: byte)
    ensures Plain(script + [e], a, x) == if e.a == a then e.v else Plain(script, a, x)
  {
    assert (script + [e])[..|script|] == script;
  }

  /** `data` is line `i` of plain memory after the script, from `start` on. */
  ghost predicate Tracks(data: Data, i: nat, script: seq<Action>, start: Data) {
    |data| == LINE && |start| == LINE && forall off :: 0 <= off < LINE ==>
        data[off] == Plain(script, LINE * i + off, start[off])
  }

  lemma TracksNothing(data: Data, i: nat)
    requires |data| == LINE
    ensures Tracks(data, i, [], data)
  {
  }

  lemma TracksWrite(data: Data, i: nat, script: seq<Action>, start: Data, e: Action)
    requires Tracks(data, i, script, start)
    ensures e.a / LINE == i ==> Tracks(data[e.a % LINE := e.v], i, script + [e], start)
    ensures e.a / LINE != i ==> Tracks(data, i, script + [e], start)
  {
    forall off | 0 <= off < LINE
      ensures Plain(script + [e], LINE * i + off, start[off]) ==
              if e.a / LINE == i && e.a % LINE == off then e.v else Plain(script, LINE * i + off, start[off])
    {
      PlainAppends(script, e, LINE * i + off, start[off]);
      assert (LINE * i + off) / LINE == i && (LINE * i + off) % LINE == off;
      assert e.a == LINE * (e.a / LINE) + e.a % LINE;
    }
  }

  // ---- ranges ---------------------------------------------------------------------------

  datatype Span = Span(addr: nat, len: nat, readFromRam: bool, writeToRam: bool)

  predicate Walks(sp: Span, i: int) {
    Touched(sp.addr, sp.len, i)
  }

  /** Which of the first `k` ranges line `i` belongs to, if any. */
  function Whose(spans: seq<Span>, k: nat, i: int): (r: Option<nat>)
    requires k <= |spans|
    ensures r.Some? ==> r.value < k && Walks(spans[r.value], i)
    ensures r.None? ==> forall j :: 0 <= j < k ==> !Walks(spans[j], i)
  {
    if k == 0 then None else if Walks(spans[k - 1], i) then Some(k - 1) else Whose(spans, k - 1, i)
  }

  function Owner(spans: seq<Span>, i: int): Option<nat> {
    Whose(spans, |spans|, i)
  }

  /** No line belongs to two ranges. */
  ghost predicate NoSharedLines(spans: seq<Span>) {
    forall j, k, i :: 0 <= j < k < |spans| && Walks(spans[j], i) ==> !Walks(spans[k], i)
  }

  ghost predicate Fit(spans: seq<Span>, lines: nat) {
    forall k :: 0 <= k < |spans| ==> spans[k].addr + spans[k].len <= LINE * lines
  }

  // ---- batches --------------------------------------------------------------------------

  /** How a batch of range operations ends: the last one carries no DMAF_NoSync, or every one
      carries it and emu68_barrier() follows. */
  datatype Batch = LastSyncs | ThenBarrier

  /** A last operation that is to be the barrier must not be empty. */
  ghost predicate Closes(spans: seq<Span>, batch: Batch) {
    batch.LastSyncs? ==> spans != [] && spans[|spans| - 1].len > 0
  }

  function OpOf(sp: Span, pre: bool): Event {
    if pre then IssuePre(PreOp(sp.readFromRam, sp.writeToRam)) else IssuePost
  }

  /** Line `i` with the first `k` operations of a batch issued. */
  ghost predicate Under(spans: seq<Span>, pre: bool, k: nat, was: Line, now: Line, i: int)
    requires k <= |spans|
  {
    match Whose(spans, k, i)
    case None => Drifted(was, now)
    case Some(j) => Issued(was, now, OpOf(spans[j], pre))
  }

  /** ... and with the whole batch in effect. */
  ghost predicate Over(spans: seq<Span>, pre: bool, was: Line, now: Line, i: int) {
    match Owner(spans, i)
    case None => Finished(was, now)
    case Some(j) => Effective(was, now, OpOf(spans[j], pre))
  }

  lemma UnderOneMore(spans: seq<Span>, pre: bool, k: nat, was: Line, mid: Line, now: Line, i: int)
    requires k < |spans| && NoSharedLines(spans) && Good(mid) && Under(spans, pre, k, was, mid, i)
    requires if Walks(spans[k], i) then Issued(mid, now, OpOf(spans[k], pre)) else Drifted(mid, now)
    ensures Under(spans, pre, k + 1, was, now, i)
  {
    match Whose(spans, k, i)
    case None => if !Walks(spans[k], i) { DriftsChain(was, mid, now); }
    case Some(j) =>
      assert Walks(spans[j], i);
      IssuedDrifts(was, mid, now, OpOf(spans[j], pre));
  }

  lemma UnderFinishes(spans: seq<Span>, pre: bool, was: Line, mid: Line, now: Line, i: int)
    requires Good(mid) && Under(spans, pre, |spans|, was, mid, i) && Finished(mid, now)
    ensures Over(spans, pre, was, now, i)
  {
    match Owner(spans, i)
    case None => DriftThenFinish(was, mid, now);
    case Some(j) => IssuedFinishes(was, mid, now, OpOf(spans[j], pre));
  }

  lemma LastFinishes(spans: seq<Span>, pre: bool, was: Line, mid: Line, now: Line, i: int)
    requires spans != [] && NoSharedLines(spans) && Good(mid) && Under(spans, pre, |spans| - 1, was, mid, i)
    requires var last := spans[|spans| - 1];
             if Walks(last, i) then Effective(mid, now, OpOf(last, pre)) else Finished(mid, now)
    ensures Over(spans, pre, was, now, i)
  {
    match Whose(spans, |spans| - 1, i)
    case None => if !Walks(spans[|spans| - 1], i) { DriftThenFinish(was, mid, now); }
    case Some(j) =>
      assert Walks(spans[j], i);
      IssuedFinishes(was, mid, now, OpOf(spans[j], pre));
  }

  /** The lines of an operation still to come have only drifted. */
  lemma NextIsReady(spans: seq<Span>, pre: bool, k: nat, was: Line, now: Line, i: int)
    requires k < |spans| && NoSharedLines(spans) && Under(spans, pre, k, was, now, i) && Walks(spans[k], i)
    requires Enabled(was, OpOf(spans[k], pre))
    ensures Enabled(now, OpOf(spans[k], pre))
  {
    StillReady(was, now, OpOf(spans[k], pre));
  }

  /** The operations of a batch but the one that closes it. */
  method IssueFirst(cache: Cache, spans: seq<Span>, pre: bool, n: nat)
    requires n <= |spans| && cache.Ok() && NoSharedLines(spans) && Fit(spans, |cache.lines|)
    requires forall k, i :: 0 <= k < |spans| && 0 <= i < |cache.lines| && Walks(spans[k], i) ==>
             Enabled(cache.lines[i], OpOf(spans[k], pre))
    modifies cache
    ensures cache.Ok() && |cache.lines| == |old(cache.lines)|
    ensures forall i :: 0 <= i < |cache.lines| ==> Under(spans, pre, n, old(cache.lines)[i], cache.lines[i], i)
  {
    var k := 0;
    while k < n
      invariant 0 <= k <= n && cache.Ok() && |cache.lines| == |old(cache.lines)|
      invariant forall i :: 0 <= i < |cache.lines| ==> Under(spans, pre, k, old(cache.lines)[i], cache.lines[i], i)
    {
      ghost var mid := cache.lines;
      forall i | 0 <= i < |mid| && Walks(spans[k], i) ensures Enabled(mid[i], OpOf(spans[k], pre)) {
        NextIsReady(spans, pre, k, old(cache.lines)[i], mid[i], i);
      }
      cache.RangeOp(spans[k].addr, spans[k].len, OpOf(spans[k], pre), true);
      forall i | 0 <= i < |mid| ensures Under(spans, pre, k + 1, old(cache.lines)[i], cache.lines[i], i) {
        UnderOneMore(spans, pre, k, old(cache.lines)[i], mid[i], cache.lines[i], i);
      }
      k := k + 1;
    }
  }

  /** A batch of range operations: one barrier is enough for all of them. */
  method RunBatch(cache: Cache, spans: seq<Span>, pre: bool, batch: Batch)
    requires cache.Ok() && NoSharedLines(spans) && Fit(spans, |cache.lines|) && Closes(spans, batch)
    requires forall k, i :: 0 <= k < |spans| && 0 <= i < |cache.lines| && Walks(spans[k], i) ==>
             Enabled(cache.lines[i], OpOf(spans[k], pre))
    modifies cache
    ensures cache.Ok() && |cache.lines| == |old(cache.lines)|
    ensures forall i :: 0 <= i < |cache.lines| ==> Over(spans, pre, old(cache.lines)[i], cache.lines[i], i)
  {
    ghost var was := cache.lines;
    var n := if batch.LastSyncs? then |spans| - 1 else |spans|;
    IssueFirst(cache, spans, pre, n);
    ghost var mid := cache.lines;
    if batch.ThenBarrier? {
      cache.BarrierNow();
      forall i | 0 <= i < |was| ensures Over(spans, pre, was[i], cache.lines[i], i) {
        UnderFinishes(spans, pre, was[i], mid[i], cache.lines[i], i);
      }
    } else {
      forall i | 0 <= i < |mid| && Walks(spans[n], i) ensures Enabled(mid[i], OpOf(spans[n], pre)) {
        NextIsReady(spans, pre, n, was[i], mid[i], i);
      }
      cache.RangeOp(spans[n].addr, spans[n].len, OpOf(spans[n], pre), false);
      forall i | 0 <= i < |was| ensures Over(spans, pre, was[i], cache.lines[i], i) {
        LastFinishes(spans, pre, was[i], mid[i], cache.lines[i], i);
      }
    }
  }

  // ---- the transfer ---------------------------------------------------------------------

  /** The lines of the ranges are the device's, with `start` in RAM when it got them; the
      lines that nothing was going on with are still the CPU's. */
  ghost predicate LineInFlight(was: Line, now: Line, start: Data, spans: seq<Span>, i: nat, script: seq<Action>) {
    && Good(now)
    && (Owner(spans, i).Some? ==> now.phase.Armed? && Tracks(now.dev, i, script, start))
    && (Owner(spans, i).None? && was.phase.Idle? ==> now.phase.Idle? && Tracks(now.want, i, script, was.want))
  }

  ghost predicate InFlight(was: seq<Line>, now: seq<Line>, start: seq<Data>, spans: seq<Span>, script: seq<Action>) {
    |now| == |was| == |start| && forall i :: 0 <= i < |now| ==> LineInFlight(was[i], now[i], start[i], spans, i, script)
  }

  /** The device writes inside a range, the CPU on lines outside them that it owns. */
  ghost predicate Proper(lines: seq<Line>, spans: seq<Span>, e: Action) {
    && e.a / LINE < |lines|
    && (e.Device? ==> exists k :: 0 <= k < |spans| && InSpan(spans[k], e.a))
    && (e.Cpu? ==> Owner(spans, e.a / LINE).None? && lines[e.a / LINE].phase.Idle?)
  }

  predicate InSpan(sp: Span, a: int) {
    sp.addr <= a < sp.addr + sp.len
  }

  lemma SpanLines(spans: seq<Span>, k: nat, a: nat)
    requires k < |spans| && InSpan(spans[k], a)
    ensures Walks(spans[k], a / LINE) && Owner(spans, a / LINE).Some?
    ensures NoSharedLines(spans) ==> Owner(spans, a / LINE) == Some(k)
  {
    assert Walks(spans[k], a / LINE);
  }

  function EventOf(e: Action): Event {
    if e.Device? then DeviceWrite(e.a % LINE, e.v) else Store(e.a % LINE, e.v)
  }

  /** A write on its line, and on every other. */
  lemma ActionOnLine(was: Line, now: Line, start: Data, spans: seq<Span>, i: nat, script: seq<Action>, e: Action)
    requires LineInFlight(was, now, start, spans, i, script) && e.a / LINE == i
    requires if e.Device? then Owner(spans, i).Some? else Owner(spans, i).None? && was.phase.Idle?
    ensures Enabled(now, EventOf(e)) && LineInFlight(was, Next(now, EventOf(e)), start, spans, i, script + [e])
  {
    assert Enabled(now, EventOf(e));
    NextKeepsLineOk(now, EventOf(e));
    if e.Device? {
      TracksWrite(now.dev, i, script, start, e);
    } else {
      TracksWrite(now.want, i, script, was.want, e);
    }
  }

  lemma ActionElsewhere(was: Line, now: Line, start: Data, spans: seq<Span>, i: nat, script: seq<Action>, e: Action)
    requires LineInFlight(was, now, start, spans, i, script) && e.a / LINE != i
    ensures LineInFlight(was, now, start, spans, i, script + [e])
  {
    if Owner(spans, i).Some? {
      TracksWrite(now.dev, i, script, start, e);
    } else if was.phase.Idle? {
      TracksWrite(now.want, i, script, was.want, e);
    }
  }

  lemma ActionStays(was: seq<Line>, now: seq<Line>, start: seq<Data>, spans: seq<Span>, script: seq<Action>, e: Action)
    requires InFlight(was, now, start, spans, script) && Proper(was, spans, e)
    ensures Enabled(now[e.a / LINE], EventOf(e))
    ensures InFlight(was, now[e.a / LINE := Next(now[e.a / LINE], EventOf(e))], start, spans, script + [e])
  {
    var k := e.a / LINE;
    if e.Device? {
      var j :| 0 <= j < |spans| && InSpan(spans[j], e.a);
      SpanLines(spans, j, e.a);
    }
    ActionOnLine(was[k], now[k], start[k], spans, k, script, e);
    var now' := now[k := Next(now[k], EventOf(e))];
    forall i | 0 <= i < |now'| ensures LineInFlight(was[i], now'[i], start[i], spans, i, script + [e]) {
      if i != k { ActionElsewhere(was[i], now[i], start[i], spans, i, script, e); }
    }
  }

  lemma DriftStays(was: seq<Line>, now: seq<Line>, later: seq<Line>, start: seq<Data>, spans: seq<Span>,
                   script: seq<Action>)
    requires InFlight(was, now, start, spans, script)
    requires |later| == |now| && forall i :: 0 <= i < |now| ==> Drifted(now[i], later[i])
    ensures InFlight(was, later, start, spans, script)
  {
    forall i | 0 <= i < |later| ensures LineInFlight(was[i], later[i], start[i], spans, i, script) {
      assert LineInFlight(was[i], now[i], start[i], spans, i, script);
    }
  }

  lemma ArmsLine(l: Line, i: nat, spans: seq<Span>)
    requires Good(l) && (Owner(spans, i).Some? ==> l.phase.PreSynced?)
    ensures LineInFlight(l, if Owner(spans, i).Some? then Next(l, Arm) else l, l.ram, spans, i, [])
  {
    TracksNothing(l.ram, i);
    TracksNothing(l.want, i);
  }

  /** The device is started: every line of the ranges goes over to it. */
  method ArmAll(cache: Cache, spans: seq<Span>) returns (ghost start: seq<Data>)
    requires cache.Ok()
    requires forall i :: 0 <= i < |cache.lines| && Owner(spans, i).Some? ==> cache.lines[i].phase.PreSynced?
    modifies cache
    ensures InFlight(old(cache.lines), cache.lines, start, spans, [])
    ensures forall i :: 0 <= i < |start| ==> start[i] == old(cache.lines)[i].ram
  {
    ghost var was := cache.lines;
    start := seq(|was|, i requires 0 <= i < |was| => was[i].ram);
    var k := 0;
    while k < |cache.lines|
      invariant 0 <= k <= |cache.lines| == |was|
      invariant forall i :: 0 <= i < k ==> LineInFlight(was[i], cache.lines[i], start[i], spans, i, [])
      invariant forall i :: k <= i < |was| ==> cache.lines[i] == was[i]
    {
      ArmsLine(was[k], k, spans);
      if Owner(spans, k).Some? {
        cache.lines := cache.lines[k := Next(cache.lines[k], Arm)];
      }
      k := k + 1;
    }
  }

  method PlayOne(cache: Cache, spans: seq<Span>, e: Action, ghost was: seq<Line>, ghost start: seq<Data>,
                 ghost done: seq<Action>)
    requires InFlight(was, cache.lines, start, spans, done) && Proper(was, spans, e)
    modifies cache
    ensures InFlight(was, cache.lines, start, spans, done + [e])
  {
    ActionStays(was, cache.lines, start, spans, done, e);
    cache.lines := cache.lines[e.a / LINE := Next(cache.lines[e.a / LINE], EventOf(e))];
    ghost var now := cache.lines;
    cache.Turbulence();
    DriftStays(was, now, cache.lines, start, spans, done + [e]);
  }

  /** The writes, with the cache doing as it pleases after each. */
  method Play(cache: Cache, spans: seq<Span>, script: seq<Action>, ghost was: seq<Line>, ghost start: seq<Data>)
    requires InFlight(was, cache.lines, start, spans, [])
    requires forall k :: 0 <= k < |script| ==> Proper(was, spans, script[k])
    modifies cache
    ensures InFlight(was, cache.lines, start, spans, script)
  {
    var k := 0;
    while k < |script|
      invariant 0 <= k <= |script|
      invariant InFlight(was, cache.lines, start, spans, script[..k])
    {
      assert script[..k + 1] == script[..k] + [script[k]];
      PlayOne(cache, spans, script[k], was, start, script[..k]);
      k := k + 1;
    }
    assert script[..k] == script;
  }

  // ---- what the CPU reads -----------------------------------------------------------------

  /** What the CPU reads of a range afterwards: plain memory, except that a device said to
      write only leaves the bytes it did not write unspecified. */
  ghost predicate ReadsBack(before: Line, after: Line, i: nat, script: seq<Action>, cpuBytesKept: bool) {
    && after.phase.Idle? && Sized(before) && Sized(after)
    && (cpuBytesKept ==> Tracks(View(after), i, script, View(before)))
    && forall off :: 0 <= off < LINE && Written(script, LINE * i + off) ==>
         View(after)[off] == Plain(script, LINE * i + off, View(before)[off])
  }

  lemma TracksReadsBack(before: Line, after: Line, i: nat, script: seq<Action>, start: Data, cpuBytesKept: bool)
    requires after.phase.Idle? && Sized(before) && Sized(after) && Tracks(View(after), i, script, start)
    requires cpuBytesKept ==> start == View(before)
    ensures ReadsBack(before, after, i, script, cpuBytesKept)
  {
    forall off | 0 <= off < LINE && Written(script, LINE * i + off)
      ensures View(after)[off] == Plain(script, LINE * i + off, View(before)[off])
    {
      WrittenForgets(script, LINE * i + off, start[off], View(before)[off]);
    }
  }

  /** The line of a range reads back what the device wrote, any other idle line what the CPU
      stored there. */
  ghost predicate AsPlainMemory(before: Line, after: Line, i: nat, spans: seq<Span>, script: seq<Action>) {
    match Owner(spans, i)
    case None => before.phase.Idle? ==> after.phase.Idle? && Tracks(View(after), i, script, View(before))
    case Some(j) => ReadsBack(before, after, i, script, spans[j].readFromRam || !spans[j].writeToRam)
  }

  /** What the device finds in RAM when it is started: the CPU's bytes, on every line of a range
      that it does not only write. */
  ghost predicate DeviceFinds(before: Line, armed: Data, i: nat, spans: seq<Span>) {
    match Owner(spans, i)
    case None => true
    case Some(j) => |armed| == LINE && (spans[j].readFromRam || !spans[j].writeToRam ==> armed == View(before))
  }

  lemma ArmedOnLine(before: Line, was: Line, i: nat, spans: seq<Span>)
    requires Good(before) && Good(was) && Over(spans, true, before, was, i)
    requires Owner(spans, i).Some? ==> before.phase.Idle?
    ensures DeviceFinds(before, was.ram, i, spans)
  {
  }

  lemma TransferOnLine(before: Line, was: Line, played: Line, after: Line, i: nat, spans: seq<Span>,
                       script: seq<Action>)
    requires Good(before) && Good(was) && Good(played) && Good(after)
    requires Owner(spans, i).Some? ==> before.phase.Idle?
    requires Over(spans, true, before, was, i) && LineInFlight(was, played, was.ram, spans, i, script)
    requires Over(spans, false, played, after, i)
    ensures AsPlainMemory(before, after, i, spans, script)
  {
    match Owner(spans, i)
    case None =>
    case Some(j) =>
      TracksReadsBack(before, after, i, script, was.ram, spans[j].readFromRam || !spans[j].writeToRam);
  }

  /** A transfer over any set of ranges that share no line, each with its own direction flags,
      with either way of closing a batch, whether an invalidate discards or cleans, and
      whatever is evicted or prefetched in between. */
  method Transfer(cache: Cache, spans: seq<Span>, before: Batch, behind: Batch, script: seq<Action>)
    returns (ghost armed: seq<Data>)
    requires cache.Ok() && NoSharedLines(spans) && Fit(spans, |cache.lines|) && Closes(spans, before) &&
             Closes(spans, behind)
    requires forall i :: 0 <= i < |cache.lines| && Owner(spans, i).Some? ==> cache.lines[i].phase.Idle?
    requires forall k :: 0 <= k < |script| ==> Proper(cache.lines, spans, script[k])
    modifies cache
    ensures cache.Ok() && |cache.lines| == |old(cache.lines)|
    ensures forall i :: 0 <= i < |cache.lines| ==> AsPlainMemory(old(cache.lines)[i], cache.lines[i], i, spans, script)
    ensures |armed| == |cache.lines|
    ensures forall i :: 0 <= i < |armed| ==> DeviceFinds(old(cache.lines)[i], armed[i], i, spans)
  {
    ghost var first := cache.lines;
    OwnedLines(spans);
    RunBatch(cache, spans, true, before);
    ghost var was := cache.lines;
    forall i | 0 <= i < |was| && Owner(spans, i).Some? ensures was[i].phase.PreSynced? {
      assert Over(spans, true, first[i], was[i], i);
    }
    ghost var start := ArmAll(cache, spans);
    armed := start;
    forall i | 0 <= i < |armed| ensures DeviceFinds(first[i], armed[i], i, spans) {
      ArmedOnLine(first[i], was[i], i, spans);
    }
    forall k | 0 <= k < |script| ensures Proper(was, spans, script[k]) {
      StillProper(first, was, spans, script[k]);
    }
    Play(cache, spans, script, was, start);
    ghost var played := cache.lines;
    forall i | 0 <= i < |played| && Owner(spans, i).Some? ensures played[i].phase.Armed? && Good(played[i]) {
      assert LineInFlight(was[i], played[i], start[i], spans, i, script);
    }
    PlayedOk(was, played, start, spans, script);
    RunBatch(cache, spans, false, behind);
    forall i | 0 <= i < |first| ensures AsPlainMemory(first[i], cache.lines[i], i, spans, script) {
      TransferOnLine(first[i], was[i], played[i], cache.lines[i], i, spans, script);
    }
  }

  lemma PlayedOk(was: seq<Line>, played: seq<Line>, start: seq<Data>, spans: seq<Span>, script: seq<Action>)
    requires InFlight(was, played, start, spans, script)
    ensures forall i :: 0 <= i < |played| ==> Good(played[i])
  {
    forall i | 0 <= i < |played| ensures Good(played[i]) {
      assert LineInFlight(was[i], played[i], start[i], spans, i, script);
    }
  }

  lemma OwnedLines(spans: seq<Span>)
    ensures forall k, i :: 0 <= k < |spans| && Walks(spans[k], i) ==> Owner(spans, i).Some?
  {
  }

  lemma StillProper(first: seq<Line>, was: seq<Line>, spans: seq<Span>, e: Action)
    requires |was| == |first| && Proper(first, spans, e)
    requires forall i :: 0 <= i < |was| ==> Over(spans, true, first[i], was[i], i)
    ensures Proper(was, spans, e)
  {
    assert Over(spans, true, first[e.a / LINE], was[e.a / LINE], e.a / LINE);
  }
}
