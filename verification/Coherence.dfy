/** The cache protocol of include/cache_ops.h, line by line: RAM, a write-back cache that may
    evict or prefetch any line at any moment, a device that writes RAM behind the cache's
    back, and the range operations, which are issued per 64-byte line, take effect some
    time later, and are known to have done so only after a barrier.

    `want` records the bytes the CPU last stored, or took over from a finished transfer;
    `dev` records the bytes the device left. */
module Coherence {
  import opened Machine

  type Data = seq<byte>

  datatype Cached = Absent | Present(data: Data, dirty: bool)

  datatype Op = Clean | CleanInvalidate | Invalidate

  /** How far a transfer on this line has got. */
  datatype Phase =
    | Idle                      // the CPU may use the line
    | PreIssued(op: Op)         // pre-DMA operation issued
    | PreComplete               // ... in effect, but no barrier yet
    | PreSynced                 // ... and a barrier passed
    | Armed                     // the device may read and write
    | PostIssued                // post-DMA invalidate issued
    | PostComplete              // ... in effect, but no barrier yet

  datatype Line = Line(ram: Data, cache: Cached, phase: Phase, want: Data, dev: Data)

  datatype Event =
    | Store(off: nat, value: byte)
    | Evict
    | Prefetch
    | IssuePre(op: Op)
    | Complete(discards: bool)  // the issued operation takes effect
    | Arm
    | DeviceWrite(off: nat, value: byte)
    | IssuePost
    | TakeOver                  // the CPU takes the buffer over without an invalidate

  /** What a driver leaves out. */
  datatype Skip = Nothing | PreDma | PostDma | Ownership

  // ---- one line ---------------------------------------------------------------------------

  /** What a CPU load of the line returns. */
  function View(l: Line): Data {
    if l.cache.Present? then l.cache.data else l.ram
  }

  predicate Dirty(l: Line) {
    l.cache.Present? && l.cache.dirty
  }

  function WriteBack(l: Line): Line {
    if Dirty(l) then l.(ram := l.cache.data, cache := l.cache.(dirty := false)) else l
  }

  /** dc cvac, dc civac and dc ivac on one line. An invalidate may discard a dirty line or
      clean it first; both kinds of hardware exist. */
  function Apply(l: Line, op: Op, discards: bool): Line {
    match op
    case Clean => WriteBack(l)
    case CleanInvalidate => WriteBack(l).(cache := Absent)
    case Invalidate => (if discards then l else WriteBack(l)).(cache := Absent)
  }

  predicate Enabled(l: Line, e: Event) {
    match e
    case Store(off, _) => l.phase.Idle? && off < |View(l)| && off < |l.want|
    case Evict => true
    case Prefetch => true
    case IssuePre(_) => l.phase.Idle?
    case Complete(_) => l.phase.PreIssued? || l.phase.PostIssued?
    case Arm => l.phase.PreSynced?
    case DeviceWrite(off, _) => l.phase.Armed? && off < |l.ram| && off < |l.dev|
    case IssuePost => l.phase.Armed?
    case TakeOver => false
  }

  /** The bytes a write names are there. */
  predicate InLine(l: Line, e: Event) {
    match e
    case Store(off, _) => off < |View(l)| && off < |l.want|
    case DeviceWrite(off, _) => off < |l.ram| && off < |l.dev|
    case _ => true
  }

  /** What a driver that leaves something out can do: arm a device without the operation
      before, take the buffer over without the one behind, or share the line with a
      neighbour who stores whenever he likes. */
  predicate EnabledBut(l: Line, e: Event, skip: Skip) {
    || Enabled(l, e)
    || (skip.PreDma? && e.Arm? && l.phase.Idle?)
    || (skip.PostDma? && e.TakeOver? && l.phase.Armed?)
    || (skip.Ownership? && e.Store? && InLine(l, e))
  }

  function Next(l: Line, e: Event): Line
    requires InLine(l, e)
  {
    match e
    case Store(off, value) => l.(cache := Present(View(l)[off := value], true), want := l.want[off := value])
    case Evict => WriteBack(l).(cache := Absent)
    case Prefetch => if l.cache.Absent? then l.(cache := Present(l.ram, false)) else l
    case IssuePre(op) => l.(phase := PreIssued(op))
    case Complete(discards) =>
      if l.phase.PreIssued? then Apply(l, l.phase.op, discards).(phase := PreComplete)
      else Apply(l, Invalidate, discards).(phase := PostComplete)
    case Arm => l.(phase := Armed, dev := l.ram)
    case DeviceWrite(off, value) => l.(ram := l.ram[off := value], dev := l.dev[off := value])
    case IssuePost => l.(phase := PostIssued)
    case TakeOver => l.(phase := Idle, want := l.dev)
  }

  /** A barrier passes only when nothing issued is still outstanding, and moves on every
      line that waited for it; a finished transfer gives the device's bytes to the CPU. */
  predicate BarrierPasses(l: Line) {
    !l.phase.PreIssued? && !l.phase.PostIssued?
  }

  function AfterBarrier(l: Line): Line
    requires BarrierPasses(l)
  {
    if l.phase.PreComplete? then l.(phase := PreSynced)
    else if l.phase.PostComplete? then l.(phase := Idle, want := l.dev)
    else l
  }

  /** The CPU sees what it wants, and a clean line agrees with RAM. */
  ghost predicate Coherent(l: Line) {
    View(l) == l.want && (!Dirty(l) ==> l.ram == l.want)
  }

  /** Idle: the CPU sees what it stored. From the moment the pre-DMA operation is in effect
      until the transfer is over, the line is never dirty, so no eviction can touch RAM;
      after the invalidate, whatever is cached was fetched after it. */
  ghost predicate LineOk(l: Line) {
    match l.phase
    case Idle => Coherent(l)
    case PreIssued(_) => Coherent(l)
    case PreComplete => !Dirty(l)
    case PreSynced => !Dirty(l)
    case Armed => !Dirty(l) && l.ram == l.dev
    case PostIssued => !Dirty(l) && l.ram == l.dev
    case PostComplete => !Dirty(l) && l.ram == l.dev && View(l) == l.dev
  }

  lemma NextKeepsLineOk(l: Line, e: Event)
    requires LineOk(l) && Enabled(l, e)
    ensures LineOk(Next(l, e))
  {
  }

  lemma BarrierKeepsLineOk(l: Line)
    requires LineOk(l) && BarrierPasses(l)
    ensures LineOk(AfterBarrier(l))
  {
  }

  // ---- the machine -------------------------------------------------------------------------

  datatype Step = On(line: nat, event: Event) | Barrier

  ghost predicate CanStep(m: seq<Line>, s: Step, skip: Skip) {
    match s
    case On(i, e) => i < |m| && EnabledBut(m[i], e, skip)
    case Barrier => forall i :: 0 <= i < |m| ==> BarrierPasses(m[i])
  }

  ghost function TakeStep(m: seq<Line>, s: Step, skip: Skip): seq<Line>
    requires CanStep(m, s, skip)
  {
    match s
    case On(i, e) => m[i := Next(m[i], e)]
    case Barrier => seq(|m|, i requires 0 <= i < |m| => AfterBarrier(m[i]))
  }

  /** Memory at the start: nothing in transfer, every line coherent. */
  ghost predicate Initial(m: seq<Line>) {
    forall i :: 0 <= i < |m| ==> m[i].phase.Idle? && Coherent(m[i])
  }

  ghost function Reach(m: seq<Line>, run: seq<Step>, skip: Skip): Option<seq<Line>> {
    if run == [] then Some(m)
    else
      match Reach(m, run[..|run| - 1], skip)
      case None => None
      case Some(k) => if CanStep(k, run[|run| - 1], skip) then Some(TakeStep(k, run[|run| - 1], skip)) else None
  }

  lemma {:induction false} EveryRunKeepsOk(m: seq<Line>, run: seq<Step>)
    requires Initial(m) && Reach(m, run, Nothing).Some?
    ensures |Reach(m, run, Nothing).value| == |m|
    ensures forall i :: 0 <= i < |m| ==> LineOk(Reach(m, run, Nothing).value[i])
  {
    if run != [] {
      EveryRunKeepsOk(m, run[..|run| - 1]);
      var k, s := Reach(m, run[..|run| - 1], Nothing).value, run[|run| - 1];
      match s
      case On(i, e) => NextKeepsLineOk(k[i], e);
      case Barrier => forall i | 0 <= i < |k| ensures LineOk(AfterBarrier(k[i])) { BarrierKeepsLineOk(k[i]); }
    }
  }

  /** Whatever is evicted and prefetched in between: on a line no transfer has, the CPU reads
      its own last store; while the device owns a line RAM holds exactly what the device
      left there; and when the barrier after the invalidate passes, the CPU reads exactly
      those bytes. */
  lemma TransfersAreCoherent(m: seq<Line>, run: seq<Step>, k: seq<Line>, i: nat)
    requires Initial(m) && Reach(m, run, Nothing) == Some(k) && i < |k|
    ensures SoundLine(k[i]) && (k[i].phase.Armed? ==> !Dirty(k[i]))
    ensures CanStep(k, Barrier, Nothing) && k[i].phase.PostComplete? ==>
              var after := TakeStep(k, Barrier, Nothing)[i];
              after.phase.Idle? && View(after) == k[i].dev
  {
    EveryRunKeepsOk(m, run);
    assert LineOk(k[i]);
  }

  /** What every participant relies on: the CPU reads what it wants on a line it has, and RAM
      holds the device's bytes on a line the device has. */
  ghost predicate SoundLine(l: Line) {
    (l.phase.Idle? ==> View(l) == l.want) && (l.phase.Armed? || l.phase.PostIssued? ==> l.ram == l.dev)
  }

  ghost predicate Sound(m: seq<Line>) {
    forall i :: 0 <= i < |m| ==> SoundLine(m[i])
  }

  // ---- what the device sees ------------------------------------------------------------------

  /** cache_pre_dma_impl(): the operation its direction flags select. */
  function PreOp(readFromRam: bool, writeToRam: bool): Op {
    if readFromRam && !writeToRam then Clean
    else if writeToRam && !readFromRam then Invalidate
    else CleanInvalidate
  }

  /** A line whose CPU bytes must reach RAM: for every direction but "device writes only",
      RAM holds them when the operation has completed. */
  lemma DeviceReadsCpuBytes(l: Line, readFromRam: bool, writeToRam: bool, discards: bool)
    requires LineOk(l) && l.phase == PreIssued(PreOp(readFromRam, writeToRam))
    requires readFromRam || !writeToRam
    ensures Next(l, Complete(discards)).ram == l.want
  {
  }

  /** What each direction costs: only a device that reads alone leaves the cached copy, and
      only one that writes alone may lose what was dirty in it. */
  lemma DirectionDecides(l: Line, readFromRam: bool, writeToRam: bool, discards: bool)
    requires l.phase == PreIssued(PreOp(readFromRam, writeToRam))
    ensures Next(l, Complete(discards)).cache.Present? <==> l.cache.Present? && readFromRam && !writeToRam
    ensures Next(l, Complete(discards)).ram ==
            if Dirty(l) && !(writeToRam && !readFromRam && discards) then l.cache.data else l.ram
  {
  }

  /** ... and it keeps them until the device is armed, whatever the cache does. */
  lemma CpuBytesStay(l: Line, e: Event)
    requires LineOk(l) && (l.phase.PreComplete? || l.phase.PreSynced?) && l.ram == l.want && Enabled(l, e)
    ensures Next(l, e).ram == l.want && (Next(l, e).phase.Armed? ==> Next(l, e).dev == l.want)
  {
  }

  // ---- why each part of the protocol is there --------------------------------------------------

  /** A memory of one line, with nothing going on. */
  function Quiet(data: Data): seq<Line> {
    [Line(data, Absent, Idle, data, data)]
  }

  lemma ThenOn(m: seq<Line>, run: seq<Step>, skip: Skip, k: Line, e: Event, k': Line) returns (run': seq<Step>)
    requires Reach(m, run, skip) == Some([k]) && EnabledBut(k, e, skip) && Next(k, e) == k'
    ensures run' == run + [On(0, e)] && Reach(m, run', skip) == Some([k'])
  {
    run' := run + [On(0, e)];
    assert run'[..|run|] == run;
    assert TakeStep([k], On(0, e), skip) == [k'];
  }

  lemma ThenBarrier(m: seq<Line>, run: seq<Step>, skip: Skip, k: Line) returns (run': seq<Step>)
    requires Reach(m, run, skip) == Some([k]) && BarrierPasses(k)
    ensures run' == run + [Barrier] && Reach(m, run', skip) == Some([AfterBarrier(k)])
  {
    run' := run + [Barrier];
    assert run'[..|run|] == run;
    assert TakeStep([k], Barrier, skip) == [AfterBarrier(k)];
  }

  lemma OneByte(a: byte, b: byte)
    ensures [a][0 := b] == [b]
  {
  }

  /** A run of the full protocol up to an armed device. */
  lemma ReachArmed(data: Data, skip: Skip) returns (run: seq<Step>)
    ensures Reach(Quiet(data), run, skip) == Some([Line(data, Absent, Armed, data, data)])
  {
    var m, l := Quiet(data), Line(data, Absent, Idle, data, data);
    var issued := l.(phase := PreIssued(CleanInvalidate));
    run := ThenOn(m, [], skip, l, IssuePre(CleanInvalidate), issued);
    run := ThenOn(m, run, skip, issued, Complete(false), l.(phase := PreComplete));
    run := ThenBarrier(m, run, skip, l.(phase := PreComplete));
    run := ThenOn(m, run, skip, l.(phase := PreSynced), Arm, l.(phase := Armed));
  }

  /** ... with a copy prefetched before the device writes. */
  lemma ReachPrefetched(a: byte, c: byte, skip: Skip) returns (run: seq<Step>)
    ensures Reach(Quiet([a]), run, skip) == Some([Line([c], Present([a], false), Armed, [a], [c])])
  {
    var m, l := Quiet([a]), Line([a], Present([a], false), Armed, [a], [a]);
    run := ReachArmed([a], skip);
    run := ThenOn(m, run, skip, l.(cache := Absent), Prefetch, l);
    OneByte(a, c);
    run := ThenOn(m, run, skip, l, DeviceWrite(0, c), l.(ram := [c], dev := [c]));
  }

  /** The flag for "device writes only" is a promise, not a direction: the device may find what
      was in RAM before the CPU's store. */
  lemma WriteOnlyMayDropCpuBytes(a: byte, b: byte) returns (run: seq<Step>)
    ensures Reach(Quiet([a]), run, Nothing) == Some([Line([a], Absent, Armed, [b], [a])])
  {
    var m, l := Quiet([a]), Line([a], Present([b], true), Idle, [b], [a]);
    OneByte(a, b);
    run := ThenOn(m, [], Nothing, Line([a], Absent, Idle, [a], [a]), Store(0, b), l);
    run := ThenOn(m, run, Nothing, l, IssuePre(PreOp(false, true)), l.(phase := PreIssued(Invalidate)));
    var dropped := Line([a], Absent, PreComplete, [b], [a]);
    run := ThenOn(m, run, Nothing, l.(phase := PreIssued(Invalidate)), Complete(true), dropped);
    run := ThenBarrier(m, run, Nothing, dropped);
    run := ThenOn(m, run, Nothing, dropped.(phase := PreSynced), Arm, dropped.(phase := Armed));
  }

  /** Without the operation before, an eviction lands the CPU's bytes on the device's. */
  lemma SkippedPreLosesDeviceBytes(a: byte, b: byte, c: byte) returns (run: seq<Step>)
    ensures Reach(Quiet([a]), run, PreDma) == Some([Line([b], Absent, Armed, [b], [c])])
  {
    var m, l := Quiet([a]), Line([a], Present([b], true), Idle, [b], [a]);
    OneByte(a, b);
    run := ThenOn(m, [], PreDma, Line([a], Absent, Idle, [a], [a]), Store(0, b), l);
    run := ThenOn(m, run, PreDma, l, Arm, l.(phase := Armed));
    OneByte(a, c);
    var written := l.(phase := Armed, ram := [c], dev := [c]);
    run := ThenOn(m, run, PreDma, l.(phase := Armed), DeviceWrite(0, c), written);
    run := ThenOn(m, run, PreDma, written, Evict, written.(ram := [b], cache := Absent));
  }

  /** Without the invalidate behind, the CPU reads what was prefetched during the transfer. */
  lemma SkippedPostReadsStaleBytes(a: byte, c: byte) returns (run: seq<Step>)
    ensures Reach(Quiet([a]), run, PostDma) == Some([Line([c], Present([a], false), Idle, [c], [c])])
  {
    run := ReachPrefetched(a, c, PostDma);
    var l := Line([c], Present([a], false), Armed, [a], [c]);
    run := ThenOn(Quiet([a]), run, PostDma, l, TakeOver, l.(phase := Idle, want := [c]));
  }

  /** A load between an unsynchronised invalidate and its barrier may still read it. */
  lemma LoadBeforeBarrierMayBeStale(a: byte, c: byte) returns (run: seq<Step>)
    ensures Reach(Quiet([a]), run, Nothing) == Some([Line([c], Present([a], false), PostIssued, [a], [c])])
  {
    run := ReachPrefetched(a, c, Nothing);
    var l := Line([c], Present([a], false), Armed, [a], [c]);
    run := ThenOn(Quiet([a]), run, Nothing, l, IssuePost, l.(phase := PostIssued));
  }

  /** A run up to a neighbour's store on a line the device has. */
  lemma ReachShared(a: byte, b: byte) returns (run: seq<Step>)
    ensures Reach(Quiet([a]), run + [On(0, Store(0, b))], Ownership) ==
            Some([Line([a], Present([b], true), Armed, [b], [a])])
  {
    run := ReachArmed([a], Ownership);
    OneByte(a, b);
    var l := Line([a], Absent, Armed, [a], [a]);
    var run' := ThenOn(Quiet([a]), run, Ownership, l, Store(0, b), l.(cache := Present([b], true), want := [b]));
  }

  /** On a line shared with a neighbour, an eviction of his store lands on the device's bytes. */
  lemma SharedLineLosesDeviceBytes(a: byte, b: byte) returns (run: seq<Step>)
    ensures Reach(Quiet([a]), run, Ownership) == Some([Line([b], Absent, Armed, [b], [a])])
  {
    var before := ReachShared(a, b);
    var l := Line([a], Present([b], true), Armed, [b], [a]);
    run := ThenOn(Quiet([a]), before + [On(0, Store(0, b))], Ownership, l, Evict, l.(ram := [b], cache := Absent));
  }

  /** ... and an invalidate that discards the line loses his store: he stores `b`, the rest of
      the protocol goes through, and he reads `a`. */
  lemma SharedLineLosesStore(a: byte, b: byte) returns (before: seq<Step>)
    ensures var run := before + [On(0, Store(0, b))] + [On(0, IssuePost)] + [On(0, Complete(true))] + [Barrier];
            Reach(Quiet([a]), run, Ownership) ==
              Some([Line([a], Absent, Idle, [a], [a])])
  {
    before := ReachShared(a, b);
    var m, l := Quiet([a]), Line([a], Present([b], true), Armed, [b], [a]);
    var run := ThenOn(m, before + [On(0, Store(0, b))], Ownership, l, IssuePost, l.(phase := PostIssued));
    var dropped := l.(phase := PostComplete, cache := Absent);
    run := ThenOn(m, run, Ownership, l.(phase := PostIssued), Complete(true), dropped);
    run := ThenBarrier(m, run, Ownership, dropped);
  }

  /** The protocol is sound in every run, from every quiet memory, if and only if nothing of it
      is left out. */
  lemma SoundIffNothingSkipped(skip: Skip)
    ensures (forall m, run :: Initial(m) && Reach(m, run, skip).Some? ==> Sound(Reach(m, run, skip).value)) <==>
            skip.Nothing?
  {
    match skip
    case Nothing =>
      forall m, run | Initial(m) && Reach(m, run, skip).Some? ensures Sound(Reach(m, run, skip).value) {
        var k := Reach(m, run, skip).value;
        forall i | 0 <= i < |k| ensures SoundLine(k[i]) { TransfersAreCoherent(m, run, k, i); }
      }
    case PreDma =>
      var run := SkippedPreLosesDeviceBytes(0, 1, 2);
      assert !SoundLine(Reach(Quiet([0]), run, skip).value[0]);
    case PostDma =>
      var run := SkippedPostReadsStaleBytes(0, 1);
      assert !SoundLine(Reach(Quiet([0]), run, skip).value[0]);
    case Ownership =>
      var run := SharedLineLosesDeviceBytes(0, 1);
      assert !SoundLine(Reach(Quiet([0]), run, skip).value[0]);
  }
}
