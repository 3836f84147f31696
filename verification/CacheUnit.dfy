/** The range operations of include/cache_ops.h as loops over the lines of a range, with the
    cache doing as it pleases after every line: evicting, prefetching, completing what was
    issued. cache_pre_dma_impl() and cache_post_dma_impl() select them; a batch of them shares
    one barrier. */
module CacheUnit {
  import opened Machine
  import opened Coherence

  const LINE := 64

  /** Every copy of the line is a whole line. */
  ghost predicate Sized(l: Line) {
    |l.ram| == LINE && (l.cache.Present? ==> |l.cache.data| == LINE) && |l.want| == LINE && |l.dev| == LINE
  }

  ghost predicate Good(l: Line) {
    LineOk(l) && Sized(l)
  }

  /** The pre-DMA operation writes the CPU's bytes to RAM, or has done so. */
  ghost predicate Carrying(l: Line) {
    && (l.phase.PreIssued? ==> !l.phase.op.Invalidate?)
    && (l.phase.PreComplete? || l.phase.PreSynced? ==> l.ram == l.want)
  }

  /** What the hardware may do to a line on its own. */
  ghost predicate Drifted(before: Line, after: Line) {
    && after.want == before.want && after.dev == before.dev
    && (Good(before) ==> Good(after))
    && (Good(before) && Carrying(before) ==> Carrying(after))
    && (after.phase == before.phase || (before.phase.PreIssued? && after.phase.PreComplete?) ||
        (before.phase.PostIssued? && after.phase.PostComplete?))
  }

  lemma OneDrift(l: Line, e: Event)
    requires (e.Evict? || e.Prefetch? || e.Complete?) && Enabled(l, e)
    ensures Drifted(l, Next(l, e))
  {
  }

  lemma DriftsChain(a: Line, b: Line, c: Line)
    requires Drifted(a, b) && Drifted(b, c)
    ensures Drifted(a, c)
  {
  }

  /** No operation on the line is outstanding or waits for a barrier. */
  predicate Settled(l: Line) {
    !l.phase.PreIssued? && !l.phase.PreComplete? && !l.phase.PostIssued? && !l.phase.PostComplete?
  }

  /** What a barrier leaves of a line, which may have drifted before it. */
  ghost predicate Finished(before: Line, after: Line) {
    && Settled(after)
    && (Good(before) ==> Good(after))
    && (Good(before) && Carrying(before) ==> Carrying(after))
    && (before.phase.PreIssued? || before.phase.PreComplete? ==> after.phase.PreSynced? && after.want == before.want)
    && (before.phase.PostIssued? || before.phase.PostComplete? ==> after.phase.Idle? && after.want == before.dev)
    && (Settled(before) ==> after.phase == before.phase && after.want == before.want && after.dev == before.dev)
  }

  lemma DriftThenFinish(a: Line, b: Line, c: Line)
    requires Drifted(a, b) && Finished(b, c)
    ensures Finished(a, c)
  {
  }

  lemma BarrierFinishes(l: Line, discards: bool)
    ensures var done := if Enabled(l, Complete(discards)) then Next(l, Complete(discards)) else l;
            BarrierPasses(done) && Finished(l, AfterBarrier(done))
  {
  }

  // ---- one line and one operation -----------------------------------------------------------

  /** The operation `e` is on its way on the line. */
  ghost predicate Issued(before: Line, after: Line, e: Event) {
    match e
    case IssuePre(op) =>
      && (after.phase == PreIssued(op) || after.phase.PreComplete?)
      && after.want == before.want && (!op.Invalidate? ==> Carrying(after))
    case IssuePost => (after.phase.PostIssued? || after.phase.PostComplete?) && after.dev == before.dev
    case _ => false
  }

  /** ... and a barrier has passed since. */
  ghost predicate Effective(before: Line, after: Line, e: Event) {
    match e
    case IssuePre(op) => after.phase.PreSynced? && after.want == before.want && (!op.Invalidate? ==> Carrying(after))
    case IssuePost => after.phase.Idle? && View(after) == before.dev
    case _ => false
  }

  lemma IssueNow(was: Line, l: Line, e: Event)
    requires (e.IssuePre? || e.IssuePost?) && Good(l) && Drifted(was, l) && Enabled(l, e)
    ensures Good(Next(l, e)) && Issued(was, Next(l, e), e)
  {
  }

  lemma IssuedDrifts(was: Line, l: Line, l': Line, e: Event)
    requires Good(l) && Issued(was, l, e) && Drifted(l, l')
    ensures Issued(was, l', e)
  {
  }

  lemma IssuedFinishes(was: Line, l: Line, l': Line, e: Event)
    requires Good(l) && Issued(was, l, e) && Finished(l, l')
    ensures Effective(was, l', e)
  {
  }

  /** A line that only drifted is as ready for the operation as it was. */
  lemma StillReady(was: Line, l: Line, e: Event)
    requires (e.IssuePre? || e.IssuePost?) && Drifted(was, l) && Enabled(was, e)
    ensures Enabled(l, e)
  {
  }

  /** The lines a range operation on [addr, addr + len) walks over; none for an empty range. */
  predicate Touched(addr: nat, len: nat, i: int) {
    len > 0 && addr / LINE <= i <= (addr + len - 1) / LINE
  }

  // ---- the cache ----------------------------------------------------------------------------

  class Cache {
    var lines: seq<Line>

    constructor (memory: seq<Line>)
      ensures lines == memory
    {
      lines := memory;
    }

    ghost predicate Ok()
      reads this
    {
      forall i :: 0 <= i < |lines| ==> Good(lines[i])
    }

    /** Any number of evictions, prefetches and completions, anywhere. */
    method Turbulence()
      modifies this
      ensures |lines| == |old(lines)|
      ensures forall i :: 0 <= i < |lines| ==> Drifted(old(lines)[i], lines[i])
    {
      var n: nat := *;
      while n > 0
        invariant |lines| == |old(lines)|
        invariant forall i :: 0 <= i < |lines| ==> Drifted(old(lines)[i], lines[i])
      {
        var i: nat, which: nat, discards: bool := *, *, *;
        if i < |lines| {
          var e := if which == 0 then Evict else if which == 1 then Prefetch else Complete(discards);
          if Enabled(lines[i], e) {
            OneDrift(lines[i], e);
            DriftsChain(old(lines)[i], lines[i], Next(lines[i], e));
            lines := lines[i := Next(lines[i], e)];
          }
        }
        n := n - 1;
      }
    }

    /** dsb sy: waits until everything issued is in effect. */
    method BarrierNow()
      modifies this
      ensures |lines| == |old(lines)|
      ensures forall i :: 0 <= i < |lines| ==> Finished(old(lines)[i], lines[i])
    {
      var i := 0;
      while i < |lines|
        invariant 0 <= i <= |lines| && |lines| == |old(lines)|
        invariant forall j :: 0 <= j < i ==> Finished(old(lines)[j], lines[j])
        invariant forall j :: i <= j < |lines| ==> lines[j] == old(lines)[j]
      {
        var l, discards := lines[i], *;
        BarrierFinishes(l, discards);
        if Enabled(l, Complete(discards)) {
          l := Next(l, Complete(discards));
        }
        lines := lines[i := AfterBarrier(l)];
        i := i + 1;
      }
    }

    /** The loop of a range operation: on its way on every line of the range, and nothing but
        the hardware's doing anywhere else. */
    method IssueEach(addr: nat, len: nat, e: Event)
      requires Ok() && 0 < len && addr + len <= LINE * |lines| && (e.IssuePre? || e.IssuePost?)
      requires forall i :: 0 <= i < |lines| && Touched(addr, len, i) ==> Enabled(lines[i], e)
      modifies this
      ensures Ok() && |lines| == |old(lines)|
      ensures forall i :: 0 <= i < |lines| ==>
                if Touched(addr, len, i) then Issued(old(lines)[i], lines[i], e) else Drifted(old(lines)[i], lines[i])
    {
      var first, last := addr / LINE, (addr + len - 1) / LINE;
      var k := first;
      while k <= last
        invariant first <= k <= last + 1 && |lines| == |old(lines)| && Ok()
        invariant forall i :: 0 <= i < |lines| ==>
                    if first <= i < k then Issued(old(lines)[i], lines[i], e) else Drifted(old(lines)[i], lines[i])
      {
        StillReady(old(lines)[k], lines[k], e);
        IssueNow(old(lines)[k], lines[k], e);
        lines := lines[k := Next(lines[k], e)];
        ghost var now := lines;
        Turbulence();
        forall i | 0 <= i < |lines|
          ensures if first <= i < k + 1 then Issued(old(lines)[i], lines[i], e) else Drifted(old(lines)[i], lines[i])
        {
          if first <= i < k + 1 {
            IssuedDrifts(old(lines)[i], now[i], lines[i], e);
          } else {
            DriftsChain(old(lines)[i], now[i], lines[i]);
          }
        }
        k := k + 1;
      }
    }

    /** A range operation: unless it carries DMAF_NoSync it is in effect when it returns, and so
        is every operation before it that carried it. An empty range emits nothing, not even
        the barrier. */
    method RangeOp(addr: nat, len: nat, e: Event, noSync: bool)
      requires Ok() && addr + len <= LINE * |lines| && (e.IssuePre? || e.IssuePost?)
      requires forall i :: 0 <= i < |lines| && Touched(addr, len, i) ==> Enabled(lines[i], e)
      modifies this
      ensures Ok() && |lines| == |old(lines)|
      ensures len == 0 ==> lines == old(lines)
      ensures noSync && len > 0 ==> forall i :: 0 <= i < |lines| ==>
                if Touched(addr, len, i) then Issued(old(lines)[i], lines[i], e) else Drifted(old(lines)[i], lines[i])
      ensures !noSync && len > 0 ==> forall i :: 0 <= i < |lines| ==>
                if Touched(addr, len, i) then Effective(old(lines)[i], lines[i], e)
                else Finished(old(lines)[i], lines[i])
    {
      if len == 0 {
        return;
      }
      IssueEach(addr, len, e);
      if noSync {
        return;
      }
      ghost var now := lines;
      BarrierNow();
      forall i | 0 <= i < |lines|
        ensures if Touched(addr, len, i) then Effective(old(lines)[i], lines[i], e)
                else Finished(old(lines)[i], lines[i])
      {
        if Touched(addr, len, i) {
          IssuedFinishes(old(lines)[i], now[i], lines[i], e);
        } else {
          DriftThenFinish(old(lines)[i], now[i], lines[i]);
        }
      }
    }

    /** cache_pre_dma_impl(). */
    method PreDma(addr: nat, len: nat, readFromRam: bool, writeToRam: bool, noSync: bool)
      requires Ok() && addr + len <= LINE * |lines|
      requires forall i :: 0 <= i < |lines| && Touched(addr, len, i) ==> lines[i].phase.Idle?
      modifies this
      ensures Ok() && |lines| == |old(lines)|
      ensures len == 0 ==> lines == old(lines)
      ensures len > 0 ==> forall i :: 0 <= i < |lines| ==>
                var was, now, e := old(lines)[i], lines[i], IssuePre(PreOp(readFromRam, writeToRam));
                if Touched(addr, len, i) then (if noSync then Issued(was, now, e) else Effective(was, now, e))
                else if noSync then Drifted(was, now) else Finished(was, now)
    {
      RangeOp(addr, len, IssuePre(PreOp(readFromRam, writeToRam)), noSync);
    }

    /** cache_post_dma_impl(). */
    method PostDma(addr: nat, len: nat, noSync: bool)
      requires Ok() && addr + len <= LINE * |lines|
      requires forall i :: 0 <= i < |lines| && Touched(addr, len, i) ==> lines[i].phase.Armed?
      modifies this
      ensures Ok() && |lines| == |old(lines)|
      ensures len == 0 ==> lines == old(lines)
      ensures len > 0 ==> forall i :: 0 <= i < |lines| ==>
                var was, now := old(lines)[i], lines[i];
                if Touched(addr, len, i) then
                  (if noSync then Issued(was, now, IssuePost) else Effective(was, now, IssuePost))
                else if noSync then Drifted(was, now) else Finished(was, now)
    {
      RangeOp(addr, len, IssuePost, noSync);
    }
  }
}
