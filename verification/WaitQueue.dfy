/** src/drv_waitq.c as a step machine: any number of tasks share one lock, one waiter list
    and one timer device; a step is one statement of drv_wait_event() or of the wake-up
    loop, one statement of a caller, or a timer reply. The state a predicate looks at is
    kept as the truth of each task's predicate, which a state-changer replaces at will. */
module WaitQueue {
  import opened Machine

  datatype Result = Ok | Timeout | NoResources

  /** A wait's copy of the timer request. `expired`: replied by the timer itself, not by
      AbortIO(). */
  datatype Timer = Unused | Running | Replied(expired: bool) | Collected(expired: bool)

  /** The statement a task executes next. */
  datatype Pc =
    | Outside                 // in its own code, with or without the lock
    | Waking(next: nat)       // in drv_wake_up_all(), about to signal this list position
    | Enter                   // pred() before anything else
    | OpenTimer               // timer_ready()
    | MakePort                // CreateMsgPort()
    | Send                    // SendIO()
    | Append                  // AddTail()
    | Unlock                  // ReleaseSemaphore()
    | Sleep                   // Wait()
    | Relock                  // ObtainSemaphore()
    | Recheck                 // pred()
    | CheckTimer              // CheckIO() in the loop
    | Unlink                  // Remove()
    | CheckAgain              // CheckIO() after the loop
    | Abort                   // AbortIO()
    | Collect                 // WaitIO()
    | ClearBit                // SetSignal()
    | DropPort                // DeleteMsgPort()
    | Done                    // return rc

  datatype Task = Task(pc: Pc, bit: bool, port: bool, timer: Timer, holds: bool, rc: Result)

  datatype Sys = Sys(tasks: seq<Task>, owner: Option<nat>, waiters: seq<nat>, timerOpen: bool, unannounced: bool)

  datatype Event =
    | Obtain(t: nat)
    | Release(t: nat)
    | Change(t: nat, truths: seq<bool>)   // the guarded state changes: every predicate may flip
    | BeginWake(t: nat)
    | WakeNext(t: nat)
    | EndWake(t: nat)
    | Call(t: nat, holds: bool)           // drv_wait_event() with some predicate
    | Run(t: nat, granted: bool)          // the next statement; `granted`: OpenDevice()/CreateMsgPort() worked
    | Expire(t: nat)                      // the timer replies
    | Cleanup(t: nat)                     // drv_waitq_cleanup()

  // ---- the machine ------------------------------------------------------------

  predicate InWait(pc: Pc) {
    !pc.Outside? && !pc.Waking?
  }

  /** Before AddTail() is done. */
  predicate Entering(pc: Pc) {
    pc.Enter? || pc.OpenTimer? || pc.MakePort? || pc.Send? || pc.Append?
  }

  /** From AddTail() to Remove(). */
  predicate Queued(pc: Pc) {
    pc.Unlock? || pc.Sleep? || pc.Relock? || pc.Recheck? || pc.CheckTimer? || pc.Unlink?
  }

  /** After Remove(), before the port goes. */
  predicate Leaving(pc: Pc) {
    pc.CheckAgain? || pc.Abort? || pc.Collect? || pc.ClearBit? || pc.DropPort?
  }

  /** A task inside drv_wait_event() can execute its next statement: Wait(), WaitIO() and
      ObtainSemaphore() block. */
  predicate CanRun(s: Sys, t: nat) {
    t < |s.tasks| &&
    var k := s.tasks[t];
    InWait(k.pc) &&
    (k.pc.Sleep? ==> k.bit) &&
    (k.pc.Relock? ==> s.owner.None?) &&
    (k.pc.Collect? ==> k.timer.Replied?)
  }

  /** What can happen; `announces`: whoever changes the guarded state wakes the waiters before it
      lets the lock go, or waits itself. */
  predicate Enabled(s: Sys, e: Event, announces: bool) {
    e.t < |s.tasks| &&
    var k := s.tasks[e.t];
    match e
    case Obtain(t) => k.pc.Outside? && s.owner.None?
    case Release(t) => k.pc.Outside? && s.owner == Some(t) && (announces ==> !s.unannounced)
    case Change(t, truths) => k.pc.Outside? && s.owner == Some(t) && |truths| == |s.tasks|
    case BeginWake(t) => k.pc.Outside? && s.owner == Some(t)
    case WakeNext(t) => k.pc.Waking? && k.pc.next < |s.waiters| && s.waiters[k.pc.next] < |s.tasks|
    case EndWake(t) => k.pc.Waking? && k.pc.next >= |s.waiters|
    case Call(t, _) => k.pc.Outside? && s.owner == Some(t) && (announces ==> !s.unannounced)
    case Run(t, _) => CanRun(s, t)
    case Expire(t) => k.timer.Running?
    case Cleanup(t) => forall u :: 0 <= u < |s.tasks| ==> !InWait(s.tasks[u].pc)
  }

  function With(s: Sys, t: nat, k: Task): Sys
    requires t < |s.tasks|
  {
    s.(tasks := s.tasks[t := k])
  }

  function Without(list: seq<nat>, t: nat): (r: seq<nat>)
    ensures forall x :: x in r <==> x in list && x != t
  {
    if list == [] then []
    else if list[0] == t then Without(list[1..], t)
    else [list[0]] + Without(list[1..], t)
  }

  lemma {:induction false} WithoutKeepsDistinct(list: seq<nat>, t: nat)
    requires Distinct(list)
    ensures Distinct(Without(list, t))
  {
    if list != [] {
      WithoutKeepsDistinct(list[1..], t);
      DistinctJoin([list[0]], Without(list[1..], t));
    }
  }

  /** drv_wait_event() up to the first sleep. */
  function EnterNext(s: Sys, t: nat, granted: bool): Sys
    requires t < |s.tasks| && Entering(s.tasks[t].pc)
  {
    var k := s.tasks[t];
    match k.pc
    case Enter => With(s, t, if k.holds then k.(pc := Done, rc := Ok) else k.(pc := OpenTimer))
    case OpenTimer =>
      var open := s.timerOpen || granted;
      With(s, t, if open then k.(pc := MakePort) else k.(pc := Done, rc := NoResources)).(timerOpen := open)
    case MakePort => With(s, t, if granted then k.(pc := Send, port := true) else k.(pc := Done, rc := NoResources))
    case Send => With(s, t, k.(pc := Append, timer := Running))
    case Append => With(s, t, k.(pc := Unlock, rc := Ok)).(waiters := s.waiters + [t])
  }

  /** Its loop, and Remove(): what becomes of the task itself. */
  function LoopTask(k: Task): Task
    requires Queued(k.pc)
  {
    match k.pc
    case Unlock => k.(pc := Sleep)
    case Sleep => k.(pc := Relock, bit := false)
    case Relock => k.(pc := Recheck)
    case Recheck => k.(pc := if k.holds then Unlink else CheckTimer)
    case CheckTimer => if k.timer.Replied? then k.(pc := Unlink, rc := Timeout) else k.(pc := Unlock)
    case Unlink => k.(pc := CheckAgain)
  }

  /** ... and of the lock and the list. */
  function LoopNext(s: Sys, t: nat): Sys
    requires t < |s.tasks| && Queued(s.tasks[t].pc)
  {
    var pc := s.tasks[t].pc;
    With(s, t, LoopTask(s.tasks[t])).(
      owner := if pc.Unlock? then None else if pc.Relock? then Some(t) else s.owner,
      waiters := if pc.Unlink? then Without(s.waiters, t) else s.waiters)
  }

  /** The rest, which touches the task's own port, bit and request only. */
  function LeaveNext(k: Task): Task
    requires (Leaving(k.pc) || k.pc.Done?) && (k.pc.Collect? ==> k.timer.Replied?)
  {
    match k.pc
    case CheckAgain => k.(pc := if k.timer.Replied? then Collect else Abort)
    case Abort =>
      // a request the timer has replied to meanwhile is left alone
      if k.timer.Running? then k.(pc := Collect, timer := Replied(false), bit := true) else k.(pc := Collect)
    case Collect => k.(pc := ClearBit, timer := Collected(k.timer.expired))
    case ClearBit => k.(pc := DropPort, bit := false)
    case DropPort => k.(pc := Done, port := false)
    case Done => k.(pc := Outside)
  }

  /** One statement of drv_wait_event(). */
  function RunNext(s: Sys, t: nat, granted: bool): Sys
    requires CanRun(s, t)
  {
    var pc := s.tasks[t].pc;
    if Entering(pc) then EnterNext(s, t, granted)
    else if Queued(pc) then LoopNext(s, t)
    else With(s, t, LeaveNext(s.tasks[t]))
  }

  function Next(s: Sys, e: Event): Sys
    requires Enabled(s, e, false)
  {
    var k := s.tasks[e.t];
    match e
    case Obtain(t) => s.(owner := Some(t))
    case Release(t) => s.(owner := None)
    case Change(t, truths) =>
      s.(tasks := seq(|s.tasks|, i requires 0 <= i < |s.tasks| => s.tasks[i].(holds := truths[i])), unannounced := true)
    case BeginWake(t) => With(s, t, k.(pc := Waking(0)))
    case WakeNext(t) =>
      var w := s.waiters[k.pc.next];
      var s' := With(s, t, k.(pc := Waking(k.pc.next + 1)));
      With(s', w, s'.tasks[w].(bit := true))
    case EndWake(t) => With(s, t, k.(pc := Outside)).(unannounced := false)
    case Call(t, holds) => With(s, t, k.(pc := Enter, holds := holds))
    case Run(t, granted) => RunNext(s, t, granted)
    case Expire(t) => With(s, t, k.(timer := Replied(true), bit := true))
    case Cleanup(t) => s.(timerOpen := false)
  }

  /** drv_waitq_init(): nobody waits, the timer is not open, and the lock is free. */
  function Init(n: nat): Sys {
    Sys(seq(n, _ => Task(Outside, false, false, Unused, false, Ok)), None, [], false, false)
  }

  /** The state a sequence of events leads to, if every event was possible in turn. */
  function Reach(announces: bool, n: nat, run: seq<Event>): (r: Option<Sys>)
    ensures r.Some? ==> |r.value.tasks| == n
  {
    if run == [] then Some(Init(n))
    else
      match Reach(announces, n, run[..|run| - 1])
      case None => None
      case Some(s) => if Enabled(s, run[|run| - 1], announces) then Some(Next(s, run[|run| - 1])) else None
  }

  // ---- the invariant ----------------------------------------------------------

  predicate HoldsLock(pc: Pc) {
    pc.Waking? || (InWait(pc) && !pc.Sleep? && !pc.Relock?)
  }

  predicate HasPort(pc: Pc) {
    pc.Send? || pc.Append? || Queued(pc) || Leaving(pc)
  }

  /** The request is out and the timer alone can have replied. */
  predicate Counting(timer: Timer) {
    timer.Running? || timer == Replied(true)
  }

  ghost predicate TimerOk(k: Task) {
    if !HasPort(k.pc) || k.pc.Send? then !k.timer.Running? && !k.timer.Replied?
    else if k.pc.Collect? then k.timer.Replied?
    else if k.pc.ClearBit? || k.pc.DropPort? then k.timer.Collected?
    else Counting(k.timer) && ((k.pc.Append? || k.pc.Unlock? || k.pc.Sleep?) && k.timer.Replied? ==> k.bit)
  }

  /** The verdict a wait is about to return agrees with the predicate and the timer. */
  ghost predicate VerdictOk(k: Task) {
    match k.rc
    case Ok => k.holds
    case Timeout => !k.holds && (k.timer == Replied(true) || k.timer == Collected(true))
    case NoResources => !k.holds && k.pc.Done?
  }

  ghost predicate PredicateOk(k: Task) {
    if k.pc.OpenTimer? || k.pc.MakePort? || k.pc.Send? || k.pc.Append? || k.pc.Unlock? || k.pc.CheckTimer? then !k.holds
    else k.pc.Unlink? || Leaving(k.pc) || k.pc.Done? ==> VerdictOk(k)
  }

  /** The lock's owner has changed the state and its wake-up has yet to reach `t`. */
  ghost predicate WakeUpDue(s: Sys, t: nat) {
    s.owner.Some? && s.owner.value < |s.tasks| && s.unannounced &&
    match s.tasks[s.owner.value].pc
    case Outside => true
    case Waking(next) => next <= |s.waiters| && t !in s.waiters[..next]
    case _ => false
  }

  /** What the next statement of a task says about the task itself; `mine`: it owns the
      lock, `queued`: it is on the list, `open`: the queue's timer is open. */
  ghost predicate LocalOk(k: Task, mine: bool, queued: bool, open: bool) {
    && (HoldsLock(k.pc) ==> mine)
    && (k.pc.Sleep? || k.pc.Relock? ==> !mine)
    && (queued <==> Queued(k.pc))
    && (k.port <==> HasPort(k.pc))
    && (k.port || k.pc.MakePort? ==> open)
    && (k.bit ==> k.port && !k.pc.DropPort? && !k.pc.Send?)
    && TimerOk(k)
    && PredicateOk(k)
    && (Queued(k.pc) && !k.pc.Unlink? ==> k.rc == Ok)
  }

  ghost predicate TaskOk(s: Sys, t: nat)
    requires t < |s.tasks|
  {
    LocalOk(s.tasks[t], s.owner == Some(t), t in s.waiters, s.timerOpen)
  }

  /** No wake-up is lost on `t`: asleep on a clear bit, its predicate is false, or the
      wake-up for the change is still to come. */
  ghost predicate Heard(s: Sys, t: nat)
    requires t < |s.tasks|
  {
    s.tasks[t].pc.Sleep? && !s.tasks[t].bit && s.tasks[t].holds ==> WakeUpDue(s, t)
  }

  ghost predicate LockOk(s: Sys) {
    && (s.owner.Some? ==> s.owner.value < |s.tasks|)
    && (forall t :: 0 <= t < |s.tasks| && s.tasks[t].pc.Waking? ==> s.tasks[t].pc.next <= |s.waiters|)
  }

  /** A change that is not announced yet has its maker still at the lock, outside any wait. */
  ghost predicate AnnounceOk(s: Sys) {
    s.unannounced ==>
      s.owner.Some? && s.owner.value < |s.tasks| && !InWait(s.tasks[s.owner.value].pc)
  }

  ghost predicate ListOk(s: Sys) {
    Distinct(s.waiters) && forall i :: 0 <= i < |s.waiters| ==> s.waiters[i] < |s.tasks|
  }

  ghost predicate Inv(s: Sys) {
    && LockOk(s)
    && ListOk(s)
    && (forall t :: 0 <= t < |s.tasks| ==> TaskOk(s, t))
  }

  /** What holds besides when state-changers announce. */
  ghost predicate HeardInv(s: Sys) {
    Inv(s) && AnnounceOk(s) && forall t :: 0 <= t < |s.tasks| ==> Heard(s, t)
  }

  // ---- every step keeps it ----------------------------------------------------

  lemma EnterKeepsOwn(s: Sys, t: nat, granted: bool)
    requires t < |s.tasks| && Entering(s.tasks[t].pc) && TaskOk(s, t)
    ensures TaskOk(EnterNext(s, t, granted), t)
  {
  }

  lemma LoopTaskOk(k: Task, mine: bool, queued: bool, open: bool)
    requires Queued(k.pc) && LocalOk(k, mine, queued, open)
    ensures LocalOk(LoopTask(k), if k.pc.Unlock? then false else k.pc.Relock? || mine, queued && !k.pc.Unlink?, open)
  {
  }

  lemma LoopKeepsOwn(s: Sys, t: nat)
    requires CanRun(s, t) && Queued(s.tasks[t].pc) && TaskOk(s, t)
    ensures TaskOk(LoopNext(s, t), t)
  {
    LoopTaskOk(s.tasks[t], s.owner == Some(t), t in s.waiters, s.timerOpen);
  }

  lemma LeaveKeepsOwn(k: Task, mine: bool, queued: bool, open: bool)
    requires (Leaving(k.pc) || k.pc.Done?) && LocalOk(k, mine, queued, open)
    ensures LocalOk(LeaveNext(k), mine, queued, open)
  {
  }

  /** The statement a task executes keeps what the task itself must satisfy. */
  lemma RunKeepsOwn(s: Sys, t: nat, granted: bool)
    requires CanRun(s, t) && TaskOk(s, t)
    ensures TaskOk(RunNext(s, t, granted), t)
  {
    var pc := s.tasks[t].pc;
    if Entering(pc) {
      EnterKeepsOwn(s, t, granted);
    } else if Queued(pc) {
      LoopKeepsOwn(s, t);
    } else {
      LeaveKeepsOwn(s.tasks[t], s.owner == Some(t), t in s.waiters, s.timerOpen);
    }
  }

  lemma RunKeepsOthers(s: Sys, t: nat, granted: bool, u: nat)
    requires CanRun(s, t) && u < |s.tasks| && u != t && TaskOk(s, t) && TaskOk(s, u)
    ensures TaskOk(RunNext(s, t, granted), u)
  {
  }

  lemma RunKeepsHeard(s: Sys, t: nat, granted: bool, u: nat)
    requires CanRun(s, t) && u < |s.tasks| && LockOk(s) && AnnounceOk(s) && TaskOk(s, t) && Heard(s, u)
    ensures Heard(RunNext(s, t, granted), u)
  {
  }

  lemma RunKeepsList(s: Sys, t: nat, granted: bool)
    requires ListOk(s) && CanRun(s, t) && TaskOk(s, t)
    ensures ListOk(RunNext(s, t, granted))
  {
    if s.tasks[t].pc.Append? { DistinctJoin(s.waiters, [t]); }
    if s.tasks[t].pc.Unlink? { WithoutKeepsList(s.waiters, t, |s.tasks|); }
  }

  lemma WithoutKeepsList(list: seq<nat>, t: nat, n: nat)
    requires Distinct(list) && forall i :: 0 <= i < |list| ==> list[i] < n
    ensures var left := Without(list, t);
            Distinct(left) && forall i :: 0 <= i < |left| ==> left[i] < n
  {
    WithoutKeepsDistinct(list, t);
    var left := Without(list, t);
    forall i | 0 <= i < |left| ensures left[i] < n {
      assert left[i] in list;
    }
  }

  /** A wake-up under way keeps its place while the list does not get shorter. */
  lemma LongerListKeepsLock(s: Sys, s': Sys, t: nat)
    requires LockOk(s) && t < |s.tasks| && |s'.tasks| == |s.tasks| && |s'.waiters| >= |s.waiters|
    requires s'.owner.Some? ==> s'.owner.value < |s.tasks|
    requires !s'.tasks[t].pc.Waking? && forall u :: 0 <= u < |s.tasks| && u != t ==> s'.tasks[u] == s.tasks[u]
    ensures LockOk(s')
  {
  }

  lemma EnterKeepsLock(s: Sys, t: nat, granted: bool)
    requires LockOk(s) && t < |s.tasks| && Entering(s.tasks[t].pc)
    ensures LockOk(EnterNext(s, t, granted))
  {
    LongerListKeepsLock(s, EnterNext(s, t, granted), t);
  }

  /** Remove() makes the list shorter, but then no wake-up is under way. */
  lemma LoopKeepsLock(s: Sys, t: nat)
    requires Inv(s) && t < |s.tasks| && Queued(s.tasks[t].pc)
    ensures LockOk(LoopNext(s, t))
  {
    var s' := LoopNext(s, t);
    if s.tasks[t].pc.Unlink? {
      assert TaskOk(s, t);
      forall u | 0 <= u < |s'.tasks| ensures !s'.tasks[u].pc.Waking? { assert TaskOk(s, u); }
    } else {
      LongerListKeepsLock(s, s', t);
    }
  }

  lemma RunKeepsLock(s: Sys, t: nat, granted: bool)
    requires Inv(s) && CanRun(s, t)
    ensures LockOk(RunNext(s, t, granted))
  {
    if Entering(s.tasks[t].pc) {
      EnterKeepsLock(s, t, granted);
    } else if Queued(s.tasks[t].pc) {
      LoopKeepsLock(s, t);
    } else {
      LongerListKeepsLock(s, RunNext(s, t, granted), t);
    }
  }

  lemma RunKeepsInv(s: Sys, t: nat, granted: bool)
    requires Inv(s) && CanRun(s, t)
    ensures Inv(RunNext(s, t, granted))
  {
    assert TaskOk(s, t);
    RunKeepsList(s, t, granted);
    RunKeepsLock(s, t, granted);
    forall u | 0 <= u < |s.tasks| ensures TaskOk(RunNext(s, t, granted), u) {
      assert TaskOk(s, u);
      if u == t { RunKeepsOwn(s, t, granted); } else { RunKeepsOthers(s, t, granted, u); }
    }
  }

  lemma WakeKeepsTask(s: Sys, e: Event, u: nat)
    requires Inv(s) && Enabled(s, e, false) && e.WakeNext? && u < |s.tasks|
    ensures TaskOk(Next(s, e), u)
  {
    assert TaskOk(s, u);
    var w := s.waiters[s.tasks[e.t].pc.next];
    assert w in s.waiters && TaskOk(s, w) && TaskOk(s, e.t);
  }

  lemma ChangeKeepsTask(s: Sys, e: Event, u: nat)
    requires Inv(s) && Enabled(s, e, false) && e.Change? && u < |s.tasks|
    ensures TaskOk(Next(s, e), u)
  {
    assert TaskOk(s, u);
  }

  /** A statement of a caller, a wake-up or a timer reply keeps it too. */
  lemma OtherKeepsTask(s: Sys, e: Event, u: nat)
    requires Inv(s) && Enabled(s, e, false) && !e.Run? && u < |s.tasks|
    ensures TaskOk(Next(s, e), u)
  {
    assert TaskOk(s, u) && TaskOk(s, e.t);
    if e.WakeNext? {
      WakeKeepsTask(s, e, u);
    } else if e.Change? {
      ChangeKeepsTask(s, e, u);
    }
  }

  lemma NextKeepsInv(s: Sys, e: Event)
    requires Inv(s) && Enabled(s, e, false)
    ensures Inv(Next(s, e))
  {
    if e.Run? {
      RunKeepsInv(s, e.t, e.granted);
    } else {
      forall u | 0 <= u < |s.tasks| ensures TaskOk(Next(s, e), u) { OtherKeepsTask(s, e, u); }
      assert TaskOk(s, e.t);
    }
  }

  // ---- ... and, with announcements, what is heard -------------------------------

  lemma OtherKeepsHeard(s: Sys, e: Event, u: nat)
    requires HeardInv(s) && Enabled(s, e, true) && !e.Run? && u < |s.tasks|
    ensures Heard(Next(s, e), u)
  {
    assert TaskOk(s, u) && TaskOk(s, e.t) && Heard(s, u);
    if e.WakeNext? { WakeKeepsHeard(s, e, u); }
  }

  /** The wake-up reaches the waiter at its place, and the others are still to come. */
  lemma WakeKeepsHeard(s: Sys, e: Event, u: nat)
    requires HeardInv(s) && Enabled(s, e, true) && e.WakeNext? && u < |s.tasks|
    ensures Heard(Next(s, e), u)
  {
    assert TaskOk(s, u) && TaskOk(s, e.t) && Heard(s, u);
  }

  lemma NextKeepsAnnounce(s: Sys, e: Event)
    requires HeardInv(s) && Enabled(s, e, true)
    ensures AnnounceOk(Next(s, e))
  {
    assert TaskOk(s, e.t);
    if s.owner.Some? && s.owner.value < |s.tasks| { assert TaskOk(s, s.owner.value); }
  }

  lemma NextKeepsHeard(s: Sys, e: Event)
    requires HeardInv(s) && Enabled(s, e, true)
    ensures HeardInv(Next(s, e))
  {
    NextKeepsInv(s, e);
    NextKeepsAnnounce(s, e);
    forall u | 0 <= u < |s.tasks| ensures Heard(Next(s, e), u) {
      assert Heard(s, u) && TaskOk(s, e.t);
      if e.Run? { RunKeepsHeard(s, e.t, e.granted, u); } else { OtherKeepsHeard(s, e, u); }
    }
  }

  // ---- theorems over every run ------------------------------------------------

  lemma {:induction false} EveryRunKeepsInv(announces: bool, n: nat, run: seq<Event>)
    requires Reach(announces, n, run).Some?
    ensures Inv(Reach(announces, n, run).value)
  {
    if run != [] {
      EveryRunKeepsInv(announces, n, run[..|run| - 1]);
      NextKeepsInv(Reach(announces, n, run[..|run| - 1]).value, run[|run| - 1]);
    }
  }

  lemma {:induction false} AnnouncedRunKeepsHeard(n: nat, run: seq<Event>)
    requires Reach(true, n, run).Some?
    ensures HeardInv(Reach(true, n, run).value)
  {
    if run != [] {
      AnnouncedRunKeepsHeard(n, run[..|run| - 1]);
      NextKeepsHeard(Reach(true, n, run[..|run| - 1]).value, run[|run| - 1]);
    }
  }

  /** No timeout is ever lost, in any run: a task asleep on a clear bit has its timer still
      running. */
  lemma NoLostTimeout(announces: bool, n: nat, run: seq<Event>, s: Sys, t: nat)
    requires Reach(announces, n, run) == Some(s) && t < n
    ensures s.tasks[t].pc.Sleep? && !s.tasks[t].bit ==> s.tasks[t].timer.Running?
  {
    EveryRunKeepsInv(announces, n, run);
    assert TaskOk(s, t);
  }

  /** A wake-up is lost on a task: asleep on a clear bit with its predicate true, and nobody is
      going to wake it; with the lock free, certainly nobody is. */
  ghost predicate WakeUpLost(s: Sys, t: nat) {
    t < |s.tasks| && s.tasks[t].pc.Sleep? && !s.tasks[t].bit && s.tasks[t].holds && !WakeUpDue(s, t)
  }

  lemma AnnouncedLosesNothing(n: nat, run: seq<Event>, t: nat)
    requires Reach(true, n, run).Some?
    ensures !WakeUpLost(Reach(true, n, run).value, t)
  {
    AnnouncedRunKeepsHeard(n, run);
    if t < n { assert Heard(Reach(true, n, run).value, t); }
  }

  /** No wake-up is lost, in any run of any number of tasks, if and only if whoever changes the
      guarded state wakes the waiters before it lets the lock go. */
  lemma NoLostWakeUp(announces: bool)
    ensures (forall n, run, t: nat ::
               Reach(announces, n, run).Some? ==> !WakeUpLost(Reach(announces, n, run).value, t)) <==> announces
  {
    if announces {
      forall n, run, t: nat | Reach(announces, n, run).Some?
        ensures !WakeUpLost(Reach(announces, n, run).value, t)
      {
        AnnouncedLosesNothing(n, run, t);
      }
    } else {
      var run := SilentChangeLosesWakeUp();
      assert WakeUpLost(Reach(announces, 2, run).value, 0);
    }
  }

  /** A task that does nothing, and the system of two with the first at `k`. */
  const IDLE := Task(Outside, false, false, Unused, false, Ok)

  function Pair(k: Task, owner: Option<nat>, waiters: seq<nat>, open: bool): Sys {
    Sys([k, IDLE], owner, waiters, open, false)
  }

  /** The first of two tasks takes one statement. */
  lemma PairRuns(run: seq<Event>, s: Sys, s': Sys) returns (run': seq<Event>)
    requires Reach(false, 2, run) == Some(s) && CanRun(s, 0) && RunNext(s, 0, true) == s'
    ensures Reach(false, 2, run') == Some(s')
  {
    var t: Sys;
    run', t := Then(run, s, Run(0, true));
  }

  /** It calls drv_wait_event() with a false predicate and gets as far as its request. */
  lemma BeginWaiting() returns (run: seq<Event>)
    ensures Reach(false, 2, run) == Some(Pair(IDLE.(pc := Send, port := true), Some(0), [], true))
  {
    var s: Sys;
    assert Init(2) == Pair(IDLE, None, [], false);
    run, s := Then([], Init(2), Obtain(0));
    run, s := Then(run, s, Call(0, false));
    assert s == Pair(IDLE.(pc := Enter), Some(0), [], false);
    run := PairRuns(run, s, Pair(IDLE.(pc := OpenTimer), Some(0), [], false));
    run := PairRuns(run, Pair(IDLE.(pc := OpenTimer), Some(0), [], false),
        Pair(IDLE.(pc := MakePort), Some(0), [], true));
    run := PairRuns(run, Pair(IDLE.(pc := MakePort), Some(0), [], true),
                    Pair(IDLE.(pc := Send, port := true), Some(0), [], true));
  }

  /** ... and to sleep. */
  lemma FallAsleep() returns (run: seq<Event>)
    ensures Reach(false, 2, run) == Some(Pair(Task(Sleep, false, true, Running, false, Ok), None, [0], true))
  {
    run := BeginWaiting();
    var k := Task(Append, false, true, Running, false, Ok);
    run := PairRuns(run, Pair(IDLE.(pc := Send, port := true), Some(0), [], true), Pair(k, Some(0), [], true));
    run := PairRuns(run, Pair(k, Some(0), [], true), Pair(k.(pc := Unlock), Some(0), [0], true));
    run := PairRuns(run, Pair(k.(pc := Unlock), Some(0), [0], true), Pair(k.(pc := Sleep), None, [0], true));
  }

  /** The second makes the first one's predicate true and lets the lock go without a word. */
  lemma SilentChangeLosesWakeUp() returns (run: seq<Event>)
    ensures Reach(false, 2, run).Some? && WakeUpLost(Reach(false, 2, run).value, 0)
  {
    run := FallAsleep();
    var s := Pair(Task(Sleep, false, true, Running, false, Ok), None, [0], true);
    run, s := Then(run, s, Obtain(1));
    run, s := Then(run, s, Change(1, [true, true]));
    run, s := Then(run, s, Release(1));
  }

  lemma Then(run: seq<Event>, s: Sys, e: Event) returns (run': seq<Event>, s': Sys)
    requires Reach(false, 2, run) == Some(s) && Enabled(s, e, false)
    ensures s' == Next(s, e) && Reach(false, 2, run') == Some(s')
  {
    run', s' := run + [e], Next(s, e);
    ReachOneMore(false, 2, run, s, e);
  }

  /** The waiter list holds exactly the tasks between AddTail() and Remove(), once each,
      and every one of them has a live port; only one task at a time is past its lock. */
  lemma ListIsExact(announces: bool, n: nat, run: seq<Event>, s: Sys, t: nat)
    requires Reach(announces, n, run) == Some(s) && t < n
    ensures && Distinct(s.waiters)
            && (t in s.waiters <==> Queued(s.tasks[t].pc))
            && (t in s.waiters ==> s.tasks[t].port)
            && (HoldsLock(s.tasks[t].pc) ==> s.owner == Some(t))
  {
    EveryRunKeepsInv(announces, n, run);
    assert TaskOk(s, t);
  }

  /** A signal sent by drv_wake_up_all() or by the timer goes to a bit whose port is
      alive, and no request is out at a closed timer device. */
  lemma SignalsReachLivePorts(announces: bool, n: nat, run: seq<Event>, s: Sys, e: Event)
    requires Reach(announces, n, run) == Some(s) && Enabled(s, e, announces)
    ensures && (e.WakeNext? ==> s.tasks[s.waiters[s.tasks[e.t].pc.next]].port)
            && (e.Expire? ==> s.tasks[e.t].port && s.timerOpen)
  {
    EveryRunKeepsInv(announces, n, run);
    assert TaskOk(s, e.t);
    if e.WakeNext? {
      var w := s.waiters[s.tasks[e.t].pc.next];
      assert w in s.waiters && TaskOk(s, w);
    }
  }

  /** A wait returns with the lock held, off the list, its port gone, its request collected
      and its bit clear: OK only if the predicate holds, TIMEOUT only if the timer itself
      replied and the predicate is false. */
  lemma WaitReturnsClean(announces: bool, n: nat, run: seq<Event>, s: Sys, t: nat)
    requires Reach(announces, n, run) == Some(s) && t < n && s.tasks[t].pc.Done?
    ensures var k := s.tasks[t];
        && s.owner == Some(t) && t !in s.waiters
            && !k.port && !k.bit && !k.timer.Running? && !k.timer.Replied?
            && (k.rc == Ok ==> k.holds)
            && (k.rc == Timeout ==> !k.holds && k.timer == Collected(true))
            && (k.rc == NoResources ==> !k.holds)
  {
    EveryRunKeepsInv(announces, n, run);
    assert TaskOk(s, t);
  }

  /** Nothing inside a wait blocks but a sleep whose timer still runs and a lock another
      task owns; WaitIO() in particular always finds the reply. */
  lemma OnlySleepAndLockBlock(announces: bool, n: nat, run: seq<Event>, s: Sys, t: nat)
    requires Reach(announces, n, run) == Some(s) && t < n && InWait(s.tasks[t].pc)
    ensures || CanRun(s, t)
            || (s.tasks[t].pc.Sleep? && !s.tasks[t].bit && s.tasks[t].timer.Running?)
            || (s.tasks[t].pc.Relock? && s.owner.Some? && s.owner != Some(t))
  {
    EveryRunKeepsInv(announces, n, run);
    assert TaskOk(s, t);
  }

  /** How many statements of its own separate a wait that has seen its reply or its
      predicate from its return. */
  function Remaining(pc: Pc): nat {
    match pc
    case Sleep => 10
    case Relock => 9
    case Recheck => 8
    case CheckTimer => 7
    case Unlink => 6
    case CheckAgain => 5
    case Abort => 4
    case Collect => 3
    case ClearBit => 2
    case DropPort => 1
    case _ => 0
  }

  /** The timer has replied, or the predicate holds and the wait is about to look. */
  ghost predicate Finishing(s: Sys, t: nat)
    requires t < |s.tasks|
  {
    var k := s.tasks[t];
    && Remaining(k.pc) > 0
    && (s.owner.None? || s.owner == Some(t))
    && (k.pc.Sleep? ==> k.bit)
    && (Remaining(k.pc) >= 7 ==> k.timer.Replied? || (k.holds && !k.pc.CheckTimer?))
  }

  lemma FinishingStep(s: Sys, t: nat)
    requires t < |s.tasks| && TaskOk(s, t) && Finishing(s, t)
    ensures CanRun(s, t)
    ensures var s' := RunNext(s, t, true);
            Remaining(s'.tasks[t].pc) < Remaining(s.tasks[t].pc) && (s'.tasks[t].pc.Done? || Finishing(s', t))
  {
  }

  lemma ReachOneMore(announces: bool, n: nat, run: seq<Event>, s: Sys, e: Event)
    requires Reach(announces, n, run) == Some(s) && Enabled(s, e, announces)
    ensures Reach(announces, n, run + [e]) == Some(Next(s, e))
  {
    assert (run + [e])[..|run|] == run;
  }

  lemma FinishingGetsOn(announces: bool, n: nat, run: seq<Event>, s: Sys, t: nat) returns (s': Sys)
    requires Reach(announces, n, run) == Some(s) && t < n && Finishing(s, t)
    ensures Reach(announces, n, run + [Run(t, true)]) == Some(s')
    ensures Remaining(s'.tasks[t].pc) < Remaining(s.tasks[t].pc) && (s'.tasks[t].pc.Done? || Finishing(s', t))
  {
    assert TaskOk(s, t) by { EveryRunKeepsInv(announces, n, run); }
    FinishingStep(s, t);
    ReachOneMore(announces, n, run, s, Run(t, true));
    s' := Next(s, Run(t, true));
  }

  /** `m` statements of task `t` in a row. */
  function Alone(t: nat, m: nat): seq<Event> {
    if m == 0 then [] else [Run(t, true)] + Alone(t, m - 1)
  }

  lemma AloneOneMore(run: seq<Event>, t: nat, m: nat)
    ensures run + [Run(t, true)] + Alone(t, m) == run + Alone(t, m + 1)
  {
  }

  ghost predicate ReturnsAfter(announces: bool, n: nat, run: seq<Event>, t: nat) {
    Reach(announces, n, run).Some? && t < n && Reach(announces, n, run).value.tasks[t].pc.Done?
  }

  /** Once its timer has replied, or its predicate holds and it was woken, a waiter left to
      run while nobody else takes the lock returns within ten statements. */
  lemma {:induction false} FinishingWaitReturns(announces: bool, n: nat, run: seq<Event>, s: Sys, t: nat)
    returns (m: nat)
    requires Reach(announces, n, run) == Some(s) && t < n && Finishing(s, t)
    ensures m <= Remaining(s.tasks[t].pc) <= 10 && ReturnsAfter(announces, n, run + Alone(t, m), t)
    decreases Remaining(s.tasks[t].pc)
  {
    var s' := FinishingGetsOn(announces, n, run, s, t);
    var step := [Run(t, true)];
    if s'.tasks[t].pc.Done? {
      m := 1;
      AloneOneMore(run, t, 0);
      assert run + step + [] == run + step;
    } else {
      var rest := FinishingWaitReturns(announces, n, run + step, s', t);
      m := rest + 1;
      AloneOneMore(run, t, rest);
    }
  }

  // ---- when a wait fails for want of resources ---------------------------------------------

  /** The task is at a statement that asks for a resource it has not got: OpenDevice() with the
      queue's timer closed, or CreateMsgPort(). */
  predicate Asking(s: Sys, t: nat) {
    t < |s.tasks| && ((s.tasks[t].pc.OpenTimer? && !s.timerOpen) || s.tasks[t].pc.MakePort?)
  }

  /** With the timer open the statement that makes sure of it never fails, whatever the system
      would have granted. */
  lemma OpenTimerIsEnough(s: Sys, t: nat, granted: bool)
    requires CanRun(s, t) && s.tasks[t].pc.OpenTimer? && s.timerOpen
    ensures RunNext(s, t, granted).tasks[t].pc.MakePort? && RunNext(s, t, granted).timerOpen
  {
  }

  /** A resource that is granted is used. */
  lemma GrantedGoesOn(s: Sys, t: nat)
    requires CanRun(s, t) && Asking(s, t)
    ensures var k := RunNext(s, t, true).tasks[t];
            if s.tasks[t].pc.OpenTimer? then k.pc.MakePort? && RunNext(s, t, true).timerOpen
            else k.pc.Send? && k.port
  {
  }

  predicate Refused(s: Sys, t: nat) {
    t < |s.tasks| && s.tasks[t].pc.Done? && s.tasks[t].rc == NoResources
  }

  /** A wait returns NO_RESOURCES by a refusal and by nothing else, and has returned it until its
      task goes on. */
  lemma RefusedStep(s: Sys, e: Event, t: nat)
    requires Inv(s) && Enabled(s, e, false)
    ensures Refused(Next(s, e), t) <==>
            || (e == Run(t, false) && Asking(s, t))
            || (Refused(s, t) && !(e.Run? && e.t == t))
  {
    if e.Run? && e.t == t {
      assert TaskOk(s, t);
      RefusedRun(s, t, e.granted);
    }
  }

  lemma RefusedRun(s: Sys, t: nat, granted: bool)
    requires CanRun(s, t) && TaskOk(s, t)
    ensures Refused(RunNext(s, t, granted), t) <==> !granted && Asking(s, t)
  {
    if Queued(s.tasks[t].pc) { assert !LoopTask(s.tasks[t]).pc.Done?; }
  }

  /** The last statement that task `t` executed in the run asked for a resource, and it was
      refused. */
  ghost predicate LastRefused(announces: bool, n: nat, run: seq<Event>, t: nat) {
    run != [] &&
    var before, e := run[..|run| - 1], run[|run| - 1];
    if e.Run? && e.t == t then
      e == Run(t, false) && Reach(announces, n, before).Some? && Asking(Reach(announces, n, before).value, t)
    else LastRefused(announces, n, before, t)
  }

  /** In every run: a wait has returned NO_RESOURCES exactly when its last statement asked for the
      timer, with the queue's closed, or for a port, and was refused. */
  lemma {:induction false} NoResourcesIffRefused(announces: bool, n: nat, run: seq<Event>, t: nat)
    requires Reach(announces, n, run).Some?
    ensures Refused(Reach(announces, n, run).value, t) <==> LastRefused(announces, n, run, t)
  {
    if run != [] {
      var before := run[..|run| - 1];
      NoResourcesIffRefused(announces, n, before, t);
      EveryRunKeepsInv(announces, n, before);
      RefusedStep(Reach(announces, n, before).value, run[|run| - 1], t);
    }
  }

  /** In a run in which the system grants everything, no wait returns NO_RESOURCES. */
  lemma {:induction false} GrantedNeverFails(announces: bool, n: nat, run: seq<Event>, t: nat)
    requires Reach(announces, n, run).Some?
    requires forall i :: 0 <= i < |run| && run[i].Run? ==> run[i].granted
    ensures !Refused(Reach(announces, n, run).value, t)
  {
    if run != [] {
      var before := run[..|run| - 1];
      GrantedNeverFails(announces, n, before, t);
      EveryRunKeepsInv(announces, n, before);
      RefusedStep(Reach(announces, n, before).value, run[|run| - 1], t);
    }
  }

  // ---- when the timer is open ---------------------------------------------------------------

  /** A wait of the run has opened the timer, and nothing has cleaned up since. */
  ghost predicate LastOpened(announces: bool, n: nat, run: seq<Event>) {
    run != [] &&
    var before, e := run[..|run| - 1], run[|run| - 1];
    !e.Cleanup? && (LastOpened(announces, n, before) || Opens(Reach(announces, n, before), e))
  }

  /** OpenDevice() is called and works. */
  predicate Opens(s: Option<Sys>, e: Event) {
    s.Some? && e.Run? && e.granted && e.t < |s.value.tasks| && s.value.tasks[e.t].pc.OpenTimer?
  }

  lemma TimerStep(s: Sys, e: Event)
    requires Enabled(s, e, false)
    ensures Next(s, e).timerOpen <==> !e.Cleanup? && (s.timerOpen || Opens(Some(s), e))
  {
    if e.Run? && Queued(s.tasks[e.t].pc) { assert LoopNext(s, e.t).timerOpen == s.timerOpen; }
  }

  /** In every run the queue's timer is open exactly when a wait has opened it and
      drv_waitq_cleanup() has not been called since. */
  lemma {:induction false} TimerIsOpenIff(announces: bool, n: nat, run: seq<Event>)
    requires Reach(announces, n, run).Some?
    ensures Reach(announces, n, run).value.timerOpen <==> LastOpened(announces, n, run)
  {
    if run != [] {
      var before := run[..|run| - 1];
      TimerIsOpenIff(announces, n, before);
      TimerStep(Reach(announces, n, before).value, run[|run| - 1]);
    }
  }

  // ---- what a pending signal means ------------------------------------------------------------

  /** The event signals task `t`: a wake-up at its place in the list, the timer, or its own
      AbortIO() of a running request. */
  predicate Signals(s: Option<Sys>, e: Event, t: nat) {
    s.Some? && e.t < |s.value.tasks| &&
    match e
    case WakeNext(u) =>
      var pc := s.value.tasks[u].pc;
      pc.Waking? && pc.next < |s.value.waiters| && s.value.waiters[pc.next] == t
    case Expire(u) => u == t
    case Run(u, _) => u == t && s.value.tasks[u].pc.Abort? && s.value.tasks[u].timer.Running?
    case _ => false
  }

  /** The event consumes the signals of task `t`: it comes back from Wait(), or drops what is
      left of them. */
  predicate Consumes(s: Option<Sys>, e: Event, t: nat) {
    s.Some? && e.Run? && e.t == t && t < |s.value.tasks| &&
    (s.value.tasks[t].pc.Sleep? || s.value.tasks[t].pc.ClearBit?)
  }

  /** Task `t` has been signalled in the run and has not consumed it since. */
  ghost predicate LastSignalled(announces: bool, n: nat, run: seq<Event>, t: nat) {
    run != [] &&
    var before, e := run[..|run| - 1], run[|run| - 1];
    Signals(Reach(announces, n, before), e, t) ||
    (LastSignalled(announces, n, before, t) && !Consumes(Reach(announces, n, before), e, t))
  }

  lemma BitStep(s: Sys, e: Event, t: nat)
    requires Inv(s) && Enabled(s, e, false) && t < |s.tasks|
    ensures Next(s, e).tasks[t].bit <==> Signals(Some(s), e, t) || (s.tasks[t].bit && !Consumes(Some(s), e, t))
  {
    if e.Run? && e.t == t { BitRun(s, t, e.granted); }
  }

  lemma BitRun(s: Sys, t: nat, granted: bool)
    requires CanRun(s, t)
    ensures RunNext(s, t, granted).tasks[t].bit <==>
            Signals(Some(s), Run(t, granted), t) || (s.tasks[t].bit && !Consumes(Some(s), Run(t, granted), t))
  {
    if Entering(s.tasks[t].pc) {
      BitEnter(s, t, granted);
    } else if Queued(s.tasks[t].pc) {
      assert LoopTask(s.tasks[t]).bit <==> s.tasks[t].bit && !s.tasks[t].pc.Sleep?;
    } else {
      BitLeave(s.tasks[t]);
    }
  }

  lemma BitEnter(s: Sys, t: nat, granted: bool)
    requires t < |s.tasks| && Entering(s.tasks[t].pc)
    ensures EnterNext(s, t, granted).tasks[t].bit == s.tasks[t].bit
  {
  }

  lemma BitLeave(k: Task)
    requires (Leaving(k.pc) || k.pc.Done?) && (k.pc.Collect? ==> k.timer.Replied?)
    ensures LeaveNext(k).bit <==> (k.pc.Abort? && k.timer.Running?) || (k.bit && !k.pc.ClearBit?)
  {
  }

  /** In every run a waiter's bit is set exactly when it has been signalled and has not consumed
      it since: Wait() returns once per signal, never of itself. */
  lemma {:induction false} BitIffSignalled(announces: bool, n: nat, run: seq<Event>, t: nat)
    requires Reach(announces, n, run).Some? && t < n
    ensures Reach(announces, n, run).value.tasks[t].bit <==> LastSignalled(announces, n, run, t)
  {
    if run != [] {
      var before := run[..|run| - 1];
      BitIffSignalled(announces, n, before, t);
      EveryRunKeepsInv(announces, n, before);
      BitStep(Reach(announces, n, before).value, run[|run| - 1], t);
    }
  }

  // ---- who is woken first ---------------------------------------------------------------------

  /** The event puts task `t` on the list, or takes it off. */
  predicate Appends(s: Option<Sys>, e: Event, t: nat) {
    s.Some? && e.Run? && e.t == t && t < |s.value.tasks| && s.value.tasks[t].pc.Append?
  }

  predicate Unlinks(s: Option<Sys>, e: Event, t: nat) {
    s.Some? && e.Run? && e.t == t && t < |s.value.tasks| && s.value.tasks[t].pc.Unlink?
  }

  /** How much of the run had passed when `t` last joined the list. */
  ghost function Joined(announces: bool, n: nat, run: seq<Event>, t: nat): (at: nat)
    ensures at <= |run|
  {
    if run == [] then 0
    else if Appends(Reach(announces, n, run[..|run| - 1]), run[|run| - 1], t) then |run|
    else Joined(announces, n, run[..|run| - 1], t)
  }

  ghost predicate Ascending(list: seq<nat>, key: nat -> nat) {
    list == [] || (Ascending(list[1..], key) && forall x | x in list[1..] :: key(list[0]) < key(x))
  }

  lemma {:induction false} AscendingAlike(list: seq<nat>, key: nat -> nat, key': nat -> nat)
    requires Ascending(list, key) && forall x | x in list :: key(x) == key'(x)
    ensures Ascending(list, key')
  {
    if list != [] {
      AscendingAlike(list[1..], key, key');
    }
  }

  lemma {:induction false} AscendingAppend(list: seq<nat>, key: nat -> nat, t: nat)
    requires Ascending(list, key) && forall x | x in list :: key(x) < key(t)
    ensures Ascending(list + [t], key)
  {
    if list != [] {
      AscendingAppend(list[1..], key, t);
      assert (list + [t])[1..] == list[1..] + [t];
    }
  }

  lemma {:induction false} AscendingWithout(list: seq<nat>, key: nat -> nat, t: nat)
    requires Ascending(list, key)
    ensures Ascending(Without(list, t), key)
  {
    if list != [] {
      AscendingWithout(list[1..], key, t);
    }
  }

  lemma {:induction false} AscendingAt(list: seq<nat>, key: nat -> nat, i: nat, j: nat)
    requires Ascending(list, key) && i < j < |list|
    ensures key(list[i]) < key(list[j])
  {
    if i > 0 { AscendingAt(list[1..], key, i - 1, j - 1); }
  }

  lemma ListStep(s: Sys, e: Event)
    requires Enabled(s, e, false)
    ensures Next(s, e).waiters == if Appends(Some(s), e, e.t) then s.waiters + [e.t]
                                  else if Unlinks(Some(s), e, e.t) then Without(s.waiters, e.t)
                                  else s.waiters
  {
    if e.Run? && Queued(s.tasks[e.t].pc) {
      assert LoopNext(s, e.t).waiters ==
             if s.tasks[e.t].pc.Unlink? then Without(s.waiters, e.t) else s.waiters;
    }
  }

  /** One event, with the places in the run as keys. */
  lemma AscendingStep(s: Sys, e: Event, key: nat -> nat, key': nat -> nat)
    requires Enabled(s, e, false) && Ascending(s.waiters, key)
    requires Appends(Some(s), e, e.t) ==> e.t !in s.waiters && forall x | x in s.waiters :: key(x) < key'(e.t)
    requires forall x | x in s.waiters :: key'(x) == key(x)
    ensures Ascending(Next(s, e).waiters, key')
  {
    ListStep(s, e);
    AscendingAlike(s.waiters, key, key');
    if Appends(Some(s), e, e.t) {
      AscendingAppend(s.waiters, key', e.t);
    } else {
      AscendingWithout(s.waiters, key', e.t);
    }
  }

  lemma JoinedStep(announces: bool, n: nat, run: seq<Event>, s: Sys, t: nat)
    requires run != [] && Reach(announces, n, run[..|run| - 1]) == Some(s)
    ensures Joined(announces, n, run, t) ==
            if Appends(Some(s), run[|run| - 1], t) then |run| else Joined(announces, n, run[..|run| - 1], t)
  {
  }

  lemma {:induction false} ListAscends(announces: bool, n: nat, run: seq<Event>)
    requires Reach(announces, n, run).Some?
    ensures Ascending(Reach(announces, n, run).value.waiters, t => Joined(announces, n, run, t))
  {
    if run != [] {
      var before, e := run[..|run| - 1], run[|run| - 1];
      var s := Reach(announces, n, before).value;
      var key, key' := (t: nat) => Joined(announces, n, before, t), (t: nat) => Joined(announces, n, run, t);
      ListAscends(announces, n, before);
      if Appends(Some(s), e, e.t) { ListIsExact(announces, n, before, s, e.t); }
      forall t: nat ensures key'(t) == if Appends(Some(s), e, t) then |run| else key(t) {
        JoinedStep(announces, n, run, s, t);
      }
      AscendingStep(s, e, key, key');
    } else {
      assert Reach(announces, n, run).value.waiters == [];
    }
  }

  /** In every run the list is in order of arrival: drv_wake_up() signals those that joined it
      earlier first. */
  lemma ListInArrivalOrder(announces: bool, n: nat, run: seq<Event>, s: Sys, i: nat, j: nat)
    requires Reach(announces, n, run) == Some(s) && i < j < |s.waiters|
    ensures Joined(announces, n, run, s.waiters[i]) < Joined(announces, n, run, s.waiters[j])
  {
    ListAscends(announces, n, run);
    AscendingAt(s.waiters, t => Joined(announces, n, run, t), i, j);
  }
}
