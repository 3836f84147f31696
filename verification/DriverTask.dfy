/** src/driver_task.c: one parent that spawns a worker task, lets it run, joins it and spawns
    the next, with every interleaving of the two, Forbid() included. A worker stops when it
    is told to; whether it may also stop on its own, and whether the joiner lets it run between
    testing the slot and signalling through it, are parameters, and what the join guarantees
    depends on them. */
module DriverTask {
  import opened Machine

  datatype Code = Started | NoMemory | IoError

  /** The statement the parent executes next. */
  datatype Parent =
    | Idle
    | SpawnClear            // SetSignal() before AddTask()
    | SpawnAdd              // AddTask()
    | SpawnWait             // Wait(CTRL_F | CTRL_C)
    | SpawnReturn(rc: Code)
    | JoinTest              // *slot == NULL ?
    | JoinSignal            // Signal(*slot, CTRL_C), with the timer opened before it
    | JoinPoll              // while (*slot != NULL)
    | JoinClear             // SetSignal() after the loop
    | JoinReturn
    | Faulted               // it signalled through a cleared slot

  /** The worker, from AddTask() to its end. */
  datatype Worker =
    | Absent                // never launched
    | Born                  // the entry runs; the slot is not published yet
    | Publishing            // *slot = FindTask(NULL) is done, initialisation goes on
    | Looping               // CTRL_F reported
    | Leaving(ran: bool)    // about to call drv_task_exit()
    | Forbidding(ran: bool) // Forbid() is held: about to clear the slot
    | Cleared(ran: bool)    // the slot is clear: about to signal the parent
    | Signalled(ran: bool)  // about to return, which ends the task and the Forbid()
    | Gone(ran: bool)

  datatype Sys = Sys(parent: Parent, worker: Worker, slot: bool, ctrlF: bool, ctrlC: bool, told: bool)

  /** `mayQuit`: tasks may stop without being told. `held`: the joiner is under Forbid() and
      opening its timer does not wait, so no task runs between its test and its Signal(). */
  datatype Rules = Rules(mayQuit: bool, held: bool)

  datatype Event =
    | CallSpawn(memory: bool)    // drv_task_spawn(); `memory`: the three allocations worked
    | CallJoin                   // drv_task_join()
    | ParentRuns(granted: bool)  // its next statement; `granted`: AddTask() worked
    | WorkerRuns(fails: bool)    // its next statement; `fails`: its initialisation did not work

  // ---- the machine ----------------------------------------------------------------------

  /** Between Forbid() and its end no other task runs. */
  predicate Forbidden(w: Worker) {
    w.Forbidding? || w.Cleared? || w.Signalled?
  }

  predicate Alive(w: Worker) {
    !w.Absent? && !w.Gone?
  }

  predicate ReachedLoop(w: Worker) {
    w.Looping? ||
    ((w.Leaving? || w.Forbidding? || w.Cleared? || w.Signalled? || w.Gone?) && w.ran)
  }

  predicate Enabled(s: Sys, e: Event, rules: Rules) {
    match e
    // the next task is spawned only once the last is joined or has failed
    case CallSpawn(_) => s.parent.Idle? && !s.slot && !Alive(s.worker)
    case CallJoin => s.parent.Idle? && !Forbidden(s.worker)
    case ParentRuns(_) => !s.parent.Idle? && !s.parent.Faulted? && !Forbidden(s.worker) &&
        (s.parent.SpawnWait? ==> s.ctrlF || s.ctrlC)
    case WorkerRuns(_) => Alive(s.worker) && (s.worker.Looping? ==> s.told || rules.mayQuit) &&
                           (rules.held ==> !s.parent.JoinSignal?)
  }

  function ParentNext(s: Sys, granted: bool): Sys {
    match s.parent
    case Idle => s
    case SpawnClear => s.(parent := SpawnAdd, ctrlF := false, ctrlC := false)
    case SpawnAdd => if granted then s.(parent := SpawnWait, worker := Born, told := false)
        else s.(parent := SpawnReturn(NoMemory))
    case SpawnWait => s.(parent := SpawnReturn(if s.ctrlC then IoError else Started), ctrlF := false, ctrlC := false)
    case SpawnReturn(_) => s.(parent := Idle)
    case JoinTest => s.(parent := if s.slot then JoinSignal else JoinReturn)
    case JoinSignal => if s.slot then s.(parent := JoinPoll, told := true) else s.(parent := Faulted)
    case JoinPoll => if s.slot then s else s.(parent := JoinClear)
    case JoinClear => s.(parent := JoinReturn, ctrlF := false, ctrlC := false)
    case JoinReturn => s.(parent := Idle)
    case Faulted => s
  }

  function WorkerNext(s: Sys, fails: bool): Sys {
    match s.worker
    case Absent => s
    case Born => if fails then s.(worker := Leaving(false)) else s.(worker := Publishing, slot := true)
    case Publishing => if fails then s.(worker := Leaving(false)) else s.(worker := Looping, ctrlF := true)
    case Looping => s.(worker := Leaving(true))
    case Leaving(ran) => s.(worker := Forbidding(ran))
    case Forbidding(ran) => s.(worker := Cleared(ran), slot := false)
    case Cleared(ran) => s.(worker := Signalled(ran), ctrlF := s.ctrlF || ran, ctrlC := s.ctrlC || !ran)
    case Signalled(ran) => s.(worker := Gone(ran))
    case Gone(_) => s
  }

  function Next(s: Sys, e: Event): Sys {
    match e
    case CallSpawn(memory) => s.(parent := if memory then SpawnClear else SpawnReturn(NoMemory))
    case CallJoin => s.(parent := JoinTest)
    case ParentRuns(granted) => ParentNext(s, granted)
    case WorkerRuns(fails) => WorkerNext(s, fails)
  }

  function Reach(rules: Rules, run: seq<Event>): Option<Sys> {
    if run == [] then Some(Sys(Idle, Absent, false, false, false, false))
    else
      match Reach(rules, run[..|run| - 1])
      case None => None
      case Some(s) => if Enabled(s, run[|run| - 1], rules) then Some(Next(s, run[|run| - 1])) else None
  }

  // ---- the invariant ------------------------------------------------------------------------

  /** The slot is set from publication until the exit clears it. */
  ghost predicate SlotOk(s: Sys) {
    && (s.worker.Publishing? || s.worker.Looping? ==> s.slot)
    && ((s.worker.Leaving? || s.worker.Forbidding?) && s.worker.ran ==> s.slot)
    && (s.slot ==> s.worker.Publishing? || s.worker.Looping? || s.worker.Leaving? || s.worker.Forbidding?)
  }

  /** While the parent waits in spawn, a pending signal is the current worker's report. */
  ghost predicate ReportOk(s: Sys) {
    match s.parent
    case SpawnClear => !Alive(s.worker)
    case SpawnAdd => !Alive(s.worker) && !s.ctrlF && !s.ctrlC
    case SpawnWait =>
      && !s.worker.Absent? && !s.told
      && (s.ctrlF ==> ReachedLoop(s.worker)) && (s.ctrlC ==> (s.worker.Signalled? || s.worker.Gone?) && !s.worker.ran)
      && (ReachedLoop(s.worker) ==> s.ctrlF)
      && ((s.worker.Signalled? || s.worker.Gone?) && !s.worker.ran ==> s.ctrlC)
    case SpawnReturn(rc) =>
      && (rc == Started ==> ReachedLoop(s.worker))
      && (rc == IoError ==> s.worker == Gone(false))
      && (rc == NoMemory ==> !Alive(s.worker))
    case JoinClear => !Alive(s.worker)
    case Idle => !Alive(s.worker) || ReachedLoop(s.worker)
    case JoinTest => !Alive(s.worker) || ReachedLoop(s.worker)
    case JoinSignal => ReachedLoop(s.worker)
    case JoinPoll => ReachedLoop(s.worker) && s.told
    case JoinReturn => !Alive(s.worker)
    case Faulted => true
  }

  /** A worker that stops only when told is in its loop until the join has told it. */
  ghost predicate ObedientOk(s: Sys) {
    && !s.parent.Faulted?
    && (ReachedLoop(s.worker) && !s.worker.Looping? && Alive(s.worker) ==> s.told)
    && (s.told && Alive(s.worker) ==> s.parent.JoinPoll?)
    && (s.parent.JoinSignal? ==> s.worker.Looping?)
  }

  /** A joiner that lets nothing run in between still has the task it tested for. */
  ghost predicate HeldOk(s: Sys) {
    !s.parent.Faulted? && (s.parent.JoinSignal? ==> s.slot && !Forbidden(s.worker))
  }

  ghost predicate Inv(s: Sys, rules: Rules) {
    SlotOk(s) && ReportOk(s) && (!rules.mayQuit ==> ObedientOk(s)) && (rules.held ==> HeldOk(s))
  }

  predicate Spawning(p: Parent) {
    p.SpawnClear? || p.SpawnAdd? || p.SpawnWait? || p.SpawnReturn?
  }

  lemma SpawnKeepsInv(s: Sys, granted: bool, rules: Rules)
    requires Inv(s, rules) && Enabled(s, ParentRuns(granted), rules) && Spawning(s.parent)
    ensures Inv(ParentNext(s, granted), rules)
  {
  }

  lemma JoinKeepsInv(s: Sys, granted: bool, rules: Rules)
    requires Inv(s, rules) && Enabled(s, ParentRuns(granted), rules) && !Spawning(s.parent)
    ensures Inv(ParentNext(s, granted), rules)
  {
  }

  predicate Starting(w: Worker) {
    w.Born? || w.Publishing? || w.Looping?
  }

  lemma StartKeepsInv(s: Sys, fails: bool, rules: Rules)
    requires Inv(s, rules) && Enabled(s, WorkerRuns(fails), rules) && Starting(s.worker)
    ensures Inv(WorkerNext(s, fails), rules)
  {
  }

  lemma ExitKeepsInv(s: Sys, fails: bool, rules: Rules)
    requires Inv(s, rules) && Enabled(s, WorkerRuns(fails), rules) && !Starting(s.worker)
    ensures Inv(WorkerNext(s, fails), rules)
  {
  }

  lemma NextKeepsInv(s: Sys, e: Event, rules: Rules)
    requires Inv(s, rules) && Enabled(s, e, rules)
    ensures Inv(Next(s, e), rules)
  {
    if e.ParentRuns? {
      if Spawning(s.parent) { SpawnKeepsInv(s, e.granted, rules); } else { JoinKeepsInv(s, e.granted, rules); }
    } else if e.WorkerRuns? {
      if Starting(s.worker) { StartKeepsInv(s, e.fails, rules); } else { ExitKeepsInv(s, e.fails, rules); }
    }
  }

  lemma {:induction false} EveryRunKeepsInv(rules: Rules, run: seq<Event>)
    requires Reach(rules, run).Some?
    ensures Inv(Reach(rules, run).value, rules)
  {
    if run != [] {
      EveryRunKeepsInv(rules, run[..|run| - 1]);
      NextKeepsInv(Reach(rules, run[..|run| - 1]).value, run[|run| - 1], rules);
    }
  }

  // ---- theorems over every run -----------------------------------------------------------------

  /** drv_task_spawn() answers what the task reported: 0 only for one that reached its loop,
      -EIO only for one whose initialisation failed and which is gone, -ENOMEM only when
      nothing runs. A signal left over from an earlier task never answers for this one. */
  lemma SpawnReturnsReport(rules: Rules, run: seq<Event>, s: Sys)
    requires Reach(rules, run) == Some(s) && s.parent.SpawnReturn?
    ensures s.parent.rc == Started ==> ReachedLoop(s.worker)
    ensures s.parent.rc == IoError ==> s.worker == Gone(false)
    ensures s.parent.rc == NoMemory ==> !Alive(s.worker)
  {
    EveryRunKeepsInv(rules, run);
  }

  /** While drv_task_spawn() waits, a pending CTRL_F or CTRL_C was sent by the task it
      launched, and exactly when that task has reported. */
  lemma OnlyTheNewTaskAnswers(rules: Rules, run: seq<Event>, s: Sys)
    requires Reach(rules, run) == Some(s) && s.parent.SpawnWait?
    ensures s.ctrlF <==> ReachedLoop(s.worker)
    ensures s.ctrlC <==> (s.worker.Signalled? || s.worker.Gone?) && !s.worker.ran
    ensures !(s.ctrlF && s.ctrlC)
  {
    EveryRunKeepsInv(rules, run);
  }

  /** Once the joiner has seen the slot clear, the task is gone and never runs another
      instruction; it leaves no signal behind. */
  lemma JoinSeesTheEnd(rules: Rules, run: seq<Event>, s: Sys, fails: bool)
    requires Reach(rules, run) == Some(s) && (s.parent.JoinClear? || s.parent.JoinReturn?)
    ensures !Alive(s.worker) && !Enabled(s, WorkerRuns(fails), rules)
    ensures s.parent.JoinClear? ==> !ParentNext(s, true).ctrlF && !ParentNext(s, true).ctrlC
  {
    EveryRunKeepsInv(rules, run);
  }

  /** From the moment the exit clears the slot until the task is gone nothing of the parent
      runs, so it cannot see the slot clear any earlier. */
  lemma ClearedSlotIsNotSeenEarly(rules: Rules, run: seq<Event>, s: Sys, granted: bool)
    requires Reach(rules, run) == Some(s) && Alive(s.worker) && !s.slot && ReachedLoop(s.worker)
    ensures !Enabled(s, ParentRuns(granted), rules) && !Enabled(s, CallJoin, rules)
  {
    EveryRunKeepsInv(rules, run);
  }

  /** The join's next statement faults exactly when it is the Signal() and the slot is clear. */
  lemma JoinFaultsIff(s: Sys, granted: bool)
    requires !s.parent.Faulted?
    ensures ParentNext(s, granted).parent.Faulted? <==> s.parent.JoinSignal? && !s.slot
  {
  }

  /** With tasks that stop only when told, or a joiner that lets none run in between, the join
      never signals through a cleared slot. */
  lemma SafeJoinNeverFaults(rules: Rules, run: seq<Event>, s: Sys)
    requires Reach(rules, run) == Some(s) && (!rules.mayQuit || rules.held)
    ensures !s.parent.Faulted?
  {
    EveryRunKeepsInv(rules, run);
  }

  /** Tasks may quit on their own and run at any time. */
  const LOOSE := Rules(true, false)

  /** Then it can: the task exits between the join's test of the slot and its Signal(). */
  lemma QuittingTaskCanFaultJoin() returns (run: seq<Event>)
    ensures Reach(LOOSE, run).Some? && Reach(LOOSE, run).value.parent.Faulted?
  {
    run := SpawnCanSucceed();
    run := Then(run, Sys(Idle, Looping, true, false, false, false), CallJoin);
    run := Then(run, Sys(JoinTest, Looping, true, false, false, false), ParentRuns(true));
    run := TaskCanQuit(run);
    run := Then(run, Sys(JoinSignal, Gone(true), false, true, false, false), ParentRuns(true));
  }

  lemma SpawnCanSucceed() returns (run: seq<Event>)
    ensures Reach(LOOSE, run) == Some(Sys(Idle, Looping, true, false, false, false))
  {
    run := Then([], Sys(Idle, Absent, false, false, false, false), CallSpawn(true));
    run := Then(run, Sys(SpawnClear, Absent, false, false, false, false), ParentRuns(true));
    run := Then(run, Sys(SpawnAdd, Absent, false, false, false, false), ParentRuns(true));
    run := Then(run, Sys(SpawnWait, Born, false, false, false, false), WorkerRuns(false));
    run := Then(run, Sys(SpawnWait, Publishing, true, false, false, false), WorkerRuns(false));
    run := Then(run, Sys(SpawnWait, Looping, true, true, false, false), ParentRuns(true));
    run := Then(run, Sys(SpawnReturn(Started), Looping, true, false, false, false), ParentRuns(true));
  }

  lemma TaskCanQuit(before: seq<Event>) returns (run: seq<Event>)
    requires Reach(LOOSE, before) == Some(Sys(JoinSignal, Looping, true, false, false, false))
    ensures Reach(LOOSE, run) == Some(Sys(JoinSignal, Gone(true), false, true, false, false))
  {
    run := Then(before, Sys(JoinSignal, Looping, true, false, false, false), WorkerRuns(false));
    run := Then(run, Sys(JoinSignal, Leaving(true), true, false, false, false), WorkerRuns(false));
    run := Then(run, Sys(JoinSignal, Forbidding(true), true, false, false, false), WorkerRuns(false));
    run := Then(run, Sys(JoinSignal, Cleared(true), false, false, false, false), WorkerRuns(false));
    run := Then(run, Sys(JoinSignal, Signalled(true), false, true, false, false), WorkerRuns(false));
  }

  lemma Then(run: seq<Event>, s: Sys, e: Event) returns (run': seq<Event>)
    requires Reach(LOOSE, run) == Some(s) && Enabled(s, e, LOOSE)
    ensures Reach(LOOSE, run') == Some(Next(s, e))
  {
    run' := run + [e];
    assert run'[..|run|] == run;
  }

  /** The join is safe in every run exactly when no task quits on its own or the joiner lets
      none run between its test and its Signal(). */
  lemma JoinIsSafeIff(rules: Rules)
    ensures (forall run :: Reach(rules, run).Some? ==> !Reach(rules, run).value.parent.Faulted?) <==>
            !rules.mayQuit || rules.held
  {
    if rules.mayQuit && !rules.held {
      assert rules == LOOSE;
      var run := QuittingTaskCanFaultJoin();
    } else {
      forall run | Reach(rules, run).Some? ensures !Reach(rules, run).value.parent.Faulted? {
        SafeJoinNeverFaults(rules, run, Reach(rules, run).value);
      }
    }
  }

  // ---- every call returns ------------------------------------------------------------------------

  /** A call is under way and has not faulted. */
  predicate Busy(p: Parent) {
    !p.Idle? && !p.Faulted?
  }

  predicate Joining(p: Parent) {
    p.JoinTest? || p.JoinSignal? || p.JoinPoll? || p.JoinClear? || p.JoinReturn?
  }

  /** A look at a slot that is still set: the join sleeps and looks again. */
  predicate Polls(s: Sys, e: Event) {
    e.ParentRuns? && s.parent.JoinPoll? && s.slot
  }

  predicate IsCall(e: Event) {
    e.CallSpawn? || e.CallJoin?
  }

  /** Statements the worker has left. */
  function WorkerLeft(w: Worker): nat {
    match w
    case Absent => 0
    case Born => 7
    case Publishing => 6
    case Looping => 5
    case Leaving(_) => 4
    case Forbidding(_) => 3
    case Cleared(_) => 2
    case Signalled(_) => 1
    case Gone(_) => 0
  }

  /** Statements the call has left, those of a task it has yet to launch included. */
  function ParentLeft(p: Parent): nat {
    match p
    case Idle => 0
    case SpawnClear => 11
    case SpawnAdd => 10
    case SpawnWait => 2
    case SpawnReturn(_) => 1
    case JoinTest => 5
    case JoinSignal => 4
    case JoinPoll => 3
    case JoinClear => 2
    case JoinReturn => 1
    case Faulted => 0
  }

  function Left(s: Sys): nat {
    ParentLeft(s.parent) + WorkerLeft(s.worker)
  }

  lemma ParentLowers(s: Sys, granted: bool, rules: Rules)
    requires Inv(s, rules) && Enabled(s, ParentRuns(granted), rules)
    ensures s.parent.JoinPoll? && s.slot ==> ParentNext(s, granted) == s
    ensures !(s.parent.JoinPoll? && s.slot) ==> Left(ParentNext(s, granted)) < Left(s)
  {
    assert s.parent.SpawnAdd? ==> WorkerLeft(s.worker) == 0;
  }

  lemma WorkerLowers(s: Sys, fails: bool)
    requires Alive(s.worker)
    ensures Left(WorkerNext(s, fails)) < Left(s)
  {
  }

  /** Every statement brings the end nearer, a look at a set slot alone excepted. */
  lemma StatementsLower(s: Sys, e: Event, rules: Rules)
    requires Inv(s, rules) && Enabled(s, e, rules) && !IsCall(e)
    ensures if Polls(s, e) then Next(s, e) == s else Left(Next(s, e)) < Left(s)
  {
    if e.ParentRuns? { ParentLowers(s, e.granted, rules); } else { WorkerLowers(s, e.fails); }
  }

  /** An event other than an idle look at the slot can happen. */
  ghost predicate CanMove(s: Sys, rules: Rules) {
    exists e :: Enabled(s, e, rules) && !IsCall(e) && !Polls(s, e)
  }

  /** A call is never stuck: the worker can run, or the parent can. */
  lemma BusyCanMove(s: Sys, rules: Rules)
    requires Inv(s, rules) && Busy(s.parent)
    ensures CanMove(s, rules)
  {
    var e := if Enabled(s, WorkerRuns(false), rules) then WorkerRuns(false) else ParentRuns(true);
    assert Enabled(s, e, rules) && !IsCall(e) && !Polls(s, e);
  }

  /** The events of `run` from the `start`-th on that are not idle looks at the slot. */
  ghost function Moves(rules: Rules, run: seq<Event>, start: nat): nat {
    if |run| <= start then 0
    else
      Moves(rules, run[..|run| - 1], start) +
      match Reach(rules, run[..|run| - 1])
      case None => 1
      case Some(s) => if Polls(s, run[|run| - 1]) then 0 else 1
  }

  /** From `start` on the parent makes no further call. */
  ghost predicate NoCalls(run: seq<Event>, start: nat) {
    forall i :: start <= i < |run| ==> !IsCall(run[i])
  }

  /** What a join under way keeps until it has returned. */
  ghost predicate JoinsOrDone(s: Sys) {
    Joining(s.parent) || s.parent.Faulted? || (s.parent.Idle? && !Alive(s.worker) && !s.slot)
  }

  lemma {:induction false} MovesAreBounded(rules: Rules, run: seq<Event>, start: nat)
    requires start <= |run| && Reach(rules, run).Some? && NoCalls(run, start)
    ensures Reach(rules, run[..start]).Some?
    ensures var s, t := Reach(rules, run[..start]).value, Reach(rules, run).value;
            && Moves(rules, run, start) + Left(t) <= Left(s)
            && (Joining(s.parent) ==> JoinsOrDone(t))
            && (!Alive(s.worker) && Joining(s.parent) ==> !Alive(t.worker) && Moves(rules, run, start) == |run| - start)
  {
    if start == |run| {
      assert run[..start] == run;
    } else {
      var before, e := run[..|run| - 1], run[|run| - 1];
      assert before[..start] == run[..start];
      MovesAreBounded(rules, before, start);
      EveryRunKeepsInv(rules, before);
      StatementsLower(Reach(rules, before).value, e, rules);
    }
  }

  /** A call left to itself ends: apart from idle looks at the slot, at most eleven
      statements happen before the next call, and until the call has returned one of them
      can always happen. */
  lemma EveryCallReturns(rules: Rules, run: seq<Event>, start: nat, t: Sys)
    requires start <= |run| && Reach(rules, run) == Some(t) && NoCalls(run, start)
    ensures Moves(rules, run, start) <= 11
    ensures t.parent.Idle? || t.parent.Faulted? || CanMove(t, rules)
  {
    MovesAreBounded(rules, run, start);
    EveryRunKeepsInv(rules, run[..start]);
    EveryRunKeepsInv(rules, run);
    if Busy(t.parent) { BusyCanMove(t, rules); }
  }

  /** A join left to run returns with the task gone and its slot clear. Before that something
      can always happen, at most ten times, idle looks at the slot not counted; once the task
      is gone there are none, and the join is back within three statements of its poll. */
  lemma JoinReturns(rules: Rules, run: seq<Event>, start: nat, s: Sys, t: Sys)
    requires start <= |run| && Reach(rules, run) == Some(t) && NoCalls(run, start)
    requires Reach(rules, run[..start]) == Some(s) && Joining(s.parent)
    requires !rules.mayQuit || rules.held
    ensures if t.parent.Idle? then !Alive(t.worker) && !t.slot else Joining(t.parent) && CanMove(t, rules)
    ensures Moves(rules, run, start) <= 10
    ensures !Alive(s.worker) && s.parent.JoinPoll? ==> |run| - start <= 3
    ensures !Alive(s.worker) && |run| - start >= 5 ==> t.parent.Idle?
  {
    MovesAreBounded(rules, run, start);
    EveryRunKeepsInv(rules, run[..start]);
    EveryRunKeepsInv(rules, run);
    SafeJoinNeverFaults(rules, run, t);
    if !t.parent.Idle? { BusyCanMove(t, rules); }
  }

  // ---- why a spawn fails -------------------------------------------------------------------------

  /** drv_task_spawn() comes to -ENOMEM by one of two statements and by no other: an
      allocation failed, or AddTask() did. */
  lemma NoMemoryIff(rules: Rules, run: seq<Event>, s: Sys, e: Event, t: Sys)
    requires Reach(rules, run) == Some(s) && Reach(rules, run + [e]) == Some(t)
    ensures t.parent == SpawnReturn(NoMemory) <==>
            e == CallSpawn(false) || (e == ParentRuns(false) && s.parent.SpawnAdd?)
  {
    assert (run + [e])[..|run|] == run;
    EveryRunKeepsInv(rules, run);
  }

  /** Everything the spawns of `run` asked for was given. */
  ghost predicate AllGiven(run: seq<Event>) {
    forall i :: 0 <= i < |run| ==> run[i] != CallSpawn(false) && run[i] != ParentRuns(false)
  }

  /** A spawn that was given all it asked for returns -EIO when the task's initialisation
      failed and 0 otherwise. */
  lemma GivenSpawnHasTask(rules: Rules, run: seq<Event>, s: Sys)
    requires Reach(rules, run) == Some(s) && AllGiven(run) && s.parent.SpawnReturn?
    ensures s.parent.rc == if s.worker == Gone(false) then IoError else Started
  {
    var before, e := run[..|run| - 1], run[|run| - 1];
    assert run == before + [e];
    NoMemoryIff(rules, before, Reach(rules, before).value, e, s);
    EveryRunKeepsInv(rules, run);
  }
}
