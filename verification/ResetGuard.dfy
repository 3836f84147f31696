/** src/reset_guard.c: any number of guards and of foreign patchers chain themselves into the
    ColdReboot vector, last in first out, while any number of ColdReboot() calls and keyboard
    resets run down the hooks, one machine step at a time. Installing and removing are single
    steps and may come at any moment, in the middle of a reset too: the source does not look.
    What holds in every run and what it takes for the rest is stated event by event. */
module ResetGuard {
  import opened Machine

  /** What is at a live code address: the ROM's own ColdReboot, a guard's trampoline, or a
      foreign patch that jumps to the vector it replaced. */
  datatype Code = Original | Trampoline(g: nat) | Foreign(next: nat)

  /** `runs` counts the calls of prepare() since the guard was installed. */
  datatype Guard = Guard(open: bool, tramp: Option<nat>, chained: nat, prepared: bool, runs: nat)

  /** Where one reset has got to. */
  datatype Where =
    | Entered                // about to execute the code at its program counter
    | Testing(g: nat)        // in run_prepare(), before the Disable() section
    | Calling(g: nat)        // it found the guard unprepared
    | Chaining(g: nat)       // prepare() is behind it
    | Ended
    | Crashed                // it jumped to code that is not there

  /** A ColdReboot() call at address `pc`, with the code it has run and the guards it has gone
      through, or the keyboard reset handler of a guard. `path` is the chain when the reboot was
      called and `goal` the guards on it: bookkeeping that no step looks at. */
  datatype Runner =
    | Reboot(at: Where, pc: nat, path: seq<nat>, seen: seq<nat>, goal: seq<nat>, passed: seq<nat>)
    | Keyboard(g: nat, at: Where)

  /** `chain` lists the live code from the vector down to the original. */
  datatype Sys = Sys(vector: nat, code: map<nat, Code>, guards: seq<Guard>, runners: seq<Runner>, chain: seq<nat>)

  datatype Event =
    | Install(g: nat, t: nat)   // reset_guard_install() with its trampoline at t
    | InstallFails(g: nat)      // ... refused by the device or for want of memory
    | Remove(g: nat)            // reset_guard_remove()
    | Patch(a: nat)             // somebody else's SetFunction()
    | Unpatch                   // ... and its undoing, while it is still the vector
    | CallReboot                // a ColdReboot() begins
    | PressKeys(g: nat)         // keyboard.device calls the guard's handler
    | Step(r: nat)              // a reset under way does its next step

  // ---- the machine ------------------------------------------------------------------------

  predicate Enabled(s: Sys, e: Event) {
    match e
    case Install(g, t) => g < |s.guards| && !s.guards[g].open && t !in s.code
    case InstallFails(g) => g < |s.guards| && !s.guards[g].open
    case Remove(g) => g < |s.guards|
    case Patch(a) => a !in s.code
    case Unpatch => s.vector in s.code && s.code[s.vector].Foreign? && s.chain != []
    case CallReboot => true
    case PressKeys(g) => g < |s.guards| && s.guards[g].open
    case Step(r) => CanStep(s, r)
  }

  predicate CanStep(s: Sys, r: nat) {
    r < |s.runners| &&
    match s.runners[r].at
    case Entered => s.runners[r].Reboot?
    case Testing(g) => g < |s.guards|
    case Calling(g) => g < |s.guards|
    case Chaining(g) => g < |s.guards|
    case Ended => false
    case Crashed => false
  }

  /** reset_guard_remove() refuses while somebody patched the vector later. */
  predicate RemoveRefuses(s: Sys, g: nat)
    requires g < |s.guards|
  {
    s.guards[g].open && s.guards[g].tramp.Some? && s.vector != s.guards[g].tramp.value
  }

  /** The event takes the head off the chain. */
  predicate TakesHead(s: Sys, e: Event)
    requires Enabled(s, e)
  {
    e.Unpatch? ||
    (e.Remove? && s.guards[e.g].open && s.guards[e.g].tramp.Some? && !RemoveRefuses(s, e.g))
  }

  function With(s: Sys, r: nat, k: Runner): Sys
    requires r < |s.runners|
  {
    s.(runners := s.runners[r := k])
  }

  function Moved(k: Runner, w: Where): Runner {
    match k
    case Reboot(_, pc, path, seen, goal, passed) => Reboot(w, pc, path, seen, goal, passed)
    case Keyboard(g, _) => Keyboard(g, w)
  }

  /** A reboot executes the code at its program counter. */
  function RunCode(s: Sys, k: Runner): Runner
    requires k.Reboot?
  {
    if k.pc !in s.code then Moved(k, Crashed)
    else
      var l := k.(seen := k.seen + [k.pc]);
      match s.code[k.pc]
      case Original => Moved(l, Ended)
      case Trampoline(g) => Moved(l, if g < |s.guards| then Testing(g) else Crashed)
      case Foreign(next) => l.(pc := next)
  }

  /** One step of one reset. */
  function StepNext(s: Sys, r: nat): Sys
    requires CanStep(s, r)
  {
    var k := s.runners[r];
    match k.at
    case Entered => With(s, r, RunCode(s, k))
    case Testing(g) =>
      // Disable(); read and set rg_Prepared; Enable()
      With(s, r, k.(at := if s.guards[g].prepared then Chaining(g) else Calling(g)))
        .(guards := s.guards[g := s.guards[g].(prepared := true)])
    case Calling(g) =>
      With(s, r, k.(at := Chaining(g))).(guards := s.guards[g := s.guards[g].(runs := s.guards[g].runs + 1)])
    case Chaining(g) =>
      With(s, r, if k.Keyboard? then k.(at := Ended)
                 else k.(at := Entered, pc := s.guards[g].chained, passed := k.passed + [g]))
  }

  /** The guards whose trampolines are among these addresses, in their order. */
  function GuardsOn(code: map<nat, Code>, c: seq<nat>): seq<nat> {
    if c == [] then []
    else (if c[0] in code && code[c[0]].Trampoline? then [code[c[0]].g] else []) + GuardsOn(code, c[1..])
  }

  function NewReboot(s: Sys): Runner {
    Reboot(Entered, s.vector, s.chain, [], GuardsOn(s.code, s.chain), [])
  }

  function Next(s: Sys, e: Event): Sys
    requires Enabled(s, e)
  {
    match e
    case Install(g, t) =>
      Sys(t, s.code[t := Trampoline(g)], s.guards[g := Guard(true, Some(t), s.vector, false, 0)],
          s.runners, [t] + s.chain)
    case InstallFails(g) => s.(guards := s.guards[g := Guard(false, None, 0, false, 0)])
    case Remove(g) =>
      var k := s.guards[g];
      if !k.open || RemoveRefuses(s, g) then s
      else if k.tramp.None? then s.(guards := s.guards[g := k.(open := false)])
      else
        Sys(k.chained, s.code - {k.tramp.value}, s.guards[g := k.(open := false, tramp := None)], s.runners,
            if s.chain == [] then [] else s.chain[1..])
    case Patch(a) => s.(vector := a, code := s.code[a := Foreign(s.vector)], chain := [a] + s.chain)
    case Unpatch => s.(vector := s.code[s.vector].next, code := s.code - {s.vector}, chain := s.chain[1..])
    case CallReboot => s.(runners := s.runners + [NewReboot(s)])
    case PressKeys(g) => s.(runners := s.runners + [Keyboard(g, Testing(g))])
    case Step(r) => StepNext(s, r)
  }

  function Init(guards: nat, original: nat): Sys {
    Sys(original, map[original := Original], seq(guards, _ => Guard(false, None, 0, false, 0)), [], [original])
  }

  function Reach(guards: nat, original: nat, run: seq<Event>): Option<Sys> {
    if run == [] then Some(Init(guards, original))
    else
      match Reach(guards, original, run[..|run| - 1])
      case None => None
      case Some(s) => if Enabled(s, run[|run| - 1]) then Some(Next(s, run[|run| - 1])) else None
  }

  lemma ReachOneMore(guards: nat, original: nat, run: seq<Event>, s: Sys, e: Event)
    requires Reach(guards, original, run) == Some(s) && Enabled(s, e)
    ensures Reach(guards, original, run + [e]) == Some(Next(s, e))
  {
    assert (run + [e])[..|run|] == run;
  }

  // ---- the chain, in every run --------------------------------------------------------------

  /** Where the code at `a` jumps. */
  ghost predicate Jumps(s: Sys, a: nat, b: nat) {
    a in s.code &&
    match s.code[a]
    case Original => false
    case Foreign(next) => next == b
    case Trampoline(g) => g < |s.guards| && s.guards[g].tramp == Some(a) && s.guards[g].chained == b
  }

  ghost predicate LinkOk(s: Sys, i: nat)
    requires i < |s.chain| - 1
  {
    Jumps(s, s.chain[i], s.chain[i + 1])
  }

  ghost predicate ChainOk(s: Sys) {
    && s.chain != [] && s.vector == s.chain[0]
    && Distinct(s.chain)
    && (forall a :: a in s.code <==> a in s.chain)
    && (forall i :: 0 <= i < |s.chain| - 1 ==> LinkOk(s, i))
    && s.code[s.chain[|s.chain| - 1]].Original?
  }

  /** A guard with a trampoline is open and the trampoline is live and its own. */
  ghost predicate GuardOk(s: Sys, g: nat)
    requires g < |s.guards|
  {
    s.guards[g].tramp.Some? ==>
      && s.guards[g].open && s.guards[g].tramp.value in s.code
      && s.code[s.guards[g].tramp.value] == Trampoline(g)
  }

  predicate InGuard(w: Where) {
    w.Testing? || w.Calling? || w.Chaining?
  }

  ghost predicate ShapeOk(s: Sys, k: Runner) {
    (InGuard(k.at) ==> k.at.g < |s.guards|) && (k.Keyboard? ==> !k.at.Entered?)
  }

  ghost predicate Inv(s: Sys) {
    && ChainOk(s)
    && (forall g :: 0 <= g < |s.guards| ==> GuardOk(s, g))
    && (forall r :: 0 <= r < |s.runners| ==> ShapeOk(s, s.runners[r]))
  }

  /** A step that moves no code and no saved vector. */
  lemma SameJumpsSameChain(s: Sys, s': Sys)
    requires ChainOk(s) && s'.chain == s.chain && s'.code == s.code && s'.vector == s.vector
    requires forall b, c :: Jumps(s, b, c) ==> Jumps(s', b, c)
    ensures ChainOk(s')
  {
    forall i | 0 <= i < |s'.chain| - 1 ensures LinkOk(s', i) { assert LinkOk(s, i); }
  }

  /** Putting live code in front of the chain. */
  lemma PrependKeepsChain(s: Sys, s': Sys, a: nat)
    requires ChainOk(s) && a !in s.code
    requires s'.chain == [a] + s.chain && s'.vector == a
    requires s'.code.Keys == s.code.Keys + {a} && (forall b :: b in s.code ==> s'.code[b] == s.code[b])
    requires Jumps(s', a, s.vector)
    requires forall b, c :: Jumps(s, b, c) ==> Jumps(s', b, c)
    ensures ChainOk(s')
  {
    forall i | 0 <= i < |s'.chain| - 1 ensures LinkOk(s', i) {
      if i > 0 { assert LinkOk(s, i - 1); }
    }
    DistinctJoin([a], s.chain);
  }

  /** Taking the head off the chain: it was the vector, and it jumped to the next. */
  lemma DropHeadKeepsChain(s: Sys, s': Sys)
    requires ChainOk(s) && |s.chain| > 1
    requires s'.chain == s.chain[1..] && s'.vector == s.chain[1]
    requires s'.code == s.code - {s.vector}
    requires forall b, c :: b != s.vector && Jumps(s, b, c) ==> Jumps(s', b, c)
    ensures ChainOk(s')
  {
    forall i | 0 <= i < |s'.chain| - 1 ensures LinkOk(s', i) {
      assert LinkOk(s, i + 1) && s.chain[i + 1] != s.chain[0];
    }
    forall a ensures a in s'.code <==> a in s'.chain {
      if a in s'.chain {
        var i :| 0 <= i < |s'.chain| && s'.chain[i] == a;
        assert s.chain[i + 1] == a && s.chain[0] != a;
      }
      if a in s'.code {
        var i :| 0 <= i < |s.chain| && s.chain[i] == a;
        assert i > 0 && s'.chain[i - 1] == a;
      }
    }
  }

  lemma InstallKeepsInv(s: Sys, e: Event)
    requires Inv(s) && Enabled(s, e) && (e.Install? || e.InstallFails?)
    ensures Inv(Next(s, e))
  {
    var s' := Next(s, e);
    forall b, c | Jumps(s, b, c) ensures Jumps(s', b, c) {
      if s.code[b].Trampoline? { assert GuardOk(s, s.code[b].g); }
    }
    if e.Install? { PrependKeepsChain(s, s', e.t); } else { SameJumpsSameChain(s, s'); }
    forall h | 0 <= h < |s'.guards| ensures GuardOk(s', h) { assert GuardOk(s, h); }
    forall r | 0 <= r < |s'.runners| ensures ShapeOk(s', s'.runners[r]) { assert ShapeOk(s, s.runners[r]); }
  }

  lemma PatchKeepsInv(s: Sys, a: nat)
    requires Inv(s) && Enabled(s, Patch(a))
    ensures Inv(Next(s, Patch(a)))
  {
    var s' := Next(s, Patch(a));
    PrependKeepsChain(s, s', a);
    forall h | 0 <= h < |s'.guards| ensures GuardOk(s', h) { assert GuardOk(s, h); }
    forall r | 0 <= r < |s'.runners| ensures ShapeOk(s', s'.runners[r]) { assert ShapeOk(s, s.runners[r]); }
  }

  /** The vector is not the original unless nothing is patched: there is code behind it. */
  lemma PatchedVectorJumps(s: Sys)
    requires ChainOk(s) && !s.code[s.vector].Original?
    ensures |s.chain| > 1 && Jumps(s, s.vector, s.chain[1])
  {
    assert |s.chain| > 1 ==> LinkOk(s, 0);
  }

  /** What an event that takes the head leaves. */
  lemma HeadGoes(s: Sys, e: Event)
    requires Inv(s) && Enabled(s, e) && TakesHead(s, e)
    ensures var s' := Next(s, e);
            && |s.chain| > 1 && s'.chain == s.chain[1..] && s'.vector == s.chain[1]
            && s'.code == s.code - {s.vector} && s'.runners == s.runners && |s'.guards| == |s.guards|
            && forall g :: 0 <= g < |s.guards| ==> s'.guards[g].chained == s.guards[g].chained
  {
    if e.Remove? { assert GuardOk(s, e.g); }
    PatchedVectorJumps(s);
  }

  lemma HeadGoesKeepsInv(s: Sys, e: Event)
    requires Inv(s) && Enabled(s, e) && TakesHead(s, e)
    ensures Inv(Next(s, e))
  {
    var s' := Next(s, e);
    HeadGoes(s, e);
    if e.Remove? { assert GuardOk(s, e.g); }
    DropHeadKeepsChain(s, s');
    forall h | 0 <= h < |s'.guards| ensures GuardOk(s', h) { assert GuardOk(s, h); }
    forall r | 0 <= r < |s'.runners| ensures ShapeOk(s', s'.runners[r]) { assert ShapeOk(s, s.runners[r]); }
  }

  /** Removing a guard that has no trampoline, or that refuses, moves no code. */
  lemma IdleRemoveKeepsInv(s: Sys, g: nat)
    requires Inv(s) && Enabled(s, Remove(g)) && !TakesHead(s, Remove(g))
    ensures Inv(Next(s, Remove(g)))
  {
    var s' := Next(s, Remove(g));
    assert GuardOk(s, g);
    SameJumpsSameChain(s, s');
    forall h | 0 <= h < |s'.guards| ensures GuardOk(s', h) { assert GuardOk(s, h); }
    forall r | 0 <= r < |s'.runners| ensures ShapeOk(s', s'.runners[r]) { assert ShapeOk(s, s.runners[r]); }
  }

  lemma ResetKeepsInv(s: Sys, e: Event)
    requires Inv(s) && Enabled(s, e) && (e.CallReboot? || e.PressKeys? || e.Step?)
    ensures Inv(Next(s, e))
  {
    var s' := Next(s, e);
    SameJumpsSameChain(s, s');
    forall h | 0 <= h < |s'.guards| ensures GuardOk(s', h) { assert GuardOk(s, h); }
    forall r | 0 <= r < |s'.runners| ensures ShapeOk(s', s'.runners[r]) {
      if r < |s.runners| { assert ShapeOk(s, s.runners[r]); }
    }
  }

  lemma NextKeepsInv(s: Sys, e: Event)
    requires Inv(s) && Enabled(s, e)
    ensures Inv(Next(s, e))
  {
    match e
    case Install(_, _) => InstallKeepsInv(s, e);
    case InstallFails(_) => InstallKeepsInv(s, e);
    case Patch(a) => PatchKeepsInv(s, a);
    case Unpatch => HeadGoesKeepsInv(s, e);
    case Remove(g) => if TakesHead(s, e) { HeadGoesKeepsInv(s, e); } else { IdleRemoveKeepsInv(s, g); }
    case _ => ResetKeepsInv(s, e);
  }

  lemma {:induction false} EveryRunKeepsInv(guards: nat, original: nat, run: seq<Event>)
    requires Reach(guards, original, run).Some?
    ensures Inv(Reach(guards, original, run).value)
  {
    if run != [] {
      EveryRunKeepsInv(guards, original, run[..|run| - 1]);
      NextKeepsInv(Reach(guards, original, run[..|run| - 1]).value, run[|run| - 1]);
    }
  }

  /** In every run whatever, the vector leads through the chain: finite, without repetition,
      every installed trampoline on it and live, the original at its end, nothing freed on
      it. */
  lemma ChainIsSound(guards: nat, original: nat, run: seq<Event>, s: Sys)
    requires Reach(guards, original, run) == Some(s)
    ensures ChainOk(s)
    ensures forall g :: 0 <= g < |s.guards| && s.guards[g].tramp.Some? ==> s.guards[g].tramp.value in s.chain
  {
    EveryRunKeepsInv(guards, original, run);
    forall g | 0 <= g < |s.guards| && s.guards[g].tramp.Some? ensures s.guards[g].tramp.value in s.chain {
      assert GuardOk(s, g);
    }
  }

  /** In every run, reset_guard_remove() that succeeds on an installed guard takes exactly the
      head off the chain; one that refuses changes nothing, and refuses exactly while the
      guard's trampoline is not the vector. */
  lemma RemoveDropsOnlyHead(guards: nat, original: nat, run: seq<Event>, s: Sys, g: nat)
    requires Reach(guards, original, run) == Some(s) && Enabled(s, Remove(g))
    ensures |s.chain| > 0
    ensures RemoveRefuses(s, g) <==> s.guards[g].tramp.Some? && s.guards[g].tramp.value != s.chain[0]
    ensures s.guards[g].tramp.Some? && !RemoveRefuses(s, g) ==>
              |s.chain| > 1 && Next(s, Remove(g)).chain == s.chain[1..] && Next(s, Remove(g)).vector == s.chain[1]
    ensures var s' := Next(s, Remove(g));
            && s'.runners == s.runners
            && (!RemoveRefuses(s, g) ==> !s'.guards[g].open && s'.guards[g].tramp.None? && !Enabled(s', PressKeys(g)))
            && (forall h :: 0 <= h < |s.guards| && h != g ==> s'.guards[h] == s.guards[h])
            && (forall h :: 0 <= h < |s.guards| ==> s'.guards[h].runs == s.guards[h].runs)
    ensures RemoveRefuses(s, g) ==> Next(s, Remove(g)) == s
  {
    EveryRunKeepsInv(guards, original, run);
    assert GuardOk(s, g);
    if TakesHead(s, Remove(g)) { HeadGoes(s, Remove(g)); }
  }

  /** In every run, reset_guard_install() hooks both ways in: the trampoline becomes the vector,
      in front of the chain there was, the keyboard handler can be called, and prepare() has
      not run; one that fails leaves the chain alone and hooks nothing. */
  lemma InstallHooksBoth(guards: nat, original: nat, run: seq<Event>, s: Sys, g: nat, t: nat)
    requires Reach(guards, original, run) == Some(s)
    requires g < |s.guards| && !s.guards[g].open && t !in s.code
    ensures var s' := Next(s, Install(g, t));
            && s'.vector == t && s'.chain == [t] + s.chain && Jumps(s', t, s.vector) && s'.runners == s.runners
            && Enabled(s', PressKeys(g)) && !s'.guards[g].prepared && s'.guards[g].runs == 0
            && forall h :: 0 <= h < |s.guards| && h != g ==> s'.guards[h] == s.guards[h]
    ensures var s' := Next(s, InstallFails(g));
            && s'.chain == s.chain && s'.code == s.code && s'.vector == s.vector && s'.runners == s.runners
            && !Enabled(s', PressKeys(g)) && s'.guards[g].tramp.None?
  {
  }

  // ---- prepare(), at most once -----------------------------------------------------------------

  /** prepare() ran at most once since the guard was installed, and never without the flag
      being set before. */
  ghost predicate OnceOk(s: Sys, g: nat)
    requires g < |s.guards|
  {
    s.guards[g].runs <= 1 && (s.guards[g].runs == 1 ==> s.guards[g].prepared)
  }

  /** Who is about to call prepare() set the flag, nobody has called it, and nobody else is
      about to. */
  ghost predicate CallerOk(s: Sys, r: nat)
    requires r < |s.runners|
  {
    s.runners[r].at.Calling? ==>
      var g := s.runners[r].at.g;
      && g < |s.guards| && s.guards[g].prepared && s.guards[g].runs == 0
      && forall q :: 0 <= q < |s.runners| && q != r ==> s.runners[q].at != Calling(g)
  }

  ghost predicate Single(s: Sys) {
    && (forall g :: 0 <= g < |s.guards| ==> OnceOk(s, g))
    && (forall r :: 0 <= r < |s.runners| ==> CallerOk(s, r))
  }

  /** No guard is installed anew while a reset is about to call its prepare(). */
  ghost predicate MindsCall(s: Sys, e: Event) {
    e.Install? || e.InstallFails? ==> forall r :: 0 <= r < |s.runners| ==> s.runners[r].at != Calling(e.g)
  }

  /** The Disable() section lets one runner through: nobody else holds the call. */
  lemma StepKeepsCaller(s: Sys, r: nat, q: nat)
    requires Single(s) && CanStep(s, r) && q < |s.runners|
    ensures CallerOk(StepNext(s, r), q)
  {
    var s' := StepNext(s, r);
    assert CallerOk(s, q) && CallerOk(s, r);
    if InGuard(s.runners[r].at) { assert OnceOk(s, s.runners[r].at.g); }
    if s'.runners[q].at.Calling? {
      var g := s'.runners[q].at.g;
      forall p | 0 <= p < |s'.runners| && p != q ensures s'.runners[p].at != Calling(g) {
        assert CallerOk(s, p);
      }
    }
  }

  lemma StepKeepsSingle(s: Sys, r: nat)
    requires Single(s) && CanStep(s, r)
    ensures Single(StepNext(s, r))
  {
    var s' := StepNext(s, r);
    assert CallerOk(s, r);
    forall g | 0 <= g < |s'.guards| ensures OnceOk(s', g) { assert OnceOk(s, g); }
    forall q | 0 <= q < |s'.runners| ensures CallerOk(s', q) { StepKeepsCaller(s, r, q); }
  }

  lemma OtherKeepsSingle(s: Sys, e: Event)
    requires Single(s) && Enabled(s, e) && !e.Step? && MindsCall(s, e)
    ensures Single(Next(s, e))
  {
    var s' := Next(s, e);
    forall g | 0 <= g < |s'.guards| ensures OnceOk(s', g) { assert OnceOk(s, g); }
    forall r | 0 <= r < |s'.runners| ensures CallerOk(s', r) {
      if r < |s.runners| { assert CallerOk(s, r); }
    }
  }

  /** An event keeps the callers apart if and only if it installs no guard whose prepare() a
      reset is about to call. */
  lemma SingleIff(s: Sys, e: Event)
    requires Single(s) && Enabled(s, e)
    ensures Single(Next(s, e)) <==> MindsCall(s, e)
  {
    if e.Step? {
      StepKeepsSingle(s, e.r);
    } else if MindsCall(s, e) {
      OtherKeepsSingle(s, e);
    } else {
      var r :| 0 <= r < |s.runners| && s.runners[r].at == Calling(e.g);
      assert !CallerOk(Next(s, e), r);
    }
  }

  /** Every event of the run minded the callers, in the state it came in. */
  ghost predicate CallsMinded(guards: nat, original: nat, run: seq<Event>) {
    forall n :: 0 <= n < |run| && Reach(guards, original, run[..n]).Some? ==>
      MindsCall(Reach(guards, original, run[..n]).value, run[n])
  }

  lemma PrefixMinded(guards: nat, original: nat, run: seq<Event>, n: nat)
    requires n <= |run| && CallsMinded(guards, original, run)
    ensures CallsMinded(guards, original, run[..n])
  {
    forall m | 0 <= m < n ensures run[..n][..m] == run[..m] && run[..n][m] == run[m] {
    }
  }

  /** prepare() runs at most once per installation, over all runs that mix keyboard resets,
      reboots, removals and installations, unless a guard is installed again in the middle of
      a call of its prepare(). */
  lemma {:induction false} PrepareRunsAtMostOnce(guards: nat, original: nat, run: seq<Event>)
    requires Reach(guards, original, run).Some? && CallsMinded(guards, original, run)
    ensures Single(Reach(guards, original, run).value)
    ensures forall g :: 0 <= g < |Reach(guards, original, run).value.guards| ==>
              Reach(guards, original, run).value.guards[g].runs <= 1
  {
    if run != [] {
      var n := |run| - 1;
      PrefixMinded(guards, original, run, n);
      PrepareRunsAtMostOnce(guards, original, run[..n]);
      SingleIff(Reach(guards, original, run[..n]).value, run[n]);
    }
    var s := Reach(guards, original, run).value;
    forall g | 0 <= g < |s.guards| ensures s.guards[g].runs <= 1 { assert OnceOk(s, g); }
  }

  // ---- installed once --------------------------------------------------------------------------

  predicate Installs(e: Event, g: nat) {
    (e.Install? || e.InstallFails?) && e.g == g
  }

  /** No guard is installed twice: what the header asks of a driver. */
  ghost predicate InstalledOnce(run: seq<Event>) {
    forall i, j, g :: 0 <= i < j < |run| && Installs(run[i], g) ==> !Installs(run[j], g)
  }

  /** Nothing knows the guard. */
  ghost predicate Unknown(s: Sys, g: nat) {
    && (g < |s.guards| ==> !s.guards[g].open && s.guards[g].tramp.None?)
    && (forall a :: a in s.code ==> s.code[a] != Trampoline(g))
    && (forall r :: 0 <= r < |s.runners| ==> Unaware(s.runners[r], g))
  }

  predicate Unaware(k: Runner, g: nat) {
    !(InGuard(k.at) && k.at.g == g) && (if k.Keyboard? then k.g != g else g !in k.passed)
  }

  lemma NextKeepsUnknown(s: Sys, e: Event, g: nat)
    requires Enabled(s, e) && Unknown(s, g) && !Installs(e, g)
    ensures Unknown(Next(s, e), g)
  {
  }

  lemma {:induction false} NeverInstalledIsUnknown(guards: nat, original: nat, run: seq<Event>, g: nat)
    requires Reach(guards, original, run).Some? && forall i :: 0 <= i < |run| ==> !Installs(run[i], g)
    ensures Unknown(Reach(guards, original, run).value, g)
  {
    if run != [] {
      NeverInstalledIsUnknown(guards, original, run[..|run| - 1], g);
      NextKeepsUnknown(Reach(guards, original, run[..|run| - 1]).value, run[|run| - 1], g);
    }
  }

  lemma OnceIsMinded(guards: nat, original: nat, run: seq<Event>)
    requires InstalledOnce(run)
    ensures CallsMinded(guards, original, run)
  {
    forall n | 0 <= n < |run| && Reach(guards, original, run[..n]).Some?
      ensures MindsCall(Reach(guards, original, run[..n]).value, run[n])
    {
      if run[n].Install? || run[n].InstallFails? {
        assert Installs(run[n], run[n].g);
        forall i | 0 <= i < n ensures !Installs(run[..n][i], run[n].g) { assert run[..n][i] == run[i]; }
        NeverInstalledIsUnknown(guards, original, run[..n], run[n].g);
      }
    }
  }

  /** A guard that is installed once has its prepare() run at most once, without any condition
      on when hooks are taken away. */
  lemma InstalledOnceRunsOnce(guards: nat, original: nat, run: seq<Event>, s: Sys, g: nat)
    requires Reach(guards, original, run) == Some(s) && InstalledOnce(run) && g < |s.guards|
    ensures s.guards[g].runs <= 1
  {
    OnceIsMinded(guards, original, run);
    PrepareRunsAtMostOnce(guards, original, run);
  }

  /** Installed again in the middle of a call, it can run twice: a reboot is about to call
      prepare(), the guard is removed and installed, the reboot calls it, and a second one
      finds the flag clear. */
  lemma ReinstalledCanRunTwice(original: nat) returns (run: seq<Event>)
    ensures Reach(1, original, run).Some? && |Reach(1, original, run).value.guards| == 1
    ensures Reach(1, original, run).value.guards[0].runs == 2
  {
    var t, u := original + 1, original + 2;
    var s: Sys;
    run, s := Then(original, [], Init(1, original), Install(0, t));
    run, s := Then(original, run, s, CallReboot);
    run, s := Then(original, run, s, Step(0));
    run, s := Then(original, run, s, Step(0));
    assert s.runners[0].at == Calling(0) && s.guards[0].tramp == Some(t) && s.vector == t;
    run, s := Then(original, run, s, Remove(0));
    assert s.vector == original && t !in s.code && s.code.Keys == {original};
    run, s := Then(original, run, s, Install(0, u));
    run, s := Then(original, run, s, Step(0));
    assert s.guards[0].runs == 1 && !s.guards[0].prepared && s.vector == u && s.code[u] == Trampoline(0);
    run, s := Then(original, run, s, CallReboot);
    run, s := Then(original, run, s, Step(1));
    run, s := Then(original, run, s, Step(1));
    run, s := Then(original, run, s, Step(1));
  }

  lemma Then(original: nat, run: seq<Event>, s: Sys, e: Event) returns (run': seq<Event>, s': Sys)
    requires Reach(1, original, run) == Some(s) && Enabled(s, e)
    ensures s' == Next(s, e) && Reach(1, original, run') == Some(s')
  {
    run', s' := run + [e], Next(s, e);
    ReachOneMore(1, original, run, s, e);
  }

  // ---- where a reboot is going -----------------------------------------------------------------

  predicate UnderWay(k: Runner) {
    k.Reboot? && !k.at.Ended? && !k.at.Crashed?
  }

  /** The next code a reboot executes: inside a guard, what the guard saved. */
  function Target(s: Sys, k: Runner): nat
    requires k.Reboot?
  {
    if InGuard(k.at) && k.at.g < |s.guards| then s.guards[k.at.g].chained else k.pc
  }

  /** The chain from an address on; empty for one that is not on it. */
  ghost function From(chain: seq<nat>, a: nat): (r: seq<nat>)
    ensures r != [] <==> a in chain
    ensures r != [] ==> r[0] == a
  {
    if a in chain then
      var i :| 0 <= i < |chain| && chain[i] == a;
      chain[i..]
    else []
  }

  lemma FromIndex(chain: seq<nat>, i: nat)
    requires Distinct(chain) && i < |chain|
    ensures From(chain, chain[i]) == chain[i..]
  {
  }

  lemma FromHead(chain: seq<nat>)
    requires Distinct(chain) && chain != []
    ensures From(chain, chain[0]) == chain
  {
    FromIndex(chain, 0);
    assert chain[0..] == chain;
  }

  lemma FromPrepended(chain: seq<nat>, t: nat, a: nat)
    requires Distinct(chain) && t !in chain && a != t
    ensures From([t] + chain, a) == From(chain, a)
  {
    if a in chain {
      var i :| 0 <= i < |chain| && chain[i] == a;
      FromShifted(chain, t, i);
    }
  }

  lemma FromShifted(chain: seq<nat>, t: nat, i: nat)
    requires Distinct(chain) && t !in chain && i < |chain|
    ensures From([t] + chain, chain[i]) == From(chain, chain[i])
  {
    var longer := [t] + chain;
    DistinctJoin([t], chain);
    FromIndex(chain, i);
    FromIndex(longer, i + 1);
    assert longer[i + 1] == chain[i] && longer[i + 1..] == chain[i..];
  }

  lemma FromTail(chain: seq<nat>, a: nat)
    requires Distinct(chain) && chain != [] && a != chain[0]
    ensures From(chain[1..], a) == From(chain, a)
  {
    assert [chain[0]] + chain[1..] == chain;
    FromPrepended(chain[1..], chain[0], a);
  }

  /** The place of live code: the last is the original, any other jumps to the next. */
  lemma PlaceOnChain(s: Sys, a: nat) returns (i: nat)
    requires ChainOk(s) && a in s.code
    ensures i < |s.chain| && s.chain[i] == a
    ensures if s.code[a].Original? then i == |s.chain| - 1 else i + 1 < |s.chain| && Jumps(s, a, s.chain[i + 1])
  {
    i :| 0 <= i < |s.chain| && s.chain[i] == a;
    assert i < |s.chain| - 1 ==> LinkOk(s, i);
  }

  /** The rest from there on. */
  lemma FromStep(s: Sys, a: nat) returns (b: nat)
    requires ChainOk(s) && a in s.code
    ensures s.code[a].Original? ==> From(s.chain, a) == [a]
    ensures !s.code[a].Original? ==>
              Jumps(s, a, b) && b in s.code && From(s.chain, a) == [a] + From(s.chain, b)
  {
    var i := PlaceOnChain(s, a);
    b := if i + 1 < |s.chain| then s.chain[i + 1] else a;
    FromNext(s.chain, i);
  }

  lemma FromNext(chain: seq<nat>, i: nat)
    requires Distinct(chain) && i < |chain|
    ensures i + 1 == |chain| ==> From(chain, chain[i]) == [chain[i]]
    ensures i + 1 < |chain| ==> From(chain, chain[i]) == [chain[i]] + From(chain, chain[i + 1])
  {
    FromIndex(chain, i);
    if i + 1 < |chain| { FromIndex(chain, i + 1); }
  }

  // ---- a reboot that is left to run ------------------------------------------------------------

  /** How many steps separate a reboot from its end: at most four per piece of code. */
  ghost function StepsLeft(s: Sys, k: Runner): nat
    requires k.Reboot?
  {
    4 * |From(s.chain, Target(s, k))| + GuardSteps(k.at)
  }

  /** Executing live code: the original ends it, anything else sends it on. */
  lemma RunCodeGoesOn(s: Sys, k: Runner)
    requires ChainOk(s) && k.Reboot? && k.at.Entered? && k.pc in s.code
    ensures var k' := RunCode(s, k);
            && k'.Reboot? && k'.path == k.path && k'.seen == k.seen + [k.pc]
            && k'.goal == k.goal && k'.passed == k.passed
            && (s.code[k.pc].Trampoline? ==> k'.at == Testing(s.code[k.pc].g))
            && (s.code[k.pc].Foreign? ==> k'.at.Entered?)
            && (if s.code[k.pc].Original? then k'.at.Ended? && From(s.chain, k.pc) == [k.pc]
                else UnderWay(k') && !k'.at.Calling? && !k'.at.Chaining? && Target(s, k') in s.code &&
                     From(s.chain, k.pc) == [k.pc] + From(s.chain, Target(s, k')))
  {
    var b := FromStep(s, k.pc);
  }

  /** The guard a reboot is in. */
  function Inside(k: Runner): seq<nat> {
    if InGuard(k.at) then [k.at.g] else []
  }

  /** Inside a guard a step leads on to the same code. */
  lemma GuardGoesOn(s: Sys, r: nat)
    requires CanStep(s, r) && s.runners[r].Reboot? && InGuard(s.runners[r].at)
    ensures var s', k, k' := StepNext(s, r), s.runners[r], StepNext(s, r).runners[r];
            && UnderWay(k') && k'.path == k.path && k'.seen == k.seen && Target(s', k') == Target(s, k)
            && k'.goal == k.goal && k'.passed + Inside(k') == k.passed + Inside(k)
            && s'.chain == s.chain && s'.code == s.code && GuardSteps(k'.at) < GuardSteps(k.at)
  {
  }

  function GuardSteps(w: Where): nat {
    if w.Testing? then 3 else if w.Calling? then 2 else if w.Chaining? then 1 else 0
  }

  /** A reboot can take its next step, and if there is code where it is going that brings it
      nearer to its end, or there. */
  lemma RebootGoesOn(s: Sys, r: nat)
    requires Inv(s) && r < |s.runners| && UnderWay(s.runners[r]) && Target(s, s.runners[r]) in s.code
    ensures CanStep(s, r)
    ensures var s', k, k' := StepNext(s, r), s.runners[r], StepNext(s, r).runners[r];
            && k'.Reboot?
            && (k'.at.Ended? ||
                (UnderWay(k') && Target(s', k') in s'.code && StepsLeft(s', k') < StepsLeft(s, k)))
  {
    assert ShapeOk(s, s.runners[r]);
    if s.runners[r].at.Entered? { RunCodeGoesOn(s, s.runners[r]); } else { GuardGoesOn(s, r); }
  }

  /** If there is none it goes there all the same. */
  lemma RebootGoesWrong(s: Sys, r: nat)
    requires Inv(s) && r < |s.runners| && UnderWay(s.runners[r]) && Target(s, s.runners[r]) !in s.code
    ensures CanStep(s, r)
    ensures var s', k, k' := StepNext(s, r), s.runners[r], StepNext(s, r).runners[r];
            && k'.Reboot?
            && (if k.at.Entered? then k'.at.Crashed?
                else UnderWay(k') && Target(s', k') !in s'.code && GuardSteps(k'.at) < GuardSteps(k.at))
  {
    assert ShapeOk(s, s.runners[r]);
    if !s.runners[r].at.Entered? { GuardGoesOn(s, r); }
  }

  /** Runner `r` left to run for `m` steps. */
  function StepMany(s: Sys, r: nat, m: nat): Option<Sys>
    decreases m
  {
    if m == 0 then Some(s) else if CanStep(s, r) then StepMany(StepNext(s, r), r, m - 1) else None
  }

  /** ... as events of a run. */
  function Alone(r: nat, m: nat): seq<Event> {
    if m == 0 then [] else [Step(r)] + Alone(r, m - 1)
  }

  lemma {:induction false} ReachAlone(guards: nat, original: nat, run: seq<Event>, s: Sys, r: nat, m: nat)
    requires Reach(guards, original, run) == Some(s) && StepMany(s, r, m).Some?
    ensures Reach(guards, original, run + Alone(r, m)) == StepMany(s, r, m)
    decreases m
  {
    if m == 0 {
      assert run + Alone(r, m) == run;
    } else {
      var longer := ReachStep(guards, original, run, s, r);
      ReachAlone(guards, original, longer, StepNext(s, r), r, m - 1);
      AloneOneMore(run, longer, r, m);
    }
  }

  lemma ReachStep(guards: nat, original: nat, run: seq<Event>, s: Sys, r: nat) returns (longer: seq<Event>)
    requires Reach(guards, original, run) == Some(s) && CanStep(s, r)
    ensures longer == run + [Step(r)] && Reach(guards, original, longer) == Some(StepNext(s, r))
  {
    longer := run + [Step(r)];
    ReachOneMore(guards, original, run, s, Step(r));
  }

  lemma AloneOneMore(run: seq<Event>, longer: seq<Event>, r: nat, m: nat)
    requires longer == run + [Step(r)] && m > 0
    ensures longer + Alone(r, m - 1) == run + Alone(r, m)
  {
  }

  /** The steps lead to the end of reboot `r`, or to grief. */
  ghost predicate Finishes(s: Option<Sys>, r: nat, well: bool) {
    && s.Some? && r < |s.value.runners| && s.value.runners[r].Reboot?
    && if well then s.value.runners[r].at.Ended? else s.value.runners[r].at.Crashed?
  }

  lemma {:induction false} StepsToEnd(s: Sys, r: nat) returns (m: nat)
    requires Inv(s) && r < |s.runners| && UnderWay(s.runners[r]) && Target(s, s.runners[r]) in s.code
    ensures m <= StepsLeft(s, s.runners[r]) && Finishes(StepMany(s, r, m), r, true)
    decreases StepsLeft(s, s.runners[r])
  {
    RebootGoesOn(s, r);
    ResetKeepsInv(s, Step(r));
    var s', rest := StepNext(s, r), 0;
    if !s'.runners[r].at.Ended? { rest := StepsToEnd(s', r); }
    m := rest + 1;
  }

  lemma {:induction false} StepsToCrash(s: Sys, r: nat) returns (m: nat)
    requires Inv(s) && r < |s.runners| && UnderWay(s.runners[r]) && Target(s, s.runners[r]) !in s.code
    ensures m <= GuardSteps(s.runners[r].at) + 1 && Finishes(StepMany(s, r, m), r, false)
    decreases GuardSteps(s.runners[r].at)
  {
    RebootGoesWrong(s, r);
    ResetKeepsInv(s, Step(r));
    var s', rest := StepNext(s, r), 0;
    if !s'.runners[r].at.Crashed? { rest := StepsToCrash(s', r); }
    m := rest + 1;
  }

  /** In every run: a reboot under way that is left to run comes to its end if and only if there
      is code where it is going, within four steps per piece of code before it; otherwise it
      crashes, within four. */
  lemma RebootEnds(guards: nat, original: nat, run: seq<Event>, s: Sys, r: nat) returns (m: nat)
    requires Reach(guards, original, run) == Some(s) && r < |s.runners| && UnderWay(s.runners[r])
    ensures m <= StepsLeft(s, s.runners[r]) + 1
    ensures Finishes(Reach(guards, original, run + Alone(r, m)), r, Target(s, s.runners[r]) in s.code)
  {
    EveryRunKeepsInv(guards, original, run);
    if Target(s, s.runners[r]) in s.code { m := StepsToEnd(s, r); } else { m := StepsToCrash(s, r); }
    ReachAlone(guards, original, run, s, r, m);
  }

  // ---- what it takes to keep reboots on track ------------------------------------------------------

  /** A reboot under way is going to live code, and what it has run and what is before it are
      together the chain it was called on; one that has ended has run that chain. */
  ghost predicate OnTrack(s: Sys, k: Runner) {
    && !k.at.Crashed?
    && (UnderWay(k) ==> Target(s, k) in s.code && k.path == k.seen + From(s.chain, Target(s, k)))
    && (k.Reboot? && k.at.Ended? ==> k.seen == k.path)
  }

  ghost predicate AllOnTrack(s: Sys) {
    forall r :: 0 <= r < |s.runners| ==> OnTrack(s, s.runners[r])
  }

  /** What an event has to look out for on behalf of a reboot under way: not to take away the
      code it is going to, and not to install anew the guard it is in, unless that leaves the
      saved vector as it is. */
  predicate Minds(s: Sys, e: Event, k: Runner)
    requires Enabled(s, e)
  {
    UnderWay(k) ==>
      && (TakesHead(s, e) ==> Target(s, k) != s.vector)
      && (e.Install? && InGuard(k.at) && k.at.g == e.g ==> s.guards[e.g].chained == s.vector)
      && (e.InstallFails? && InGuard(k.at) && k.at.g == e.g ==> s.guards[e.g].chained == 0)
  }

  predicate MindsAll(s: Sys, e: Event)
    requires Enabled(s, e)
  {
    forall r :: 0 <= r < |s.runners| ==> Minds(s, e, s.runners[r])
  }

  lemma HeadGoesTrack(s: Sys, e: Event, k: Runner)
    requires Inv(s) && Enabled(s, e) && TakesHead(s, e) && OnTrack(s, k)
    ensures OnTrack(Next(s, e), k) <==> Minds(s, e, k)
  {
    HeadGoes(s, e);
    HeadOffTrack(s, Next(s, e), k);
  }

  lemma HeadOffTrack(s: Sys, s': Sys, k: Runner)
    requires s.chain != [] && Distinct(s.chain) && s.vector == s.chain[0] && OnTrack(s, k)
    requires s'.chain == s.chain[1..] && s'.code == s.code - {s.vector} && |s'.guards| == |s.guards|
    requires forall g :: 0 <= g < |s.guards| ==> s'.guards[g].chained == s.guards[g].chained
    ensures OnTrack(s', k) <==> (UnderWay(k) ==> Target(s, k) != s.vector)
  {
    if UnderWay(k) && Target(s, k) != s.vector { FromTail(s.chain, Target(s, k)); }
  }

  /** What a runner's track depends on. */
  lemma SameTrack(s: Sys, s': Sys, k: Runner)
    requires s'.chain == s.chain && s'.code == s.code && |s'.guards| == |s.guards| && OnTrack(s, k)
    requires forall g :: 0 <= g < |s.guards| ==> s'.guards[g].chained == s.guards[g].chained
    ensures OnTrack(s', k)
  {
  }

  lemma NewRebootTrack(s: Sys)
    requires ChainOk(s)
    ensures OnTrack(s, NewReboot(s))
  {
    FromHead(s.chain);
    assert s.vector in s.chain;
    FreshTrack(s, GuardsOn(s.code, s.chain));
  }

  lemma FreshTrack(s: Sys, goal: seq<nat>)
    requires From(s.chain, s.vector) == s.chain && s.vector in s.code
    ensures OnTrack(s, Reboot(Entered, s.vector, s.chain, [], goal, []))
  {
    NothingBefore(s.chain);
  }

  /** Two addresses on the chain with the same rest before a reboot are the same. */
  lemma SameRest(seen: seq<nat>, chain: seq<nat>, a: nat, b: nat)
    requires a in chain
    ensures seen + From(chain, a) == seen + From(chain, b) <==> a == b
  {
    if seen + From(chain, a) == seen + From(chain, b) {
      var path := seen + From(chain, a);
      assert path[|seen|..] == From(chain, a) && path[|seen|..] == From(chain, b);
    }
  }

  lemma InstallTrack(s: Sys, g: nat, t: nat, k: Runner)
    requires Inv(s) && Enabled(s, Install(g, t)) && OnTrack(s, k)
    ensures OnTrack(Next(s, Install(g, t)), k) <==> Minds(s, Install(g, t), k)
  {
    if UnderWay(k) {
      var b := Target(Next(s, Install(g, t)), k);
      assert b in s.code;
      FromPrepended(s.chain, t, b);
      SameRest(k.seen, s.chain, Target(s, k), b);
    }
  }

  lemma InstallFailsTrack(s: Sys, g: nat, k: Runner)
    requires Inv(s) && Enabled(s, InstallFails(g)) && OnTrack(s, k)
    ensures OnTrack(Next(s, InstallFails(g)), k) <==> Minds(s, InstallFails(g), k)
  {
    if UnderWay(k) { SameRest(k.seen, s.chain, Target(s, k), Target(Next(s, InstallFails(g)), k)); }
  }

  lemma PatchTrack(s: Sys, a: nat, k: Runner)
    requires Inv(s) && Enabled(s, Patch(a)) && OnTrack(s, k)
    ensures OnTrack(Next(s, Patch(a)), k)
  {
    if UnderWay(k) {
      assert Target(s, k) in s.chain && a !in s.chain;
      FromPrepended(s.chain, a, Target(s, k));
    }
  }

  /** A step keeps the runner that takes it on track. */
  lemma OwnStepTrack(s: Sys, r: nat)
    requires Inv(s) && CanStep(s, r) && OnTrack(s, s.runners[r])
    ensures OnTrack(StepNext(s, r), StepNext(s, r).runners[r])
  {
    var k := s.runners[r];
    if k.at.Entered? {
      RunCodeGoesOn(s, k);
      RunCodeTrack(k.seen, k.pc, From(s.chain, Target(s, RunCode(s, k))));
    } else if k.Reboot? {
      GuardGoesOn(s, r);
    }
  }

  lemma RunCodeTrack(seen: seq<nat>, a: nat, rest: seq<nat>)
    ensures seen + ([a] + rest) == seen + [a] + rest
  {
  }

  /** ... and every other one. */
  lemma OtherStepTrack(s: Sys, r: nat, k: Runner)
    requires CanStep(s, r) && OnTrack(s, k)
    ensures OnTrack(StepNext(s, r), k)
  {
    SameTrack(s, StepNext(s, r), k);
  }

  lemma StepTrack(s: Sys, r: nat)
    requires Inv(s) && AllOnTrack(s) && CanStep(s, r)
    ensures AllOnTrack(StepNext(s, r))
  {
    var s' := StepNext(s, r);
    forall q | 0 <= q < |s'.runners| ensures OnTrack(s', s'.runners[q]) {
      assert OnTrack(s, s.runners[q]);
      if q == r { OwnStepTrack(s, r); } else { OtherStepTrack(s, r, s.runners[q]); }
    }
  }

  lemma BeginTrack(s: Sys, e: Event)
    requires Inv(s) && AllOnTrack(s) && Enabled(s, e) && (e.CallReboot? || e.PressKeys?)
    ensures AllOnTrack(Next(s, e))
  {
    NewRebootTrack(s);
    AddRunnerTrack(s, if e.CallReboot? then NewReboot(s) else Keyboard(e.g, Testing(e.g)));
  }

  lemma AddRunnerTrack(s: Sys, k: Runner)
    requires AllOnTrack(s) && OnTrack(s, k)
    ensures AllOnTrack(s.(runners := s.runners + [k]))
  {
    var s' := s.(runners := s.runners + [k]);
    forall q | 0 <= q < |s'.runners| ensures OnTrack(s', s'.runners[q]) {
      assert OnTrack(s, s'.runners[q]);
      SameTrack(s, s', s'.runners[q]);
    }
  }

  /** From a state in which every reboot is on track, an event keeps every one of them there if
      and only if it looks out for them. */
  lemma OnTrackIff(s: Sys, e: Event)
    requires Inv(s) && AllOnTrack(s) && Enabled(s, e)
    ensures AllOnTrack(Next(s, e)) <==> MindsAll(s, e)
  {
    var s' := Next(s, e);
    if e.CallReboot? || e.PressKeys? {
      BeginTrack(s, e);
    } else if e.Step? {
      StepTrack(s, e.r);
    } else {
      assert s'.runners == s.runners;
      forall r | 0 <= r < |s.runners| ensures OnTrack(s', s.runners[r]) <==> Minds(s, e, s.runners[r]) {
        OtherTrack(s, e, s.runners[r]);
      }
    }
  }

  lemma OtherTrack(s: Sys, e: Event, k: Runner)
    requires Inv(s) && Enabled(s, e) && !e.CallReboot? && !e.PressKeys? && !e.Step? && OnTrack(s, k)
    ensures OnTrack(Next(s, e), k) <==> Minds(s, e, k)
  {
    match e
    case Install(g, t) => InstallTrack(s, g, t, k);
    case InstallFails(g) => InstallFailsTrack(s, g, k);
    case Patch(a) => PatchTrack(s, a, k);
    case Unpatch => HeadGoesTrack(s, e, k);
    case Remove(g) => if TakesHead(s, e) { HeadGoesTrack(s, e, k); }
    case _ =>
  }

  /** Every event of the run looked out for the reboots under way, in the state it came in. */
  ghost predicate Minded(guards: nat, original: nat, run: seq<Event>) {
    run == [] ||
    (Minded(guards, original, run[..|run| - 1]) &&
     match Reach(guards, original, run[..|run| - 1])
     case None => false
     case Some(s) => Enabled(s, run[|run| - 1]) && MindsAll(s, run[|run| - 1]))
  }

  /** Every reboot is on track after the run and after everything that leads up to it. */
  ghost predicate Tracked(guards: nat, original: nat, run: seq<Event>) {
    && Reach(guards, original, run).Some? && AllOnTrack(Reach(guards, original, run).value)
    && (run != [] ==> Tracked(guards, original, run[..|run| - 1]))
  }

  /** Over any run: every reboot is on track all the time if and only if every event looked out
      for them. */
  lemma {:induction false} RunOnTrackIff(guards: nat, original: nat, run: seq<Event>)
    requires Reach(guards, original, run).Some?
    ensures Minded(guards, original, run) <==> Tracked(guards, original, run)
  {
    if run != [] {
      var before, e := run[..|run| - 1], run[|run| - 1];
      RunOnTrackIff(guards, original, before);
      EveryRunKeepsInv(guards, original, before);
      if Tracked(guards, original, before) { OnTrackIff(Reach(guards, original, before).value, e); }
    }
  }

  predicate AboutToRun(k: Runner, a: nat) {
    k.Reboot? && k.at.Entered? && k.pc == a
  }

  ghost predicate CrashesNext(s: Sys, r: nat) {
    CanStep(s, r) && StepNext(s, r).runners[r].at.Crashed?
  }

  /** After an event that takes the head away, a reset's next step crashes if and only if it is a
      reboot that was about to execute the head. */
  lemma HeadGoesCrashesIff(s: Sys, e: Event, r: nat)
    requires Inv(s) && AllOnTrack(s) && Enabled(s, e) && TakesHead(s, e) && r < |s.runners|
    ensures CrashesNext(Next(s, e), r) <==> AboutToRun(s.runners[r], s.vector)
  {
    var s', k := Next(s, e), s.runners[r];
    HeadGoes(s, e);
    HeadGoesKeepsInv(s, e);
    assert OnTrack(s, k) && ShapeOk(s, k);
    if UnderWay(k) {
      if Target(s', k) in s'.code { RebootGoesOn(s', r); } else { RebootGoesWrong(s', r); }
    }
  }

  // ---- a reboot and the chain it was called on -----------------------------------------------------

  /** Runners are never dropped, and a reboot keeps its path. */
  lemma NextKeepsPath(s: Sys, e: Event, r: nat)
    requires Enabled(s, e) && r < |s.runners| && s.runners[r].Reboot?
    ensures r < |Next(s, e).runners| && Next(s, e).runners[r].Reboot?
    ensures Next(s, e).runners[r].path == s.runners[r].path && Next(s, e).runners[r].goal == s.runners[r].goal
  {
  }

  lemma {:induction false} PathIsChainAtCall(guards: nat, original: nat, before: seq<Event>, after: seq<Event>)
    requires Reach(guards, original, before + [CallReboot] + after).Some?
    ensures Reach(guards, original, before).Some?
    ensures var s, s0 := Reach(guards, original, before + [CallReboot] + after).value,
            Reach(guards, original, before).value;
            |s0.runners| < |s.runners| && s.runners[|s0.runners|].Reboot? && s.runners[|s0.runners|].path == s0.chain
    decreases |after|
  {
    var run := before + [CallReboot] + after;
    if after == [] {
      assert run == before + [CallReboot] && run[..|run| - 1] == before;
    } else {
      var shorter := after[..|after| - 1];
      assert run[..|run| - 1] == before + [CallReboot] + shorter;
      PathIsChainAtCall(guards, original, before, shorter);
      NextKeepsPath(Reach(guards, original, run[..|run| - 1]).value, run[|run| - 1],
                    |Reach(guards, original, before).value.runners|);
    }
  }

  /** In a run whose events look out for reboots: one that has ended has run every piece of code
      that was on the chain at its call, in order and each once, the original last; and one
      under way has run the first of them and has the others before it. */
  lemma RebootVisitsAll(guards: nat, original: nat, before: seq<Event>, after: seq<Event>, s0: Sys, s: Sys)
    requires Reach(guards, original, before) == Some(s0)
    requires Reach(guards, original, before + [CallReboot] + after) == Some(s)
    requires Minded(guards, original, before + [CallReboot] + after)
    ensures |s0.runners| < |s.runners| && s.runners[|s0.runners|].Reboot?
    ensures var k := s.runners[|s0.runners|];
            && !k.at.Crashed?
            && (k.at.Ended? ==> k.seen == s0.chain)
            && (UnderWay(k) ==> k.seen + From(s.chain, Target(s, k)) == s0.chain)
  {
    var run := before + [CallReboot] + after;
    PathIsChainAtCall(guards, original, before, after);
    RunOnTrackIff(guards, original, run);
    assert OnTrack(s, s.runners[|s0.runners|]);
  }

  // ---- prepare(), at least once ----------------------------------------------------------------------

  /** The guard is prepared: prepare() has run, or a reset is about to run it. */
  ghost predicate Prepared(s: Sys, g: nat) {
    && g < |s.guards| && s.guards[g].prepared
    && (s.guards[g].runs == 1 || exists r :: 0 <= r < |s.runners| && s.runners[r].at == Calling(g))
  }

  /** Every guard a reset has gone through is prepared: the one whose prepare() it has behind
      it, those a reboot has left, and that of a keyboard reset that has reported DONE. */
  ghost predicate PassOk(s: Sys, k: Runner) {
    && (k.at.Chaining? ==> Prepared(s, k.at.g))
    && (k.Keyboard? && k.at.Ended? ==> Prepared(s, k.g))
    && (k.Keyboard? && InGuard(k.at) ==> k.at.g == k.g)
    && (k.Reboot? ==> forall i :: 0 <= i < |k.passed| ==> Prepared(s, k.passed[i]))
  }

  ghost predicate AllPassOk(s: Sys) {
    forall r :: 0 <= r < |s.runners| ==> PassOk(s, s.runners[r])
  }

  /** Whoever goes through the Disable() section leaves the guard prepared. */
  lemma TestPrepares(s: Sys, r: nat)
    requires CanStep(s, r) && s.runners[r].at.Testing?
    requires s.guards[s.runners[r].at.g].prepared ==> Prepared(s, s.runners[r].at.g)
    requires !s.guards[s.runners[r].at.g].prepared ==> s.guards[s.runners[r].at.g].runs == 0
    ensures Prepared(StepNext(s, r), s.runners[r].at.g)
  {
    var s', g := StepNext(s, r), s.runners[r].at.g;
    if s.guards[g].prepared {
      if s.guards[g].runs != 1 {
        var q :| 0 <= q < |s.runners| && s.runners[q].at == Calling(g);
        assert s'.runners[q].at == Calling(g);
      }
    } else {
      assert s'.runners[r].at == Calling(g);
    }
  }

  /** A prepared guard stays prepared until it is installed again. */
  lemma StepKeepsPrepared(s: Sys, r: nat, g: nat)
    requires Single(s) && CanStep(s, r) && Prepared(s, g)
    ensures Prepared(StepNext(s, r), g)
  {
    var s' := StepNext(s, r);
    assert CallerOk(s, r) && OnceOk(s, g);
    if s.guards[g].runs != 1 {
      var q :| 0 <= q < |s.runners| && s.runners[q].at == Calling(g);
      assert CallerOk(s, q);
      if q != r { assert s'.runners[q].at == Calling(g); }
    }
  }

  lemma OtherKeepsPrepared(s: Sys, e: Event, g: nat)
    requires Enabled(s, e) && !e.Step? && Prepared(s, g) && !Installs(e, g)
    ensures Prepared(Next(s, e), g)
  {
    var s' := Next(s, e);
    if s.guards[g].runs != 1 {
      var q :| 0 <= q < |s.runners| && s.runners[q].at == Calling(g);
      assert s'.runners[q].at == Calling(g);
    }
  }

  /** A guard that says it is prepared is. */
  ghost predicate FlagOk(s: Sys, g: nat)
    requires g < |s.guards|
  {
    s.guards[g].prepared <==> Prepared(s, g)
  }

  ghost predicate PrepareInv(s: Sys) {
    && Single(s) && AllPassOk(s)
    && (forall g :: 0 <= g < |s.guards| ==> FlagOk(s, g))
  }

  lemma StepKeepsPass(s: Sys, r: nat)
    requires PrepareInv(s) && CanStep(s, r)
    ensures AllPassOk(StepNext(s, r))
  {
    var s', k := StepNext(s, r), s.runners[r];
    assert PassOk(s, k);
    forall q | 0 <= q < |s'.runners| ensures PassOk(s', s'.runners[q]) {
      assert PassOk(s, s.runners[q]);
      if q == r { OwnStepKeepsPass(s, r); } else { OtherStepKeepsPass(s, r, s.runners[q]); }
    }
  }

  lemma OtherStepKeepsPass(s: Sys, r: nat, k: Runner)
    requires Single(s) && CanStep(s, r) && PassOk(s, k)
    ensures PassOk(StepNext(s, r), k)
  {
    if k.at.Chaining? { StepKeepsPrepared(s, r, k.at.g); }
    if k.Keyboard? && k.at.Ended? { StepKeepsPrepared(s, r, k.g); }
    if k.Reboot? {
      forall i | 0 <= i < |k.passed| ensures Prepared(StepNext(s, r), k.passed[i]) {
        StepKeepsPrepared(s, r, k.passed[i]);
      }
    }
  }

  lemma OwnStepKeepsPass(s: Sys, r: nat)
    requires PrepareInv(s) && CanStep(s, r)
    ensures PassOk(StepNext(s, r), StepNext(s, r).runners[r])
  {
    var s', k := StepNext(s, r), s.runners[r];
    assert PassOk(s, k) && CallerOk(s, r);
    OtherStepKeepsPass(s, r, k);
    if InGuard(k.at) {
      assert FlagOk(s, k.at.g) && OnceOk(s, k.at.g);
      if k.at.Testing? { TestPrepares(s, r); }
    }
  }

  lemma StepKeepsFlags(s: Sys, r: nat, g: nat)
    requires PrepareInv(s) && CanStep(s, r) && g < |s.guards|
    ensures FlagOk(StepNext(s, r), g)
  {
    assert FlagOk(s, g) && OnceOk(s, g);
    if s.guards[g].prepared {
      StepKeepsPrepared(s, r, g);
    } else if s.runners[r].at == Testing(g) {
      TestPrepares(s, r);
    } else {
      assert CallerOk(s, r);
    }
  }

  lemma StepKeepsPrepareInv(s: Sys, r: nat)
    requires PrepareInv(s) && CanStep(s, r)
    ensures PrepareInv(StepNext(s, r))
  {
    StepKeepsSingle(s, r);
    StepKeepsPass(s, r);
    forall g | 0 <= g < |s.guards| ensures FlagOk(StepNext(s, r), g) { StepKeepsFlags(s, r, g); }
  }

  /** An event that is no step, and installs only a guard that nothing knows. */
  lemma OtherKeepsPrepareInv(s: Sys, e: Event)
    requires PrepareInv(s) && Enabled(s, e) && !e.Step?
    requires e.Install? || e.InstallFails? ==> Unknown(s, e.g)
    ensures PrepareInv(Next(s, e))
  {
    var s' := Next(s, e);
    OtherKeepsSingle(s, e);
    forall g | 0 <= g < |s'.guards| ensures FlagOk(s', g) {
      assert FlagOk(s, g);
      if Prepared(s, g) && !Installs(e, g) { OtherKeepsPrepared(s, e, g); }
    }
    forall r | 0 <= r < |s'.runners| ensures PassOk(s', s'.runners[r]) {
      if r < |s.runners| {
        assert PassOk(s, s.runners[r]);
        OtherKeepsPass(s, e, s.runners[r]);
      }
    }
  }

  lemma OtherKeepsPass(s: Sys, e: Event, k: Runner)
    requires Enabled(s, e) && !e.Step? && PassOk(s, k)
    requires e.Install? || e.InstallFails? ==> Unaware(k, e.g)
    ensures PassOk(Next(s, e), k)
  {
    if k.at.Chaining? { OtherKeepsPrepared(s, e, k.at.g); }
    if k.Keyboard? && k.at.Ended? { OtherKeepsPrepared(s, e, k.g); }
    if k.Reboot? {
      forall i | 0 <= i < |k.passed| ensures Prepared(Next(s, e), k.passed[i]) {
        assert k.passed[i] in k.passed;
        OtherKeepsPrepared(s, e, k.passed[i]);
      }
    }
  }

  /** In every run without a reinstallation, every guard that a keyboard reset or a reboot has
      gone through is prepared: its prepare() has run, once, or another reset is about to run
      it. */
  lemma {:induction false} PassedIsPrepared(guards: nat, original: nat, run: seq<Event>)
    requires Reach(guards, original, run).Some? && InstalledOnce(run)
    ensures PrepareInv(Reach(guards, original, run).value)
  {
    if run != [] {
      var before, e := run[..|run| - 1], run[|run| - 1];
      PassedIsPrepared(guards, original, before);
      var s := Reach(guards, original, before).value;
      if e.Step? {
        StepKeepsPrepareInv(s, e.r);
      } else {
        if e.Install? || e.InstallFails? {
          assert Installs(run[|run| - 1], e.g);
          NeverInstalledIsUnknown(guards, original, before, e.g);
        }
        OtherKeepsPrepareInv(s, e);
      }
    }
  }

  /** A keyboard reset of an installed guard that is not prepared yet, left to run, calls
      prepare() and then reports DONE. */
  lemma KeyboardRunsPrepare(guards: nat, original: nat, run: seq<Event>, s: Sys, g: nat)
    requires Reach(guards, original, run) == Some(s) && Enabled(s, PressKeys(g)) && !s.guards[g].prepared
    ensures var r, end := |s.runners|, Reach(guards, original, run + [PressKeys(g)] + Alone(|s.runners|, 3));
            && end.Some? && r < |end.value.runners| && end.value.runners[r].Keyboard? && end.value.runners[r].at.Ended?
            && g < |end.value.guards| && end.value.guards[g].prepared
            && end.value.guards[g].runs == s.guards[g].runs + 1
  {
    var s1, r := Next(s, PressKeys(g)), |s.runners|;
    ReachOneMore(guards, original, run, s, PressKeys(g));
    var s2 := StepNext(s1, r);
    var s3 := StepNext(s2, r);
    var s4 := StepNext(s3, r);
    assert StepMany(s3, r, 1) == StepMany(s4, r, 0) && StepMany(s2, r, 2) == StepMany(s3, r, 1);
    assert StepMany(s1, r, 3) == Some(s4);
    ReachAlone(guards, original, run + [PressKeys(g)], s1, r, 3);
  }

  // ---- ... by every reboot -----------------------------------------------------------------------------

  lemma {:induction false} GuardsOnSame(code: map<nat, Code>, code': map<nat, Code>, c: seq<nat>)
    requires forall a :: a in c && a in code ==> a in code' && code'[a] == code[a]
    requires forall a :: a in c ==> a in code
    ensures GuardsOn(code', c) == GuardsOn(code, c)
  {
    if c != [] {
      assert c[0] in c;
      GuardsOnSame(code, code', c[1..]);
    }
  }

  lemma GuardsOnCons(code: map<nat, Code>, a: nat, rest: seq<nat>)
    requires a in code
    ensures GuardsOn(code, [a] + rest) == (if code[a].Trampoline? then [code[a].g] else []) + GuardsOn(code, rest)
  {
    assert ([a] + rest)[1..] == rest;
  }

  /** What a reboot under way has gone through, the guard it is in and those before it are the
      guards that were on the chain at its call; one that has ended has gone through them. */
  ghost predicate GuardTrack(s: Sys, k: Runner) {
    && (UnderWay(k) ==> k.goal == k.passed + Inside(k) + GuardsOn(s.code, From(s.chain, Target(s, k))))
    && (k.Reboot? && k.at.Ended? ==> k.passed == k.goal)
  }

  ghost predicate AllGuardTrack(s: Sys) {
    forall r :: 0 <= r < |s.runners| ==> GuardTrack(s, s.runners[r])
  }

  lemma FromIsLive(s: Sys, a: nat)
    requires ChainOk(s)
    ensures forall x :: x in From(s.chain, a) ==> x in s.code
  {
    forall x | x in From(s.chain, a) ensures x in s.code { assert x in s.chain; }
  }

  lemma OwnStepGuards(s: Sys, r: nat)
    requires Inv(s) && CanStep(s, r) && OnTrack(s, s.runners[r]) && GuardTrack(s, s.runners[r])
    ensures GuardTrack(StepNext(s, r), StepNext(s, r).runners[r])
  {
    var k := s.runners[r];
    if k.at.Entered? {
      RunCodeGoesOn(s, k);
      EnterGuards(s, k);
    } else if k.Reboot? {
      GuardGoesOn(s, r);
    }
  }

  lemma EnterGuards(s: Sys, k: Runner)
    requires Inv(s) && k.Reboot? && k.at.Entered? && k.pc in s.code && GuardTrack(s, k)
    ensures GuardTrack(s, RunCode(s, k))
  {
    RunCodeGoesOn(s, k);
    var k' := RunCode(s, k);
    if s.code[k.pc].Original? {
      GuardsOnCons(s.code, k.pc, []);
      assert [k.pc] + [] == [k.pc];
    } else {
      var rest := From(s.chain, Target(s, k'));
      GuardsOnCons(s.code, k.pc, rest);
      JoinGuards(k.passed, Inside(k'), GuardsOn(s.code, rest));
    }
  }

  lemma JoinGuards(a: seq<nat>, b: seq<nat>, c: seq<nat>)
    ensures a + [] + (b + c) == a + b + c
  {
  }

  /** A reboot whose way stays as it is has the same guards before it. */
  lemma SameWaySameGuards(s: Sys, s': Sys, k: Runner)
    requires ChainOk(s) && GuardTrack(s, k)
    requires UnderWay(k) ==> Target(s', k) == Target(s, k)
    requires UnderWay(k) ==> From(s'.chain, Target(s', k)) == From(s.chain, Target(s, k))
    requires UnderWay(k) ==>
               forall x :: x in From(s.chain, Target(s, k)) && x in s.code ==> x in s'.code && s'.code[x] == s.code[x]
    ensures GuardTrack(s', k)
  {
    if UnderWay(k) {
      FromIsLive(s, Target(s, k));
      GuardsOnSame(s.code, s'.code, From(s.chain, Target(s, k)));
    }
  }

  /** From the bookkeeping of the path: an event that keeps a reboot on track leaves its way as
      it is. */
  lemma SameWay(s: Sys, e: Event, k: Runner)
    requires Inv(s) && Enabled(s, e) && !e.Step? && OnTrack(s, k) && OnTrack(Next(s, e), k) && UnderWay(k)
    ensures var s' := Next(s, e);
            Target(s', k) == Target(s, k) && From(s'.chain, Target(s', k)) == From(s.chain, Target(s, k))
  {
    var s' := Next(s, e);
    var x, y := From(s.chain, Target(s, k)), From(s'.chain, Target(s', k));
    assert k.path[|k.seen|..] == x && k.path[|k.seen|..] == y;
    assert x[0] == Target(s, k) && y[0] == Target(s', k);
  }

  lemma OtherGuards(s: Sys, e: Event, k: Runner)
    requires Inv(s) && Enabled(s, e) && !e.Step? && OnTrack(s, k) && OnTrack(Next(s, e), k) && GuardTrack(s, k)
    ensures GuardTrack(Next(s, e), k)
  {
    if UnderWay(k) {
      SameWay(s, e, k);
      NextKeepsInv(s, e);
      FromIsLive(Next(s, e), Target(s, k));
      LiveCodeStays(s, e);
    }
    SameWaySameGuards(s, Next(s, e), k);
  }

  lemma LiveCodeStays(s: Sys, e: Event)
    requires Enabled(s, e)
    ensures forall x :: x in s.code && x in Next(s, e).code ==> Next(s, e).code[x] == s.code[x]
  {
  }

  lemma StepKeepsGuards(s: Sys, r: nat)
    requires Inv(s) && CanStep(s, r) && AllOnTrack(s) && AllGuardTrack(s)
    ensures AllGuardTrack(StepNext(s, r))
  {
    var s' := StepNext(s, r);
    forall q | 0 <= q < |s'.runners| ensures GuardTrack(s', s'.runners[q]) {
      assert OnTrack(s, s.runners[q]) && GuardTrack(s, s.runners[q]);
      if q == r { OwnStepGuards(s, r); } else { OtherStepGuards(s, r, s.runners[q]); }
    }
  }

  lemma NewRebootGuards(s: Sys)
    requires ChainOk(s)
    ensures GuardTrack(s, NewReboot(s))
  {
    var k := NewReboot(s);
    FromHead(s.chain);
    assert Target(s, k) == s.vector;
    NothingBefore(GuardsOn(s.code, s.chain));
  }

  lemma NothingBefore(c: seq<nat>)
    ensures [] + [] + c == c
  {
  }

  lemma AddRunnerGuards(s: Sys, k: Runner)
    requires Inv(s) && AllGuardTrack(s) && GuardTrack(s, k)
    ensures AllGuardTrack(s.(runners := s.runners + [k]))
  {
    var s' := s.(runners := s.runners + [k]);
    forall q | 0 <= q < |s'.runners| ensures GuardTrack(s', s'.runners[q]) {
      assert GuardTrack(s, s'.runners[q]);
      SameWaySameGuards(s, s', s'.runners[q]);
    }
  }

  lemma NextKeepsGuards(s: Sys, e: Event)
    requires Inv(s) && Enabled(s, e) && AllOnTrack(s) && AllOnTrack(Next(s, e)) && AllGuardTrack(s)
    ensures AllGuardTrack(Next(s, e))
  {
    if e.Step? {
      StepKeepsGuards(s, e.r);
    } else if e.CallReboot? || e.PressKeys? {
      NewRebootGuards(s);
      AddRunnerGuards(s, if e.CallReboot? then NewReboot(s) else Keyboard(e.g, Testing(e.g)));
    } else {
      OthersKeepGuards(s, e);
    }
  }

  lemma OthersKeepGuards(s: Sys, e: Event)
    requires Inv(s) && Enabled(s, e) && AllOnTrack(s) && AllOnTrack(Next(s, e)) && AllGuardTrack(s)
    requires !e.Step? && !e.CallReboot? && !e.PressKeys?
    ensures AllGuardTrack(Next(s, e))
  {
    var s' := Next(s, e);
    assert s'.runners == s.runners;
    forall r | 0 <= r < |s'.runners| ensures GuardTrack(s', s'.runners[r]) {
      assert OnTrack(s, s.runners[r]) && GuardTrack(s, s.runners[r]) && OnTrack(s', s'.runners[r]);
      OtherGuards(s, e, s.runners[r]);
    }
  }

  lemma OtherStepGuards(s: Sys, r: nat, k: Runner)
    requires Inv(s) && CanStep(s, r) && GuardTrack(s, k)
    ensures GuardTrack(StepNext(s, r), k)
  {
    SameWaySameGuards(s, StepNext(s, r), k);
  }

  lemma {:induction false} MindedKeepsGuards(guards: nat, original: nat, run: seq<Event>)
    requires Reach(guards, original, run).Some? && Minded(guards, original, run)
    ensures AllGuardTrack(Reach(guards, original, run).value)
  {
    if run != [] {
      var before := run[..|run| - 1];
      MindedKeepsGuards(guards, original, before);
      EveryRunKeepsInv(guards, original, before);
      RunOnTrackIff(guards, original, before);
      RunOnTrackIff(guards, original, run);
      NextKeepsGuards(Reach(guards, original, before).value, run[|run| - 1]);
    }
  }

  lemma {:induction false} GoalIsGuardsAtCall(guards: nat, original: nat, before: seq<Event>, after: seq<Event>)
    requires Reach(guards, original, before + [CallReboot] + after).Some?
    ensures Reach(guards, original, before).Some?
    ensures var s, s0 := Reach(guards, original, before + [CallReboot] + after).value,
                         Reach(guards, original, before).value;
            && |s0.runners| < |s.runners| && s.runners[|s0.runners|].Reboot?
            && s.runners[|s0.runners|].goal == GuardsOn(s0.code, s0.chain)
    decreases |after|
  {
    var run := before + [CallReboot] + after;
    if after == [] {
      assert run == before + [CallReboot] && run[..|run| - 1] == before;
    } else {
      var shorter := after[..|after| - 1];
      assert run[..|run| - 1] == before + [CallReboot] + shorter;
      GoalIsGuardsAtCall(guards, original, before, shorter);
      NextKeepsPath(Reach(guards, original, run[..|run| - 1]).value, run[|run| - 1],
                    |Reach(guards, original, before).value.runners|);
    }
  }

  /** A reboot that has ended, in a run without a reinstallation whose events look out for
      reboots, has gone through every guard that was on the chain at its call, in order, and
      every one of them is prepared. */
  lemma RebootPreparesAll(guards: nat, original: nat, before: seq<Event>, after: seq<Event>, s0: Sys, s: Sys)
    requires Reach(guards, original, before) == Some(s0)
    requires Reach(guards, original, before + [CallReboot] + after) == Some(s)
    requires Minded(guards, original, before + [CallReboot] + after)
    requires InstalledOnce(before + [CallReboot] + after)
    requires |s0.runners| < |s.runners| && s.runners[|s0.runners|].at.Ended?
    ensures s.runners[|s0.runners|].Reboot?
    ensures s.runners[|s0.runners|].passed == GuardsOn(s0.code, s0.chain)
    ensures forall i :: 0 <= i < |GuardsOn(s0.code, s0.chain)| ==> Prepared(s, GuardsOn(s0.code, s0.chain)[i])
  {
    var run := before + [CallReboot] + after;
    GoalIsGuardsAtCall(guards, original, before, after);
    MindedKeepsGuards(guards, original, run);
    PassedIsPrepared(guards, original, run);
    assert GuardTrack(s, s.runners[|s0.runners|]) && PassOk(s, s.runners[|s0.runners|]);
  }

  lemma {:induction false} InstalledIsOnChain(s: Sys, c: seq<nat>, g: nat, a: nat)
    requires a in c && a in s.code && s.code[a] == Trampoline(g)
    ensures g in GuardsOn(s.code, c)
  {
    if c[0] != a { InstalledIsOnChain(s, c[1..], g, a); }
  }
}
