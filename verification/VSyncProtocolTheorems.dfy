/** What every run of the worker protocol keeps. */
module VSyncProtocolTheorems {
  import opened VSyncTiming
  import opened VSyncProtocol

  lemma LockStepInside(s: State, slept: bool, frame: int)
    requires frame > 0 && LockInv(s) && CanWork(s, slept) && WorkerInside(s.worker)
    ensures LockInv(Worked(s, slept, frame))
  {
    match s.worker {
      case LoopLocked => case LoopUnlock(_) => case RoutineLocked => case FirstExitTest =>
      case SecondExitTest => case Copying => case RoutineUnlock(_, _) =>
    }
  }

  lemma LockStepOutside(s: State, slept: bool, frame: int)
    requires frame > 0 && LockInv(s) && CanWork(s, slept) && !WorkerInside(s.worker)
    ensures LockInv(Worked(s, slept, frame))
  {
    hide PhasedVSync;
    match s.worker {
      case AtLoop => case AtRoutine => case Waking => case _ =>
    }
  }

  lemma LockStepOfWorker(s: State, slept: bool, frame: int)
    requires frame > 0 && LockInv(s) && CanWork(s, slept)
    ensures LockInv(Worked(s, slept, frame))
  {
    hide *;
    if WorkerInside(s.worker) {
      LockStepInside(s, slept, frame);
    } else {
      LockStepOutside(s, slept, frame);
    }
  }

  lemma LockStep(s: State, a: Step, frame: int)
    requires frame > 0 && LockInv(s) && CanStep(s, a)
    ensures LockInv(After(s, a, frame))
  {
    hide Worked;
    if a.Work? {
      LockStepOfWorker(s, a.slept, frame);
    }
  }

  lemma WakeStepOfWorker(s: State, slept: bool, frame: int)
    requires frame > 0 && LockInv(s) && WakeInv(s) && CanWork(s, slept)
    ensures WakeInv(Worked(s, slept, frame))
  {
    hide PhasedVSync;
    match s.worker {
      case AtLoop => case LoopLocked => case LoopUnlock(_) => case AtRoutine => case RoutineLocked =>
      case FirstExitTest => case Waking => case SecondExitTest => case Copying => case RoutineUnlock(_, _) =>
      case _ =>
    }
  }

  lemma WakeStep(s: State, a: Step, frame: int)
    requires frame > 0 && LockInv(s) && WakeInv(s) && CanStep(s, a)
    ensures WakeInv(After(s, a, frame))
  {
    hide Worked;
    if a.Work? {
      WakeStepOfWorker(s, a.slept, frame);
    }
  }

  lemma CallStepOfWorker(s: State, slept: bool, frame: int)
    requires frame > 0 && LockInv(s) && CallInv(s) && CanWork(s, slept)
    ensures CallInv(Worked(s, slept, frame))
  {
    hide PhasedVSync;
    match s.worker {
      case AtLoop => case LoopLocked => case LoopUnlock(_) => case AtRoutine => case RoutineLocked =>
      case FirstExitTest => case Waking => case SecondExitTest => case Copying => case RoutineUnlock(_, _) =>
      case _ =>
    }
  }

  lemma CallStep(s: State, a: Step, frame: int)
    requires frame > 0 && LockInv(s) && CallInv(s) && CanStep(s, a)
    ensures CallInv(After(s, a, frame))
  {
    hide Worked;
    if a.Work? {
      CallStepOfWorker(s, a.slept, frame);
    }
  }

  lemma TimeStepComputing(s: State, a: Step, frame: int)
    requires frame > 0 && TimeInv(s, frame) && CanStep(s, a)
    requires a.Work? && s.worker.Computing?
    ensures TimeInv(After(s, a, frame), frame)
  {
    var now := s.worker.now;
    TargetAhead(now, s.last, frame);
    var target := PhasedVSync(s.last, frame, now);
    if s.log != [] && !s.touched {
      PhaseKept(LastTs(s), s.last, target, frame);
    }
    hide PhasedVSync, InPhase;
  }

  lemma TimeStepCalling(s: State, a: Step, frame: int)
    requires frame > 0 && TimeInv(s, frame) && CanStep(s, a)
    requires a.Work? && s.worker.Calling?
    ensures TimeInv(After(s, a, frame), frame)
  {
    TargetAhead(s.worker.now, s.worker.last, frame);
    InPhaseWithItself(s.worker.target, frame);
    hide PhasedVSync, InPhase;
  }

  lemma TimeStepInside(s: State, a: Step, frame: int)
    requires frame > 0 && TimeInv(s, frame) && CanStep(s, a)
    requires a.Work? && WorkerInside(s.worker)
    ensures TimeInv(After(s, a, frame), frame)
  {
    hide PhasedVSync, InPhase, Computed;
  }

  lemma TimeStepOutside(s: State, a: Step, frame: int)
    requires frame > 0 && TimeInv(s, frame) && CanStep(s, a)
    requires a.Work? && !WorkerInside(s.worker) && !s.worker.Computing? && !s.worker.Calling?
    ensures TimeInv(After(s, a, frame), frame)
  {
    hide PhasedVSync, InPhase, Computed;
    match s.worker {
      case ReadingClock(_) => case Sleeping(_, _, _, _) => case Storing(_) => case _ =>
    }
  }

  lemma TimeStepTick(s: State, ns: nat, frame: int)
    requires frame > 0 && TimeInv(s, frame)
    ensures TimeInv(After(s, Tick(ns), frame), frame)
  {
    hide PhasedVSync, InPhase, Computed;
  }

  /** The times depend on nothing else. */
  lemma TimesAlone(s: State, t: State, frame: int)
    requires frame > 0 && TimeInv(s, frame)
    requires (t.clock, t.last, t.log, t.touched, t.worker) == (s.clock, s.last, s.log, s.touched, s.worker)
    ensures TimeInv(t, frame)
  {
    hide PhasedVSync, InPhase, Computed;
  }

  lemma TimeStepControl(s: State, frame: int)
    requires frame > 0 && TimeInv(s, frame)
    ensures TimeInv(s.(last := -1, touched := true), frame)
  {
    hide PhasedVSync, InPhase, Computed;
  }

  lemma TimeStepAct(s: State, frame: int)
    requires frame > 0 && TimeInv(s, frame) && CanStep(s, Act)
    ensures TimeInv(After(s, Act, frame), frame)
  {
    hide TimeInv;
    if s.client.op.Control? {
      TimeStepControl(s, frame);
      TimesAlone(s.(last := -1, touched := true), After(s, Act, frame), frame);
    } else {
      TimesAlone(s, After(s, Act, frame), frame);
    }
  }

  /** The remaining steps touch neither the clock nor what has been delivered. */
  lemma TimeStepOther(s: State, a: Step, frame: int)
    requires frame > 0 && TimeInv(s, frame) && CanStep(s, a) && !a.Work? && !a.Tick? && !a.Act?
    ensures TimeInv(After(s, a, frame), frame)
  {
    hide PhasedVSync, InPhase, Computed;
  }

  lemma TimeStep(s: State, a: Step, frame: int)
    requires frame > 0 && TimeInv(s, frame) && CanStep(s, a)
    ensures TimeInv(After(s, a, frame), frame)
  {
    hide TimeInv, After, CanStep, WorkerInside;
    match a {
      case Tick(ns) => TimeStepTick(s, ns, frame);
      case Act => TimeStepAct(s, frame);
      case Work(_) =>
        if s.worker.Computing? {
          TimeStepComputing(s, a, frame);
        } else if s.worker.Calling? {
          TimeStepCalling(s, a, frame);
        } else if WorkerInside(s.worker) {
          TimeStepInside(s, a, frame);
        } else {
          TimeStepOutside(s, a, frame);
        }
      case _ => TimeStepOther(s, a, frame);
    }
  }

  lemma LogInside(s: State, slept: bool, frame: int)
    requires frame > 0 && CanWork(s, slept) && WorkerInside(s.worker)
    ensures Worked(s, slept, frame).log == s.log
  {
    hide PhasedVSync;
  }

  lemma LogOutside(s: State, slept: bool, frame: int)
    requires frame > 0 && CanWork(s, slept) && !WorkerInside(s.worker)
    ensures Worked(s, slept, frame).log
         == if s.worker.Calling? && s.worker.procs
            then s.log + [Delivery(s.worker.target, s.worker.now, s.worker.last, !s.touched)] else s.log
  {
    hide PhasedVSync;
  }

  /** Only a call of the hook extends the log. */
  lemma LogOf(s: State, a: Step, frame: int)
    requires frame > 0 && CanStep(s, a)
    ensures After(s, a, frame).log
         == if a.Work? && s.worker.Calling? && s.worker.procs
            then s.log + [Delivery(s.worker.target, s.worker.now, s.worker.last, !s.touched)] else s.log
  {
    hide Worked, CanWork;
    if a.Work? {
      if WorkerInside(s.worker) {
        LogInside(s, a.slept, frame);
      } else {
        LogOutside(s, a.slept, frame);
      }
    }
  }

  lemma LogStep(s: State, a: Step, frame: int)
    requires frame > 0 && TimeInv(s, frame) && LogInv(s.log, frame) && CanStep(s, a)
    ensures LogInv(After(s, a, frame).log, frame)
  {
    LogOf(s, a, frame);
    hide PhasedVSync, InPhase, After, CanStep, Computed;
    if a.Work? && s.worker.Calling? && s.worker.procs {
      var t := After(s, a, frame).log;
      assert t[..|s.log|] == s.log;
    }
  }

  ghost predicate Inv(s: State, frame: int)
    requires frame > 0
  {
    LockInv(s) && WakeInv(s) && CallInv(s) && TimeInv(s, frame) && LogInv(s.log, frame)
  }

  lemma {:induction false} Reachable(run: seq<State>, steps: seq<Step>, frame: int, i: nat)
    requires IsRun(run, steps, frame) && i < |run|
    ensures Inv(run[i], frame)
  {
    if i > 0 {
      Reachable(run, steps, frame, i - 1);
      var s, a := run[i - 1], steps[i - 1];
      assert CanStep(s, a) && run[i] == After(s, a, frame);
      LockStep(s, a, frame);
      WakeStep(s, a, frame);
      CallStep(s, a, frame);
      TimeStep(s, a, frame);
      LogStep(s, a, frame);
    }
  }

  /** At any point of any run, a thread that waits with no wake-up pending has nothing to wake up for. */
  lemma NoLostWakeUp(run: seq<State>, steps: seq<Step>, frame: int, i: nat)
    requires IsRun(run, steps, frame) && i < |run|
    requires run[i].worker == Parked && !WakePending(run[i].client)
    ensures !run[i].enabled && !run[i].exit
  {
    Reachable(run, steps, frame, i);
  }

  /** What the lock protects. */
  function Shared(s: State): (bool, bool, bool) {
    (s.enabled, s.exit, s.procs)
  }

  /** Never are two threads inside critical sections, and enabled_, exit_ and procs_ change only while a client
      holds the lock. */
  lemma MutualExclusion(run: seq<State>, steps: seq<Step>, frame: int, i: nat)
    requires IsRun(run, steps, frame) && i < |run|
    ensures !(WorkerInside(run[i].worker) && run[i].client != Outside)
    ensures i < |steps| && Shared(run[i]) != Shared(run[i + 1]) ==> run[i].owner == ClientHolds
  {
    Reachable(run, steps, frame, i);
    if i < |steps| {
      OnlyClientsChange(run[i], steps[i], frame);
      hide CanStep, After;
    }
  }

  lemma OnlyClientsChange(s: State, a: Step, frame: int)
    requires frame > 0 && CanStep(s, a)
    ensures Shared(s) != Shared(After(s, a, frame)) ==> s.client != Outside
  {
    hide PhasedVSync;
  }

  predicate ActsAs(s: State, a: Step, enable: bool) {
    a == Act && s.client.Entered? && s.client.op == Control(enable)
  }

  ghost predicate NoControl(run: seq<State>, steps: seq<Step>, i: nat, j: nat)
    requires j <= |steps| < |run|
  {
    forall k :: i <= k < j ==> !ActsAs(run[k], steps[k], true) && !ActsAs(run[k], steps[k], false)
  }

  ghost predicate Counted(s: State, t: State) {
    t.enabled == s.enabled && t.callsSinceControl - s.callsSinceControl == |t.log| - |s.log|
  }

  lemma CountedInside(s: State, slept: bool, frame: int)
    requires frame > 0 && CanWork(s, slept) && WorkerInside(s.worker)
    ensures Counted(s, Worked(s, slept, frame))
  {
    hide PhasedVSync;
  }

  lemma CountedOutside(s: State, slept: bool, frame: int)
    requires frame > 0 && CanWork(s, slept) && !WorkerInside(s.worker)
    ensures Counted(s, Worked(s, slept, frame))
  {
    hide PhasedVSync;
  }

  lemma CountedStep(s: State, a: Step, frame: int)
    requires frame > 0 && CanStep(s, a) && !ActsAs(s, a, true) && !ActsAs(s, a, false)
    ensures Counted(s, After(s, a, frame))
  {
    hide Worked, CanWork;
    if a.Work? {
      if WorkerInside(s.worker) {
        CountedInside(s, a.slept, frame);
      } else {
        CountedOutside(s, a.slept, frame);
      }
    }
  }

  lemma {:induction false} CallsCounted(run: seq<State>, steps: seq<Step>, frame: int, i: nat, j: nat)
    requires IsRun(run, steps, frame) && i <= j <= |steps| && NoControl(run, steps, i, j)
    ensures run[j].enabled == run[i].enabled
    ensures run[j].callsSinceControl - run[i].callsSinceControl == |run[j].log| - |run[i].log|
  {
    hide After, CanStep, ActsAs, Init;
    if i < j {
      CallsCounted(run, steps, frame, i, j - 1);
      CountedStep(run[j - 1], steps[j - 1], frame);
    }
  }

  /** Once VSyncControl(false) has acted, the hook is called at most once more until VSyncControl acts again. */
  lemma AtMostOneCallAfterDisable(run: seq<State>, steps: seq<Step>, frame: int, i: nat, j: nat)
    requires IsRun(run, steps, frame) && i < j <= |steps|
    requires ActsAs(run[i], steps[i], false) && NoControl(run, steps, i + 1, j)
    ensures |run[j].log| <= |run[i].log| + 1
  {
    assert run[i + 1] == After(run[i], steps[i], frame);
    CallsCounted(run, steps, frame, i + 1, j);
    Reachable(run, steps, frame, j);
  }

  /** Timestamps handed to the hook strictly increase; each is the least time in phase after the clock reading
      it was computed from, at most a frame later, and a whole frame later if there was no last timestamp; and two
      consecutive ones between which VSyncControl did not act are a positive number of frames apart. */
  lemma DeliveriesInPhase(run: seq<State>, steps: seq<Step>, frame: int, i: nat, k: nat)
    requires IsRun(run, steps, frame) && i < |run| && k < |run[i].log|
    ensures var d := run[i].log[k];
            && d.now < d.ts <= d.now + frame
            && (d.last < 0 ==> d.ts == d.now + frame)
            && (d.last >= 0 ==> InPhase(d.ts, d.last, frame))
            && (d.last >= 0 ==> forall u :: u > d.now && InPhase(u, d.last, frame) ==> d.ts <= u)
            && (k > 0 ==> run[i].log[k - 1].ts < d.ts)
            && (k > 0 && d.untouched ==> exists n: int :: n > 0 && d.ts == run[i].log[k - 1].ts + n * frame)
  {
    Reachable(run, steps, frame, i);
    var d := run[i].log[k];
    assert Computed(d.now, d.last, d.ts, frame);
    if d.last >= 0 {
      NextVSyncIsLeast(d.last, frame, d.now);
    }
    if k > 0 && d.untouched {
      var p := run[i].log[k - 1];
      assert InPhase(d.ts, p.ts, frame);
      var n: int :| d.ts == p.ts + n * frame;
      if n <= 0 {
        MulStrict(n, 0, frame);
      }
      assert n > 0;
    }
  }

  /** No last timestamp, and what the worker has computed is a whole frame after its clock reading. */
  ghost predicate Restarted(s: State, frame: int) {
    && s.last == -1
    && match s.worker
       case Sleeping(_, now, last, target) => last == -1 && target == now + frame
       case Calling(_, now, last, target) => last == -1 && target == now + frame
       case Storing(_) => false
       case _ => true
  }

  lemma RestartedInside(s: State, slept: bool, frame: int)
    requires frame > 0 && Restarted(s, frame) && CanWork(s, slept) && WorkerInside(s.worker)
    ensures Restarted(Worked(s, slept, frame), frame)
  {
    hide PhasedVSync;
  }

  lemma RestartedOutside(s: State, slept: bool, frame: int)
    requires frame > 0 && Restarted(s, frame) && CanWork(s, slept) && !WorkerInside(s.worker)
    requires !Worked(s, slept, frame).worker.Storing?
    ensures Restarted(Worked(s, slept, frame), frame)
  {
    if s.worker.Computing? { FirstVSync(s.last, frame, s.worker.now); }
    hide PhasedVSync;
    match s.worker {
      case Computing(_, _) => case Sleeping(_, _, _, _) => case Calling(_, _, _, _) => case _ =>
    }
  }

  lemma RestartedStep(s: State, a: Step, frame: int)
    requires frame > 0 && Restarted(s, frame) && CanStep(s, a) && !After(s, a, frame).worker.Storing?
    ensures Restarted(After(s, a, frame), frame)
  {
    hide Worked, CanWork;
    if a.Work? {
      if WorkerInside(s.worker) {
        RestartedInside(s, a.slept, frame);
      } else {
        RestartedOutside(s, a.slept, frame);
      }
    }
  }

  ghost predicate NothingStored(run: seq<State>, i: nat, j: nat)
    requires j < |run|
  {
    forall k :: i <= k <= j ==> !run[k].worker.Storing?
  }

  /** VSyncControl restarts the timing: unless the worker had read the last timestamp when it acted, the time computed
      next, which is the next to be delivered, is a whole frame after the clock reading. */
  lemma {:induction false} ControlRestarts(run: seq<State>, steps: seq<Step>, frame: int, i: nat, j: nat, enable: bool)
    requires IsRun(run, steps, frame) && i < j < |run| && ActsAs(run[i], steps[i], enable)
    requires !run[i].worker.Sleeping? && !run[i].worker.Calling? && NothingStored(run, i, j)
    ensures run[j].last == -1
    ensures run[j].worker.Calling? ==> run[j].worker.target == run[j].worker.now + frame
  {
    RestartedAll(run, steps, frame, i, j, enable);
    hide After;
  }

  lemma {:induction false} RestartedAll(run: seq<State>, steps: seq<Step>, frame: int, i: nat, j: nat, enable: bool)
    requires IsRun(run, steps, frame) && i < j < |run| && ActsAs(run[i], steps[i], enable)
    requires !run[i].worker.Sleeping? && !run[i].worker.Calling? && NothingStored(run, i, j)
    ensures Restarted(run[j], frame)
  {
    var s, a := run[j - 1], steps[j - 1];
    assert CanStep(s, a) && run[j] == After(s, a, frame);
    if i < j - 1 {
      RestartedAll(run, steps, frame, i, j - 1, enable);
      hide After, Restarted;
      RestartedStep(s, a, frame);
    } else {
      hide Worked;
    }
  }

  // ---- Without a hook nothing is called ----

  /** The worker has copied that there is a hook. */
  predicate HasHook(w: Worker) {
    match w
    case RoutineUnlock(_, procs) => procs
    case ReadingClock(procs) => procs
    case Computing(procs, _) => procs
    case Sleeping(procs, _, _, _) => procs
    case Calling(procs, _, _, _) => procs
    case _ => false
  }

  ghost predicate Hookless(s: State) {
    !s.procs && !HasHook(s.worker)
  }

  lemma HooklessInside(s: State, slept: bool, frame: int)
    requires frame > 0 && Hookless(s) && CanWork(s, slept) && WorkerInside(s.worker)
    ensures Hookless(Worked(s, slept, frame))
  {
    hide PhasedVSync;
  }

  lemma HooklessOutside(s: State, slept: bool, frame: int)
    requires frame > 0 && Hookless(s) && CanWork(s, slept) && !WorkerInside(s.worker)
    ensures Hookless(Worked(s, slept, frame))
  {
    hide PhasedVSync;
  }

  lemma HooklessStep(s: State, a: Step, frame: int)
    requires frame > 0 && Hookless(s) && CanStep(s, a) && !(a == Act && s.client == Entered(SetProcs(true)))
    ensures Hookless(After(s, a, frame)) && After(s, a, frame).log == s.log
  {
    LogOf(s, a, frame);
    hide Worked, CanWork;
    if a.Work? {
      if WorkerInside(s.worker) {
        HooklessInside(s, a.slept, frame);
      } else {
        HooklessOutside(s, a.slept, frame);
      }
    }
  }

  /** In a run that starts without a hook nothing is called until SetProcs has set one. */
  lemma {:induction false} NoHookNoCall(run: seq<State>, steps: seq<Step>, frame: int, i: nat)
    requires IsRun(run, steps, frame) && i < |run| && !run[0].procs
    requires forall k :: 0 <= k < i ==> !(steps[k] == Act && run[k].client == Entered(SetProcs(true)))
    ensures Hookless(run[i]) && run[i].log == []
  {
    if i > 0 {
      NoHookNoCall(run, steps, frame, i - 1);
      var s, a := run[i - 1], steps[i - 1];
      assert CanStep(s, a) && run[i] == After(s, a, frame);
      hide After, CanStep, Hookless;
      HooklessStep(s, a, frame);
    }
  }
}
