/** How the worker thread ends once a client has set `exit_`: it finishes, or it leaves `Routine` with the lock held. */
module VSyncExit {
  import opened VSyncTiming
  import opened VSyncProtocol
  import opened VSyncProtocolTheorems

  /** The worker is in its wait, or on its way into it: the next test of `exit_` is one that returns -EINTR. */
  predicate Doomed(s: State) {
    match s.worker
    case AtRoutine => !s.enabled
    case RoutineLocked => !s.enabled
    case FirstExitTest | Parked | Waking | SecondExitTest | LeftLocked => true
    case _ => false
  }

  /** The next test of `exit_` is the one in InternalRoutine, and has not been passed with the old value. */
  predicate Saved(s: State) {
    !Doomed(s) && (s.worker.LoopUnlock? ==> s.worker.exiting)
  }

  predicate Ended(w: Worker) {
    w == Finished || w == LeftLocked
  }

  predicate SetsExit(s: State, a: Step) {
    a == Act && s.client == Entered(Exit)
  }

  /** VSyncControl changes `enabled_` while the worker is between its two locks. */
  predicate Interferes(s: State, a: Step) {
    a == Act && s.client.Entered? && s.client.op.Control? && s.worker == AtRoutine
  }

  lemma SideOfWorker(s: State, slept: bool, frame: int)
    requires frame > 0 && s.exit && CanWork(s, slept) && (Doomed(s) || Saved(s))
    ensures var t := Worked(s, slept, frame); t.exit && (Doomed(s) ==> Doomed(t)) && (Saved(s) ==> Saved(t))
  {
    hide PhasedVSync;
  }

  /** No step leads from one side to the other, unless VSyncControl interferes. */
  lemma SideKept(s: State, a: Step, frame: int)
    requires frame > 0 && LockInv(s) && s.exit && CanStep(s, a) && (Doomed(s) || Saved(s))
    ensures var t := After(s, a, frame); t.exit && (Doomed(t) || Saved(t))
    ensures !Interferes(s, a) ==> (Doomed(After(s, a, frame)) <==> Doomed(s))
  {
    hide Worked, PhasedVSync;
    if a.Work? {
      SideOfWorker(s, a.slept, frame);
    }
  }

  /** When `exit_` is set the worker is outside its critical sections, so the side is settled by where it is. */
  lemma SideWhenSet(s: State, frame: int)
    requires frame > 0 && LockInv(s) && SetsExit(s, Act)
    ensures var t := After(s, Act, frame);
            && t.exit && (Doomed(t) || Saved(t))
            && (Doomed(t) <==> s.worker == Parked || s.worker == Waking || (s.worker == AtRoutine && !s.enabled))
  {
  }

  ghost predicate NoInterference(run: seq<State>, steps: seq<Step>, i: nat, j: nat)
    requires j <= |steps| < |run|
  {
    forall k :: i <= k < j ==> !Interferes(run[k], steps[k])
  }

  /** Once `exit_` is set the worker is on one of the two sides. */
  lemma {:induction false} SideOfRun(run: seq<State>, steps: seq<Step>, frame: int, i: nat, j: nat)
    requires IsRun(run, steps, frame) && i < j <= |steps| && SetsExit(run[i], steps[i])
    ensures run[j].exit && (Doomed(run[j]) || Saved(run[j]))
  {
    hide After, CanStep, Doomed, Saved, Interferes, LockInv, WakeInv, CallInv, TimeInv, LogInv;
    assert CanStep(run[j - 1], steps[j - 1]) && run[j] == After(run[j - 1], steps[j - 1], frame);
    Reachable(run, steps, frame, j - 1);
    if j == i + 1 {
      SideWhenSet(run[i], frame);
    } else {
      SideOfRun(run, steps, frame, i, j - 1);
      SideKept(run[j - 1], steps[j - 1], frame);
    }
  }

  lemma {:induction false} SideStays(run: seq<State>, steps: seq<Step>, frame: int, i: nat, m: nat, j: nat)
    requires IsRun(run, steps, frame) && i < m <= j <= |steps| && SetsExit(run[i], steps[i])
    requires NoInterference(run, steps, m, j)
    ensures Doomed(run[j]) <==> Doomed(run[m])
  {
    hide After, CanStep, Doomed, Saved, Interferes, LockInv, WakeInv, CallInv, TimeInv, LogInv;
    if m < j {
      assert CanStep(run[j - 1], steps[j - 1]) && run[j] == After(run[j - 1], steps[j - 1], frame);
      Reachable(run, steps, frame, j - 1);
      SideStays(run, steps, frame, i, m, j - 1);
      SideOfRun(run, steps, frame, i, j - 1);
      SideKept(run[j - 1], steps[j - 1], frame);
    }
  }

  /** The exact condition. After an exit request during which VSyncControl does not interfere, the worker cannot
      finish if, at the request, it was in its wait or about to enter it; otherwise it cannot leave with the lock
      held. */
  lemma ExitOutcome(run: seq<State>, steps: seq<Step>, frame: int, i: nat, j: nat)
    requires IsRun(run, steps, frame) && i < j <= |steps| && SetsExit(run[i], steps[i])
    requires NoInterference(run, steps, i + 1, j)
    ensures Ended(run[j].worker) ==>
      (run[j].worker == LeftLocked
       <==> run[i].worker == Parked || run[i].worker == Waking || (run[i].worker == AtRoutine && !run[i].enabled))
  {
    Reachable(run, steps, frame, i);
    assert CanStep(run[i], steps[i]) && run[i + 1] == After(run[i], steps[i], frame);
    hide After, CanStep, LockInv, WakeInv, CallInv, TimeInv, LogInv;
    SideWhenSet(run[i], frame);
    SideStays(run, steps, frame, i, i + 1, j);
  }

  /** If VSyncControl does interfere, its last interference decides. */
  lemma InterferedOutcome(run: seq<State>, steps: seq<Step>, frame: int, i: nat, m: nat, j: nat)
    requires IsRun(run, steps, frame) && i < m < j <= |steps| && SetsExit(run[i], steps[i])
    requires Interferes(run[m], steps[m]) && NoInterference(run, steps, m + 1, j)
    ensures Ended(run[j].worker) ==> (run[j].worker == LeftLocked <==> !run[m].client.op.enable)
  {
    assert CanStep(run[m], steps[m]) && run[m + 1] == After(run[m], steps[m], frame);
    SideStays(run, steps, frame, i, m + 1, j);
  }

  // ---- It does end ----

  /** How many steps of its own the worker has left once `exit_` is set. */
  function StepsLeft(w: Worker): nat {
    match w
    case AtRoutine => 12
    case RoutineLocked => 11
    case Copying => 10
    case RoutineUnlock(_, _) => 9
    case ReadingClock(_) => 8
    case Computing(_, _) => 7
    case Sleeping(_, _, _, _) => 6
    case Calling(_, _, _, _) => 5
    case Storing(_) => 4
    case AtLoop | Parked => 3
    case LoopLocked | Waking => 2
    case LoopUnlock(_) | FirstExitTest | SecondExitTest => 1
    case Finished | LeftLocked => 0
  }

  lemma NearerInside(s: State, slept: bool, frame: int)
    requires frame > 0 && s.exit && CanWork(s, slept) && (Doomed(s) || Saved(s)) && WorkerInside(s.worker)
    ensures StepsLeft(Worked(s, slept, frame).worker) < StepsLeft(s.worker)
  {
    hide PhasedVSync;
  }

  lemma NearerOutside(s: State, slept: bool, frame: int)
    requires frame > 0 && CanWork(s, slept) && !WorkerInside(s.worker)
    ensures StepsLeft(Worked(s, slept, frame).worker) < StepsLeft(s.worker)
  {
    hide PhasedVSync;
  }

  lemma StepBringsNearer(s: State, a: Step, frame: int)
    requires frame > 0 && s.exit && CanStep(s, a) && (Doomed(s) || Saved(s))
    ensures StepsLeft(After(s, a, frame).worker) + (if a.Work? then 1 else 0) <= StepsLeft(s.worker)
  {
    hide Worked, CanWork, Doomed, Saved;
    if a.Work? {
      if WorkerInside(s.worker) {
        NearerInside(s, a.slept, frame);
      } else {
        NearerOutside(s, a.slept, frame);
      }
    }
  }

  function WorkSteps(steps: seq<Step>, i: nat, j: nat): nat
    requires i <= j <= |steps|
  {
    if i == j then 0 else WorkSteps(steps, i, j - 1) + if steps[j - 1].Work? then 1 else 0
  }

  /** After an exit request the worker takes at most twelve steps, whatever the client does. */
  lemma {:induction false} ExitEnds(run: seq<State>, steps: seq<Step>, frame: int, i: nat, j: nat)
    requires IsRun(run, steps, frame) && i < j <= |steps| && SetsExit(run[i], steps[i])
    ensures WorkSteps(steps, i + 1, j) + StepsLeft(run[j].worker) <= StepsLeft(run[i + 1].worker) <= 12
    ensures StepsLeft(run[j].worker) == 0 <==> Ended(run[j].worker)
  {
    hide After, CanStep, Doomed, Saved, SetsExit;
    if j > i + 1 {
      ExitEnds(run, steps, frame, i, j - 1);
      SideOfRun(run, steps, frame, i, j - 1);
      StepBringsNearer(run[j - 1], steps[j - 1], frame);
    }
  }

  /** It sleeps, and its time has not come. */
  predicate StillSleeping(s: State) {
    s.worker.Sleeping? && s.clock < s.worker.target
  }

  /** Until it has ended it can step as it should, unless a client is in its critical section or it still sleeps. */
  lemma ExitNeverStuck(run: seq<State>, steps: seq<Step>, frame: int, i: nat)
    requires IsRun(run, steps, frame) && i < |run| && run[i].exit && !Ended(run[i].worker)
    ensures CanWork(run[i], true) || run[i].client != Outside || StillSleeping(run[i])
  {
    Reachable(run, steps, frame, i);
    hide CallInv, TimeInv, LogInv;
  }

  /** The sleep ends in time: the clock has only to go on. */
  lemma SleepEnds(s: State, frame: int)
    requires frame > 0 && StillSleeping(s)
    ensures CanWork(After(s, Tick(s.worker.target - s.clock), frame), true)
  {
  }

  // ---- Both ends are reached ----

  lemma Extend(run: seq<State>, steps: seq<Step>, a: Step, frame: int) returns (run': seq<State>, steps': seq<Step>)
    requires IsRun(run, steps, frame) && CanStep(run[|run| - 1], a)
    ensures IsRun(run', steps', frame)
    ensures run' == run + [After(run[|run| - 1], a, frame)] && steps' == steps + [a]
  {
    hide After, CanStep, Init;
    run', steps' := run + [After(run[|run| - 1], a, frame)], steps + [a];
    assert CanStep(run'[|steps|], steps'[|steps|]);
  }

  lemma RunStart(s: State, frame: int)
    requires frame > 0 && Init(s)
    ensures IsRun([s], [], frame)
  {
  }

  /** Where a run with vsync switched off stands after six steps of the worker: it waits. */
  const Waiting: State := State(Free, false, false, false, -1, Parked, Outside, 0, [], true, 0)

  lemma RunToWait(frame: int) returns (run: seq<State>, steps: seq<Step>)
    requires frame > 0
    ensures IsRun(run, steps, frame) && |steps| == 6 && run[6] == Waiting
  {
    var w := Work(true);
    RunStart(Waiting.(worker := AtLoop), frame);
    run, steps := Extend([Waiting.(worker := AtLoop)], [], w, frame);
    run, steps := Extend(run, steps, w, frame);
    run, steps := Extend(run, steps, w, frame);
    run, steps := Extend(run, steps, w, frame);
    run, steps := Extend(run, steps, w, frame);
    run, steps := Extend(run, steps, w, frame);
  }

  /** A run in which an exit request ends with the lock held. */
  lemma ExitCanBlock(frame: int) returns (run: seq<State>, steps: seq<Step>)
    requires frame > 0
    ensures IsRun(run, steps, frame) && |steps| == 12
    ensures SetsExit(run[7], steps[7]) && run[7].worker == Parked && run[12].worker == LeftLocked
  {
    run, steps := RunToWait(frame);
    run, steps := Extend(run, steps, Enter(Exit), frame);
    run, steps := Extend(run, steps, Act, frame);
    run, steps := Extend(run, steps, Notify, frame);
    run, steps := Extend(run, steps, Leave, frame);
    run, steps := Extend(run, steps, Work(true), frame);
    run, steps := Extend(run, steps, Work(true), frame);
  }

  /** And one in which it ends as it should. */
  lemma ExitCanFinish(frame: int) returns (run: seq<State>, steps: seq<Step>)
    requires frame > 0
    ensures IsRun(run, steps, frame) && |steps| == 7
    ensures SetsExit(run[1], steps[1]) && run[1].worker == AtLoop && run[7].worker == Finished
  {
    RunStart(Waiting.(worker := AtLoop), frame);
    run, steps := Extend([Waiting.(worker := AtLoop)], [], Enter(Exit), frame);
    run, steps := Extend(run, steps, Act, frame);
    run, steps := Extend(run, steps, Notify, frame);
    run, steps := Extend(run, steps, Leave, frame);
    run, steps := Extend(run, steps, Work(true), frame);
    run, steps := Extend(run, steps, Work(true), frame);
    run, steps := Extend(run, steps, Work(true), frame);
  }

  /** Once the worker has left with the lock held, nobody ever gets in again. */
  lemma {:induction false} ExitWhileWaitingBlocks(run: seq<State>, steps: seq<Step>, frame: int, i: nat, j: nat)
    requires IsRun(run, steps, frame) && i <= j < |run|
    requires run[i].worker == LeftLocked
    ensures run[j].worker == LeftLocked && run[j].owner == WorkerHolds && run[j].client == Outside
  {
    Reachable(run, steps, frame, j);
    if i < j {
      ExitWhileWaitingBlocks(run, steps, frame, i, j - 1);
      assert CanStep(run[j - 1], steps[j - 1]);
    }
  }
}
