/** worker.cpp and vsyncworker.cpp as a protocol: the worker thread's loop, the critical sections of its
    clients, one mutex, one condition variable, and a clock that only moves forward.

    Every step between two accesses to shared state is a step of its own, so every interleaving of the
    source is a run here. Spurious wake-ups are steps too. */
module VSyncProtocol {
  import opened VSyncTiming

  datatype Owner = Free | WorkerHolds | ClientHolds

  /** What a client does inside its critical section. */
  datatype Op =
    | Control(enable: bool)  // VSyncWorker::VSyncControl
    | Exit                   // Worker::Exit
    | Signal                 // Worker::Signal
    | SetProcs(valid: bool)  // VSyncWorker::SetProcs, which does not signal

  /** The client that is inside, if any. */
  datatype Client = Outside | Entered(op: Op) | Changed(op: Op) | Signalled

  /** Where the worker thread is. */
  datatype Worker =
    | AtLoop                                 // InternalRoutine, about to lock
    | LoopLocked                             // about to copy exit_
    | LoopUnlock(exiting: bool)
    | AtRoutine                              // Routine, about to lock
    | RoutineLocked                          // about to test enabled_
    | FirstExitTest                          // in WaitForSignalOrExitLocked
    | Parked                                 // waiting on the condition, lock released
    | Waking                                 // woken, about to lock again
    | SecondExitTest
    | Copying                                // about to copy enabled_ and procs_
    | RoutineUnlock(enabled: bool, procs: bool)
    | ReadingClock(procs: bool)
    | Computing(procs: bool, now: int)       // about to read last_timestamp_
    | Sleeping(procs: bool, now: int, last: int, target: int)
    | Calling(procs: bool, now: int, last: int, target: int)
    | Storing(target: int)                   // about to write last_timestamp_
    | Finished
    | LeftLocked                             // Routine returned -EINTR with the lock held: blocked for ever

  /** One call of the vsync hook. `untouched` says that VSyncControl did not act since the previous call. */
  datatype Delivery = Delivery(ts: int, now: int, last: int, untouched: bool)

  datatype State = State(
    owner: Owner, enabled: bool, exit: bool, procs: bool, last: int,
    worker: Worker, client: Client, clock: int,
    log: seq<Delivery>, touched: bool, callsSinceControl: nat)

  /** `enabled_` and `procs_` start undetermined: the constructor leaves the first uninitialised. */
  ghost predicate Init(s: State) {
    && s.owner == Free && !s.exit && s.last == -1 && s.worker == AtLoop && s.client == Outside
    && s.clock >= 0 && s.log == [] && s.touched && s.callsSinceControl == 0
  }

  datatype Step =
    | Work(slept: bool)  // the worker's next step; `slept` is false when a sleep returns an error
    | Enter(op: Op)      // a client locks
    | Act                // and changes what it came to change
    | Notify             // and signals the condition
    | Leave              // and unlocks
    | SpuriousWakeUp
    | Tick(ns: nat)

  predicate CanWork(s: State, slept: bool) {
    match s.worker
    case AtLoop => s.owner == Free
    case AtRoutine => s.owner == Free
    case Waking => s.owner == Free
    case Parked => false
    case Finished => false
    case LeftLocked => false
    case Sleeping(_, _, _, target) => slept ==> s.clock >= target
    case _ => true
  }

  predicate CanStep(s: State, a: Step) {
    match a
    case Work(slept) => CanWork(s, slept)
    case Enter(_) => s.owner == Free && s.client == Outside
    case Act => s.client.Entered?
    case Notify => s.client.Changed? && !s.client.op.SetProcs?
    case Leave => s.client == Signalled || (s.client.Changed? && s.client.op.SetProcs?)
    case SpuriousWakeUp => s.worker == Parked
    case Tick(_) => true
  }

  function Worked(s: State, slept: bool, frame: int): State
    requires frame > 0 && CanWork(s, slept)
  {
    match s.worker
    case AtLoop => s.(owner := WorkerHolds, worker := LoopLocked)
    case LoopLocked => s.(worker := LoopUnlock(s.exit))
    case LoopUnlock(exiting) => s.(owner := Free, worker := if exiting then Finished else AtRoutine)
    case AtRoutine => s.(owner := WorkerHolds, worker := RoutineLocked)
    case RoutineLocked => s.(worker := if s.enabled then Copying else FirstExitTest)
    case FirstExitTest => if s.exit then s.(worker := LeftLocked) else s.(owner := Free, worker := Parked)
    case Waking => s.(owner := WorkerHolds, worker := SecondExitTest)
    case SecondExitTest => s.(worker := if s.exit then LeftLocked else Copying)
    case Copying => s.(worker := RoutineUnlock(s.enabled, s.procs))
    case RoutineUnlock(enabled, procs) => s.(owner := Free, worker := if enabled then ReadingClock(procs) else AtLoop)
    case ReadingClock(procs) => s.(worker := Computing(procs, s.clock))
    case Computing(procs, now) => s.(worker := Sleeping(procs, now, s.last, PhasedVSync(s.last, frame, now)))
    case Sleeping(procs, now, last, target) =>
      s.(worker := if slept then Calling(procs, now, last, target) else AtLoop)
    case Calling(procs, now, last, target) =>
      if procs then
        s.(worker := Storing(target), log := s.log + [Delivery(target, now, last, !s.touched)], touched := false,
           callsSinceControl := s.callsSinceControl + 1)
      else s.(worker := Storing(target))
    case Storing(target) => s.(last := target, worker := AtLoop)
    case _ => s
  }

  function Acted(s: State, op: Op): State {
    match op
    case Control(enable) =>
      s.(enabled := enable, last := -1, touched := true, callsSinceControl := 0, client := Changed(op))
    case Exit => s.(exit := true, client := Changed(op))
    case Signal => s.(client := Changed(op))
    case SetProcs(valid) => s.(procs := valid, client := Changed(op))
  }

  function After(s: State, a: Step, frame: int): State
    requires frame > 0 && CanStep(s, a)
  {
    match a
    case Work(slept) => Worked(s, slept, frame)
    case Enter(op) => s.(owner := ClientHolds, client := Entered(op))
    case Act => Acted(s, s.client.op)
    case Notify => s.(client := Signalled, worker := if s.worker == Parked then Waking else s.worker)
    case Leave => s.(owner := Free, client := Outside)
    case SpuriousWakeUp => s.(worker := Waking)
    case Tick(ns) => s.(clock := s.clock + ns)
  }

  /** A run: states linked by steps, from an initial one. */
  ghost predicate IsRun(run: seq<State>, steps: seq<Step>, frame: int) {
    && frame > 0
    && |run| == |steps| + 1
    && Init(run[0])
    && forall i :: 0 <= i < |steps| ==> CanStep(run[i], steps[i]) && run[i + 1] == After(run[i], steps[i], frame)
  }

  // ---- Mutual exclusion ----

  predicate WorkerInside(w: Worker) {
    match w
    case LoopLocked | LoopUnlock(_) => true
    case RoutineLocked | FirstExitTest | SecondExitTest | Copying | RoutineUnlock(_, _) => true
    case LeftLocked => true
    case _ => false
  }

  ghost predicate LockInv(s: State) {
    && (s.owner == WorkerHolds <==> WorkerInside(s.worker))
    && (s.owner == ClientHolds <==> s.client != Outside)
  }

  // ---- No wake-up is lost ----

  /** A client has changed what the worker waits for and is about to signal. */
  predicate WakePending(c: Client) {
    c.Changed? && (c.op.Control? || c.op.Exit?)
  }

  ghost predicate WakeInv(s: State) {
    && (s.worker == FirstExitTest ==> !s.enabled)
    && (s.worker == Parked && !WakePending(s.client) ==> !s.enabled && !s.exit)
  }

  // ---- At most one call after vsync has been switched off ----

  /** The worker has read that vsync is enabled and has not called the hook yet. */
  function CallsUnderWay(w: Worker): nat {
    match w
    case RoutineUnlock(enabled, _) => if enabled then 1 else 0
    case ReadingClock(_) | Computing(_, _) | Sleeping(_, _, _, _) | Calling(_, _, _, _) => 1
    case _ => 0
  }

  ghost predicate CallInv(s: State) {
    !s.enabled ==> s.callsSinceControl + CallsUnderWay(s.worker) <= 1
  }

  // ---- Timing ----

  function LastTs(s: State): int
    requires s.log != []
  {
    s.log[|s.log| - 1].ts
  }

  /** A time on the grid of the last delivery, and not before it. */
  ghost predicate OnGrid(s: State, t: int, frame: int) {
    s.log != [] && !s.touched ==> t >= LastTs(s) && InPhase(t, LastTs(s), frame)
  }

  ghost predicate Computed(now: int, last: int, target: int, frame: int)
    requires frame > 0
  {
    last <= now && 0 <= now && -1 <= last && target == PhasedVSync(last, frame, now)
  }

  ghost predicate TimeInv(s: State, frame: int)
    requires frame > 0
  {
    && 0 <= s.clock && -1 <= s.last <= s.clock
    && (s.log != [] ==> 0 <= LastTs(s) <= s.clock)
    && match s.worker
       case Computing(_, now) =>
         s.last <= now <= s.clock && 0 <= now && (s.log != [] ==> LastTs(s) <= now) && OnGrid(s, s.last, frame)
       case Sleeping(_, now, last, target) =>
         now <= s.clock && Computed(now, last, target, frame) && (s.log != [] ==> LastTs(s) <= now < target)
         && OnGrid(s, target, frame) && OnGrid(s, s.last, frame)
       case Calling(_, now, last, target) =>
         target <= s.clock && Computed(now, last, target, frame) && (s.log != [] ==> LastTs(s) <= now < target)
         && OnGrid(s, target, frame) && OnGrid(s, s.last, frame)
       case Storing(target) => 0 <= target <= s.clock && OnGrid(s, target, frame)
       case _ => OnGrid(s, s.last, frame)
  }

  /** Consecutive deliveries are in order, and untouched ones whole frames apart. */
  ghost predicate LogInv(log: seq<Delivery>, frame: int)
    requires frame > 0
  {
    && (forall i :: 0 <= i < |log| ==> Computed(log[i].now, log[i].last, log[i].ts, frame))
    && (forall i :: 0 < i < |log| ==> log[i - 1].ts < log[i].ts && log[i - 1].ts <= log[i].now)
    && (forall i :: 0 < i < |log| && log[i].untouched ==> InPhase(log[i].ts, log[i - 1].ts, frame))
  }

  lemma TargetAhead(now: int, last: int, frame: int)
    requires frame > 0 && -1 <= last <= now && 0 <= now
    ensures now < PhasedVSync(last, frame, now)
    ensures last >= 0 ==> InPhase(PhasedVSync(last, frame, now), last, frame)
  {
    if last >= 0 {
      NextVSyncIsLeast(last, frame, now);
    }
  }
}
