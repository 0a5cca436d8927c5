/**
 Runs of the scheduler: any interleaving of switches, sleeps, wake-ups, exits, forks, execs,
 migrations and FPU use on any number of CPUs keeps every task in one place and gives every task
 the FPU registers it left.
 */
module Scheduler {
  import opened Common
  import opened TaskModel
  import opened TaskPlacement
  import opened LazyFpu
  import LoadBalance

  datatype Step =
    | DoPreempt(c: nat)
    | DoYield(c: nat)
    | DoSleep(c: nat, q: Qid)
    | DoWakeAll(q: Qid)
    | DoWakeFirst(q: Qid)
    | DoExit(c: nat, q: Qid)
    | DoReap(t: Tid)
    | DoSpawn(n: nat, t: Tid, junk: Regs)
    | DoFork(c: nat, t: Tid, junk: Regs)
    | DoExec(c: nat)
    | DoMove(src: nat, dst: nat)
    | DoTrap(c: nat, junk: Regs)
    | DoCompute(c: nat, v: Regs)

  function Loads(s: Sys): (l: seq<nat>)
    ensures |l| == |s.cpus| && forall c :: 0 <= c < |l| ==> l[c] == |s.cpus[c].ready|
  {
    seq(|s.cpus|, c requires 0 <= c < |s.cpus| => |s.cpus[c].ready|)
  }

  /** A CPU runs a task that is not its idle task. */
  predicate Busy(s: Sys, c: nat) {
    c < |s.cpus| && s.cpus[c].running != s.cpus[c].idle
  }

  /**
   When a step may happen. The idle task only halts: it neither yields nor sleeps. A migration is between
   any two CPUs whose loads differ by 2 when tasks_travel holds their locks: which pair it is was chosen
   from counters read earlier, without a lock.
   */
  ghost predicate Enabled(s: Sys, a: Step) {
    match a
    case DoPreempt(c) => c < |s.cpus|
    case DoYield(c) => Busy(s, c)
    case DoSleep(c, q) => Busy(s, c) && q in s.queues
    case DoWakeAll(q) => q in s.queues
    case DoWakeFirst(q) => q in s.queues
    case DoExit(c, q) => Busy(s, c) && q in s.queues
    case DoReap(t) => t in s.tasks && t !in Idles(s) && s.tasks[t].state == Zombie
    case DoSpawn(n, t, _) => n < |s.cpus| && t !in s.tasks
    case DoFork(c, t, _) => Busy(s, c) && t !in s.tasks
    case DoExec(c) => Busy(s, c)
    case DoMove(src, dst) => LoadBalance.Uneven(Loads(s), src, dst)
    case DoTrap(c, _) => Busy(s, c) && s.cpus[c].ts && s.cpus[c].running in s.tasks && !s.tasks[s.cpus[c].running].isKer
    case DoCompute(c, _) => c < |s.cpus| && !s.cpus[c].ts
  }

  lemma AllIn(s: Sys)
    requires Inv(s, -1)
    ensures forall c :: 0 <= c < |s.cpus| ==> CpuIn(s, c)
    ensures forall q :: q in s.queues ==> QueueIn(s, q)
  {
    hide Inv;
    forall c | 0 <= c < |s.cpus| ensures CpuIn(s, c) { Parts(s, -1, c); }
    forall q | q in s.queues ensures QueueIn(s, q) { WakeFirstOk(s, -1, q); }
  }

  /** sys_exit. */
  function Exit(s: Sys, c: nat, q: Qid): (r: Sys)
    requires CpuIn(s, c) && QueueIn(BecomeZombie(s, c), q) && CpuIn(WakeAll(BecomeZombie(s, c), q), c)
  {
    Switch(WakeAll(BecomeZombie(s, c), q), c)
  }

  lemma ExitIn(s: Sys, c: nat, q: Qid)
    requires Inv(s, -1) && CpuIn(s, c) && q in s.queues && s.cpus[c].running !in Idles(s)
    ensures QueueIn(BecomeZombie(s, c), q) && CpuIn(WakeAll(BecomeZombie(s, c), q), c)
    ensures Inv(WakeAll(BecomeZombie(s, c), q), c)
  {
    hide Inv, Idles;
    BecomeZombieOk(s, c);
    WakeFirstOk(BecomeZombie(s, c), c, q);
    WakeAllOk(BecomeZombie(s, c), c, q);
    Parts(WakeAll(BecomeZombie(s, c), q), c, c);
  }

  lemma BusyTask(s: Sys, c: nat)
    requires Inv(s, -1) && Busy(s, c)
    ensures CpuIn(s, c) && s.cpus[c].running !in Idles(s) && s.tasks[s.cpus[c].running].cpuid == c
  {
    Parts(s, -1, c);
  }

  lemma Donor(s: Sys, src: nat, dst: nat)
    requires Inv(s, -1) && LoadBalance.Uneven(Loads(s), src, dst)
    ensures src < |s.cpus| && dst < |s.cpus| && src != dst && s.cpus[src].ready != [] && CpuIn(s, src)
  {
    Parts(s, -1, src);
  }

  ghost function Do(s: Sys, a: Step): (r: Sys)
    requires Inv(s, -1) && Enabled(s, a)
  {
    AllIn(s);
    match a
    case DoPreempt(c) => Preempt(s, c)
    case DoYield(c) => Yield(s, c)
    case DoSleep(c, q) => Sleep(s, c, q)
    case DoWakeAll(q) => WakeAll(s, q)
    case DoWakeFirst(q) => WakeFirst(s, q)
    case DoExit(c, q) => BusyTask(s, c); ExitIn(s, c, q); Exit(s, c, q)
    case DoReap(t) => Reap(s, t)
    case DoSpawn(n, t, junk) => Spawn(s, n, t, junk)
    case DoFork(c, t, junk) => Fork(s, c, t, junk)
    case DoExec(c) => Exec(s, c)
    case DoMove(src, dst) => Donor(s, src, dst); Migrate(s, src, dst)
    case DoTrap(c, junk) => Trap(s, c, junk)
    case DoCompute(c, v) => Compute(s, c, v)
  }

  /** The same step of the machine in which every task has FPU registers of its own. */
  ghost function OwnDo(s: Sys, own: Own, a: Step): (r: Own)
    requires Inv(s, -1) && Enabled(s, a) && own.Keys == s.tasks.Keys
  {
    AllIn(s);
    match a
    case DoReap(t) => own - {t}
    case DoSpawn(_, t, _) => own[t := None]
    case DoFork(c, t, _) => BusyTask(s, c); if s.tasks[s.cpus[c].running].isKer then own else own[t := own[s.cpus[c].running]]
    case DoExec(c) => own[s.cpus[c].running := None]
    case DoTrap(c, junk) => BusyTask(s, c); if own[s.cpus[c].running].None? then own[s.cpus[c].running := Some(junk)] else own
    case DoCompute(c, v) => own[s.cpus[c].running := Some(v)]
    case _ => own
  }

  /** Every step keeps every task in one place. */
  lemma StepPlaced(s: Sys, a: Step)
    requires Inv(s, -1) && Enabled(s, a)
    ensures Inv(Do(s, a), -1)
  {
    hide Inv, Idles, Switch, WakeAll, Requeue, Enqueue, Start, Migrate;
    AllIn(s);
    match a
    case DoPreempt(c) => if Busy(s, c) { BusyTask(s, c); YieldOk(s, c); } else { IdleLeaves(s, c); SwitchOk(s, c); }
    case DoYield(c) => BusyTask(s, c); YieldOk(s, c);
    case DoSleep(c, q) => BusyTask(s, c); EnqueueOk(s, c, q); SwitchOk(Enqueue(s, c, q), c);
    case DoWakeAll(q) => WakeAllOk(s, -1, q);
    case DoWakeFirst(q) => WakeFirstOk(s, -1, q);
    case DoExit(c, q) => BusyTask(s, c); ExitIn(s, c, q); SwitchOk(WakeAll(BecomeZombie(s, c), q), c);
    case DoReap(t) => ReapOk(s, t);
    case DoSpawn(n, t, junk) => StartOk(s, n, t, Task(Ready, n, true, Fpu(false, false, junk)));
    case DoFork(c, t, junk) => ForkPlaced(s, c, t, junk);
    case DoExec(c) => SimilarOk(s, Exec(s, c), -1);
    case DoMove(src, dst) => Donor(s, src, dst); MigrateOk(s, src, dst);
    case DoTrap(c, junk) => SimilarOk(s, Trap(s, c, junk), -1);
    case DoCompute(c, v) => SimilarOk(s, Compute(s, c, v), -1);
  }

  lemma ForkPlaced(s: Sys, c: nat, child: Tid, junk: Regs)
    requires Inv(s, -1) && CpuIn(s, c) && child !in s.tasks
    ensures Inv(Fork(s, c, child, junk), -1)
  {
    hide Inv, Start;
    var t, f := s.cpus[c].running, SaveForFork(s, c);
    var p := PutTask(s, t, s.tasks[t].(fpu := f));
    SimilarOk(s, p, -1);
    StartOk(p, 0, child, Task(Ready, 0, false, Fpu(f.used, false, if f.used then f.save else junk)));
  }

  lemma {:induction false} WakeAllSameFpu(s: Sys, q: Qid)
    requires QueueIn(s, q)
    ensures SameFpu(s, WakeAll(s, q))
    decreases |s.queues[q]|
  {
    if s.queues[q] != [] {
      WakeFirstIn(s, q);
      WakeAllSameFpu(WakeFirst(s, q), q);
    }
  }

  /** Every step gives the running tasks the registers of the reference machine. */
  lemma StepFpu(s: Sys, own: Own, a: Step)
    requires Inv(s, -1) && FpuOk(s, own) && Enabled(s, a)
    ensures own.Keys == s.tasks.Keys && FpuOk(Do(s, a), OwnDo(s, own, a))
  {
    hide Inv, FpuOk, FpuTask, FpuCpu, Idles, Switch, WakeAll, Requeue, Enqueue, Start, Migrate, Fork, Exec, Trap,
         Compute;
    FpuKeys(s, own);
    AllIn(s);
    match a
    case DoPreempt(c) => if Busy(s, c) { YieldFpu(s, own, c); } else { InvLocal(s, -1, c); SwitchFpuOk(s, own, c); }
    case DoYield(c) => YieldFpu(s, own, c);
    case DoSleep(c, q) => SleepFpu(s, own, c, q);
    case DoWakeAll(q) => WakeAllSameFpu(s, q); SameFpuOk(s, WakeAll(s, q), own);
    case DoWakeFirst(q) => SameFpuOk(s, WakeFirst(s, q), own);
    case DoExit(c, q) => BusyTask(s, c); ExitIn(s, c, q); ExitFpu(s, own, c, q);
    case DoReap(t) => ReapFpuOk(s, own, t);
    case DoSpawn(n, t, junk) => StartFpuOk(s, own, n, t, Task(Ready, n, true, Fpu(false, false, junk)));
    case DoFork(c, t, junk) =>
      BusyTask(s, c);
      if !s.tasks[s.cpus[c].running].isKer { ForkFpuOk(s, own, c, t, junk); } else { KernelForks(s, c, t, junk); }
    case DoExec(c) => ExecFpuOk(s, own, c);
    case DoMove(src, dst) => Donor(s, src, dst); MigrateFpuOk(s, own, src, dst);
    case DoTrap(c, junk) => BusyTask(s, c); TrapFpuOk(s, own, c, junk); SameEntry(own, s.cpus[c].running);
    case DoCompute(c, v) => ComputeFpuOk(s, own, c, v);
  }

  lemma KernelForks(s: Sys, c: nat, t: Tid, junk: Regs)
    requires CpuIn(s, c) && s.tasks[s.cpus[c].running].isKer
    ensures Fork(s, c, t, junk) == s
  {
  }

  lemma SameEntry(own: Own, t: Tid)
    requires t in own
    ensures own[t := own[t]] == own
  {
  }

  lemma FpuKeys(s: Sys, own: Own)
    requires FpuOk(s, own)
    ensures own.Keys == s.tasks.Keys
  {
  }

  /** Even a yield of the idle task, which loses its place, keeps the registers. */
  lemma YieldFpu(s: Sys, own: Own, c: nat)
    requires Inv(s, -1) && FpuOk(s, own) && CpuIn(s, c)
    ensures FpuOk(Yield(s, c), own)
  {
    hide Inv, FpuOk, Switch;
    InvLocal(s, -1, c);
    SameFpuOk(s, Requeue(s, c), own);
    SwitchFpuOk(Requeue(s, c), own, c);
  }

  lemma SleepFpu(s: Sys, own: Own, c: nat, q: Qid)
    requires Inv(s, -1) && FpuOk(s, own) && CpuIn(s, c) && q in s.queues
    ensures FpuOk(Sleep(s, c, q), own)
  {
    hide Inv, FpuOk, Switch;
    InvLocal(s, -1, c);
    SameFpuOk(s, Enqueue(s, c, q), own);
    SwitchFpuOk(Enqueue(s, c, q), own, c);
  }

  lemma ExitFpu(s: Sys, own: Own, c: nat, q: Qid)
    requires Inv(s, -1) && FpuOk(s, own) && Busy(s, c) && CpuIn(s, c) && q in s.queues
    requires QueueIn(BecomeZombie(s, c), q) && CpuIn(WakeAll(BecomeZombie(s, c), q), c)
    ensures FpuOk(Exit(s, c, q), own)
  {
    hide Inv, FpuOk, Switch, WakeAll;
    BusyTask(s, c);
    ExitIn(s, c, q);
    var z := BecomeZombie(s, c);
    SameFpuOk(s, z, own);
    WakeAllSameFpu(z, q);
    SameFpuOk(z, WakeAll(z, q), own);
    assert SameUnit(z.cpus[c], WakeAll(z, q).cpus[c])
           && SameSave(z.tasks[z.cpus[c].running], WakeAll(z, q).tasks[z.cpus[c].running]);
    InvLocal(WakeAll(z, q), c, c);
    SwitchFpuOk(WakeAll(z, q), own, c);
  }

  // ---- runs ----

  /** The state init_task and init_fpu_sse leave: only idle tasks, running; no FPU state anywhere. */
  ghost predicate Booted(s: Sys, own: Own) {
    && |s.cpus| > 0
    && (forall c, d :: 0 <= c < d < |s.cpus| ==> s.cpus[c].idle != s.cpus[d].idle)
    && (forall c :: 0 <= c < |s.cpus| ==> s.cpus[c] == Cpu(s.cpus[c].idle, s.cpus[c].idle, [], 0, true, s.cpus[c].regs))
    && s.tasks.Keys == Idles(s) && own.Keys == Idles(s)
    && (forall t :: t in s.tasks ==> s.tasks[t].isKer && !s.tasks[t].fpu.used && !s.tasks[t].fpu.dirty && own[t] == None)
    && forall q :: q in s.queues ==> s.queues[q] == []
  }

  lemma BootedOk(s: Sys, own: Own)
    requires Booted(s, own)
    ensures Inv(s, -1) && FpuOk(s, own)
  {
    hide Idles;
    forall c | 0 <= c < |s.cpus| ensures CpuOk(s, -1, c) && FpuCpu(s, c) { IdleIn(s, c); }
    forall q | q in s.queues ensures QueueOk(s, q) {}
  }

  ghost predicate Legal(s: Sys, own: Own, steps: seq<Step>)
    requires Inv(s, -1) && FpuOk(s, own)
    decreases |steps|
  {
    steps == [] || (Enabled(s, steps[0]) &&
                    (StepPlaced(s, steps[0]); StepFpu(s, own, steps[0]);
                     Legal(Do(s, steps[0]), OwnDo(s, own, steps[0]), steps[1..])))
  }

  /** The states after a legal run. */
  ghost function After(s: Sys, own: Own, steps: seq<Step>): (r: (Sys, Own))
    requires Inv(s, -1) && FpuOk(s, own) && Legal(s, own, steps)
    ensures Inv(r.0, -1) && FpuOk(r.0, r.1)
    decreases |steps|
  {
    if steps == [] then (s, own)
    else
      StepPlaced(s, steps[0]); StepFpu(s, own, steps[0]);
      After(Do(s, steps[0]), OwnDo(s, own, steps[0]), steps[1..])
  }

  /** A run of these steps from a booted machine ends in s, and the reference machine in own. */
  ghost predicate Reaches(s0: Sys, own0: Own, steps: seq<Step>, s: Sys, own: Own) {
    Booted(s0, own0) && (BootedOk(s0, own0); Legal(s0, own0, steps) && After(s0, own0, steps) == (s, own))
  }

  /** In every reachable state: one place per task, exact counters, and the registers each task left. */
  lemma EveryRun(s0: Sys, own0: Own, steps: seq<Step>, s: Sys, own: Own)
    requires Reaches(s0, own0, steps, s, own)
    ensures
            && (forall t :: t in s.tasks && t !in Idles(s) ==> exists p :: At(s, t, p) && forall p' :: At(s, t, p') ==> p' == p)
            && (forall t :: t in Idles(s) ==> Unlisted(s, t))
            && (forall c :: 0 <= c < |s.cpus| ==> s.cpus[c].readyNum == |s.cpus[c].ready|)
            && (forall c, t :: 0 <= c < |s.cpus| && t in s.cpus[c].ready ==> ReadyOn(s, t, c))
            && (forall c :: 0 <= c < |s.cpus| && !s.cpus[c].ts ==> s.cpus[c].running in own && own[s.cpus[c].running] == Some(s.cpus[c].regs))
            && (forall t :: t in s.tasks && s.tasks[t].fpu.dirty ==> Owner(s, t))
  {
    hide Inv, FpuOk, Idles, Legal, After;
    BootedOk(s0, own0);
    forall t | t in s.tasks && t !in Idles(s) ensures exists p :: At(s, t, p) && forall p' :: At(s, t, p') ==> p' == p {
      var p := PlacedOnce(s, t);
    }
    forall t | t in Idles(s) ensures Unlisted(s, t) { IdleNeverQueued(s, t); }
    forall c | 0 <= c < |s.cpus| ensures s.cpus[c].readyNum == |s.cpus[c].ready| { Parts(s, -1, c); }
    forall c, t | 0 <= c < |s.cpus| && t in s.cpus[c].ready ensures ReadyOn(s, t, c) { WhereIs(s, -1, t); }
    forall c | 0 <= c < |s.cpus| && !s.cpus[c].ts
      ensures s.cpus[c].running in own && own[s.cpus[c].running] == Some(s.cpus[c].regs)
    {
      SeesOwnRegisters(s, own, c);
    }
    forall t | t in s.tasks && s.tasks[t].fpu.dirty ensures Owner(s, t) { DirtyOwns(s, own, t); }
  }

  lemma DirtyOwns(s: Sys, own: Own, t: Tid)
    requires FpuOk(s, own) && t in s.tasks && s.tasks[t].fpu.dirty
    ensures Owner(s, t)
  {
    assert FpuTask(s, own, t);
  }

  // ---- what the callers must respect ----

  /**
   schedule() on its own keeps placement exactly when the idle task calls it: any other caller must
   have put itself on a list first. The woken waiter that loses the race in mutex_lock has not.
   */
  lemma ScheduleKeepsPlacementIff(s: Sys, c: nat)
    requires Inv(s, -1) && CpuIn(s, c)
    ensures Inv(Switch(s, c), -1) <==> !Busy(s, c)
  {
    hide Idles, NoDup;
    if !Busy(s, c) {
      IdleLeaves(s, c);
      SwitchOk(s, c);
    } else {
      BusyTask(s, c);
      var t, s' := s.cpus[c].running, Switch(s, c);
      assert CpuOk(s, -1, c) && t != Next(s, c) by {
        if s.cpus[c].ready != [] { ReadyEntry(s, -1, c, 0); }
      }
      IdlesKept(s, s');
      assert !TaskOk(s', -1, t);
    }
  }

  /**
   A timer interrupt after sys_exit has marked its task a zombie and before its final schedule() puts the
   task back on the ready list and forgets the mark: the schedule() that follows is then the bare call above.
   */
  lemma PreemptForgetsZombie(s: Sys, c: nat)
    requires Inv(s, -1) && Busy(s, c)
    ensures CpuIn(s, c) && CpuIn(BecomeZombie(s, c), c)
    ensures Preempt(BecomeZombie(s, c), c) == Preempt(s, c) && Inv(Preempt(s, c), -1)
  {
    hide Inv, Idles, Switch;
    BusyTask(s, c);
    assert Requeue(BecomeZombie(s, c), c).tasks == Requeue(s, c).tasks;
    YieldOk(s, c);
  }

  /** sys_yield has no test for the idle task: it keeps placement unless the idle task calls it with work waiting. */
  lemma YieldKeepsPlacementIff(s: Sys, c: nat)
    requires Inv(s, -1) && CpuIn(s, c)
    ensures Inv(Yield(s, c), -1) <==> Busy(s, c) || s.cpus[c].ready == []
  {
    hide Idles, NoDup;
    if Busy(s, c) {
      BusyTask(s, c);
      YieldOk(s, c);
    } else if s.cpus[c].ready == [] {
      IdleYields(s, c);
    } else {
      var s', t := Yield(s, c), s.cpus[c].idle;
      IdlesKept(s, s');
      IdleIn(s, c);
      var l := s'.cpus[c].ready;
      assert l[|l| - 1] == t;
      assert !ReadyOn(s', l[|l| - 1], c);
      assert !CpuOk(s', -1, c);
    }
  }

  lemma IdleYields(s: Sys, c: nat)
    requires Inv(s, -1) && CpuIn(s, c) && !Busy(s, c) && s.cpus[c].ready == []
    ensures Inv(Yield(s, c), -1)
  {
    hide Inv;
    IdleLeaves(s, c);
    SwitchOk(s, c);
    var x := s.cpus[c];
    assert (x.ready + [x.running])[1..] == [];
    assert Yield(s, c).cpus[c] == Switch(s, c).cpus[c];
    assert Yield(s, c).cpus == Switch(s, c).cpus;
    assert Yield(s, c).tasks == Switch(s, c).tasks;
  }

  /** sleep_on keeps placement exactly when the caller is not the idle task. */
  lemma SleepKeepsPlacementIff(s: Sys, c: nat, q: Qid)
    requires Inv(s, -1) && CpuIn(s, c) && q in s.queues
    ensures Inv(Sleep(s, c, q), -1) <==> Busy(s, c)
  {
    hide Idles, NoDup;
    if Busy(s, c) {
      BusyTask(s, c);
      EnqueueOk(s, c, q);
      SwitchOk(Enqueue(s, c, q), c);
    } else {
      var s' := Sleep(s, c, q);
      IdlesKept(s, s');
      IdleIn(s, c);
      var l := s'.queues[q];
      assert !Asleep(s', l[|l| - 1]);
      assert !QueueOk(s', q);
    }
  }

  /** A balancing step moves one unit of load. */
  lemma BalanceLoads(s: Sys, src: nat, dst: nat)
    requires Inv(s, -1) && LoadBalance.Uneven(Loads(s), src, dst)
    ensures Loads(Do(s, DoMove(src, dst))) == LoadBalance.Moved(Loads(s), src, dst)
    ensures LoadBalance.Total(Loads(Do(s, DoMove(src, dst)))) == LoadBalance.Total(Loads(s))
    ensures LoadBalance.Squares(Loads(Do(s, DoMove(src, dst)))) < LoadBalance.Squares(Loads(s))
  {
    hide Inv;
    AllIn(s);
    Donor(s, src, dst);
    var s' := Migrate(s, src, dst);
    assert Loads(s') == LoadBalance.Moved(Loads(s), src, dst);
    LoadBalance.MoveConverges(Loads(s), src, dst);
  }
}
