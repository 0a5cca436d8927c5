/**
 Lazy FPU switching. The reference machine gives every task registers of its own (`own`, None for a
 task that has no FPU state yet); the kernel's save areas and the CPUs' registers represent them.
 */
module LazyFpu {
  import opened Common
  import opened TaskModel
  import opened TaskPlacement

  type Own = map<Tid, Option<Regs>>

  /** A task's registers are in its CPU if it is dirty, else in its save area. */
  ghost predicate FpuTask(s: Sys, own: Own, t: Tid) {
    && t in s.tasks && t in own
    && var x := s.tasks[t];
    && (x.isKer ==> !x.fpu.used)
    && (x.fpu.dirty ==> x.fpu.used && Owner(s, t))
    && (own[t] == if !x.fpu.used then None else if x.fpu.dirty && Owner(s, t) then Some(s.cpus[x.cpuid].regs) else Some(x.fpu.save))
  }

  /** Task t runs on a CPU with TS clear. */
  ghost predicate Owner(s: Sys, t: Tid)
    requires t in s.tasks
  {
    var c := s.tasks[t].cpuid;
    c < |s.cpus| && s.cpus[c].running == t && !s.cpus[c].ts
  }

  ghost predicate FpuCpu(s: Sys, c: int) {
    && 0 <= c < |s.cpus| && s.cpus[c].running in s.tasks && s.cpus[c].idle in s.tasks
    && s.tasks[s.cpus[c].idle].isKer
    && (!s.cpus[c].ts ==> s.tasks[s.cpus[c].running].fpu.dirty && s.tasks[s.cpus[c].running].cpuid == c)
  }

  ghost predicate FpuOk(s: Sys, own: Own) {
    && own.Keys == s.tasks.Keys
    && (forall t :: t in s.tasks ==> FpuTask(s, own, t))
    && (forall c :: 0 <= c < |s.cpus| ==> FpuCpu(s, c))
  }

  /** An FPU instruction that does not trap finds the registers of the running task. */
  lemma SeesOwnRegisters(s: Sys, own: Own, c: nat)
    requires FpuOk(s, own) && c < |s.cpus| && !s.cpus[c].ts
    ensures s.cpus[c].running in own && own[s.cpus[c].running] == Some(s.cpus[c].regs)
  {
    assert FpuCpu(s, c) && FpuTask(s, own, s.cpus[c].running);
  }

  /** One that traps finds them after the exception handler, if the running task has any. */
  lemma TrapRestoresRegisters(s: Sys, own: Own, c: nat, fresh_: Regs)
    requires Inv(s, -1) && FpuOk(s, own) && CpuIn(s, c) && s.cpus[c].ts && own[s.cpus[c].running].Some?
    ensures Trap(s, c, fresh_).cpus[c].regs == own[s.cpus[c].running].value
  {
    assert FpuTask(s, own, s.cpus[c].running) && FpuCpu(s, c);
    RunnerHere(s, c);
  }

  lemma RunnerHere(s: Sys, c: nat)
    requires Inv(s, -1) && c < |s.cpus|
    ensures RunsHere(s, c)
  {
    assert CpuOk(s, -1, c);
  }

  // ---- the steps refine the reference machine ----

  /** Two states that agree in FPU matters. */
  ghost predicate SameFpu(s: Sys, s': Sys) {
    && |s'.cpus| == |s.cpus| && s'.tasks.Keys == s.tasks.Keys
    && (forall c :: 0 <= c < |s.cpus| ==> SameUnit(s.cpus[c], s'.cpus[c]))
    && (forall t :: t in s.tasks ==> SameSave(s.tasks[t], s'.tasks[t]))
  }

  predicate SameUnit(x: Cpu, y: Cpu) {
    x.running == y.running && x.idle == y.idle && x.ts == y.ts && x.regs == y.regs
  }

  predicate SameSave(x: Task, y: Task) {
    x.cpuid == y.cpuid && x.isKer == y.isKer && x.fpu == y.fpu
  }

  lemma SameFpuOk(s: Sys, s': Sys, own: Own)
    requires FpuOk(s, own) && SameFpu(s, s')
    ensures FpuOk(s', own)
  {
    forall t | t in s'.tasks ensures FpuTask(s', own, t) {
      assert FpuTask(s, own, t) && SameSave(s.tasks[t], s'.tasks[t]);
      assert s.tasks[t].cpuid < |s.cpus| ==> SameUnit(s.cpus[s.tasks[t].cpuid], s'.cpus[s.tasks[t].cpuid]);
    }
    forall c | 0 <= c < |s'.cpus| ensures FpuCpu(s', c) {
      assert FpuCpu(s, c) && SameUnit(s.cpus[c], s'.cpus[c]);
      assert SameSave(s.tasks[s.cpus[c].running], s'.tasks[s.cpus[c].running]);
      assert SameSave(s.tasks[s.cpus[c].idle], s'.tasks[s.cpus[c].idle]);
    }
  }

  /** Task t is CPU c's idle task or carries its number. */
  predicate Belongs(s: Sys, c: nat, t: Tid)
    requires c < |s.cpus|
  {
    t == s.cpus[c].idle || (t in s.tasks && s.tasks[t].cpuid == c)
  }

  /** Leaving a CPU saves the registers of whichever task owned them. */
  lemma LeaveFpuOk(s: Sys, own: Own, c: nat)
    requires FpuOk(s, own) && CpuIn(s, c) && Belongs(s, c, s.cpus[c].running)
    ensures FpuOk(LeaveFpu(s, c), own) && !LeaveFpu(s, c).tasks[s.cpus[c].running].fpu.dirty
  {
    var s', x := LeaveFpu(s, c), s.cpus[c].running;
    assert FpuCpu(s, c) && FpuTask(s, own, x);
    assert FpuTask(s, own, s.cpus[c].idle);
    forall t | t in s'.tasks ensures FpuTask(s', own, t) {
      assert FpuTask(s, own, t);
    }
    forall d | 0 <= d < |s'.cpus| ensures FpuCpu(s', d) {
      assert FpuCpu(s, d);
    }
  }

  /** A task whose registers are saved can be put on a CPU with TS set. */
  lemma InstallFpuOk(s: Sys, own: Own, c: nat, x: Tid)
    requires FpuOk(s, own) && c < |s.cpus| && x in s.tasks
    requires x == s.cpus[c].running || (s.cpus[c].ts && !s.tasks[x].fpu.dirty)
    requires Belongs(s, c, x)
    ensures FpuOk(Install(s, c, x), own)
  {
    var s' := Install(s, c, x);
    assert FpuCpu(s, c) && FpuTask(s, own, s.cpus[c].idle) && FpuTask(s, own, x);
    forall t | t in s'.tasks ensures FpuTask(s', own, t) {
      assert FpuTask(s, own, t);
    }
    forall d | 0 <= d < |s'.cpus| ensures FpuCpu(s', d) {
      assert FpuCpu(s, d);
    }
  }

  lemma RunNextFpuOk(s: Sys, own: Own, c: nat)
    requires FpuOk(s, own) && CpuIn(s, c)
    requires Next(s, c) == s.cpus[c].running || (s.cpus[c].ts && !s.tasks[Next(s, c)].fpu.dirty)
    requires Belongs(s, c, Next(s, c))
    ensures FpuOk(RunNext(s, c), own)
  {
    hide FpuOk;
    SameFpuOk(s, PopReady(s, c), own);
    InstallFpuOk(PopReady(s, c), own, c, Next(s, c));
  }

  predicate Local(s: Sys, c: nat)
    requires c < |s.cpus|
  {
    Belongs(s, c, s.cpus[c].running) && Belongs(s, c, Next(s, c))
  }

  lemma InvLocal(s: Sys, off: int, c: nat)
    requires Inv(s, off) && c < |s.cpus|
    requires off == c ==> Belongs(s, c, s.cpus[c].running)
    ensures CpuIn(s, c) && Local(s, c)
  {
    hide Inv;
    Parts(s, off, c);
    if s.cpus[c].ready != [] { ReadyEntry(s, off, c, 0); }
  }

  /** A switch keeps every task's registers in its CPU or its save area. */
  lemma SwitchFpuOk(s: Sys, own: Own, c: nat)
    requires FpuOk(s, own) && CpuIn(s, c) && Local(s, c)
    ensures FpuOk(Switch(s, c), own)
  {
    hide FpuOk;
    var x := Next(s, c);
    SwitchFpuFirst(s, c);
    if x == s.cpus[c].running {
      RunNextFpuOk(s, own, c);
    } else {
      NotOwner(s, own, x, c);
      LeaveFpuOk(s, own, c);
      RunNextFpuOk(LeaveFpu(s, c), own, c);
    }
  }

  lemma NotOwner(s: Sys, own: Own, t: Tid, c: nat)
    requires FpuOk(s, own) && t in s.tasks && c < |s.cpus| && s.cpus[c].running != t
    requires Belongs(s, c, t)
    ensures !s.tasks[t].fpu.dirty
  {
    assert FpuTask(s, own, t) && FpuCpu(s, c);
  }

  lemma StartFpuOk(s: Sys, own: Own, n: nat, t: Tid, x: Task)
    requires FpuOk(s, own) && n < |s.cpus| && t !in s.tasks && !x.fpu.dirty && (x.isKer ==> !x.fpu.used)
    ensures FpuOk(Start(s, n, t, x), own[t := if x.fpu.used then Some(x.fpu.save) else None])
  {
    var s', own' := Start(s, n, t, x), own[t := if x.fpu.used then Some(x.fpu.save) else None];
    forall u | u in s'.tasks ensures FpuTask(s', own', u) {
      if u != t { assert FpuTask(s, own, u); }
    }
    forall c | 0 <= c < |s'.cpus| ensures FpuCpu(s', c) {
      assert FpuCpu(s, c);
    }
  }

  /** Saving a dirty task's registers does not change them. */
  lemma SaveOk(s: Sys, own: Own, c: nat)
    requires FpuOk(s, own) && CpuIn(s, c) && Belongs(s, c, s.cpus[c].running)
    ensures var t := s.cpus[c].running;
            && FpuOk(PutTask(s, t, s.tasks[t].(fpu := SaveForFork(s, c))), own)
            && own[t] == if SaveForFork(s, c).used then Some(SaveForFork(s, c).save) else None
  {
    var t := s.cpus[c].running;
    var s' := PutTask(s, t, s.tasks[t].(fpu := SaveForFork(s, c)));
    assert FpuTask(s, own, t) && FpuCpu(s, c) && FpuTask(s, own, s.cpus[c].idle);
    forall u | u in s'.tasks ensures FpuTask(s', own, u) { assert FpuTask(s, own, u); }
    forall d | 0 <= d < |s'.cpus| ensures FpuCpu(s', d) { assert FpuCpu(s, d); }
  }

  /** A forked child starts with its parent's registers. */
  lemma ForkFpuOk(s: Sys, own: Own, c: nat, child: Tid, junk: Regs)
    requires Inv(s, -1) && FpuOk(s, own) && CpuIn(s, c) && child !in s.tasks && !s.tasks[s.cpus[c].running].isKer
    ensures FpuOk(Fork(s, c, child, junk), own[child := own[s.cpus[c].running]])
  {
    hide Inv, FpuOk, FpuTask, FpuCpu, Start;
    RunnerHere(s, c);
    SaveOk(s, own, c);
    var t, f := s.cpus[c].running, SaveForFork(s, c);
    StartFpuOk(PutTask(s, t, s.tasks[t].(fpu := f)), own, 0, child,
               Task(Ready, 0, false, Fpu(f.used, false, if f.used then f.save else junk)));
  }

  lemma ExecFpuOk(s: Sys, own: Own, c: nat)
    requires Inv(s, -1) && FpuOk(s, own) && CpuIn(s, c) && s.cpus[c].running != s.cpus[c].idle
    ensures FpuOk(Exec(s, c), own[s.cpus[c].running := None])
  {
    var s', x := Exec(s, c), s.cpus[c].running;
    var own' := own[x := None];
    RunnerHere(s, c);
    forall u | u in s'.tasks ensures FpuTask(s', own', u) { assert FpuTask(s, own, u); }
    forall d | 0 <= d < |s'.cpus| ensures FpuCpu(s', d) {
      assert FpuCpu(s, d);
      IdleIn(s, d);
    }
  }

  lemma TrapFpuOk(s: Sys, own: Own, c: nat, fresh_: Regs)
    requires Inv(s, -1) && FpuOk(s, own) && CpuIn(s, c) && s.cpus[c].ts && !s.tasks[s.cpus[c].running].isKer
    ensures var t := s.cpus[c].running;
            FpuOk(Trap(s, c, fresh_), own[t := if own[t].None? then Some(fresh_) else own[t]])
  {
    hide Inv;
    var s', t := Trap(s, c, fresh_), s.cpus[c].running;
    RunnerHere(s, c);
    assert FpuTask(s, own, t) && FpuCpu(s, c);
    forall u | u in s'.tasks
      ensures FpuTask(s', own[t := if own[t].None? then Some(fresh_) else own[t]], u) { assert FpuTask(s, own, u); }
    forall d | 0 <= d < |s'.cpus| ensures FpuCpu(s', d) { assert FpuCpu(s, d); }
  }

  lemma ComputeFpuOk(s: Sys, own: Own, c: nat, v: Regs)
    requires FpuOk(s, own) && CpuIn(s, c) && !s.cpus[c].ts
    ensures FpuOk(Compute(s, c, v), own[s.cpus[c].running := Some(v)])
  {
    var s', t := Compute(s, c, v), s.cpus[c].running;
    var own' := own[t := Some(v)];
    assert FpuTask(s, own, t) && FpuCpu(s, c);
    forall u | u in s'.tasks ensures FpuTask(s', own', u) { assert FpuTask(s, own, u); }
    forall d | 0 <= d < |s'.cpus| ensures FpuCpu(s', d) { assert FpuCpu(s, d); }
  }

  lemma MigrateFpuOk(s: Sys, own: Own, src: nat, dst: nat)
    requires Inv(s, -1) && FpuOk(s, own) && CpuIn(s, src) && dst < |s.cpus| && src != dst && s.cpus[src].ready != []
    ensures FpuOk(Migrate(s, src, dst), own)
  {
    hide Inv;
    var s', l := Migrate(s, src, dst), s.cpus[src].ready;
    var x := l[|l| - 1];
    ReadyEntry(s, -1, src, |l| - 1);
    RunnerHere(s, src);
    IdleIn(s, src);
    NotOwner(s, own, x, src);
    forall u | u in s'.tasks ensures FpuTask(s', own, u) { assert FpuTask(s, own, u); }
    forall d | 0 <= d < |s'.cpus| ensures FpuCpu(s', d) { assert FpuCpu(s, d); }
  }

  lemma ReapFpuOk(s: Sys, own: Own, t: Tid)
    requires Inv(s, -1) && FpuOk(s, own) && t in s.tasks && t !in Idles(s) && s.tasks[t].state == Zombie
    ensures FpuOk(Reap(s, t), own - {t})
  {
    hide Inv, Idles;
    var s', own' := Reap(s, t), own - {t};
    forall u | u in s'.tasks ensures FpuTask(s', own', u) { assert FpuTask(s, own, u); }
    forall d | 0 <= d < |s'.cpus| ensures FpuCpu(s', d) {
      assert FpuCpu(s, d);
      RunnerHere(s, d);
      IdleIn(s, d);
    }
  }
}
