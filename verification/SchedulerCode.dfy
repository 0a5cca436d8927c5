/**
 The scheduler's operations as the kernel performs them, statement by statement on the CPU table,
 the table of tasks and the wait queues. Each keeps every task in one place and every task's FPU
 registers (`own`, the reference machine of `LazyFpu`), says where the tasks it touches are afterwards,
 and is the corresponding step of `TaskModel`, so that runs of `Scheduler` are runs of this code.
 */
module SchedulerCode {
  import opened Common
  import opened TaskModel
  import opened TaskPlacement
  import opened LazyFpu
  import opened Scheduler
  import LoadBalance

  lemma PopKeeps(s: Sys, c: nat)
    requires CpuIn(s, c)
    ensures CpuIn(PopReady(s, c), c) && Next(s, c) in s.tasks && PopReady(s, c).tasks == s.tasks
    ensures PopReady(s, c).cpus[c].running == s.cpus[c].running
  {
  }

  lemma LeaveKeeps(s: Sys, c: nat)
    requires CpuIn(s, c)
    ensures |LeaveFpu(s, c).cpus| == |s.cpus| && LeaveFpu(s, c).tasks.Keys == s.tasks.Keys
    ensures Similar(s, LeaveFpu(s, c))
  {
  }

  /** The registers of whoever leaves a CPU are in its save area. */
  lemma LeftInSaveArea(s: Sys, own: Own, c: nat)
    requires FpuOk(s, own) && CpuIn(s, c) && Belongs(s, c, s.cpus[c].running)
    ensures var t, s' := s.cpus[c].running, LeaveFpu(s, c);
            && FpuOk(s', own) && !s'.tasks[t].fpu.dirty
            && (own[t].Some? ==> s'.tasks[t].fpu.save == own[t].value)
  {
    LeaveFpuOk(s, own, c);
    assert FpuTask(LeaveFpu(s, c), own, s.cpus[c].running);
  }

  lemma {:induction false} WakeAllGrows(s: Sys, q: Qid, c: nat, t: Tid)
    requires QueueIn(s, q) && c < |s.cpus| && t in s.cpus[c].ready
    ensures c < |WakeAll(s, q).cpus| && t in WakeAll(s, q).cpus[c].ready
    decreases |s.queues[q]|
  {
    if s.queues[q] != [] {
      WakeFirstIn(s, q);
      WakeAllGrows(WakeFirst(s, q), q, c, t);
    }
  }

  /** Everyone who waited is on the ready list of the CPU it last ran on. */
  lemma {:induction false} WakeAllWakes(s: Sys, q: Qid, t: Tid)
    requires QueueIn(s, q) && t in s.queues[q] && NoDup(s.queues[q])
    ensures s.tasks[t].cpuid < |s.cpus| == |WakeAll(s, q).cpus| && t in WakeAll(s, q).cpus[s.tasks[t].cpuid].ready
    decreases |s.queues[q]|
  {
    WakeFirstIn(s, q);
    var s', x := WakeFirst(s, q), s.queues[q][0];
    WakeAllCpus(s, q);
    if t == x {
      WakeAllGrows(s', q, s.tasks[x].cpuid, x);
    } else {
      NoDupTail(s.queues[q]);
      WakeAllWakes(s', q, t);
    }
  }

  lemma {:induction false} WakeAllCpus(s: Sys, q: Qid)
    requires QueueIn(s, q)
    ensures |WakeAll(s, q).cpus| == |s.cpus|
    decreases |s.queues[q]|
  {
    if s.queues[q] != [] {
      WakeFirstIn(s, q);
      WakeAllCpus(WakeFirst(s, q), q);
    }
  }

  lemma Waiters(s: Sys, off: int, q: Qid)
    requires Inv(s, off) && q in s.queues
    ensures QueueIn(s, q) && NoDup(s.queues[q])
  {
    hide Inv;
    WakeFirstOk(s, off, q);
    Parts(s, off, 0) by { assert |s.cpus| > 0 by { Nonempty(s, off); } }
  }

  lemma Nonempty(s: Sys, off: int)
    requires Inv(s, off)
    ensures |s.cpus| > 0
  {
  }

  /** A task that does not wait on q keeps its state when q is woken. */
  lemma {:induction false} WakeAllOthers(s: Sys, q: Qid, t: Tid)
    requires QueueIn(s, q) && t in s.tasks && t !in s.queues[q]
    ensures t in WakeAll(s, q).tasks && WakeAll(s, q).tasks[t] == s.tasks[t]
    decreases |s.queues[q]|
  {
    if s.queues[q] != [] {
      WakeFirstIn(s, q);
      WakeAllOthers(WakeFirst(s, q), q, t);
    }
  }

  /** A zombie is not woken, and no CPU runs it next. */
  lemma ZombieStays(s: Sys, off: int, q: Qid, t: Tid)
    requires Inv(s, off) && QueueIn(s, q) && t in s.tasks && t !in Idles(s) && s.tasks[t].state == Zombie
    ensures var s' := WakeAll(s, q);
            t in s'.tasks && s'.tasks[t].state == Zombie && forall c :: 0 <= c < |s'.cpus| ==> Next(s', c) != t
  {
    hide Inv, Idles;
    WhereIs(s, off, t);
    WakeAllOthers(s, q, t);
    WakeAllOk(s, off, q);
    var s' := WakeAll(s, q);
    IdlesKept(s, s');
    WhereIs(s', off, t);
    forall c | 0 <= c < |s'.cpus| ensures Next(s', c) != t { IdleIn(s', c); }
  }

  lemma PopFpuOk(s: Sys, own: Own, c: nat)
    requires FpuOk(s, own) && CpuIn(s, c) && Belongs(s, c, s.cpus[c].running)
    ensures FpuOk(PopReady(s, c), own) && Belongs(PopReady(s, c), c, s.cpus[c].running)
  {
    hide FpuOk;
    SameFpuOk(s, PopReady(s, c), own);
  }

  /** What a switch keeps, in the middle of a step and on its own. */
  lemma SwitchLaws(s: Sys, own: Own, c: nat)
    requires CpuIn(s, c) && FpuOk(s, own) && Local(s, c)
    ensures FpuOk(Switch(s, c), own)
    ensures Inv(s, c) ==> Inv(Switch(s, c), -1)
    ensures Inv(s, -1) ==> (Inv(Switch(s, c), -1) <==> !Busy(s, c))
  {
    hide FpuOk, Inv, Switch;
    SwitchFpuOk(s, own, c);
    if Inv(s, c) { SwitchOk(s, c); }
    if Inv(s, -1) { ScheduleKeepsPlacementIff(s, c); }
  }

  /** The place of a caller that has yielded. */
  function Behind(c: nat, l: seq<Tid>): (p: Place) {
    if l == [] then OnCpu(c) else OnReady(c, |l| - 1)
  }

  lemma YieldedAt(s: Sys, c: nat)
    requires CpuIn(s, c)
    ensures At(Yield(s, c), s.cpus[c].running, Behind(c, s.cpus[c].ready))
  {
    var l := s.cpus[c].ready + [s.cpus[c].running];
    assert l[1..] == if s.cpus[c].ready == [] then [] else s.cpus[c].ready[1..] + [s.cpus[c].running];
  }

  lemma BuriedAt(s: Sys, c: nat, t: Tid)
    requires CpuIn(s, c) && t in s.tasks && s.tasks[t].state == Zombie && Next(s, c) != t
    ensures At(Switch(s, c), t, Buried)
  {
  }

  lemma RegistersAfterTrap(s: Sys, own: Own, c: nat, initial: Regs)
    requires Inv(s, -1) && FpuOk(s, own) && CpuIn(s, c) && s.cpus[c].ts
    ensures var o := own[s.cpus[c].running];
            Trap(s, c, initial).cpus[c].regs == if o.Some? then o.value else initial
  {
    assert FpuTask(s, own, s.cpus[c].running) && FpuCpu(s, c);
    RunnerHere(s, c);
  }

  lemma Counters(s: Sys)
    requires Inv(s, -1)
    ensures forall c :: 0 <= c < |s.cpus| ==> s.cpus[c].readyNum == |s.cpus[c].ready|
  {
    hide Inv;
    forall c | 0 <= c < |s.cpus| ensures s.cpus[c].readyNum == |s.cpus[c].ready| { Parts(s, -1, c); }
  }

  class Kernel {
    var cpus: seq<Cpu>
    var tasks: map<Tid, Task>
    var queues: map<Qid, seq<Tid>>

    ghost function State(): (s: Sys)
      reads this
    {
      Sys(cpus, tasks, queues)
    }

    /** Between two operations: every task in one place, and the registers of the reference machine. */
    ghost predicate Sound(own: Own)
      reads this
    {
      Inv(State(), -1) && FpuOk(State(), own)
    }

    method HandleFpuSse(c: nat, prev: Tid, ghost own: Own)
      requires CpuIn(State(), c) && cpus[c].running == prev && FpuOk(State(), own) && Belongs(State(), c, prev)
      modifies this`cpus, this`tasks
      ensures FpuOk(State(), own) && Similar(old(State()), State())
      ensures prev in tasks && !tasks[prev].fpu.dirty && (own[prev].Some? ==> tasks[prev].fpu.save == own[prev].value)
      ensures State() == LeaveFpu(old(State()), c)
    {
      hide FpuOk;
      LeaveKeeps(State(), c);
      LeftInSaveArea(State(), own, c);
      if tasks[prev].fpu.dirty {
        tasks := tasks[prev := tasks[prev].(fpu := tasks[prev].fpu.(save := cpus[c].regs))];
        tasks := tasks[prev := tasks[prev].(fpu := tasks[prev].fpu.(dirty := false))];
      }
      cpus := cpus[c := cpus[c].(ts := true)];
      assert tasks == LeaveFpu(old(State()), c).tasks;
    }

    /** Who to switch to, taken off the ready list. */
    method TakeNext(c: nat) returns (willRun: Tid)
      requires CpuIn(State(), c)
      modifies this`cpus
      ensures State() == PopReady(old(State()), c) && willRun == Next(old(State()), c)
    {
      if cpus[c].ready != [] {
        willRun := cpus[c].ready[0];
        cpus := cpus[c := cpus[c].(ready := cpus[c].ready[1..])];
        cpus := cpus[c := cpus[c].(readyNum := cpus[c].readyNum - 1)];
      } else {
        willRun := cpus[c].idle;
      }
    }

    /**
     __schedule_locked; __schedule_other_locked differs only in the locks it drops. It completes the step of a
     CPU whose task has found another place; called alone, as by schedule(), it keeps placement exactly when
     the idle task runs.
     */
    method ScheduleLocked(c: nat, ghost own: Own)
      requires CpuIn(State(), c) && FpuOk(State(), own) && Local(State(), c)
      modifies this`cpus, this`tasks
      ensures State() == Switch(old(State()), c) && FpuOk(State(), own)
      ensures Inv(old(State()), c) ==> Inv(State(), -1)
      ensures Inv(old(State()), -1) ==> (Inv(State(), -1) <==> !Busy(old(State()), c))
      ensures At(State(), Next(old(State()), c), OnCpu(c))
    {
      hide LeaveFpu, PopReady, Next, Inv, FpuOk, Busy, Similar;
      PopKeeps(State(), c);
      PopFpuOk(State(), own, c);
      SwitchLaws(State(), own, c);
      var before := cpus[c].running;
      var willRun := TakeNext(c);
      if before != willRun {
        LeaveKeeps(State(), c);
        HandleFpuSse(c, before, own);
      }
      tasks := tasks[willRun := tasks[willRun].(cpuid := c)];
      cpus := cpus[c := cpus[c].(running := willRun)];
      tasks := tasks[willRun := tasks[willRun].(state := Running)];
    }

    /** The caller goes to the end of its CPU's list, and runs on only if it is alone there. */
    method SysYield(c: nat, ghost own: Own)
      requires Sound(own) && c < |cpus|
      modifies this`cpus, this`tasks
      ensures At(State(), old(cpus[c].running), Behind(c, old(cpus[c].ready)))
      ensures FpuOk(State(), own)
      ensures Inv(State(), -1) <==> Busy(old(State()), c) || old(cpus[c].ready) == []
      ensures CpuIn(old(State()), c) && State() == Yield(old(State()), c)
    {
      hide Inv, FpuOk, Switch, At, Busy;
      ghost var s := State();
      AllIn(s);
      YieldKeepsPlacementIff(s, c);
      YieldedAt(s, c);
      InvLocal(s, -1, c);
      SameFpuOk(s, Requeue(s, c), own);
      var current := cpus[c].running;
      tasks := tasks[current := tasks[current].(state := Ready)];
      cpus := cpus[c := cpus[c].(ready := cpus[c].ready + [current])];
      cpus := cpus[c := cpus[c].(readyNum := cpus[c].readyNum + 1)];
      assert State() == Requeue(s, c);
      ScheduleLocked(c, own);
    }

    /** The end of timer_intr_soft, when the running task has used up its ticks; the idle task is not queued. */
    method PreemptRunning(c: nat, ghost own: Own)
      requires Sound(own) && c < |cpus|
      modifies this`cpus, this`tasks
      ensures Sound(own)
      ensures Busy(old(State()), c) ==> At(State(), old(cpus[c].running), Behind(c, old(cpus[c].ready)))
      ensures !Busy(old(State()), c) ==> At(State(), Next(old(State()), c), OnCpu(c))
      ensures CpuIn(old(State()), c) && State() == Preempt(old(State()), c)
    {
      hide Inv, FpuOk, Switch, Next;
      ghost var s := State();
      AllIn(s);
      if cpus[c].running != cpus[c].idle {
        SysYield(c, own);
      } else {
        InvLocal(s, -1, c);
        ScheduleLocked(c, own);
      }
    }

    /** The caller goes to the end of the wait queue. */
    method SleepOn(c: nat, q: Qid, ghost own: Own)
      requires Sound(own) && c < |cpus| && q in queues
      modifies this
      ensures At(State(), old(cpus[c].running), OnQueue(q, |old(queues[q])|)) && queues.Keys == old(queues.Keys)
      ensures FpuOk(State(), own)
      ensures Inv(State(), -1) <==> Busy(old(State()), c)
      ensures CpuIn(old(State()), c) && State() == Sleep(old(State()), c, q)
    {
      hide Inv, FpuOk, LeaveFpu;
      ghost var s := State();
      AllIn(s);
      SleepKeepsPlacementIff(s, c, q);
      InvLocal(s, -1, c);
      SameFpuOk(s, Enqueue(s, c, q), own);
      var current := cpus[c].running;
      queues := queues[q := queues[q] + [current]];
      tasks := tasks[current := tasks[current].(state := Sleeping)];
      ScheduleLocked(c, own);
    }

    /** It goes to the front of its CPU's list; every other task stays where it is. */
    method PutToReadyListFirst(t: Tid)
      requires t in tasks && tasks[t].cpuid < |cpus|
      modifies this`cpus, this`tasks
      ensures At(State(), t, OnReady(old(tasks[t].cpuid), 0)) && SameFpu(old(State()), State())
      ensures OthersKept(old(State()), State(), t) && ListsKept(old(State()), State(), t)
      ensures State() == PutReady(old(State()), t)
    {
      var c := tasks[t].cpuid;
      tasks := tasks[t := tasks[t].(state := Ready)];
      cpus := cpus[c := cpus[c].(ready := [t] + cpus[c].ready)];
      cpus := cpus[c := cpus[c].(readyNum := cpus[c].readyNum + 1)];
    }

    /** The first waiter goes to the front of the ready list of the CPU it last ran on. */
    method WakeUpFirst(q: Qid, ghost off: int, ghost own: Own)
      requires Inv(State(), off) && FpuOk(State(), own) && q in queues
      modifies this
      ensures Inv(State(), off) && FpuOk(State(), own)
      ensures var l := old(queues[q]);
              if l == [] then State() == old(State())
              else queues == old(queues)[q := l[1..]] && l[0] in old(tasks)
                   && At(State(), l[0], OnReady(old(tasks)[l[0]].cpuid, 0))
      ensures QueueIn(old(State()), q) && State() == WakeFirst(old(State()), q)
    {
      hide Inv, FpuOk;
      WakeFirstOk(State(), off, q);
      SameFpuOk(State(), WakeFirst(State(), q), own);
      if queues[q] != [] {
        var t := queues[q][0];
        queues := queues[q := queues[q][1..]];
        PutToReadyListFirst(t);
      }
    }

    /** The queue is empty and everyone who waited is on the ready list of the CPU it last ran on. */
    method WakeUpAll(q: Qid, ghost off: int, ghost own: Own)
      requires Inv(State(), off) && FpuOk(State(), own) && q in queues
      modifies this
      ensures Inv(State(), off) && FpuOk(State(), own)
      ensures queues.Keys == old(queues.Keys) && queues[q] == []
      ensures forall t :: t in old(queues[q]) ==> t in old(tasks) && old(tasks)[t].cpuid < |cpus| && t in cpus[old(tasks)[t].cpuid].ready
      ensures QueueIn(old(State()), q) && State() == WakeAll(old(State()), q)
    {
      hide Inv, FpuOk;
      ghost var s := State();
      Waiters(s, off, q);
      WakeAllOk(s, off, q);
      WakeAllSameFpu(s, q);
      SameFpuOk(s, WakeAll(s, q), own);
      forall t | t in queues[q]
        ensures t in tasks && tasks[t].cpuid < |WakeAll(s, q).cpus| && t in WakeAll(s, q).cpus[tasks[t].cpuid].ready
      {
        WakeAllWakes(s, q, t);
      }
      while queues[q] != []
        invariant QueueIn(State(), q) && WakeAll(State(), q) == WakeAll(s, q)
        decreases |queues[q]|
      {
        WakeFirstIn(State(), q);
        var t := queues[q][0];
        queues := queues[q := queues[q][1..]];
        PutToReadyListFirst(t);
      }
    }

    /**
     sys_exit from the point where the running task becomes a zombie; q is the parent's wait queue. The caller is
     on no list and no CPU any more, and everyone who waited has been woken.
     */
    method SysExit(c: nat, q: Qid, ghost own: Own)
      requires Sound(own) && Busy(State(), c) && q in queues
      modifies this
      ensures Sound(own)
      ensures At(State(), old(cpus[c].running), Buried) && q in queues && queues[q] == []
      ensures CpuIn(old(State()), c) && QueueIn(BecomeZombie(old(State()), c), q)
              && CpuIn(WakeAll(BecomeZombie(old(State()), c), q), c)
      ensures State() == Exit(old(State()), c, q)
    {
      hide Inv, FpuOk, Idles, WakeAll, LeaveFpu;
      ghost var s := State();
      BusyTask(s, c);
      ExitIn(s, c, q);
      ghost var z := BecomeZombie(s, c);
      BecomeZombieOk(s, c);
      SameFpuOk(s, z, own);
      var current := cpus[c].running;
      IdlesKept(s, z);
      ZombieStays(z, c, q, current);
      tasks := tasks[current := tasks[current].(state := Zombie)];
      assert State() == z;
      WakeUpAll(q, c, own);
      WakeAllSameFpu(z, q);
      WakeAllOk(z, c, q);
      InvLocal(State(), c, c);
      BuriedAt(State(), c, current);
      ScheduleLocked(c, own);
    }

    /** add_to_cpu_n_ready_list; an unknown CPU number halts the machine. */
    method AddToReadyList(t: Tid, n: nat) returns (ok: bool)
      requires t in tasks && tasks[t].state == Ready
      modifies this`cpus, this`tasks
      ensures ok <==> n < |old(cpus)|
      ensures if ok then State() == Start(old(State()), n, t, old(tasks[t])) else State() == old(State())
    {
      if n >= |cpus| { return false; }
      tasks := tasks[t := tasks[t].(cpuid := n)];
      cpus := cpus[n := cpus[n].(ready := [t] + cpus[n].ready)];
      cpus := cpus[n := cpus[n].(readyNum := cpus[n].readyNum + 1)];
      assert tasks == Start(old(State()), n, t, old(tasks[t])).tasks;
      ok := true;
    }

    /**
     fork_enter: the FPU and ready-list part; child is the new PCB, junk its uninitialised save area. The child
     is first on CPU 0's list and has its parent's registers.
     */
    method ForkEnter(c: nat, child: Tid, junk: Regs, ghost own: Own) returns (ok: bool)
      requires Sound(own) && Busy(State(), c) && child !in tasks
      modifies this`cpus, this`tasks
      ensures CpuIn(old(State()), c) && (ok <==> !old(tasks)[old(cpus)[c].running].isKer)
      ensures ok ==> old(cpus[c].running) in own && Sound(own[child := own[old(cpus[c].running)]]) && At(State(), child, OnReady(0, 0))
      ensures !ok ==> State() == old(State())
      ensures State() == Fork(old(State()), c, child, junk)
    {
      hide Inv, FpuOk;
      ghost var s := State();
      BusyTask(s, c);
      FpuKeys(s, own);
      ForkPlaced(s, c, child, junk);
      var current := cpus[c].running;
      if tasks[current].isKer { return false; }
      ForkFpuOk(s, own, c, child, junk);
      tasks := tasks[child := Task(Ready, 0, false, Fpu(false, false, junk))];
      CopyFpu(c, current, child);
      ok := AddToReadyList(child, 0);
      assert tasks == Fork(s, c, child, junk).tasks;
    }

    method CopyFpu(c: nat, current: Tid, child: Tid)
      requires CpuIn(State(), c) && cpus[c].running == current && child in tasks && child != current
      modifies this`tasks
      ensures var f := SaveForFork(old(State()), c);
              var g := old(tasks)[child].fpu.(used := f.used, save := if f.used then f.save else old(tasks)[child].fpu.save);
              tasks == old(tasks)[current := old(tasks)[current].(fpu := f)][child := old(tasks)[child].(fpu := g)]
    {
      if tasks[current].fpu.used {
        if tasks[current].fpu.dirty {
          tasks := tasks[current := tasks[current].(fpu := tasks[current].fpu.(save := cpus[c].regs))];
        }
        tasks := tasks[child := tasks[child].(fpu := tasks[child].fpu.(save := tasks[current].fpu.save))];
      }
      tasks := tasks[child := tasks[child].(fpu := tasks[child].fpu.(used := tasks[current].fpu.used))];
    }

    /** kernel_thread: put_thread and the ready list. The new task is first on CPU n's list and has no FPU state. */
    method KernelThread(n: nat, t: Tid, junk: Regs, ghost own: Own)
      requires Sound(own) && n < |cpus| && t !in tasks
      modifies this`cpus, this`tasks
      ensures Sound(own[t := None]) && At(State(), t, OnReady(n, 0))
      ensures State() == Spawn(old(State()), n, t, junk)
    {
      hide Inv, FpuOk;
      StartOk(State(), n, t, Task(Ready, n, true, Fpu(false, false, junk)));
      StartFpuOk(State(), own, n, t, Task(Ready, n, true, Fpu(false, false, junk)));
      tasks := tasks[t := Task(Ready, 0, true, Fpu(false, false, junk))];
      var ok := AddToReadyList(t, n);
      assert tasks == Spawn(old(State()), n, t, junk).tasks;
    }

    /** The end of sys_execv: the caller has no FPU state, everyone else's is as before. */
    method ExecvReset(c: nat, ghost own: Own)
      requires Sound(own) && Busy(State(), c)
      modifies this`cpus, this`tasks
      ensures Sound(own[old(cpus[c].running) := None]) && Similar(old(State()), State())
      ensures cpus[c].ts && cpus[c].running in tasks && !tasks[cpus[c].running].isKer
      ensures CpuIn(old(State()), c) && State() == Exec(old(State()), c)
    {
      hide Inv, FpuOk;
      BusyTask(State(), c);
      SimilarOk(State(), Exec(State(), c), -1);
      ExecFpuOk(State(), own, c);
      ghost var s' := Exec(State(), c);
      var current := cpus[c].running;
      tasks := tasks[current := tasks[current].(isKer := false)];
      tasks := tasks[current := tasks[current].(fpu := tasks[current].fpu.(used := false))];
      tasks := tasks[current := tasks[current].(fpu := tasks[current].fpu.(dirty := false))];
      cpus := cpus[c := cpus[c].(ts := true)];
      assert State() == s';
    }

    /**
     Vector 7 of exception_handler, which the CPU raises when TS is set; an FPU instruction of a kernel task is
     fatal. Afterwards the instruction finds the registers its task left, or the initial ones.
     */
    method DeviceNotAvailable(c: nat, initial: Regs, ghost own: Own) returns (ok: bool)
      requires Sound(own) && c < |cpus| && cpus[c].ts
      modifies this`cpus, this`tasks
      ensures CpuIn(old(State()), c) && (ok <==> !old(tasks)[old(cpus)[c].running].isKer)
      ensures Similar(old(State()), State()) && cpus[c].running in own
      ensures ok ==> !cpus[c].ts && cpus[c].regs == (if own[cpus[c].running].Some? then own[cpus[c].running].value else initial)
      ensures Sound(if ok then own[cpus[c].running := Some(cpus[c].regs)] else own)
      ensures State() == if ok then Trap(old(State()), c, initial) else old(State())
    {
      hide Inv, FpuOk;
      ghost var s := State();
      AllIn(s);
      FpuKeys(s, own);
      assert CpuIn(s, c);
      var current := cpus[c].running;
      if tasks[current].isKer { return false; }
      SimilarOk(s, Trap(s, c, initial), -1);
      TrapFpuOk(s, own, c, initial);
      RegistersAfterTrap(s, own, c, initial);
      cpus := cpus[c := cpus[c].(ts := false)];
      if !tasks[current].fpu.used {
        cpus := cpus[c := cpus[c].(regs := initial)];
        tasks := tasks[current := tasks[current].(fpu := tasks[current].fpu.(used := true))];
      } else {
        cpus := cpus[c := cpus[c].(regs := tasks[current].fpu.save)];
      }
      tasks := tasks[current := tasks[current].(fpu := tasks[current].fpu.(dirty := true))];
      assert State() == Trap(s, c, initial) by { assert tasks == Trap(s, c, initial).tasks; }
      assert Some(cpus[c].regs) == if own[current].None? then Some(initial) else own[current];
      ok := true;
    }

    /** task_timer_travel: the last ready task of src is last on dst's list and carries its number. */
    method TaskTravel(src: nat, dst: nat, ghost own: Own)
      requires Sound(own) && src < |cpus| && dst < |cpus| && src != dst && cpus[src].ready != []
      modifies this`cpus, this`tasks
      ensures var l := old(cpus[src].ready);
              At(State(), l[|l| - 1], OnReady(dst, |old(cpus[dst].ready)|))
              && Loads(State()) == LoadBalance.Moved(Loads(old(State())), src, dst)
      ensures Sound(own)
      ensures CpuIn(old(State()), src) && State() == Migrate(old(State()), src, dst)
    {
      hide Inv, FpuOk;
      ghost var s := State();
      MigrateOk(s, src, dst);
      MigrateFpuOk(s, own, src, dst);
      var t := cpus[src].ready[|cpus[src].ready| - 1];
      tasks := tasks[t := tasks[t].(cpuid := dst)];
      cpus := cpus[src := cpus[src].(ready := cpus[src].ready[..|cpus[src].ready| - 1])];
      cpus := cpus[dst := cpus[dst].(ready := cpus[dst].ready + [t])];
      cpus := cpus[src := cpus[src].(readyNum := cpus[src].readyNum - 1)];
      cpus := cpus[dst := cpus[dst].(readyNum := cpus[dst].readyNum + 1)];
      assert cpus == Migrate(s, src, dst).cpus;
    }

    /** tasks_travel, from the point where it holds the locks of both CPUs: it reads their counters again. */
    method TasksTravel(src: nat, dst: nat, ghost own: Own) returns (moved: bool)
      requires Sound(own) && src < |cpus| && dst < |cpus|
      modifies this`cpus, this`tasks
      ensures moved <==> LoadBalance.Uneven(Loads(old(State())), src, dst)
      ensures Sound(own)
      ensures moved ==> Loads(State()) == LoadBalance.Moved(Loads(old(State())), src, dst)
      ensures moved ==> CpuIn(old(State()), src) && State() == Migrate(old(State()), src, dst)
      ensures !moved ==> State() == old(State())
    {
      hide Inv, FpuOk, Migrate;
      Counters(State());
      if src == dst { return false; }
      if cpus[src].readyNum <= cpus[dst].readyNum || (cpus[src].readyNum - cpus[dst].readyNum) / 2 < 1 { return false; }
      TaskTravel(src, dst, own);
      moved := true;
    }

    /**
     load_balance on CPU id. It has read its own counter as now and all counters as seen, at moments before; what
     tasks_travel then does depends on the counters of this moment. If nothing changed between the two, a task
     moves exactly as LoadBalance.Moves says.
     */
    method BalanceOn(id: nat, now: nat, seen: seq<nat>, ghost own: Own) returns (moved: bool, src: nat, dst: nat)
      requires Sound(own) && id < |cpus| == |seen| && forall i :: 0 <= i < |seen| ==> seen[i] < LoadBalance.UINT32_MAX
      modifies this`cpus, this`tasks
      ensures Sound(own)
      ensures moved ==> LoadBalance.Chosen(seen, id, now, src, dst) && LoadBalance.Uneven(Loads(old(State())), src, dst)
                        && Loads(State()) == LoadBalance.Moved(Loads(old(State())), src, dst)
      ensures !moved ==> State() == old(State()) &&
                         forall i, j :: LoadBalance.Chosen(seen, id, now, i, j) ==> !LoadBalance.Uneven(Loads(old(State())), i, j)
    {
      hide Inv, FpuOk, Migrate;
      moved, src, dst := false, 0, 0;
      var r := LoadBalance.Choose(seen, id, now);
      if r.Some? {
        src, dst := r.value.0, r.value.1;
        moved := TasksTravel(src, dst, own);
      }
    }

    /** The end of free_task: the zombie's PCB is gone. */
    method FreeTask(t: Tid, ghost own: Own)
      requires Sound(own) && t in tasks && t !in Idles(State()) && tasks[t].state == Zombie
      modifies this`tasks
      ensures Sound(own - {t}) && t !in tasks && Unlisted(State(), t)
      ensures State() == Reap(old(State()), t)
    {
      hide Inv, FpuOk, Idles;
      ReapOk(State(), t);
      ReapFpuOk(State(), own, t);
      WhereIs(State(), -1, t);
      tasks := tasks - {t};
    }

    /** Every step of every run is one of these operations: it is the step, and keeps both laws. */
    method Perform(a: Step, ghost own: Own)
      requires Sound(own) && Enabled(State(), a)
      modifies this
      ensures State() == Do(old(State()), a) && own.Keys == old(tasks).Keys && Sound(OwnDo(old(State()), own, a))
    {
      hide Inv, FpuOk, Idles, Switch, WakeAll, Requeue, Enqueue, Start, Migrate, Fork, Trap, Exec, PutReady, OwnDo;
      ghost var s := State();
      FpuKeys(s, own);
      StepPlaced(s, a);
      StepFpu(s, own, a);
      AllIn(s);
      match a {
        case DoPreempt(c) => PreemptRunning(c, own);
        case DoYield(c) => SysYield(c, own);
        case DoSleep(c, q) => SleepOn(c, q, own);
        case DoWakeAll(q) => WakeUpAll(q, -1, own);
        case DoWakeFirst(q) => WakeUpFirst(q, -1, own);
        case DoExit(c, q) => SysExit(c, q, own);
        case DoReap(t) => FreeTask(t, own);
        case DoSpawn(n, t, junk) => KernelThread(n, t, junk, own);
        case DoFork(c, t, junk) => var ok := ForkEnter(c, t, junk, own);
        case DoExec(c) => ExecvReset(c, own);
        case DoMove(src, dst) => var moved := TasksTravel(src, dst, own);
        case DoTrap(c, junk) => var ok := DeviceNotAvailable(c, junk, own);
        case DoCompute(c, v) => cpus := cpus[c := cpus[c].(regs := v)];
      }
    }
  }
}
