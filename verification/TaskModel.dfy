/**
 The scheduler's state: per CPU the running task, the idle task, the ready list with its counter,
 the flag CR0.TS (task switched) and the FPU registers; per task its state, its CPU and its FPU
 bookkeeping; and the wait queues. Register contents are opaque numbers.
 */
module TaskModel {
  type Tid = nat
  type Qid = nat
  type Regs = nat

  datatype RunState = Ready | Running | Sleeping | Zombie
  datatype Fpu = Fpu(used: bool, dirty: bool, save: Regs)
  datatype Task = Task(state: RunState, cpuid: nat, isKer: bool, fpu: Fpu)
  datatype Cpu = Cpu(running: Tid, idle: Tid, ready: seq<Tid>, readyNum: int, ts: bool, regs: Regs)
  datatype Sys = Sys(cpus: seq<Cpu>, tasks: map<Tid, Task>, queues: map<Qid, seq<Tid>>)

  function PutCpu(s: Sys, c: nat, x: Cpu): (r: Sys)
    requires c < |s.cpus|
  {
    s.(cpus := s.cpus[c := x])
  }

  function PutTask(s: Sys, t: Tid, x: Task): (r: Sys) {
    s.(tasks := s.tasks[t := x])
  }

  predicate CpuIn(s: Sys, c: int) {
    0 <= c < |s.cpus| && s.cpus[c].running in s.tasks && s.cpus[c].idle in s.tasks
    && forall i :: 0 <= i < |s.cpus[c].ready| ==> s.cpus[c].ready[i] in s.tasks
  }

  // ---- the steps ----

  /** Who __schedule_locked switches to. */
  function Next(s: Sys, c: nat): (t: Tid)
    requires c < |s.cpus|
  {
    if s.cpus[c].ready == [] then s.cpus[c].idle else s.cpus[c].ready[0]
  }

  function PopReady(s: Sys, c: nat): (r: Sys)
    requires c < |s.cpus|
  {
    var x := s.cpus[c];
    if x.ready == [] then s else PutCpu(s, c, x.(ready := x.ready[1..], readyNum := x.readyNum - 1))
  }

  /** handle_fpu_sse for whichever task leaves CPU c: save its registers if it owns them, and set TS. */
  function LeaveFpu(s: Sys, c: nat): (r: Sys)
    requires CpuIn(s, c)
  {
    var x := s.cpus[c];
    var f := s.tasks[x.running];
    PutTask(PutCpu(s, c, x.(ts := true)), x.running,
            if f.fpu.dirty then f.(fpu := f.fpu.(save := x.regs, dirty := false)) else f)
  }

  function Install(s: Sys, c: nat, t: Tid): (r: Sys)
    requires c < |s.cpus| && t in s.tasks
  {
    PutTask(PutCpu(s, c, s.cpus[c].(running := t)), t, s.tasks[t].(state := Running, cpuid := c))
  }

  /** __schedule_locked: run the first ready task, or the idle task. */
  function Switch(s: Sys, c: nat): (r: Sys)
    requires CpuIn(s, c)
  {
    var t := Next(s, c);
    var p := PopReady(s, c);
    Install(if t == s.cpus[c].running then p else LeaveFpu(p, c), c, t)
  }

  /** Mark the running task ready and append it to its CPU's list. */
  function Requeue(s: Sys, c: nat): (r: Sys)
    requires CpuIn(s, c)
  {
    var x := s.cpus[c];
    PutTask(PutCpu(s, c, x.(ready := x.ready + [x.running], readyNum := x.readyNum + 1)),
            x.running, s.tasks[x.running].(state := Ready))
  }

  /** sys_yield. */
  function Yield(s: Sys, c: nat): (r: Sys)
    requires CpuIn(s, c)
  {
    Switch(Requeue(s, c), c)
  }

  /** The tail of timer_intr_soft. */
  function Preempt(s: Sys, c: nat): (r: Sys)
    requires CpuIn(s, c)
  {
    if s.cpus[c].running != s.cpus[c].idle then Yield(s, c) else Switch(s, c)
  }

  function Enqueue(s: Sys, c: nat, q: Qid): (r: Sys)
    requires CpuIn(s, c) && q in s.queues
  {
    var t := s.cpus[c].running;
    PutTask(s.(queues := s.queues[q := s.queues[q] + [t]]), t, s.tasks[t].(state := Sleeping))
  }

  /** sleep_on. */
  function Sleep(s: Sys, c: nat, q: Qid): (r: Sys)
    requires CpuIn(s, c) && q in s.queues
  {
    Switch(Enqueue(s, c, q), c)
  }

  /** put_to_ready_list_first. */
  function PutReady(s: Sys, t: Tid): (r: Sys)
    requires t in s.tasks && s.tasks[t].cpuid < |s.cpus|
  {
    var c := s.tasks[t].cpuid;
    PutCpu(PutTask(s, t, s.tasks[t].(state := Ready)), c,
           s.cpus[c].(ready := [t] + s.cpus[c].ready, readyNum := s.cpus[c].readyNum + 1))
  }

  predicate QueueIn(s: Sys, q: Qid) {
    q in s.queues && forall i :: 0 <= i < |s.queues[q]| ==> s.queues[q][i] in s.tasks && s.tasks[s.queues[q][i]].cpuid < |s.cpus|
  }

  /** wake_up_first. */
  function WakeFirst(s: Sys, q: Qid): (r: Sys)
    requires QueueIn(s, q)
  {
    if s.queues[q] == [] then s
    else PutReady(s.(queues := s.queues[q := s.queues[q][1..]]), s.queues[q][0])
  }

  lemma WakeFirstIn(s: Sys, q: Qid)
    requires QueueIn(s, q)
    ensures QueueIn(WakeFirst(s, q), q)
    ensures WakeFirst(s, q).queues[q] == if s.queues[q] == [] then [] else s.queues[q][1..]
  {
  }

  /** wake_up_all. */
  function WakeAll(s: Sys, q: Qid): (r: Sys)
    requires QueueIn(s, q)
    decreases |s.queues[q]|
  {
    if s.queues[q] == [] then s
    else
      WakeFirstIn(s, q);
      WakeAll(WakeFirst(s, q), q)
  }

  /** sys_exit, as one step: q is the parent's wait queue. */
  function BecomeZombie(s: Sys, c: nat): (r: Sys)
    requires CpuIn(s, c)
  {
    PutTask(s, s.cpus[c].running, s.tasks[s.cpus[c].running].(state := Zombie))
  }

  /** free_task on a zombie. */
  function Reap(s: Sys, t: Tid): (r: Sys) {
    s.(tasks := s.tasks - {t})
  }

  /** add_to_cpu_n_ready_list of a new task. */
  function Start(s: Sys, n: nat, t: Tid, x: Task): (r: Sys)
    requires n < |s.cpus|
  {
    PutReady(PutTask(s, t, x.(state := Ready, cpuid := n)), t)
  }

  /** kernel_thread; junk is what the new save area happens to hold. */
  function Spawn(s: Sys, n: nat, t: Tid, junk: Regs): (r: Sys)
    requires n < |s.cpus|
  {
    Start(s, n, t, Task(Ready, n, true, Fpu(false, false, junk)))
  }

  /** The parent's FPU state as fork_enter leaves it: saved, if it was in the registers. */
  function SaveForFork(s: Sys, c: nat): (f: Fpu)
    requires CpuIn(s, c)
  {
    var f := s.tasks[s.cpus[c].running].fpu;
    if f.used && f.dirty then f.(save := s.cpus[c].regs) else f
  }

  /** fork_enter; a kernel task cannot fork. */
  function Fork(s: Sys, c: nat, child: Tid, junk: Regs): (r: Sys)
    requires CpuIn(s, c)
  {
    var t, f := s.cpus[c].running, SaveForFork(s, c);
    if s.tasks[t].isKer then s
    else Start(PutTask(s, t, s.tasks[t].(fpu := f)), 0, child,
               Task(Ready, 0, false, Fpu(f.used, false, if f.used then f.save else junk)))
  }

  /** The FPU reset at the end of sys_execv. */
  function Exec(s: Sys, c: nat): (r: Sys)
    requires CpuIn(s, c)
  {
    var t := s.cpus[c].running;
    PutCpu(PutTask(s, t, s.tasks[t].(isKer := false, fpu := s.tasks[t].fpu.(used := false, dirty := false))), c,
           s.cpus[c].(ts := true))
  }

  /** The device-not-available exception; fresh is what the registers hold after fninit and ldmxcsr. */
  function Trap(s: Sys, c: nat, fresh_: Regs): (r: Sys)
    requires CpuIn(s, c)
  {
    var t := s.cpus[c].running;
    var f := s.tasks[t].fpu;
    PutCpu(PutTask(s, t, s.tasks[t].(fpu := f.(used := true, dirty := true))), c,
           s.cpus[c].(ts := false, regs := if f.used then f.save else fresh_))
  }

  /** An FPU instruction that leaves v in the registers. */
  function Compute(s: Sys, c: nat, v: Regs): (r: Sys)
    requires c < |s.cpus|
  {
    PutCpu(s, c, s.cpus[c].(regs := v))
  }

  /** task_timer_travel: the last ready task of one CPU goes to the end of another's list. */
  function Migrate(s: Sys, src: nat, dst: nat): (r: Sys)
    requires src < |s.cpus| && dst < |s.cpus| && src != dst && s.cpus[src].ready != []
    requires forall i :: 0 <= i < |s.cpus[src].ready| ==> s.cpus[src].ready[i] in s.tasks
  {
    var x, y := s.cpus[src], s.cpus[dst];
    var t := x.ready[|x.ready| - 1];
    var s1 := PutCpu(s, src, x.(ready := x.ready[..|x.ready| - 1], readyNum := x.readyNum - 1));
    PutTask(PutCpu(s1, dst, y.(ready := y.ready + [t], readyNum := y.readyNum + 1)), t, s.tasks[t].(cpuid := dst))
  }
}
