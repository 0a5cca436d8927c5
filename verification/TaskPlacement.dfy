/**
 Where tasks are: in every reachable state each task other than an idle task is running on one CPU,
 once on one ready list, once on one wait queue, or a zombie.
 */
module TaskPlacement {
  import opened TaskModel

  ghost function Idles(s: Sys): (r: set<Tid>) {
    set c | 0 <= c < |s.cpus| :: s.cpus[c].idle
  }

  ghost predicate NoDup(l: seq<Tid>) {
    forall i, j :: 0 <= i < j < |l| ==> l[i] != l[j]
  }

  ghost predicate ReadyOn(s: Sys, t: Tid, c: int) {
    t in s.tasks && t !in Idles(s) && s.tasks[t].state == Ready && s.tasks[t].cpuid == c
  }

  ghost predicate Asleep(s: Sys, t: Tid) {
    t in s.tasks && t !in Idles(s) && s.tasks[t].state == Sleeping
  }

  /** CPU `off` is between two tasks: its running task has been put elsewhere already. */
  ghost predicate CpuOk(s: Sys, off: int, c: int) {
    && 0 <= c < |s.cpus| && s.cpus[c].idle in s.tasks && s.cpus[c].running in s.tasks
    && s.cpus[c].readyNum == |s.cpus[c].ready| && NoDup(s.cpus[c].ready)
    && (forall i :: 0 <= i < |s.cpus[c].ready| ==> ReadyOn(s, s.cpus[c].ready[i], c))
    && (c != off ==> RunsHere(s, c))
  }

  ghost predicate RunsHere(s: Sys, c: int)
    requires 0 <= c < |s.cpus|
  {
    var t := s.cpus[c].running;
    t == s.cpus[c].idle || (t in s.tasks && t !in Idles(s) && s.tasks[t].state == Running && s.tasks[t].cpuid == c)
  }

  ghost predicate QueueOk(s: Sys, q: Qid) {
    q in s.queues && NoDup(s.queues[q]) && forall i :: 0 <= i < |s.queues[q]| ==> Asleep(s, s.queues[q][i])
  }

  ghost predicate TaskOk(s: Sys, off: int, t: Tid) {
    t in s.tasks && (t !in Idles(s) ==> s.tasks[t].cpuid < |s.cpus| && Placed(s, off, t, s.tasks[t].cpuid))
  }

  ghost predicate Placed(s: Sys, off: int, t: Tid, c: int)
    requires t in s.tasks && 0 <= c < |s.cpus|
  {
    match s.tasks[t].state
    case Running => c != off && s.cpus[c].running == t
    case Ready => t in s.cpus[c].ready
    case Sleeping => exists q :: q in s.queues && t in s.queues[q]
    case Zombie => true
  }

  ghost predicate OneQueue(s: Sys) {
    forall p, q, t :: p in s.queues && q in s.queues && t in s.queues[p] && t in s.queues[q] ==> p == q
  }

  /** What every step keeps; off is -1 between steps. */
  ghost predicate Inv(s: Sys, off: int) {
    && |s.cpus| > 0 && OneQueue(s)
    && (forall c, d :: 0 <= c < d < |s.cpus| ==> s.cpus[c].idle != s.cpus[d].idle)
    && (forall c :: 0 <= c < |s.cpus| ==> CpuOk(s, off, c))
    && (forall q :: q in s.queues ==> QueueOk(s, q))
    && (forall t :: t in s.tasks ==> TaskOk(s, off, t))
  }

  // ---- the place of a task ----

  datatype Place = OnCpu(c: nat) | OnReady(c: nat, i: nat) | OnQueue(q: Qid, i: nat) | Buried

  ghost predicate At(s: Sys, t: Tid, p: Place) {
    match p
    case OnCpu(c) => c < |s.cpus| && s.cpus[c].running == t
    case OnReady(c, i) => c < |s.cpus| && i < |s.cpus[c].ready| && s.cpus[c].ready[i] == t
    case OnQueue(q, i) => q in s.queues && i < |s.queues[q]| && s.queues[q][i] == t
    case Buried => t in s.tasks && s.tasks[t].state == Zombie
  }

  /** Each task that is not an idle task is in exactly one place. */
  lemma PlacedOnce(s: Sys, t: Tid) returns (p: Place)
    requires Inv(s, -1) && t in s.tasks && t !in Idles(s)
    ensures At(s, t, p) && forall p' :: At(s, t, p') ==> p' == p
  {
    hide Idles;
    assert TaskOk(s, -1, t);
    var x := s.tasks[t];
    match x.state {
      case Running => p := OnCpu(x.cpuid);
      case Ready =>
        var i :| 0 <= i < |s.cpus[x.cpuid].ready| && s.cpus[x.cpuid].ready[i] == t;
        p := OnReady(x.cpuid, i);
      case Sleeping =>
        var q :| q in s.queues && t in s.queues[q];
        var i :| 0 <= i < |s.queues[q]| && s.queues[q][i] == t;
        p := OnQueue(q, i);
      case Zombie => p := Buried;
    }
    forall p' | At(s, t, p') ensures p' == p {
      OnlyPlace(s, t, p, p');
    }
  }

  /** A task's place agrees with its state and CPU number. */
  lemma PlaceFits(s: Sys, t: Tid, p: Place)
    requires Inv(s, -1) && t in s.tasks && t !in Idles(s) && At(s, t, p)
    ensures match p
            case OnCpu(c) => s.tasks[t].state == Running && s.tasks[t].cpuid == c
            case OnReady(c, i) => s.tasks[t].state == Ready && s.tasks[t].cpuid == c
            case OnQueue(q, i) => s.tasks[t].state == Sleeping
            case Buried => s.tasks[t].state == Zombie
  {
    match p
    case OnCpu(c) => assert CpuOk(s, -1, c); assert s.cpus[c].idle in Idles(s);
    case OnReady(c, i) => assert CpuOk(s, -1, c); assert ReadyOn(s, s.cpus[c].ready[i], c);
    case OnQueue(q, i) => assert QueueOk(s, q); assert Asleep(s, s.queues[q][i]);
    case Buried =>
  }

  lemma OnlyPlace(s: Sys, t: Tid, p: Place, p': Place)
    requires Inv(s, -1) && t in s.tasks && t !in Idles(s) && At(s, t, p) && At(s, t, p')
    ensures p == p'
  {
    hide Idles;
    PlaceFits(s, t, p);
    PlaceFits(s, t, p');
    match p
    case OnCpu(c) =>
    case OnReady(c, i) => assert CpuOk(s, -1, c);
    case OnQueue(q, i) => assert QueueOk(s, q); assert t in s.queues[q] && t in s.queues[p'.q];
    case Buried =>
  }

  /** Idle tasks are on no list. */
  lemma IdleNeverQueued(s: Sys, t: Tid)
    requires Inv(s, -1) && t in Idles(s)
    ensures forall c :: 0 <= c < |s.cpus| ==> t !in s.cpus[c].ready
    ensures forall q :: q in s.queues ==> t !in s.queues[q]
  {
    hide Idles;
    forall c | 0 <= c < |s.cpus| ensures t !in s.cpus[c].ready {
      assert CpuOk(s, -1, c);
      assert forall i :: 0 <= i < |s.cpus[c].ready| ==> ReadyOn(s, s.cpus[c].ready[i], c);
    }
    forall q | q in s.queues ensures t !in s.queues[q] {
      assert QueueOk(s, q);
      assert forall i :: 0 <= i < |s.queues[q]| ==> Asleep(s, s.queues[q][i]);
    }
  }

  // ---- the steps keep the invariant ----

  /** Two states that differ only in FPU matters. */
  ghost predicate Similar(s: Sys, s': Sys) {
    && |s'.cpus| == |s.cpus| && s'.queues == s.queues && s'.tasks.Keys == s.tasks.Keys
    && (forall c :: 0 <= c < |s.cpus| ==> SameLists(s.cpus[c], s'.cpus[c]))
    && (forall t :: t in s.tasks ==> s'.tasks[t].state == s.tasks[t].state && s'.tasks[t].cpuid == s.tasks[t].cpuid)
  }

  predicate SameLists(x: Cpu, y: Cpu) {
    x.running == y.running && x.idle == y.idle && x.ready == y.ready && x.readyNum == y.readyNum
  }

  ghost predicate SameIdle(s: Sys, s': Sys) {
    |s'.cpus| == |s.cpus| && forall c :: 0 <= c < |s.cpus| ==> s'.cpus[c].idle == s.cpus[c].idle
  }

  lemma IdlesKept(s: Sys, s': Sys)
    requires SameIdle(s, s')
    ensures Idles(s) == Idles(s')
  {
    forall t ensures t in Idles(s) <==> t in Idles(s') {
      if t in Idles(s) {
        var c :| 0 <= c < |s.cpus| && s.cpus[c].idle == t;
        assert s'.cpus[c].idle == t;
      }
      if t in Idles(s') {
        var c :| 0 <= c < |s.cpus| && s'.cpus[c].idle == t;
        assert s.cpus[c].idle == t;
      }
    }
  }

  lemma SimilarOk(s: Sys, s': Sys, off: int)
    requires Inv(s, off) && Similar(s, s')
    ensures Inv(s', off)
  {
    hide Idles;
    IdlesKept(s, s');
    forall c | 0 <= c < |s.cpus| ensures CpuOk(s', off, c) {
      assert CpuOk(s, off, c) && SameLists(s.cpus[c], s'.cpus[c]);
      forall i | 0 <= i < |s.cpus[c].ready| ensures ReadyOn(s', s.cpus[c].ready[i], c) {
        assert ReadyOn(s, s.cpus[c].ready[i], c);
      }
    }
    forall q | q in s.queues ensures QueueOk(s', q) {
      assert QueueOk(s, q);
      forall i | 0 <= i < |s.queues[q]| ensures Asleep(s', s.queues[q][i]) {
        assert Asleep(s, s.queues[q][i]);
      }
    }
    forall t | t in s.tasks ensures TaskOk(s', off, t) {
      assert TaskOk(s, off, t);
    }
  }

  /** Tasks other than x keep their state and CPU number. */
  ghost predicate OthersKept(s: Sys, s': Sys, x: Tid) {
    && s'.tasks.Keys + {x} == s.tasks.Keys + {x}
    && forall t :: t in s.tasks && t != x ==> s'.tasks[t].state == s.tasks[t].state && s'.tasks[t].cpuid == s.tasks[t].cpuid
  }

  /** On the lists, only the place of x may differ. */
  ghost predicate ListsKept(s: Sys, s': Sys, x: Tid) {
    && SameIdle(s, s')
    && (forall c, t :: 0 <= c < |s.cpus| && t != x ==> (t in s'.cpus[c].ready <==> t in s.cpus[c].ready))
    && s'.queues.Keys == s.queues.Keys
    && (forall q, t :: q in s.queues && t != x ==> (t in s'.queues[q] <==> t in s.queues[q]))
  }

  /** x is on exactly the lists its state says. */
  ghost predicate Fits(s: Sys, x: Tid) {
    && (forall c :: 0 <= c < |s.cpus| && x in s.cpus[c].ready ==> ReadyOn(s, x, c))
    && (forall q :: q in s.queues && x in s.queues[q] ==> Asleep(s, x))
    && (forall p, q :: p in s.queues && q in s.queues && x in s.queues[p] && x in s.queues[q] ==> p == q)
  }

  ghost predicate Counted(s: Sys) {
    && (forall c :: 0 <= c < |s.cpus| ==> s.cpus[c].readyNum == |s.cpus[c].ready| && NoDup(s.cpus[c].ready))
    && (forall q :: q in s.queues ==> NoDup(s.queues[q]))
  }

  /** The invariant after one task x has moved. */
  lemma MoveOk(s: Sys, off: int, s': Sys, off': int, x: Tid)
    requires Inv(s, off) && OthersKept(s, s', x) && ListsKept(s, s', x) && Fits(s', x) && Counted(s')
    requires x in s'.tasks ==> TaskOk(s', off', x)
    requires x !in s'.tasks ==> x !in Idles(s)
    requires forall c :: 0 <= c < |s.cpus| ==> s'.cpus[c].running in s'.tasks && (c != off' ==> RunsHere(s', c))
    requires forall t :: t in s'.tasks && t != x && t !in Idles(s) && s'.tasks[t].state == Running ==> TaskOk(s', off', t)
    ensures Inv(s', off')
  {
    hide Idles, NoDup, RunsHere;
    IdlesKept(s, s');
    forall c | 0 <= c < |s.cpus| ensures CpuOk(s', off', c) {
      assert CpuOk(s, off, c);
      assert s.cpus[c].idle in Idles(s) by { IdleIn(s, c); }
      forall i | 0 <= i < |s'.cpus[c].ready| ensures ReadyOn(s', s'.cpus[c].ready[i], c) {
        MoveReady(s, off, s', x, c, s'.cpus[c].ready[i]);
      }
    }
    forall q | q in s'.queues ensures QueueOk(s', q) {
      assert QueueOk(s, q);
      forall i | 0 <= i < |s'.queues[q]| ensures Asleep(s', s'.queues[q][i]) {
        MoveAsleep(s, off, s', x, q, s'.queues[q][i]);
      }
    }
    forall t | t in s'.tasks ensures TaskOk(s', off', t) {
      if t != x && t in s.tasks { MoveTask(s, off, s', off', x, t); }
    }
  }

  lemma IdleIn(s: Sys, c: nat)
    requires c < |s.cpus|
    ensures s.cpus[c].idle in Idles(s)
  {
  }

  lemma MoveReady(s: Sys, off: int, s': Sys, x: Tid, c: nat, t: Tid)
    requires Inv(s, off) && OthersKept(s, s', x) && ListsKept(s, s', x) && Fits(s', x) && Idles(s) == Idles(s')
    requires c < |s.cpus| && t in s'.cpus[c].ready
    ensures ReadyOn(s', t, c)
  {
    hide Idles;
    if t != x {
      assert CpuOk(s, off, c) && t in s.cpus[c].ready;
      var i :| 0 <= i < |s.cpus[c].ready| && s.cpus[c].ready[i] == t;
      assert ReadyOn(s, s.cpus[c].ready[i], c);
      assert t in s.tasks.Keys + {x} && t in s'.tasks.Keys + {x};
    }
  }

  lemma MoveAsleep(s: Sys, off: int, s': Sys, x: Tid, q: Qid, t: Tid)
    requires Inv(s, off) && OthersKept(s, s', x) && ListsKept(s, s', x) && Fits(s', x) && Idles(s) == Idles(s')
    requires q in s'.queues && t in s'.queues[q]
    ensures Asleep(s', t)
  {
    hide Idles;
    if t != x {
      assert QueueOk(s, q) && t in s.queues[q];
      var i :| 0 <= i < |s.queues[q]| && s.queues[q][i] == t;
      assert Asleep(s, s.queues[q][i]);
      assert t in s.tasks.Keys + {x} && t in s'.tasks.Keys + {x};
    }
  }

  lemma MoveTask(s: Sys, off: int, s': Sys, off': int, x: Tid, t: Tid)
    requires Inv(s, off) && OthersKept(s, s', x) && ListsKept(s, s', x) && Idles(s) == Idles(s')
    requires t in s.tasks && t in s'.tasks && t != x
    requires t !in Idles(s) && s'.tasks[t].state == Running ==> TaskOk(s', off', t)
    ensures TaskOk(s', off', t)
  {
    hide Idles;
    assert TaskOk(s, off, t);
    if t !in Idles(s) && s.tasks[t].state == Sleeping {
      var q :| q in s.queues && t in s.queues[q];
      assert t in s'.queues[q];
    }
  }

  lemma Parts(s: Sys, off: int, c: nat)
    requires Inv(s, off) && c < |s.cpus|
    ensures CpuIn(s, c) && CpuOk(s, off, c) && Counted(s)
  {
    hide Idles;
    assert CpuOk(s, off, c);
    forall d | 0 <= d < |s.cpus| ensures s.cpus[d].readyNum == |s.cpus[d].ready| && NoDup(s.cpus[d].ready) {
      assert CpuOk(s, off, d);
    }
    forall q | q in s.queues ensures NoDup(s.queues[q]) { assert QueueOk(s, q); }
    forall i | 0 <= i < |s.cpus[c].ready| ensures s.cpus[c].ready[i] in s.tasks {
      assert ReadyOn(s, s.cpus[c].ready[i], c);
    }
  }

  /** The lists x is on, from its state. */
  lemma WhereIs(s: Sys, off: int, x: Tid)
    requires Inv(s, off)
    ensures Fits(s, x)
    ensures x !in s.tasks || x in Idles(s) || s.tasks[x].state in {Running, Zombie} ==> Unlisted(s, x)
  {
    hide Idles;
    forall c | 0 <= c < |s.cpus| && x in s.cpus[c].ready ensures ReadyOn(s, x, c) {
      assert CpuOk(s, off, c);
      var i :| 0 <= i < |s.cpus[c].ready| && s.cpus[c].ready[i] == x;
      assert ReadyOn(s, s.cpus[c].ready[i], c);
    }
    forall q | q in s.queues && x in s.queues[q] ensures Asleep(s, x) {
      assert QueueOk(s, q);
      var i :| 0 <= i < |s.queues[q]| && s.queues[q][i] == x;
      assert Asleep(s, s.queues[q][i]);
    }
  }

  ghost predicate Unlisted(s: Sys, x: Tid) {
    && (forall c :: 0 <= c < |s.cpus| ==> x !in s.cpus[c].ready)
    && (forall q :: q in s.queues ==> x !in s.queues[q])
  }

  function RunNext(s: Sys, c: nat): (r: Sys)
    requires CpuIn(s, c)
  {
    Install(PopReady(s, c), c, Next(s, c))
  }

  lemma SwitchFpuFirst(s: Sys, c: nat)
    requires CpuIn(s, c)
    ensures Next(s, c) == s.cpus[c].running ==> Switch(s, c) == RunNext(s, c)
    ensures Next(s, c) != s.cpus[c].running ==> CpuIn(LeaveFpu(s, c), c) && Switch(s, c) == RunNext(LeaveFpu(s, c), c)
  {
    if Next(s, c) != s.cpus[c].running {
      var a, b := Switch(s, c), RunNext(LeaveFpu(s, c), c);
      assert a.cpus == b.cpus && a.tasks == b.tasks;
    }
  }

  /** A CPU that has given up its task runs the next one. */
  lemma RunNextOk(s: Sys, c: nat)
    requires Inv(s, c) && CpuIn(s, c)
    ensures Inv(RunNext(s, c), -1)
  {
    hide Idles, NoDup, Inv, CpuOk, QueueOk, RunsHere;
    var s', x := RunNext(s, c), Next(s, c);
    Parts(s, c, c);
    IdlesKept(s, s');
    IdleIn(s, c);
    WhereIs(s, c, x);
    if s.cpus[c].ready != [] {
      ReadyEntry(s, c, c, 0);
      NoDupTail(s.cpus[c].ready);
    }
    OthersRun(s, c, s', x);
    MoveOk(s, c, s', -1, x);
  }

  /** Installing x on CPU c leaves the other CPUs' tasks where they are. */
  lemma OthersRun(s: Sys, c: nat, s': Sys, x: Tid)
    requires Inv(s, c) && c < |s.cpus| && x in s.tasks
             && (x == s.cpus[c].idle || (x !in Idles(s) && s.tasks[x].state == Ready))
    requires SameIdle(s, s') && s'.tasks == s.tasks[x := s.tasks[x].(state := Running, cpuid := c)]
    requires s'.cpus[c].running == x
             && forall d :: 0 <= d < |s.cpus| && d != c ==> s'.cpus[d].running == s.cpus[d].running
    ensures forall d :: 0 <= d < |s.cpus| ==> s'.cpus[d].running in s'.tasks && RunsHere(s', d)
    ensures forall t :: t in s'.tasks && t != x && t !in Idles(s) && s'.tasks[t].state == Running ==> TaskOk(s', -1, t)
  {
    hide Idles, NoDup;
    IdlesKept(s, s');
    IdleIn(s, c);
    forall d | 0 <= d < |s.cpus| && d != c ensures RunsHere(s', d) && s'.cpus[d].running in s'.tasks {
      assert CpuOk(s, c, d);
      assert s.cpus[d].idle != s.cpus[c].idle;
      IdleIn(s, d);
    }
    forall t | t in s'.tasks && t != x && t !in Idles(s) && s'.tasks[t].state == Running ensures TaskOk(s', -1, t) {
      assert TaskOk(s, c, t);
    }
  }

  lemma ReadyEntry(s: Sys, off: int, c: nat, i: nat)
    requires Inv(s, off) && c < |s.cpus| && i < |s.cpus[c].ready|
    ensures ReadyOn(s, s.cpus[c].ready[i], c)
  {
    assert CpuOk(s, off, c);
  }

  lemma SleepEntry(s: Sys, off: int, q: Qid, i: nat)
    requires Inv(s, off) && q in s.queues && i < |s.queues[q]|
    ensures Asleep(s, s.queues[q][i]) && s.tasks[s.queues[q][i]].cpuid < |s.cpus|
  {
    assert QueueOk(s, q) && Asleep(s, s.queues[q][i]) && TaskOk(s, off, s.queues[q][i]);
  }

  lemma NoDupTail(l: seq<Tid>)
    requires l != [] && NoDup(l)
    ensures NoDup(l[1..]) && l[0] !in l[1..] && forall t :: t != l[0] ==> (t in l[1..] <==> t in l)
  {
    assert l == [l[0]] + l[1..];
  }

  lemma NoDupPut(l: seq<Tid>, t: Tid)
    requires NoDup(l) && t !in l
    ensures NoDup(l + [t]) && NoDup([t] + l)
    ensures forall x :: x != t ==> (x in l + [t] <==> x in l) && (x in [t] + l <==> x in l)
  {
  }

  /** __schedule_locked completes a step. */
  lemma SwitchOk(s: Sys, c: nat)
    requires Inv(s, c) && CpuIn(s, c)
    ensures Inv(Switch(s, c), -1)
  {
    hide Idles, Inv;
    SwitchFpuFirst(s, c);
    if Next(s, c) == s.cpus[c].running {
      RunNextOk(s, c);
    } else {
      SimilarOk(s, LeaveFpu(s, c), c);
      RunNextOk(LeaveFpu(s, c), c);
    }
  }

  /** An idle task needs no other place. */
  lemma IdleLeaves(s: Sys, c: nat)
    requires Inv(s, -1) && c < |s.cpus| && s.cpus[c].running == s.cpus[c].idle
    ensures Inv(s, c)
  {
    hide Idles;
    IdleIn(s, c);
    forall d | 0 <= d < |s.cpus| ensures CpuOk(s, c, d) { assert CpuOk(s, -1, d); }
    forall t | t in s.tasks ensures TaskOk(s, c, t) { assert TaskOk(s, -1, t); }
  }

  /** The running task of CPU c has moved to the state of s'; nothing else has. */
  lemma LeaveOk(s: Sys, c: nat, s': Sys)
    requires Inv(s, -1) && CpuIn(s, c) && s.cpus[c].running !in Idles(s)
    requires OthersKept(s, s', s.cpus[c].running) && ListsKept(s, s', s.cpus[c].running)
    requires Fits(s', s.cpus[c].running) && Counted(s') && TaskOk(s', c, s.cpus[c].running)
    requires forall d :: 0 <= d < |s.cpus| ==> s'.cpus[d].running == s.cpus[d].running
    ensures Inv(s', c)
  {
    hide Idles, NoDup;
    var x := s.cpus[c].running;
    IdlesKept(s, s');
    IdleIn(s, c);
    assert CpuOk(s, -1, c) && s.tasks[x].cpuid == c;
    forall d | 0 <= d < |s.cpus| ensures s'.cpus[d].running in s'.tasks && (d != c ==> RunsHere(s', d)) {
      assert CpuOk(s, -1, d);
      IdleIn(s, d);
    }
    forall t | t in s'.tasks && t != x && t !in Idles(s) && s'.tasks[t].state == Running ensures TaskOk(s', c, t) {
      assert TaskOk(s, -1, t);
    }
    MoveOk(s, -1, s', c, x);
  }

  lemma RequeueOk(s: Sys, c: nat)
    requires Inv(s, -1) && CpuIn(s, c) && s.cpus[c].running !in Idles(s)
    ensures Inv(Requeue(s, c), c) && CpuIn(Requeue(s, c), c)
  {
    hide Idles, NoDup;
    var s', x := Requeue(s, c), s.cpus[c].running;
    Parts(s, -1, c);
    IdleIn(s, c);
    IdlesKept(s, s');
    WhereIs(s, -1, x);
    NoDupPut(s.cpus[c].ready, x);
    LeaveOk(s, c, s');
  }

  lemma EnqueueOk(s: Sys, c: nat, q: Qid)
    requires Inv(s, -1) && CpuIn(s, c) && s.cpus[c].running !in Idles(s) && q in s.queues
    ensures Inv(Enqueue(s, c, q), c) && CpuIn(Enqueue(s, c, q), c)
  {
    hide Idles, NoDup;
    var s', x := Enqueue(s, c, q), s.cpus[c].running;
    Parts(s, -1, c);
    IdleIn(s, c);
    IdlesKept(s, s');
    WhereIs(s, -1, x);
    NoDupPut(s.queues[q], x);
    assert x in s'.queues[q];
    LeaveOk(s, c, s');
  }

  lemma BecomeZombieOk(s: Sys, c: nat)
    requires Inv(s, -1) && CpuIn(s, c) && s.cpus[c].running !in Idles(s)
    ensures Inv(BecomeZombie(s, c), c) && CpuIn(BecomeZombie(s, c), c)
  {
    hide Idles, NoDup;
    var s', x := BecomeZombie(s, c), s.cpus[c].running;
    Parts(s, -1, c);
    IdleIn(s, c);
    IdlesKept(s, s');
    WhereIs(s, -1, x);
    LeaveOk(s, c, s');
  }

  /** A task x that runs nowhere has moved to the state of s'; nothing else has. */
  lemma PutOk(s: Sys, off: int, s': Sys, x: Tid)
    requires Inv(s, off) && x !in Idles(s) && (x in s.tasks ==> s.tasks[x].state != Running)
    requires OthersKept(s, s', x) && ListsKept(s, s', x) && Fits(s', x) && Counted(s')
    requires x in s'.tasks ==> TaskOk(s', off, x)
    requires forall d :: 0 <= d < |s.cpus| ==> s'.cpus[d].running == s.cpus[d].running
    requires 0 <= off < |s.cpus| ==> s.cpus[off].running in s'.tasks
    ensures Inv(s', off)
  {
    hide Idles, NoDup;
    IdlesKept(s, s');
    forall d | 0 <= d < |s.cpus| ensures s'.cpus[d].running in s'.tasks && (d != off ==> RunsHere(s', d)) {
      assert CpuOk(s, off, d);
      IdleIn(s, d);
      assert s.cpus[d].running in s.tasks.Keys + {x} && s.cpus[d].running in s'.tasks.Keys + {x};
    }
    forall t | t in s'.tasks && t != x && t !in Idles(s) && s'.tasks[t].state == Running ensures TaskOk(s', off, t) {
      assert t in s.tasks.Keys + {x};
      assert TaskOk(s, off, t);
    }
    MoveOk(s, off, s', off, x);
  }

  lemma WakeFirstOk(s: Sys, off: int, q: Qid)
    requires Inv(s, off) && q in s.queues
    ensures QueueIn(s, q) && Inv(WakeFirst(s, q), off)
  {
    hide Idles, NoDup, Inv, CpuOk, QueueOk, RunsHere;
    forall i | 0 <= i < |s.queues[q]| ensures s.queues[q][i] in s.tasks && s.tasks[s.queues[q][i]].cpuid < |s.cpus| {
      SleepEntry(s, off, q, i);
    }
    if s.queues[q] != [] {
      var s', x := WakeFirst(s, q), s.queues[q][0];
      SleepEntry(s, off, q, 0);
      assert x in s.queues[q];
      Parts(s, off, s.tasks[x].cpuid);
      IdlesKept(s, s');
      WhereIs(s, off, x);
      NoDupTail(s.queues[q]);
      NoDupPut(s.cpus[s.tasks[x].cpuid].ready, x);
      if 0 <= off < |s.cpus| { Parts(s, off, off); }
      PutOk(s, off, s', x);
    }
  }

  lemma {:induction false} WakeAllOk(s: Sys, off: int, q: Qid)
    requires Inv(s, off) && QueueIn(s, q)
    ensures Inv(WakeAll(s, q), off)
    ensures WakeAll(s, q).queues.Keys == s.queues.Keys && WakeAll(s, q).queues[q] == []
    ensures SameIdle(s, WakeAll(s, q))
            && forall c :: 0 <= c < |s.cpus| ==> WakeAll(s, q).cpus[c].running == s.cpus[c].running
    decreases |s.queues[q]|
  {
    hide Inv;
    if s.queues[q] != [] {
      WakeFirstOk(s, off, q);
      WakeFirstIn(s, q);
      WakeAllOk(WakeFirst(s, q), off, q);
    }
  }

  lemma StartOk(s: Sys, n: nat, t: Tid, x: Task)
    requires Inv(s, -1) && n < |s.cpus| && t !in s.tasks
    ensures Inv(Start(s, n, t, x), -1)
  {
    hide Idles, NoDup;
    var s' := Start(s, n, t, x);
    Parts(s, -1, n);
    NotIdle(s, t);
    IdlesKept(s, s');
    WhereIs(s, -1, t);
    NoDupPut(s.cpus[n].ready, t);
    PutOk(s, -1, s', t);
  }

  lemma NotIdle(s: Sys, t: Tid)
    requires Inv(s, -1) && t !in s.tasks
    ensures t !in Idles(s)
  {
    forall c | 0 <= c < |s.cpus| ensures s.cpus[c].idle != t { assert CpuOk(s, -1, c); }
  }

  lemma ReapOk(s: Sys, t: Tid)
    requires Inv(s, -1) && t in s.tasks && t !in Idles(s) && s.tasks[t].state == Zombie
    ensures Inv(Reap(s, t), -1)
  {
    hide Idles, NoDup;
    var s' := Reap(s, t);
    Parts(s, -1, 0);
    IdlesKept(s, s');
    WhereIs(s, -1, t);
    PutOk(s, -1, s', t);
  }

  lemma MigrateOk(s: Sys, src: nat, dst: nat)
    requires Inv(s, -1) && src < |s.cpus| && dst < |s.cpus| && src != dst && s.cpus[src].ready != []
    ensures CpuIn(s, src) && Inv(Migrate(s, src, dst), -1)
  {
    hide Idles, NoDup, Inv, CpuOk, QueueOk, RunsHere;
    Parts(s, -1, src);
    var s', l := Migrate(s, src, dst), s.cpus[src].ready;
    var x := l[|l| - 1];
    ReadyEntry(s, -1, src, |l| - 1);
    IdlesKept(s, s');
    WhereIs(s, -1, x);
    NoDupInit(l);
    NoDupPut(s.cpus[dst].ready, x);
    PutOk(s, -1, s', x);
  }

  lemma NoDupInit(l: seq<Tid>)
    requires l != [] && NoDup(l)
    ensures var i, x := l[..|l| - 1], l[|l| - 1]; NoDup(i) && x !in i && forall t :: t != x ==> (t in i <==> t in l)
  {
    assert l == l[..|l| - 1] + [l[|l| - 1]];
  }

  // ---- whole operations ----

  lemma YieldOk(s: Sys, c: nat)
    requires Inv(s, -1) && CpuIn(s, c) && s.cpus[c].running !in Idles(s)
    ensures Inv(Yield(s, c), -1)
  {
    hide Inv, Idles;
    RequeueOk(s, c);
    SwitchOk(Requeue(s, c), c);
  }
}
