/**
 The sleeping mutex of src/lib/lock.c as interleaved atomic steps of any number of tasks. Each task
 has a program counter; `spin` is the holder of the queue lock, `queue` the wait queue. A step is one
 access to the lock's words, so tasks interleave between any two of them.
 */
module Mutex {
  import opened Common

  type Tid = nat

  datatype Pc =
    | Outside
    | LockSpin | LockCas | LockTaken | LockQueue | LockSleep | Asleep | Woken | Lost
    | Holding
    | UnlockSpin | UnlockClear | UnlockWake | UnlockDone
    | TrySpin | TryCas | TryTaken | TryFailed

  datatype Lock = Lock(locked: bool, spin: Option<Tid>, queue: seq<Tid>, pc: map<Tid, Pc>)

  /** The program counters at which a task owns the mutex. */
  predicate Owns(p: Pc) {
    p in {LockTaken, Holding, UnlockSpin, UnlockClear, TryTaken}
  }

  /** The program counters at which a task holds the queue lock. */
  predicate InQueueLock(p: Pc) {
    p in {LockCas, LockTaken, LockQueue, LockSleep, UnlockClear, UnlockWake, UnlockDone, TryCas, TryTaken, TryFailed}
  }

  /** The program counters at which a task is on the wait queue. */
  predicate Waits(p: Pc) {
    p in {LockSleep, Asleep}
  }

  datatype Action =
    | CallLock | CallTry | CallUnlock
    | GetSpin
    | CompareAndSwap
    | LeaveTaken | LeaveFailed
    | Enqueue | Sleep
    | TestAndSet
    | Clear | Wake | LeaveDone

  predicate Enabled(l: Lock, t: Tid, a: Action) {
    t in l.pc && match a
    case CallLock => l.pc[t] == Outside
    case CallTry => l.pc[t] == Outside
    case CallUnlock => l.pc[t] == Holding
    case GetSpin => l.pc[t] in {LockSpin, UnlockSpin, TrySpin} && l.spin == None
    case CompareAndSwap => l.pc[t] in {LockCas, TryCas}
    case LeaveTaken => l.pc[t] in {LockTaken, TryTaken}
    case LeaveFailed => l.pc[t] == TryFailed
    case Enqueue => l.pc[t] == LockQueue
    case Sleep => l.pc[t] == LockSleep
    case TestAndSet => l.pc[t] == Woken
    case Clear => l.pc[t] == UnlockClear
    case Wake => l.pc[t] == UnlockWake && (l.queue != [] ==> l.queue[0] in l.pc)
    case LeaveDone => l.pc[t] == UnlockDone
  }

  function Go(l: Lock, t: Tid, p: Pc): (r: Lock) {
    l.(pc := l.pc[t := p])
  }

  function Do(l: Lock, t: Tid, a: Action): (r: Lock)
    requires Enabled(l, t, a)
  {
    match a
    case CallLock => Go(l, t, LockSpin)
    case CallTry => Go(l, t, TrySpin)
    case CallUnlock => Go(l, t, UnlockSpin)
    case GetSpin => Go(l.(spin := Some(t)), t, if l.pc[t] == LockSpin then LockCas else if l.pc[t] == TrySpin then TryCas else UnlockClear)
    case CompareAndSwap =>
      if !l.locked then Go(l.(locked := true), t, if l.pc[t] == LockCas then LockTaken else TryTaken)
      else Go(l, t, if l.pc[t] == LockCas then LockQueue else TryFailed)
    case LeaveTaken => Go(l.(spin := None), t, Holding)
    case LeaveFailed => Go(l.(spin := None), t, Outside)
    case Enqueue => Go(l.(queue := l.queue + [t]), t, LockSleep)
    case Sleep => Go(l.(spin := None), t, Asleep)
    // a failed retry calls schedule(), after which it is on no list and never runs again
    case TestAndSet => if l.locked then Go(l, t, Lost) else Go(l.(locked := true), t, Holding)
    case Clear => Go(l.(locked := false), t, UnlockWake)
    case Wake =>
      if l.queue == [] then Go(l, t, UnlockDone)
      else Go(Go(l.(queue := l.queue[1..]), l.queue[0], Woken), t, UnlockDone)
    case LeaveDone => Go(l.(spin := None), t, Outside)
  }

  ghost predicate QueueOk(l: Lock) {
    && (forall i, j :: 0 <= i < j < |l.queue| ==> l.queue[i] != l.queue[j])
    && (forall i :: 0 <= i < |l.queue| ==> l.queue[i] in l.pc)
    && (forall t :: t in l.pc ==> (t in l.queue <==> Waits(l.pc[t])))
  }

  ghost predicate OwnerOk(l: Lock) {
    && (forall t, u :: t in l.pc && u in l.pc && Owns(l.pc[t]) && Owns(l.pc[u]) ==> t == u)
    && (l.locked <==> exists t :: t in l.pc && Owns(l.pc[t]))
  }

  ghost predicate SpinOk(l: Lock) {
    forall t :: t in l.pc ==> (InQueueLock(l.pc[t]) <==> l.spin == Some(t))
  }

  /** What every step keeps: the lock words say who is where. */
  ghost predicate Inv(l: Lock) {
    OwnerOk(l) && SpinOk(l) && QueueOk(l)
  }

  ghost predicate Initial(l: Lock) {
    !l.locked && l.spin == None && l.queue == [] && forall t :: t in l.pc ==> l.pc[t] == Outside
  }

  lemma InitialOk(l: Lock)
    requires Initial(l)
    ensures Inv(l) && Attended(l)
  {
  }

  /** Task t moves to p and the words change to match: the lock word with ownership, the spin word with it. */
  lemma MoveOk(l: Lock, t: Tid, p: Pc, locked: bool, spin: Option<Tid>)
    requires Inv(l) && t in l.pc && Waits(p) == Waits(l.pc[t])
    requires Owns(p) ==> locked && (Owns(l.pc[t]) || !l.locked)
    requires !Owns(p) ==> locked == (l.locked && !Owns(l.pc[t]))
    requires InQueueLock(p) ==> spin == Some(t) && (l.spin == None || l.spin == Some(t))
    requires !InQueueLock(p) ==> spin == if InQueueLock(l.pc[t]) then None else l.spin
    ensures Inv(Lock(locked, spin, l.queue, l.pc[t := p]))
  {
    hide Owns, InQueueLock, Waits;
    var r := Lock(locked, spin, l.queue, l.pc[t := p]);
    if l.locked && !Owns(l.pc[t]) {
      var o :| o in l.pc && Owns(l.pc[o]);
      assert o in r.pc && Owns(r.pc[o]);
    }
    assert Owns(p) ==> t in r.pc && Owns(r.pc[t]);
  }

  lemma EnqueueOk(l: Lock, t: Tid)
    requires Inv(l) && Enabled(l, t, Enqueue)
    ensures Inv(Do(l, t, Enqueue))
  {
    OwnersAside(l, t, LockSleep);
    SpinAside(l, t, LockSleep);
  }

  lemma OwnersAside(l: Lock, t: Tid, p: Pc)
    requires OwnerOk(l) && t in l.pc && !Owns(l.pc[t]) && !Owns(p)
    ensures OwnerOk(Go(l, t, p))
  {
    hide Owns;
    if l.locked {
      var o :| o in l.pc && Owns(l.pc[o]);
      assert o in Go(l, t, p).pc && Owns(Go(l, t, p).pc[o]);
    }
  }

  lemma SpinAside(l: Lock, t: Tid, p: Pc)
    requires SpinOk(l) && t in l.pc && InQueueLock(l.pc[t]) == InQueueLock(p)
    ensures SpinOk(Go(l, t, p))
  {
  }

  lemma WakeOk(l: Lock, t: Tid)
    requires Inv(l) && Enabled(l, t, Wake) && l.queue != []
    ensures Inv(Do(l, t, Wake))
  {
    hide QueueOk, OwnerOk, SpinOk;
    var w := l.queue[0];
    FirstWaits(l);
    Words(l, t);
    Words(l, w);
    var m := Go(l, w, Woken);
    OwnersAside(l, w, Woken);
    SpinAside(l, w, Woken);
    OwnersAside(m, t, UnlockDone);
    SpinAside(m, t, UnlockDone);
    WordsOnly(Go(m, t, UnlockDone), Do(l, t, Wake));
    Dequeued(l, t);
  }

  lemma WordsOnly(l: Lock, r: Lock)
    requires OwnerOk(l) && SpinOk(l) && r.locked == l.locked && r.spin == l.spin && r.pc == l.pc
    ensures OwnerOk(r) && SpinOk(r)
  {
  }

  lemma Dequeued(l: Lock, t: Tid)
    requires QueueOk(l) && l.queue != [] && t in l.pc && !Waits(l.pc[t])
    ensures QueueOk(Go(Go(l.(queue := l.queue[1..]), l.queue[0], Woken), t, UnlockDone))
  {
    hide Waits;
    assert !Waits(Woken) && !Waits(UnlockDone) by { NotWaiting(); }
    assert l.queue == [l.queue[0]] + l.queue[1..];
  }

  lemma NotWaiting()
    ensures !Waits(Woken) && !Waits(UnlockDone)
  {
  }

  lemma FirstWaits(l: Lock)
    requires QueueOk(l) && l.queue != []
    ensures l.queue[0] in l.pc && Waits(l.pc[l.queue[0]])
  {
    assert l.queue[0] in l.queue;
  }

  /** Every step of every task keeps the invariant. */
  lemma StepOk(l: Lock, t: Tid, a: Action)
    requires Inv(l) && Enabled(l, t, a)
    ensures Inv(Do(l, t, a))
  {
    hide Inv;
    Words(l, t);
    if a == Enqueue {
      EnqueueOk(l, t);
    } else if a == Wake && l.queue != [] {
      WakeOk(l, t);
    } else {
      var r := Do(l, t, a);
      MoveOk(l, t, r.pc[t], r.locked, r.spin);
    }
  }

  lemma Words(l: Lock, t: Tid)
    requires Inv(l) && t in l.pc
    ensures InQueueLock(l.pc[t]) <==> l.spin == Some(t)
    ensures Owns(l.pc[t]) ==> l.locked
  {
  }

  ghost predicate Legal(l: Lock, run: seq<(Tid, Action)>)
    decreases |run|
  {
    run == [] || (Enabled(l, run[0].0, run[0].1) && Legal(Do(l, run[0].0, run[0].1), run[1..]))
  }

  ghost function After(l: Lock, run: seq<(Tid, Action)>): (r: Lock)
    requires Legal(l, run)
    decreases |run|
  {
    if run == [] then l else After(Do(l, run[0].0, run[0].1), run[1..])
  }

  // ---- no wake-up is lost ----

  predicate WillTry(p: Pc) {
    p in {UnlockWake, Woken}
  }

  /**
   While tasks wait and the mutex is free, some task is about to wake one or has been woken; and a task that is
   about to queue finds the mutex taken, so that an unlock is still to come.
   */
  ghost predicate Attended(l: Lock) {
    && (l.queue != [] && !l.locked ==> exists t :: t in l.pc && WillTry(l.pc[t]))
    && (forall t :: t in l.pc && l.pc[t] == LockQueue ==> l.locked)
  }

  lemma StepAttended(l: Lock, t: Tid, a: Action)
    requires Inv(l) && Attended(l) && Enabled(l, t, a)
    ensures Attended(Do(l, t, a))
  {
    hide QueueOk, OwnerOk;
    var r := Do(l, t, a);
    Words(l, t);
    if a == Clear {
      assert t in r.pc && WillTry(r.pc[t]);
    } else if a == Wake && l.queue != [] {
      FirstWaits(l);
      assert l.queue[0] in r.pc && WillTry(r.pc[l.queue[0]]);
    } else if !r.locked && l.queue != [] {
      var u :| u in l.pc && WillTry(l.pc[u]);
      assert u in r.pc && WillTry(r.pc[u]);
    }
  }

  lemma {:induction false} RunOk(l: Lock, run: seq<(Tid, Action)>)
    requires Inv(l) && Attended(l) && Legal(l, run)
    ensures Inv(After(l, run)) && Attended(After(l, run))
    decreases |run|
  {
    hide Inv, Attended;
    if run != [] {
      StepOk(l, run[0].0, run[0].1);
      StepAttended(l, run[0].0, run[0].1);
      RunOk(Do(l, run[0].0, run[0].1), run[1..]);
    }
  }

  /** Over every interleaving, at most one task owns the mutex, and the lock word says whether one does. */
  lemma MutualExclusion(l: Lock, run: seq<(Tid, Action)>)
    requires Initial(l) && Legal(l, run)
    ensures var r := After(l, run);
            && (forall t, u :: t in r.pc && u in r.pc && Owns(r.pc[t]) && Owns(r.pc[u]) ==> t == u)
            && (r.locked <==> exists t :: t in r.pc && Owns(r.pc[t]))
  {
    hide Legal, After;
    InitialOk(l);
    RunOk(l, run);
  }

  /** Over every interleaving, a free mutex with waiters is attended to: no wake-up is lost. */
  lemma NoLostWakeUp(l: Lock, run: seq<(Tid, Action)>)
    requires Initial(l) && Legal(l, run)
    ensures var r := After(l, run);
            r.queue != [] && !r.locked ==> exists t :: t in r.pc && WillTry(r.pc[t])
  {
    hide Legal, After;
    InitialOk(l);
    RunOk(l, run);
  }

  // ---- a woken task can lose the mutex for good ----

  lemma LostStep(l: Lock, t: Tid, a: Action, w: Tid)
    requires Inv(l) && Enabled(l, t, a) && w in l.pc && l.pc[w] == Lost
    ensures w in Do(l, t, a).pc && Do(l, t, a).pc[w] == Lost
  {
    hide OwnerOk, SpinOk;
    if l.queue != [] { FirstWaits(l); }
  }

  /** A task that retried while the mutex was taken never gets it, whatever the others do. */
  lemma {:induction false} LostForever(l: Lock, run: seq<(Tid, Action)>, w: Tid)
    requires Inv(l) && Legal(l, run) && w in l.pc && l.pc[w] == Lost
    ensures w in After(l, run).pc && After(l, run).pc[w] == Lost
    decreases |run|
  {
    hide Inv;
    if run != [] {
      StepOk(l, run[0].0, run[0].1);
      LostStep(l, run[0].0, run[0].1, w);
      LostForever(Do(l, run[0].0, run[0].1), run[1..], w);
    }
  }

  lemma {:induction false} Then(l: Lock, a: seq<(Tid, Action)>, b: seq<(Tid, Action)>)
    requires Legal(l, a) && Legal(After(l, a), b)
    ensures Legal(l, a + b) && After(l, a + b) == After(After(l, a), b)
    decreases |a|
  {
    if a == [] {
      assert a + b == b;
    } else {
      assert (a + b)[1..] == a[1..] + b;
      Then(Do(l, a[0].0, a[0].1), a[1..], b);
    }
  }

  lemma Extend(l: Lock, run: seq<(Tid, Action)>, t: Tid, a: Action)
    requires Legal(l, run) && Enabled(After(l, run), t, a)
    ensures Legal(l, run + [(t, a)]) && After(l, run + [(t, a)]) == Do(After(l, run), t, a)
  {
    Then(l, run, [(t, a)]);
  }

  /** Task t takes a free mutex. */
  lemma Locks(l: Lock, run: seq<(Tid, Action)>, t: Tid) returns (r: seq<(Tid, Action)>)
    requires Legal(l, run)
    requires var s := After(l, run); t in s.pc && s.pc[t] == Outside && s.spin == None && !s.locked
    ensures Legal(l, r) && After(l, r) == var s := After(l, run); Lock(true, None, s.queue, s.pc[t := Holding])
  {
    hide Legal, After;
    r := run;
    Extend(l, r, t, CallLock);
    r := r + [(t, CallLock)];
    Extend(l, r, t, GetSpin);
    r := r + [(t, GetSpin)];
    Extend(l, r, t, CompareAndSwap);
    r := r + [(t, CompareAndSwap)];
    Extend(l, r, t, LeaveTaken);
    r := r + [(t, LeaveTaken)];
  }

  /** Task t finds the mutex taken and goes to sleep. */
  lemma Queues(l: Lock, run: seq<(Tid, Action)>, t: Tid) returns (r: seq<(Tid, Action)>)
    requires Legal(l, run)
    requires var s := After(l, run); t in s.pc && s.pc[t] == Outside && s.spin == None && s.locked
    ensures Legal(l, r) && After(l, r) == var s := After(l, run); Lock(true, None, s.queue + [t], s.pc[t := Asleep])
  {
    hide Legal, After;
    r := run;
    Extend(l, r, t, CallLock);
    r := r + [(t, CallLock)];
    Extend(l, r, t, GetSpin);
    r := r + [(t, GetSpin)];
    Extend(l, r, t, CompareAndSwap);
    r := r + [(t, CompareAndSwap)];
    Extend(l, r, t, Enqueue);
    r := r + [(t, Enqueue)];
    Extend(l, r, t, Sleep);
    r := r + [(t, Sleep)];
  }

  /** Task t releases the mutex and wakes the first waiter. */
  lemma Unlocks(l: Lock, run: seq<(Tid, Action)>, t: Tid) returns (r: seq<(Tid, Action)>)
    requires Legal(l, run)
    requires var s := After(l, run); t in s.pc && s.pc[t] == Holding && s.spin == None && (s.queue != [] ==> s.queue[0] in s.pc && s.queue[0] != t)
    ensures Legal(l, r)
    ensures After(l, r) == var s := After(l, run);
            if s.queue == [] then Lock(false, None, [], s.pc[t := Outside])
            else Lock(false, None, s.queue[1..], s.pc[s.queue[0] := Woken][t := Outside])
  {
    hide Legal, After;
    r := run;
    Extend(l, r, t, CallUnlock);
    r := r + [(t, CallUnlock)];
    Extend(l, r, t, GetSpin);
    r := r + [(t, GetSpin)];
    Extend(l, r, t, Clear);
    r := r + [(t, Clear)];
    Extend(l, r, t, Wake);
    r := r + [(t, Wake)];
    Extend(l, r, t, LeaveDone);
    r := r + [(t, LeaveDone)];
  }

  /**
   Task 0 unlocks and locks again before the one it woke has retried: task 1 is lost, though the mutex is
   free later.
   */
  lemma WokenButLost() returns (l: Lock, run: seq<(Tid, Action)>)
    ensures Initial(l) && Legal(l, run) && After(l, run) == Lock(false, None, [], map[0 := Outside, 1 := Lost])
  {
    hide Legal, After;
    l := Lock(false, None, [], map[0 := Outside, 1 := Outside]);
    NoSteps(l);
    run := Locks(l, [], 0);
    run := Queues(l, run, 1);
    run := Unlocks(l, run, 0);
    run := Locks(l, run, 0);
    Extend(l, run, 1, TestAndSet);
    run := run + [(1, TestAndSet)];
    run := Unlocks(l, run, 0);
  }

  lemma NoSteps(l: Lock)
    ensures Legal(l, []) && After(l, []) == l
  {
  }
}
