/**
 The readers-writer lock of src/lib/lock.c as interleaved atomic steps of any number of tasks. The
 two words are read and written under the inner spin lock, one access per step.
 */
module RwLock {
  import opened Common

  type Tid = nat

  datatype Pc =
    | Outside
    | ReadSpin | ReadTest | ReadCount | ReadDone | ReadRetry | Reading
    | EndReadSpin | EndReadCount | EndReadDone
    | WriteSpin | WriteTest | WriteTestReaders | WriteSet | WriteDone | WriteRetry | Writing
    | EndWriteSpin | EndWriteClear | EndWriteDone

  datatype Lock = Lock(readers: int, writer: bool, spin: Option<Tid>, pc: map<Tid, Pc>)

  predicate Reads(p: Pc) {
    p in {ReadDone, Reading, EndReadSpin, EndReadCount}
  }

  predicate Writes(p: Pc) {
    p in {WriteDone, Writing, EndWriteSpin, EndWriteClear}
  }

  predicate InSpin(p: Pc) {
    p in {ReadTest, ReadCount, ReadDone, ReadRetry, EndReadCount, EndReadDone,
          WriteTest, WriteTestReaders, WriteSet, WriteDone, WriteRetry, EndWriteClear, EndWriteDone}
  }

  datatype Action = Call(write: bool) | GetSpin | Access | LeaveSpin | Release

  predicate Enabled(l: Lock, t: Tid, a: Action) {
    t in l.pc && match a
    case Call(_) => l.pc[t] == Outside
    case GetSpin => l.pc[t] in {ReadSpin, EndReadSpin, WriteSpin, EndWriteSpin} && l.spin == None
    case Access => l.pc[t] in {ReadTest, ReadCount, EndReadCount, WriteTest, WriteTestReaders, WriteSet, EndWriteClear}
    case LeaveSpin => l.pc[t] in {ReadDone, ReadRetry, EndReadDone, WriteDone, WriteRetry, EndWriteDone}
    case Release => l.pc[t] in {Reading, Writing}
  }

  function Go(l: Lock, t: Tid, p: Pc): (r: Lock) {
    l.(pc := l.pc[t := p])
  }

  function Do(l: Lock, t: Tid, a: Action): (r: Lock)
    requires Enabled(l, t, a)
  {
    match a
    case Call(write) => Go(l, t, if write then WriteSpin else ReadSpin)
    case Release => Go(l, t, if l.pc[t] == Reading then EndReadSpin else EndWriteSpin)
    case GetSpin =>
      Go(l.(spin := Some(t)), t, match l.pc[t]
                                 case ReadSpin => ReadTest
                                 case EndReadSpin => EndReadCount
                                 case WriteSpin => WriteTest
                                 case _ => EndWriteClear)
    case LeaveSpin =>
      Go(l.(spin := None), t, match l.pc[t]
                              case ReadDone => Reading
                              case ReadRetry => ReadSpin
                              case WriteDone => Writing
                              case WriteRetry => WriteSpin
                              case _ => Outside)
    case Access => DoAccess(l, t)
  }

  /** The reads and writes of the two words. */
  function DoAccess(l: Lock, t: Tid): (r: Lock)
    requires Enabled(l, t, Access)
  {
    match l.pc[t]
    case ReadTest => Go(l, t, if l.writer then ReadRetry else ReadCount)
    case ReadCount => Go(l.(readers := l.readers + 1), t, ReadDone)
    case EndReadCount => Go(l.(readers := l.readers - 1), t, EndReadDone)
    case WriteTest => Go(l, t, if l.writer then WriteRetry else WriteTestReaders)
    case WriteTestReaders => Go(l, t, if l.readers == 0 then WriteSet else WriteRetry)
    case WriteSet => Go(l.(writer := true), t, WriteDone)
    case _ => Go(l.(writer := false), t, EndWriteDone)
  }

  ghost function Readers(pc: map<Tid, Pc>): (s: set<Tid>) {
    set t | t in pc && Reads(pc[t])
  }

  ghost predicate SpinOk(l: Lock) {
    forall t :: t in l.pc ==> (InSpin(l.pc[t]) <==> l.spin == Some(t))
  }

  /** The counter counts the readers; the flag says whether there is a writer; a writer is alone. */
  ghost predicate WordsOk(l: Lock) {
    && l.readers == |Readers(l.pc)|
    && (l.writer <==> exists t :: t in l.pc && Writes(l.pc[t]))
    && (forall t, u :: t in l.pc && u in l.pc && Writes(l.pc[t]) && Writes(l.pc[u]) ==> t == u)
    && (l.writer ==> l.readers == 0)
  }

  /** What a task has seen inside the spin lock still holds. */
  ghost predicate SeenOk(l: Lock) {
    && (forall t :: t in l.pc && l.pc[t] in {ReadCount, WriteTestReaders, WriteSet} ==> !l.writer)
    && (forall t :: t in l.pc && l.pc[t] == WriteSet ==> l.readers == 0)
  }

  ghost predicate Inv(l: Lock) {
    SpinOk(l) && WordsOk(l) && SeenOk(l)
  }

  ghost predicate Initial(l: Lock) {
    l.readers == 0 && !l.writer && l.spin == None && forall t :: t in l.pc ==> l.pc[t] == Outside
  }

  lemma InitialOk(l: Lock)
    requires Initial(l)
    ensures Inv(l)
  {
    assert Readers(l.pc) == {};
  }

  lemma CountMove(pc: map<Tid, Pc>, t: Tid, p: Pc)
    requires t in pc
    ensures |Readers(pc[t := p])| == |Readers(pc)| + (if Reads(p) then 1 else 0) - (if Reads(pc[t]) then 1 else 0)
  {
    hide Reads;
    assert Readers(pc[t := p]) == (Readers(pc) - {t}) + if Reads(p) then {t} else {};
  }

  /** The words change to match the move of one task. */
  lemma MoveWordsOk(l: Lock, t: Tid, p: Pc, readers: int, writer: bool, spin: Option<Tid>)
    requires WordsOk(l) && t in l.pc
    requires readers == l.readers + (if Reads(p) then 1 else 0) - (if Reads(l.pc[t]) then 1 else 0)
    requires Writes(p) ==> writer && (Writes(l.pc[t]) || !l.writer)
    requires !Writes(p) ==> writer == (l.writer && !Writes(l.pc[t]))
    requires writer ==> readers == 0
    ensures WordsOk(Lock(readers, writer, spin, l.pc[t := p]))
  {
    hide Reads, Writes, Readers;
    CountMove(l.pc, t, p);
    var r := Lock(readers, writer, spin, l.pc[t := p]);
    if l.writer && !Writes(l.pc[t]) {
      var o :| o in l.pc && Writes(l.pc[o]);
      assert o in r.pc && Writes(r.pc[o]);
    }
    assert Writes(p) ==> t in r.pc && Writes(r.pc[t]);
  }

  lemma MoveSpinOk(l: Lock, t: Tid, p: Pc, readers: int, writer: bool, spin: Option<Tid>)
    requires SpinOk(l) && t in l.pc
    requires InSpin(p) ==> spin == Some(t) && (l.spin == None || l.spin == Some(t))
    requires !InSpin(p) ==> spin == if InSpin(l.pc[t]) then None else l.spin
    ensures SpinOk(Lock(readers, writer, spin, l.pc[t := p]))
  {
    hide InSpin;
  }

  /** Only a task inside the spin lock changes the words, so what another has seen stays true. */
  lemma MoveSeenOk(l: Lock, t: Tid, p: Pc, readers: int, writer: bool, spin: Option<Tid>)
    requires SeenOk(l) && SpinOk(l) && t in l.pc
    requires (readers == l.readers && writer == l.writer) || l.spin == Some(t)
    requires p in {ReadCount, WriteTestReaders, WriteSet} ==> !writer
    requires p == WriteSet ==> readers == 0
    ensures SeenOk(Lock(readers, writer, spin, l.pc[t := p]))
  {
    var r := Lock(readers, writer, spin, l.pc[t := p]);
    forall u | u in r.pc && u != t && r.pc[u] in {ReadCount, WriteTestReaders, WriteSet}
      ensures !r.writer && (r.pc[u] == WriteSet ==> r.readers == 0)
    {
      assert InSpin(l.pc[u]) && l.spin == Some(u);
    }
  }

  lemma Facts(l: Lock, t: Tid)
    requires Inv(l) && t in l.pc
    ensures InSpin(l.pc[t]) <==> l.spin == Some(t)
    ensures Writes(l.pc[t]) ==> l.writer && l.readers == 0
    ensures Reads(l.pc[t]) ==> l.readers > 0 && !l.writer
    ensures l.pc[t] in {ReadCount, WriteTestReaders, WriteSet} ==> !l.writer
    ensures l.pc[t] == WriteSet ==> l.readers == 0
    ensures l.writer ==> l.readers == 0
  {
    if Reads(l.pc[t]) { assert t in Readers(l.pc); }
  }

  /** Every step of every task keeps the invariant. */
  lemma StepOk(l: Lock, t: Tid, a: Action)
    requires Inv(l) && Enabled(l, t, a)
    ensures Inv(Do(l, t, a))
  {
    hide SpinOk, WordsOk, SeenOk;
    Facts(l, t);
    var r := Do(l, t, a);
    MoveWordsOk(l, t, r.pc[t], r.readers, r.writer, r.spin);
    MoveSpinOk(l, t, r.pc[t], r.readers, r.writer, r.spin);
    MoveSeenOk(l, t, r.pc[t], r.readers, r.writer, r.spin);
  }

  ghost predicate Legal(l: Lock, run: seq<(Tid, Action)>)
    decreases |run|
  {
    run == [] || (Enabled(l, run[0].0, run[0].1) && Legal(Do(l, run[0].0, run[0].1), run[1..]))
  }

  ghost function After(l: Lock, run: seq<(Tid, Action)>): (r: Lock)
    requires Legal(l, run)
    decreases |run|
  {
    if run == [] then l else After(Do(l, run[0].0, run[0].1), run[1..])
  }

  lemma WriterAlone(l: Lock)
    requires Inv(l)
    ensures forall t, u :: t in l.pc && u in l.pc && Writes(l.pc[t]) && (Writes(l.pc[u]) || Reads(l.pc[u])) ==> t == u
  {
    forall t, u | t in l.pc && u in l.pc && Writes(l.pc[t]) && (Writes(l.pc[u]) || Reads(l.pc[u])) ensures t == u {
      Facts(l, t);
      Facts(l, u);
    }
  }

  lemma {:induction false} RunOk(l: Lock, run: seq<(Tid, Action)>)
    requires Inv(l) && Legal(l, run)
    ensures Inv(After(l, run))
    decreases |run|
  {
    hide Inv;
    if run != [] {
      StepOk(l, run[0].0, run[0].1);
      RunOk(Do(l, run[0].0, run[0].1), run[1..]);
    }
  }

  /** Over every interleaving: `readers` is the number of readers, and a writer excludes everyone else. */
  lemma WritersExclude(l: Lock, run: seq<(Tid, Action)>)
    requires Initial(l) && Legal(l, run)
    ensures var r := After(l, run);
            && r.readers == |Readers(r.pc)|
            && (forall t, u :: t in r.pc && u in r.pc && Writes(r.pc[t]) && (Writes(r.pc[u]) || Reads(r.pc[u])) ==> t == u)
  {
    hide Legal, After;
    InitialOk(l);
    RunOk(l, run);
    WriterAlone(After(l, run));
  }
}
