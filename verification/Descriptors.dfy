/**
 File descriptors of src/fs/fs.c, src/fs/pipe.c and src/task/task.c: which (task, descriptor) slots
 hold which open file, the files' reference counts, and the pipes behind pipe files. Files and pipes
 are numbered; `created` and `piped` are all there have been, `released` and `freed` record, in order,
 the files released and the pipe buffers freed together with their inodes.
 */
module Descriptors {
  import opened Common

  const NR_OPEN := 64

  type Slot = (nat, nat)

  datatype Kind = Plain | PipeEnd(pipe: nat)
  datatype File = File(refcount: int, kind: Kind)
  datatype Pipe = Pipe(inodeRef: int, single: bool)
  datatype State = State(slots: map<Slot, nat>, files: map<nat, File>, pipes: map<nat, Pipe>,
                         created: set<nat>, released: seq<nat>, piped: set<nat>, freed: seq<nat>)

  ghost function Holders(slots: map<Slot, nat>, f: nat): (h: set<Slot>) {
    set k | k in slots && slots[k] == f
  }

  ghost function Ends(files: map<nat, File>, p: nat): (e: set<nat>) {
    set f | f in files && files[f].kind == PipeEnd(p)
  }

  ghost predicate Once(log: seq<nat>) {
    forall i, j :: 0 <= i < j < |log| ==> log[i] != log[j]
  }

  /** Reference counts are slot counts. */
  ghost predicate FilesOk(st: State) {
    && (forall k :: k in st.slots ==> st.slots[k] in st.files)
    && (forall k :: k in st.slots ==> k.1 < NR_OPEN)
    && (forall f :: f in st.files ==> st.files[f].refcount == |Holders(st.slots, f)| > 0)
  }

  /** A pipe's inode is held by its open ends; `single` says that one end is gone. */
  ghost predicate PipesOk(st: State) {
    && (forall f :: f in st.files && st.files[f].kind.PipeEnd? ==> st.files[f].kind.pipe in st.pipes)
    && (forall p :: p in st.pipes ==> PipeOk(st, p))
  }

  ghost predicate PipeOk(st: State, p: nat) {
    && p in st.pipes && st.pipes[p].inodeRef == |Ends(st.files, p)| && 1 <= st.pipes[p].inodeRef <= 2
    && (st.pipes[p].single <==> st.pipes[p].inodeRef == 1)
  }

  /** Whatever was made is either open or has come to its end, once. */
  ghost predicate Accounted(made: set<nat>, open: set<nat>, log: seq<nat>) {
    Once(log) && (forall x :: x in log ==> x !in open) && forall x :: x in made <==> x in open || x in log
  }

  ghost predicate LogsOk(st: State) {
    Accounted(st.created, st.files.Keys, st.released) && Accounted(st.piped, st.pipes.Keys, st.freed)
  }

  ghost predicate Inv(st: State) {
    FilesOk(st) && PipesOk(st) && LogsOk(st)
  }

  // ---- the steps ----

  /** vfs_close: one reference less; the last one releases the file. */
  function Drop(st: State, f: nat): (r: State)
    requires f in st.files
  {
    var x := st.files[f];
    if x.refcount != 1 then st.(files := st.files[f := x.(refcount := x.refcount - 1)])
    else
      var s := st.(files := st.files - {f}, released := st.released + [f]);
      if x.kind.PipeEnd? && x.kind.pipe in st.pipes then DropInode(s, x.kind.pipe) else s
  }

  /** pipe_release and inode_put: the second end takes the pipe with it. */
  function DropInode(st: State, p: nat): (r: State)
    requires p in st.pipes
  {
    var n := st.pipes[p].inodeRef - 1;
    if n == 0 then st.(pipes := st.pipes - {p}, freed := st.freed + [p])
    else st.(pipes := st.pipes[p := Pipe(n, true)])
  }

  /** fd_close. */
  function CloseSlot(st: State, k: Slot): (r: State) {
    if k in st.slots && st.slots[k] in st.files then Drop(st.(slots := st.slots - {k}), st.slots[k]) else st
  }

  /** Another slot for an open file. */
  function Share(st: State, k: Slot, f: nat): (r: State) {
    if f !in st.files then st
    else st.(slots := st.slots[k := f], files := st.files[f := st.files[f].(refcount := st.files[f].refcount + 1)])
  }

  function NewFile(st: State, k: Slot, f: nat, kind: Kind): (r: State) {
    st.(slots := st.slots[k := f], files := st.files[f := File(1, kind)], created := st.created + {f})
  }

  /** sys_pipe: two files on one new pipe. */
  function NewPipe(st: State, a: Slot, b: Slot, f: nat, g: nat, p: nat): (r: State) {
    NewFile(NewFile(st.(pipes := st.pipes[p := Pipe(2, false)], piped := st.piped + {p}), a, f, PipeEnd(p)), b, g, PipeEnd(p))
  }

  /** fd_alloc: the lowest free descriptor from i on. */
  function Lowest(slots: map<Slot, nat>, t: nat, i: nat): (r: Option<nat>)
    ensures r.None? ==> forall j :: i <= j < NR_OPEN ==> (t, j) in slots
    ensures r.Some? ==>
              i <= r.value < NR_OPEN && (t, r.value) !in slots && forall j :: i <= j < r.value ==> (t, j) in slots
    decreases NR_OPEN - i
  {
    if i >= NR_OPEN then None else if (t, i) !in slots then Some(i) else Lowest(slots, t, i + 1)
  }

  /** Close the descriptors i..hi of task t. */
  function CloseFrom(st: State, t: nat, i: nat, hi: nat): (r: State)
    decreases hi - i
  {
    if i >= hi then st else CloseFrom(CloseSlot(st, (t, i)), t, i + 1, hi)
  }

  /** Copy the descriptors of t from i on to child. */
  function CopyFrom(st: State, t: nat, child: nat, i: nat): (r: State)
    decreases NR_OPEN - i
  {
    if i >= NR_OPEN then st else CopyFrom(CopySlot(st, t, child, i), t, child, i + 1)
  }

  function CopySlot(st: State, t: nat, child: nat, i: nat): (r: State) {
    if (t, i) in st.slots then Share(st, (child, i), st.slots[(t, i)]) else st
  }

  // ---- counting ----

  lemma HoldersPut(slots: map<Slot, nat>, k: Slot, f: nat, g: nat)
    requires k !in slots
    ensures Holders(slots[k := f], g) == if g == f then Holders(slots, g) + {k} else Holders(slots, g)
    ensures |Holders(slots[k := f], g)| == |Holders(slots, g)| + if g == f then 1 else 0
  {
    assert Holders(slots[k := f], g) == if g == f then Holders(slots, g) + {k} else Holders(slots, g);
  }

  lemma HoldersCut(slots: map<Slot, nat>, k: Slot, g: nat)
    requires k in slots
    ensures Holders(slots - {k}, g) == Holders(slots, g) - {k}
    ensures |Holders(slots - {k}, g)| == |Holders(slots, g)| - if g == slots[k] then 1 else 0
  {
    assert Holders(slots - {k}, g) == Holders(slots, g) - {k};
    if g == slots[k] { assert k in Holders(slots, g); }
  }

  lemma EndsPut(files: map<nat, File>, f: nat, x: File, p: nat)
    requires f !in files
    ensures |Ends(files[f := x], p)| == |Ends(files, p)| + if x.kind == PipeEnd(p) then 1 else 0
  {
    assert Ends(files[f := x], p) == if x.kind == PipeEnd(p) then Ends(files, p) + {f} else Ends(files, p);
  }

  lemma EndsCut(files: map<nat, File>, f: nat, p: nat)
    requires f in files
    ensures |Ends(files - {f}, p)| == |Ends(files, p)| - if files[f].kind == PipeEnd(p) then 1 else 0
  {
    assert Ends(files - {f}, p) == Ends(files, p) - {f};
    if files[f].kind == PipeEnd(p) { assert f in Ends(files, p); }
  }

  lemma EndsKept(files: map<nat, File>, f: nat, n: int, p: nat)
    requires f in files
    ensures Ends(files[f := files[f].(refcount := n)], p) == Ends(files, p)
  {
  }

  // ---- the steps keep the invariant ----

  /** One slot fewer, and the count of its file lowered with it. */
  lemma CloseSlotOk(st: State, k: Slot)
    requires Inv(st)
    ensures Inv(CloseSlot(st, k))
  {
    if k in st.slots {
      var f := st.slots[k];
      HoldersCut(st.slots, k, f);
      if st.files[f].refcount != 1 { LowerOk(st, k); } else { ReleaseOk(st, k); }
    }
  }

  lemma LowerOk(st: State, k: Slot)
    requires Inv(st) && k in st.slots && st.files[st.slots[k]].refcount != 1
    ensures Inv(CloseSlot(st, k))
  {
    hide Holders, Ends, Once;
    var f, r := st.slots[k], CloseSlot(st, k);
    forall g | g in r.files ensures r.files[g].refcount == |Holders(r.slots, g)| > 0 { HoldersCut(st.slots, k, g); }
    forall p | p in r.pipes ensures PipeOk(r, p) {
      assert PipeOk(st, p);
      EndsKept(st.files, f, st.files[f].refcount - 1, p);
    }
  }

  lemma ReleaseOk(st: State, k: Slot)
    requires Inv(st) && k in st.slots && st.files[st.slots[k]].refcount == 1
    ensures Inv(CloseSlot(st, k))
  {
    hide Holders, Ends;
    var f, r := st.slots[k], CloseSlot(st, k);
    HoldersCut(st.slots, k, f);
    forall j | j in r.slots ensures r.slots[j] in r.files {
      if r.slots[j] == f { Alone(st.slots, k, j, f); }
    }
    forall g | g in r.files ensures r.files[g].refcount == |Holders(r.slots, g)| > 0 { HoldersCut(st.slots, k, g); }
    ReleasePipesOk(st, k);
    ReleaseLogsOk(st, k);
  }

  /** A file with one holder has no second slot. */
  lemma Alone(slots: map<Slot, nat>, k: Slot, j: Slot, f: nat)
    requires k in slots && j in slots && slots[k] == f && slots[j] == f && j != k
    ensures |Holders(slots, f)| != 1
  {
    assert {j, k} <= Holders(slots, f);
    Subset({j, k}, Holders(slots, f));
  }

  lemma Subset<T>(a: set<T>, b: set<T>)
    requires a <= b
    ensures |a| <= |b|
  {
    assert b == a + (b - a);
  }

  lemma ReleasePipesOk(st: State, k: Slot)
    requires Inv(st) && k in st.slots && st.files[st.slots[k]].refcount == 1
    ensures PipesOk(CloseSlot(st, k))
  {
    hide Holders, Ends, Once;
    var f, r := st.slots[k], CloseSlot(st, k);
    forall g | g in r.files && r.files[g].kind.PipeEnd? ensures r.files[g].kind.pipe in r.pipes {
      var q := r.files[g].kind.pipe;
      assert PipeOk(st, q);
      if st.files[f].kind == PipeEnd(q) { TwoEnds(st.files, f, g, q); }
    }
    forall q | q in r.pipes ensures PipeOk(r, q) {
      assert PipeOk(st, q);
      EndsCut(st.files, f, q);
    }
  }

  lemma TwoEnds(files: map<nat, File>, f: nat, g: nat, q: nat)
    requires f in files && g in files && f != g && files[f].kind == PipeEnd(q) && files[g].kind == PipeEnd(q)
    ensures |Ends(files, q)| >= 2
  {
    assert {f, g} <= Ends(files, q);
    Subset({f, g}, Ends(files, q));
  }

  lemma ReleaseLogsOk(st: State, k: Slot)
    requires Inv(st) && k in st.slots && st.files[st.slots[k]].refcount == 1
    ensures LogsOk(CloseSlot(st, k))
  {
    hide FilesOk, PipesOk;
    FileThere(st, k);
    var f := st.slots[k];
    Ended(st.created, st.files.Keys, st.released, f);
    assert (st.files - {f}).Keys == st.files.Keys - {f};
    if st.files[f].kind.PipeEnd? && st.files[f].kind.pipe in st.pipes {
      var p := st.files[f].kind.pipe;
      Ended(st.piped, st.pipes.Keys, st.freed, p);
      assert (st.pipes - {p}).Keys == st.pipes.Keys - {p};
      assert p in st.pipes ==> st.pipes[p := Pipe(st.pipes[p].inodeRef - 1, true)].Keys == st.pipes.Keys;
    }
  }

  lemma FileThere(st: State, k: Slot)
    requires FilesOk(st) && k in st.slots
    ensures st.slots[k] in st.files
  {
  }

  lemma Ended(made: set<nat>, open: set<nat>, log: seq<nat>, x: nat)
    requires Accounted(made, open, log) && x in open
    ensures Accounted(made, open - {x}, log + [x])
  {
  }

  lemma Begun(made: set<nat>, open: set<nat>, log: seq<nat>, x: nat)
    requires Accounted(made, open, log) && x !in made
    ensures Accounted(made + {x}, open + {x}, log)
  {
  }

  lemma ShareOk(st: State, k: Slot, f: nat)
    requires Inv(st) && k !in st.slots && k.1 < NR_OPEN && f in st.files
    ensures Inv(Share(st, k, f))
  {
    hide Holders, Ends, Once, Accounted;
    var r := Share(st, k, f);
    assert r.files.Keys == st.files.Keys;
    forall g | g in r.files ensures r.files[g].refcount == |Holders(r.slots, g)| > 0 { HoldersPut(st.slots, k, f, g); }
    forall p | p in r.pipes ensures PipeOk(r, p) {
      assert PipeOk(st, p);
      EndsKept(st.files, f, st.files[f].refcount + 1, p);
    }
  }

  lemma NoHolders(st: State, f: nat)
    requires FilesOk(st) && f !in st.files
    ensures Holders(st.slots, f) == {}
  {
  }

  lemma NewFileOk(st: State, k: Slot, f: nat)
    requires Inv(st) && k !in st.slots && k.1 < NR_OPEN && f !in st.created
    ensures Inv(NewFile(st, k, f, Plain))
  {
    hide Holders, Ends, Once;
    var r := NewFile(st, k, f, Plain);
    Begun(st.created, st.files.Keys, st.released, f);
    assert r.files.Keys == st.files.Keys + {f};
    NoHolders(st, f);
    forall g | g in r.files ensures r.files[g].refcount == |Holders(r.slots, g)| > 0 { HoldersPut(st.slots, k, f, g); }
    forall p | p in r.pipes ensures PipeOk(r, p) {
      assert PipeOk(st, p);
      EndsPut(st.files, f, File(1, Plain), p);
    }
  }

  lemma NewPipeLogs(st: State, a: Slot, b: Slot, f: nat, g: nat, p: nat)
    requires LogsOk(st) && f !in st.created && g !in st.created && f != g && p !in st.piped
    ensures LogsOk(NewPipe(st, a, b, f, g, p)) && f !in st.files && g !in st.files && p !in st.pipes
  {
    var r := NewPipe(st, a, b, f, g, p);
    assert f !in st.files.Keys && g !in st.files.Keys && p !in st.pipes.Keys;
    Begun(st.created, st.files.Keys, st.released, f);
    Begun(st.created + {f}, st.files.Keys + {f}, st.released, g);
    Begun(st.piped, st.pipes.Keys, st.freed, p);
    assert r.files.Keys == st.files.Keys + {f} + {g} && r.pipes.Keys == st.pipes.Keys + {p};
  }

  lemma NewPipeOk(st: State, a: Slot, b: Slot, f: nat, g: nat, p: nat)
    requires Inv(st) && a !in st.slots && b !in st.slots && a != b && a.1 < NR_OPEN && b.1 < NR_OPEN
    requires f !in st.created && g !in st.created && f != g && p !in st.piped
    ensures Inv(NewPipe(st, a, b, f, g, p))
  {
    hide Holders, Ends, LogsOk;
    var r := NewPipe(st, a, b, f, g, p);
    NewPipeLogs(st, a, b, f, g, p);
    NoHolders(st, f);
    NoHolders(st, g);
    forall h | h in r.files ensures r.files[h].refcount == |Holders(r.slots, h)| > 0 {
      HoldersPut(st.slots, a, f, h);
      HoldersPut(st.slots[a := f], b, g, h);
    }
    NoEnds(st, p);
    forall q | q in r.pipes ensures PipeOk(r, q) {
      if q != p { assert PipeOk(st, q); }
      EndsPut(st.files, f, File(1, PipeEnd(p)), q);
      EndsPut(st.files[f := File(1, PipeEnd(p))], g, File(1, PipeEnd(p)), q);
    }
  }

  lemma NoEnds(st: State, p: nat)
    requires PipesOk(st) && p !in st.pipes
    ensures Ends(st.files, p) == {}
  {
  }

  /** A freed pipe has no open end. */
  lemma FreedAfterBothEnds(st: State, p: nat)
    requires Inv(st) && p in st.freed
    ensures forall f :: f in st.files ==> st.files[f].kind != PipeEnd(p)
  {
  }

  /** From st to st2 files and pipes only come to their ends: each one gone is logged, once, as gone. */
  ghost predicate Settles(st: State, st2: State) {
    && (forall f :: f in st2.files ==> f in st.files && st2.files[f].kind == st.files[f].kind)
    && (forall f :: f in st.files ==> f in st2.files || f in st2.released)
    && st.released <= st2.released && (forall f :: f in st2.released ==> f in st.released || f in st.files)
    && (forall p :: p in st2.pipes ==> p in st.pipes)
    && (forall p :: p in st.pipes ==> p in st2.pipes || p in st2.freed)
    && st.freed <= st2.freed && (forall p :: p in st2.freed ==> p in st.freed || p in st.pipes)
    && st2.created == st.created && st2.piped == st.piped
  }

  lemma CloseSettles(st: State, k: Slot)
    requires Inv(st)
    ensures CloseSlot(st, k).slots == st.slots - {k} && Settles(st, CloseSlot(st, k))
  {
    hide Holders, Ends, Once;
    if k !in st.slots { assert st.slots - {k} == st.slots; }
  }

  lemma SettlesTransitive(a: State, b: State, c: State)
    requires Settles(a, b) && Settles(b, c)
    ensures Settles(a, c)
  {
  }

  lemma SettlesSelf(st: State)
    ensures Settles(st, st)
  {
  }

  lemma SlotFile(st: State, k: Slot)
    requires Inv(st) && k in st.slots
    ensures st.slots[k] in st.files
  {
  }

  lemma SharedSettles(st: State, k: Slot, f: nat)
    ensures Settles(st, Share(st, k, f))
  {
  }

  // ---- system calls ----

  /**
   f, g and p number what a call makes, found says whether the path leads to a file, and room is how many
   kmalloc calls of sys_pipe succeed; the rest is what the caller passes.
   */
  datatype Step =
    | Open(t: nat, found: bool, f: nat)
    | MakePipe(t: nat, room: nat, f: nat, g: nat, p: nat)
    | Dup(t: nat, oldfd: int)
    | Dup2(t: nat, oldfd: int, newfd: int)
    | ForkTo(t: nat, child: nat)
    | Close(t: nat, fd: int)
    | ExecClose(t: nat, fd: int)
    | Reap(t: nat)

  predicate IsOpen(slots: map<Slot, nat>, t: nat, fd: int) {
    0 <= fd < NR_OPEN && (t, fd) in slots
  }

  function CloseFd(st: State, t: nat, fd: int): (r: State) {
    if IsOpen(st.slots, t, fd) then CloseSlot(st, (t, fd)) else st
  }

  function OpenFile(st: State, t: nat, found: bool, f: nat): (r: State) {
    if !found then st
    else match Lowest(st.slots, t, 0)
      case None => st.(created := st.created + {f}, released := st.released + [f])
      case Some(fd) => NewFile(st, (t, fd), f, Plain)
  }

  /** sys_pipe allocates the pipe, its inode and two files. */
  const PIPE_ALLOCS := 4

  function OpenPipe(st: State, t: nat, room: nat, f: nat, g: nat, p: nat): (r: State) {
    var a := Lowest(st.slots, t, 0);
    var b := if a.Some? then Lowest(st.slots, t, a.value + 1) else None;
    if b.None? || room < PIPE_ALLOCS then st else NewPipe(st, (t, a.value), (t, b.value), f, g, p)
  }

  function DupFd(st: State, t: nat, oldfd: int): (r: State) {
    var fd := Lowest(st.slots, t, 0);
    if !IsOpen(st.slots, t, oldfd) || fd.None? then st else Share(st, (t, fd.value), st.slots[(t, oldfd)])
  }

  function DupTo(st: State, t: nat, oldfd: int, newfd: int): (r: State) {
    if !IsOpen(st.slots, t, oldfd) || !(0 <= newfd < NR_OPEN) then st
    else if (t, newfd) in st.slots && st.slots[(t, newfd)] == st.slots[(t, oldfd)] then st
    else Share(CloseSlot(st, (t, newfd)), (t, newfd), st.slots[(t, oldfd)])
  }

  function Do(st: State, a: Step): (r: State) {
    match a
    case Open(t, found, f) => OpenFile(st, t, found, f)
    case MakePipe(t, room, f, g, p) => OpenPipe(st, t, room, f, g, p)
    case Dup(t, oldfd) => DupFd(st, t, oldfd)
    case Dup2(t, oldfd, newfd) => DupTo(st, t, oldfd, newfd)
    case ForkTo(t, child) => CopyFrom(st, t, child, 0)
    case Close(t, fd) => CloseFd(st, t, fd)
    case ExecClose(t, fd) => CloseFrom(CloseFd(st, t, fd), t, 3, NR_OPEN)
    case Reap(t) => CloseFrom(st, t, 0, NR_OPEN)
  }

  /** New files, pipes and tasks are new. */
  ghost predicate Enabled(st: State, a: Step) {
    match a
    case Open(t, found, f) => f !in st.created
    case MakePipe(t, _, f, g, p) => f !in st.created && g !in st.created && f != g && p !in st.piped
    case ForkTo(t, child) => t != child && NoSlots(st.slots, child, 0)
    case _ => true
  }

  ghost predicate NoSlots(slots: map<Slot, nat>, t: nat, i: nat) {
    forall j :: i <= j < NR_OPEN ==> (t, j) !in slots
  }

  lemma {:induction false} CloseFromOk(st: State, t: nat, i: nat, hi: nat)
    requires Inv(st)
    ensures Inv(CloseFrom(st, t, i, hi)) && CloseFrom(st, t, i, hi).slots == st.slots - (set j | i <= j < hi :: (t, j))
    ensures Settles(st, CloseFrom(st, t, i, hi))
    decreases hi - i
  {
    hide Inv, Settles, CloseSlot;
    if i < hi {
      var s := CloseSlot(st, (t, i));
      CloseSlotOk(st, (t, i));
      CloseSettles(st, (t, i));
      CloseFromOk(s, t, i + 1, hi);
      SettlesTransitive(st, s, CloseFrom(s, t, i + 1, hi));
      assert (set j | i <= j < hi :: (t, j)) == {(t, i)} + (set j | i + 1 <= j < hi :: (t, j));
    } else {
      SettlesSelf(st);
      assert (set j | i <= j < hi :: (t, j)) == {};
    }
  }

  /** k holds the file it held before, or none as before. */
  predicate SameSlot(slots: map<Slot, nat>, slots': map<Slot, nat>, k: Slot, k': Slot) {
    (k in slots <==> k' in slots') && (k in slots ==> slots[k] == slots'[k'])
  }

  lemma CopySlotOk(st: State, t: nat, child: nat, i: nat)
    requires Inv(st) && t != child && i < NR_OPEN && (child, i) !in st.slots
    ensures var r := CopySlot(st, t, child, i);
            && Inv(r) && Settles(st, r) && SameSlot(st.slots, r.slots, (t, i), (child, i))
            && forall k: Slot :: k != (child, i) ==> SameSlot(st.slots, r.slots, k, k)
  {
    hide Inv, Settles;
    if (t, i) in st.slots {
      SlotFile(st, (t, i));
      ShareOk(st, (child, i), st.slots[(t, i)]);
      SharedSettles(st, (child, i), st.slots[(t, i)]);
    } else {
      SettlesSelf(st);
    }
  }

  lemma {:induction false} CopyFromOk(st: State, t: nat, child: nat, i: nat)
    requires Inv(st) && t != child && NoSlots(st.slots, child, i)
    ensures var r := CopyFrom(st, t, child, i);
            && Inv(r) && Settles(st, r)
            && (forall j :: i <= j < NR_OPEN ==> SameSlot(st.slots, r.slots, (t, j), (child, j)))
            && forall k: Slot :: k.0 != child || !(i <= k.1 < NR_OPEN) ==> SameSlot(st.slots, r.slots, k, k)
    decreases NR_OPEN - i
  {
    hide Inv, Settles, CopySlot;
    if i < NR_OPEN {
      var s := CopySlot(st, t, child, i);
      CopySlotOk(st, t, child, i);
      assert NoSlots(s.slots, child, i + 1) by {
        forall j | i + 1 <= j < NR_OPEN
          ensures (child, j) !in s.slots { assert SameSlot(st.slots, s.slots, (child, j), (child, j)); }
      }
      CopyFromOk(s, t, child, i + 1);
      var r := CopyFrom(s, t, child, i + 1);
      SettlesTransitive(st, s, r);
      forall j | i <= j < NR_OPEN ensures SameSlot(st.slots, r.slots, (t, j), (child, j)) {
        assert SameSlot(st.slots, s.slots, (t, j), (t, j));
        assert SameSlot(s.slots, r.slots, (child, i), (child, i));
      }
      forall k: Slot | k.0 != child || !(i <= k.1 < NR_OPEN) ensures SameSlot(st.slots, r.slots, k, k) {
        assert SameSlot(st.slots, s.slots, k, k) && SameSlot(s.slots, r.slots, k, k);
      }
    } else {
      SettlesSelf(st);
    }
  }

  lemma LogsFor(st: State)
    requires Inv(st)
    ensures LogsOk(st)
  {
  }

  /** An open without a free descriptor makes a file and releases it at once. */
  lemma OpenFileOk(st: State, t: nat, found: bool, f: nat)
    requires Inv(st) && f !in st.created
    ensures Inv(OpenFile(st, t, found, f))
  {
    hide Inv, FilesOk, PipesOk, Accounted;
    var r := OpenFile(st, t, found, f);
    if found {
      match Lowest(st.slots, t, 0)
      case Some(fd) => NewFileOk(st, (t, fd), f);
      case None =>
        LogsFor(st);
        Begun(st.created, st.files.Keys, st.released, f);
        Ended(st.created + {f}, st.files.Keys + {f}, st.released, f);
        assert st.files.Keys + {f} - {f} == st.files.Keys by { NotMade(st, f); }
        Relogged(st, r);
    }
  }

  lemma NotMade(st: State, f: nat)
    requires Inv(st) && f !in st.created
    ensures f !in st.files
  {
    assert f in st.files.Keys ==> f in st.created;
  }

  lemma Relogged(st: State, r: State)
    requires Inv(st) && r == st.(created := r.created, released := r.released) && LogsOk(r)
    ensures Inv(r)
  {
    hide LogsOk, Holders, Ends;
    forall p | p in r.pipes ensures PipeOk(r, p) { assert PipeOk(st, p); }
  }

  lemma OpenPipeOk(st: State, t: nat, room: nat, f: nat, g: nat, p: nat)
    requires Inv(st) && f !in st.created && g !in st.created && f != g && p !in st.piped
    ensures Inv(OpenPipe(st, t, room, f, g, p))
  {
    hide Inv;
    var a := Lowest(st.slots, t, 0);
    if a.Some? {
      var b := Lowest(st.slots, t, a.value + 1);
      if b.Some? && room >= PIPE_ALLOCS { NewPipeOk(st, (t, a.value), (t, b.value), f, g, p); }
    }
  }

  lemma DupFdOk(st: State, t: nat, oldfd: int)
    requires Inv(st)
    ensures Inv(DupFd(st, t, oldfd))
  {
    hide Inv;
    var fd := Lowest(st.slots, t, 0);
    if IsOpen(st.slots, t, oldfd) && fd.Some? {
      SlotFile(st, (t, oldfd));
      ShareOk(st, (t, fd.value), st.slots[(t, oldfd)]);
    }
  }

  /** Closing the target of dup2 does not close the file to be shared. */
  lemma DupToOk(st: State, t: nat, oldfd: int, newfd: int)
    requires Inv(st)
    ensures var r := DupTo(st, t, oldfd, newfd);
            && Inv(r) && Settles(st, r)
            && r.slots == if IsOpen(st.slots, t, oldfd) && 0 <= newfd < NR_OPEN then st.slots[(t, newfd) := st.slots[(t, oldfd)]] else st.slots
  {
    hide Inv, Settles, CloseSlot;
    SettlesSelf(st);
    if IsOpen(st.slots, t, oldfd) && 0 <= newfd < NR_OPEN && !((t, newfd) in st.slots && st.slots[(t, newfd)] == st.slots[(t, oldfd)]) {
      var m, f := CloseSlot(st, (t, newfd)), st.slots[(t, oldfd)];
      CloseSlotOk(st, (t, newfd));
      CloseSettles(st, (t, newfd));
      SlotFile(m, (t, oldfd));
      ShareOk(m, (t, newfd), f);
      SharedSettles(m, (t, newfd), f);
      SettlesTransitive(st, m, Share(m, (t, newfd), f));
    }
  }

  lemma CloseFdOk(st: State, t: nat, fd: int)
    requires Inv(st)
    ensures Inv(CloseFd(st, t, fd)) && Settles(st, CloseFd(st, t, fd))
    ensures CloseFd(st, t, fd).slots == if IsOpen(st.slots, t, fd) then st.slots - {(t, fd)} else st.slots
  {
    hide Inv, Settles, CloseSlot;
    SettlesSelf(st);
    if IsOpen(st.slots, t, fd) {
      CloseSlotOk(st, (t, fd));
      CloseSettles(st, (t, fd));
    }
  }

  /** Every system call keeps counts, pipes and logs right. */
  lemma StepOk(st: State, a: Step)
    requires Inv(st) && Enabled(st, a)
    ensures Inv(Do(st, a))
  {
    hide Inv, CloseFrom, CopyFrom, OpenFile, OpenPipe, DupFd, DupTo, CloseFd, Settles;
    match a
    case Open(t, found, f) => OpenFileOk(st, t, found, f);
    case MakePipe(t, room, f, g, p) => OpenPipeOk(st, t, room, f, g, p);
    case Dup(t, oldfd) => DupFdOk(st, t, oldfd);
    case Dup2(t, oldfd, newfd) => DupToOk(st, t, oldfd, newfd);
    case ForkTo(t, child) => CopyFromOk(st, t, child, 0);
    case Close(t, fd) => CloseFdOk(st, t, fd);
    case ExecClose(t, fd) => CloseFdOk(st, t, fd); CloseFromOk(CloseFd(st, t, fd), t, 3, NR_OPEN);
    case Reap(t) => CloseFromOk(st, t, 0, NR_OPEN);
  }

  // ---- runs ----

  ghost predicate Legal(st: State, steps: seq<Step>)
    decreases |steps|
  {
    steps == [] || (Enabled(st, steps[0]) && Legal(Do(st, steps[0]), steps[1..]))
  }

  ghost function After(st: State, steps: seq<Step>): (r: State)
    decreases |steps|
  {
    if steps == [] then st else After(Do(st, steps[0]), steps[1..])
  }

  lemma {:induction false} RunOk(st: State, steps: seq<Step>)
    requires Inv(st) && Legal(st, steps)
    ensures Inv(After(st, steps))
    decreases |steps|
  {
    hide Inv, Do, Enabled;
    if steps != [] {
      StepOk(st, steps[0]);
      RunOk(Do(st, steps[0]), steps[1..]);
    }
  }

  const EMPTY := State(map[], map[], map[], {}, [], {}, [])

  lemma EmptyOk()
    ensures Inv(EMPTY)
  {
  }

  ghost predicate OnceIn(log: seq<nat>, x: nat) {
    exists i :: 0 <= i < |log| && log[i] == x && forall j :: 0 <= j < |log| && log[j] == x ==> j == i
  }

  lemma EndedOnce(made: set<nat>, open: set<nat>, log: seq<nat>, x: nat)
    requires Accounted(made, open, log) && x in made
    ensures if x in open then x !in log else OnceIn(log, x)
  {
    if x !in open {
      var i :| 0 <= i < |log| && log[i] == x;
      assert forall j :: 0 <= j < |log| && log[j] == x ==> j == i;
    }
  }

  /**
   At every system call boundary of every run: a file's count is the number of slots that hold it; each file
   ever made is open or has been released, exactly once; each pipe ever made exists, held by its open ends, or
   has been freed, exactly once and with both ends gone.
   */
  lemma EveryRun(steps: seq<Step>)
    requires Legal(EMPTY, steps)
    ensures var st := After(EMPTY, steps);
            && (forall k :: k in st.slots ==> st.slots[k] in st.files)
            && (forall f :: f in st.files ==> f in st.created && st.files[f].refcount == |Holders(st.slots, f)| > 0)
            && (forall f :: f in st.created ==> if f in st.files then f !in st.released else OnceIn(st.released, f))
            && (forall p :: p in st.pipes ==> p in st.piped && st.pipes[p].inodeRef == |Ends(st.files, p)| > 0)
            && (forall p :: p in st.piped ==> if p in st.pipes then p !in st.freed else OnceIn(st.freed, p) && Ends(st.files, p) == {})
  {
    hide Holders, Ends, OnceIn, Once, Legal, After;
    EmptyOk();
    RunOk(EMPTY, steps);
    var st := After(EMPTY, steps);
    forall f | f in st.created ensures if f in st.files then f !in st.released else OnceIn(st.released, f) {
      EndedOnce(st.created, st.files.Keys, st.released, f);
    }
    forall p | p in st.piped
      ensures if p in st.pipes then p !in st.freed else OnceIn(st.freed, p) && Ends(st.files, p) == {}
    {
      EndedOnce(st.piped, st.pipes.Keys, st.freed, p);
      if p !in st.pipes { NoEnds(st, p); }
    }
    forall p | p in st.pipes ensures p in st.piped && st.pipes[p].inodeRef == |Ends(st.files, p)| > 0 {
      assert PipeOk(st, p);
      assert p in st.pipes.Keys;
    }
    forall f | f in st.files ensures f in st.created { assert f in st.files.Keys; }
  }

  lemma Overwrite(slots: map<Slot, nat>, k: Slot, x: nat, y: nat)
    ensures slots[k := x][k := y] == slots[k := y]
  {
  }

  lemma {:induction false} LowestSkips(slots: map<Slot, nat>, t: nat, i: nat, n: nat)
    requires i <= n <= NR_OPEN && forall j :: i <= j < n ==> (t, j) in slots
    ensures Lowest(slots, t, i) == Lowest(slots, t, n)
    decreases n - i
  {
    if i < n { LowestSkips(slots, t, i + 1, n); }
  }

  lemma {:induction false} LowestSame(slots: map<Slot, nat>, t: nat, a: nat, mark: nat, i: nat)
    requires a < i
    ensures Lowest(slots[(t, a) := mark], t, i) == Lowest(slots, t, i)
    decreases NR_OPEN - i
  {
    if i < NR_OPEN { LowestSame(slots, t, a, mark, i + 1); }
  }

  /** With the lowest free descriptor marked, the next one is the lowest above it. */
  lemma LowestAbove(slots: map<Slot, nat>, t: nat, mark: nat)
    requires Lowest(slots, t, 0).Some?
    ensures var a := Lowest(slots, t, 0).value;
            Lowest(slots[(t, a) := mark], t, 0) == Lowest(slots, t, a + 1)
  {
    hide Lowest;
    var a := Lowest(slots, t, 0).value;
    LowestSkips(slots[(t, a) := mark], t, 0, a + 1);
    LowestSame(slots, t, a, mark, a + 1);
  }

  class Table {
    var slots: map<Slot, nat>
    var files: map<nat, File>
    var pipes: map<nat, Pipe>
    ghost var created: set<nat>
    ghost var released: seq<nat>
    ghost var piped: set<nat>
    ghost var freed: seq<nat>

    ghost function St(): (st: State)
      reads this
    {
      State(slots, files, pipes, created, released, piped, freed)
    }

    constructor ()
      ensures St() == EMPTY && Inv(St())
    {
      slots, files, pipes := map[], map[], map[];
      created, released, piped, freed := {}, [], {}, [];
      new;
      EmptyOk();
    }

    /** fd_alloc: the lowest free descriptor, or -1. */
    method FdAlloc(t: nat) returns (fd: int)
      ensures fd == -1 ==> Lowest(slots, t, 0).None? && forall i :: 0 <= i < NR_OPEN ==> (t, i) in slots
      ensures fd != -1 ==> 0 <= fd < NR_OPEN && (t, fd) !in slots && forall i :: 0 <= i < fd ==> (t, i) in slots
      ensures fd != -1 ==> Lowest(slots, t, 0) == Some(fd)
    {
      for i := 0 to NR_OPEN
        invariant forall j :: 0 <= j < i ==> (t, j) in slots
        invariant Lowest(slots, t, 0) == Lowest(slots, t, i)
      {
        if (t, i) !in slots { return i; }
      }
      fd := -1;
    }

    /** vfs_close: the last reference releases the file, and the second end of a pipe frees it. */
    method VfsClose(f: nat)
      requires f in files && (files[f].kind.PipeEnd? ==> files[f].kind.pipe in pipes)
      modifies this`files, this`pipes, this`released, this`freed
      ensures St() == Drop(old(St()), f)
      ensures f in files <==> old(files[f].refcount) != 1
      ensures released == if f in files then old(released) else old(released) + [f]
    {
      var x := files[f];
      files := files[f := x.(refcount := x.refcount - 1)];
      if files[f].refcount != 0 { return; }
      released := released + [f];
      if x.kind.PipeEnd? {
        var p := x.kind.pipe;
        if !pipes[p].single {
          pipes := pipes[p := pipes[p].(single := true)];
        }
        pipes := pipes[p := pipes[p].(inodeRef := pipes[p].inodeRef - 1)];
        if pipes[p].inodeRef == 0 {
          freed := freed + [p];
          pipes := pipes - {p};
        }
      }
      files := files - {f};
      assert files == Drop(old(St()), f).files && pipes == Drop(old(St()), f).pipes;
    }

    /** fd_close and sys_close: false for a descriptor that is not open. */
    method FdClose(t: nat, fd: int) returns (ok: bool)
      requires Inv(St())
      modifies this`slots, this`files, this`pipes, this`released, this`freed
      ensures Inv(St()) && Settles(old(St()), St())
      ensures ok <==> IsOpen(old(slots), t, fd)
      ensures slots == if ok then old(slots) - {(t, fd)} else old(slots)
      ensures St() == Do(old(St()), Close(t, fd))
    {
      hide Inv, Settles, Do;
      CloseFdOk(St(), t, fd);
      ghost var st := St();
      if fd < 0 || fd >= NR_OPEN || (t, fd) !in slots {
        ok := false;
      } else {
        ClosesFile(st, (t, fd));
        var f := slots[(t, fd)];
        slots := slots - {(t, fd)};
        VfsClose(f);
        ok := true;
      }
      assert St() == CloseFd(st, t, fd);
      StepIs(st, Close(t, fd));
    }

    /** Close the descriptors lo..hi of task t. */
    method CloseRange(t: nat, lo: nat, hi: nat)
      requires Inv(St()) && lo <= hi <= NR_OPEN
      modifies this`slots, this`files, this`pipes, this`released, this`freed
      ensures St() == CloseFrom(old(St()), t, lo, hi)
    {
      hide Inv, Settles, Do, CloseSlot;
      ghost var st := St();
      for i := lo to hi
        invariant Inv(St()) && CloseFrom(st, t, lo, hi) == CloseFrom(St(), t, i, hi)
      {
        ghost var before := St();
        StepIs(before, Close(t, i));
        CloseNothing(before, (t, i));
        var ok := FdClose(t, i);
      }
    }

    /** sys_open; f is the number of the file vfs_open makes, if it succeeds. */
    method SysOpen(t: nat, found: bool, f: nat) returns (fd: int)
      requires Inv(St()) && f !in created
      modifies this
      ensures Inv(St())
      ensures fd == -1 <==> !found || forall i :: 0 <= i < NR_OPEN ==> (t, i) in old(slots)
      ensures fd == -1 ==> slots == old(slots) && files == old(files) && pipes == old(pipes) && freed == old(freed)
      ensures fd == -1 ==> released == if found then old(released) + [f] else old(released)
      ensures fd != -1 ==> 0 <= fd < NR_OPEN && (t, fd) !in old(slots) && St() == NewFile(old(St()), (t, fd), f, Plain)
      ensures fd != -1 ==> forall i :: 0 <= i < fd ==> (t, i) in old(slots)
      ensures St() == Do(old(St()), Open(t, found, f))
    {
      hide Inv, FilesOk, PipesOk, LogsOk;
      ghost var st := St();
      OpenFileOk(st, t, found, f);
      if !found { return -1; }
      NotMade(st, f);
      created := created + {f};
      fd := FdAlloc(t);
      files := files[f := File(1, Plain)];
      if fd < 0 {
        VfsClose(f);
        assert files == old(files);
        return -1;
      }
      slots := slots[(t, fd) := f];
    }

    /** sys_pipe; f, g and p number the new files and pipe, and mark is what holds the first slot meanwhile. */
    method SysPipe(t: nat, room: nat, f: nat, g: nat, p: nat, mark: nat) returns (a: int, b: int)
      requires Inv(St()) && f !in created && g !in created && f != g && p !in piped
      modifies this
      ensures Inv(St())
      ensures a == -1 <==> room < PIPE_ALLOCS || forall i, j :: 0 <= i < j < NR_OPEN ==> (t, i) in old(slots) || (t, j) in old(slots)
      ensures a == -1 ==> St() == old(St())
      ensures a != -1 ==> 0 <= a < b < NR_OPEN && (t, a) !in old(slots) && (t, b) !in old(slots)
                          && St() == NewPipe(old(St()), (t, a), (t, b), f, g, p)
      ensures a != -1 ==> forall i :: 0 <= i < b && i != a ==> (t, i) in old(slots)
      ensures St() == Do(old(St()), MakePipe(t, room, f, g, p))
    {
      hide Inv, Lowest;
      ghost var st := St();
      OpenPipeOk(st, t, room, f, g, p);
      a, b := TwoSlots(t, mark);
      if a == -1 { return; }
      if room < PIPE_ALLOCS {
        slots := slots - {(t, a)};
        assert slots == st.slots;
        return -1, -1;
      }
      pipes := pipes[p := Pipe(2, false)];
      files := files[f := File(1, PipeEnd(p))];
      files := files[g := File(1, PipeEnd(p))];
      slots := slots[(t, a) := f];
      slots := slots[(t, b) := g];
      created, piped := created + {f} + {g}, piped + {p};
      Overwrite(st.slots, (t, a), mark, f);
    }

    /** Two free descriptors; the first is marked so that the second differs. */
    method TwoSlots(t: nat, mark: nat) returns (a: int, b: int)
      modifies this`slots
      ensures a == -1 ==> slots == old(slots) && forall i, j :: 0 <= i < j < NR_OPEN ==> (t, i) in old(slots) || (t, j) in old(slots)
      ensures a != -1 ==> 0 <= a < b < NR_OPEN && (t, a) !in old(slots) && (t, b) !in old(slots) && slots == old(slots)[(t, a) := mark]
      ensures var x := Lowest(old(slots), t, 0);
              var y := if x.Some? then Lowest(old(slots), t, x.value + 1) else None;
              if a == -1 then y.None? else x == Some(a) && y == Some(b)
      ensures a != -1 ==> forall i :: 0 <= i < b && i != a ==> (t, i) in old(slots)
    {
      b := -1;
      a := FdAlloc(t);
      if a >= 0 {
        LowestAbove(slots, t, mark);
        slots := slots[(t, a) := mark];
        b := FdAlloc(t);
      }
      if a == -1 || b == -1 {
        if a != -1 {
          slots := slots - {(t, a)};
          assert slots == old(slots);
        }
        return -1, -1;
      }
    }

    /** sys_dup. */
    method SysDup(t: nat, oldfd: int) returns (fd: int)
      requires Inv(St())
      modifies this`slots, this`files
      ensures Inv(St())
      ensures fd == -1 <==> !IsOpen(old(slots), t, oldfd) || forall i :: 0 <= i < NR_OPEN ==> (t, i) in old(slots)
      ensures fd == -1 ==> St() == old(St())
      ensures fd != -1 ==>
                0 <= fd < NR_OPEN && (t, fd) !in old(slots) && slots == old(slots)[(t, fd) := old(slots)[(t, oldfd)]]
      ensures fd != -1 ==> forall i :: 0 <= i < fd ==> (t, i) in old(slots)
      ensures St() == Do(old(St()), Dup(t, oldfd))
    {
      hide Inv;
      DupFdOk(St(), t, oldfd);
      if oldfd < 0 || oldfd >= NR_OPEN || (t, oldfd) !in slots { return -1; }
      SlotFile(St(), (t, oldfd));
      var f := slots[(t, oldfd)];
      fd := FdAlloc(t);
      if fd < 0 { return -1; }
      files := files[f := files[f].(refcount := files[f].refcount + 1)];
      slots := slots[(t, fd) := f];
    }

    /** sys_dup2. */
    method SysDup2(t: nat, oldfd: int, newfd: int) returns (fd: int)
      requires Inv(St())
      modifies this`slots, this`files, this`pipes, this`released, this`freed
      ensures Inv(St()) && Settles(old(St()), St())
      ensures fd == -1 <==> !IsOpen(old(slots), t, oldfd) || !(0 <= newfd < NR_OPEN)
      ensures fd == -1 ==> St() == old(St())
      ensures fd != -1 ==> fd == newfd && slots == old(slots)[(t, newfd) := old(slots)[(t, oldfd)]]
      ensures St() == Do(old(St()), Dup2(t, oldfd, newfd))
    {
      hide Inv, Settles, CloseSlot;
      ghost var st := St();
      DupToOk(st, t, oldfd, newfd);
      if oldfd == newfd {
        if 0 <= oldfd < NR_OPEN && (t, oldfd) in slots { return newfd; }
        return -1;
      }
      if newfd < 0 || newfd >= NR_OPEN { return -1; }
      if oldfd < 0 || oldfd >= NR_OPEN || (t, oldfd) !in slots { return -1; }
      var f := slots[(t, oldfd)];
      if (t, newfd) in slots && slots[(t, newfd)] == f { return newfd; }
      CloseNothing(st, (t, newfd));
      if (t, newfd) in slots {
        var ok := FdClose(t, newfd);
      }
      SlotFile(St(), (t, oldfd));
      files := files[f := files[f].(refcount := files[f].refcount + 1)];
      slots := slots[(t, newfd) := f];
      fd := newfd;
    }

    /** The descriptor part of fork_enter: every open slot is copied. */
    method ForkFiles(t: nat, child: nat)
      requires Inv(St()) && t != child && NoSlots(slots, child, 0)
      modifies this`slots, this`files
      ensures Inv(St()) && Settles(old(St()), St())
      ensures forall i :: 0 <= i < NR_OPEN ==> SameSlot(old(slots), slots, (t, i), (child, i))
      ensures forall k: Slot :: k.0 != child ==> SameSlot(old(slots), slots, k, k)
      ensures St() == Do(old(St()), ForkTo(t, child))
    {
      hide Inv, Settles, SameSlot, Share, CopySlot, Do;
      ghost var st := St();
      CopyFromOk(st, t, child, 0);
      ForkIs(st, t, child);
      for i := 0 to NR_OPEN
        invariant Inv(St()) && NoSlots(slots, child, i) && CopyFrom(st, t, child, 0) == CopyFrom(St(), t, child, i)
      {
        ghost var before := St();
        CopySlotOk(before, t, child, i);
        CopySlotIs(before, t, child, i);
        if (t, i) in slots {
          var f := slots[(t, i)];
          slots := slots[(child, i) := f];
          files := files[f := files[f].(refcount := files[f].refcount + 1)];
        }
        assert St() == CopySlot(before, t, child, i);
      }
    }

    /** The descriptor part of sys_execv: the program file and everything above the standard three. */
    method ExecFiles(t: nat, fd: int)
      requires Inv(St())
      modifies this`slots, this`files, this`pipes, this`released, this`freed
      ensures Inv(St()) && Settles(old(St()), St())
      ensures slots == old(slots) - (set i | 0 <= i < NR_OPEN && (i >= 3 || i == fd) :: (t, i))
      ensures St() == Do(old(St()), ExecClose(t, fd))
    {
      hide Inv, Settles, CloseFrom, CloseSlot;
      ghost var st := St();
      var ok := FdClose(t, fd);
      ghost var mid := St();
      CloseFromOk(mid, t, 3, NR_OPEN);
      SettlesTransitive(st, mid, CloseFrom(mid, t, 3, NR_OPEN));
      CloseRange(t, 3, NR_OPEN);
    }

    /** The descriptor part of free_task: a reaped task keeps no slot. */
    method ReapFiles(t: nat)
      requires Inv(St())
      modifies this`slots, this`files, this`pipes, this`released, this`freed
      ensures Inv(St()) && Settles(old(St()), St())
      ensures forall k :: k in old(slots) ==> (k in slots <==> k.0 != t)
      ensures slots.Keys <= old(slots).Keys && forall k :: k in slots ==> slots[k] == old(slots)[k]
      ensures St() == Do(old(St()), Reap(t))
    {
      hide Inv, Settles, CloseFrom;
      CloseFromOk(St(), t, 0, NR_OPEN);
      SmallSlots(St());
      CloseRange(t, 0, NR_OPEN);
    }

    /** A step of a run is one of these calls, with the same effect. */
    method Perform(a: Step, mark: nat)
      requires Inv(St()) && Enabled(St(), a)
      modifies this
      ensures Inv(St()) && St() == Do(old(St()), a)
    {
      hide Inv, Do, Settles;
      match a {
        case Open(t, found, f) => var fd := SysOpen(t, found, f);
        case MakePipe(t, room, f, g, p) => var x, y := SysPipe(t, room, f, g, p, mark);
        case Dup(t, oldfd) => var fd := SysDup(t, oldfd);
        case Dup2(t, oldfd, newfd) => var fd := SysDup2(t, oldfd, newfd);
        case ForkTo(t, child) => ForkFiles(t, child);
        case Close(t, fd) => var ok := FdClose(t, fd);
        case ExecClose(t, fd) => ExecFiles(t, fd);
        case Reap(t) => ReapFiles(t);
      }
    }
  }

  lemma StepIs(st: State, a: Step)
    requires a.Close?
    ensures Do(st, a) == CloseFd(st, a.t, a.fd)
  {
  }

  lemma ForkIs(st: State, t: nat, child: nat)
    ensures Do(st, ForkTo(t, child)) == CopyFrom(st, t, child, 0)
  {
  }

  lemma CopySlotIs(st: State, t: nat, child: nat, i: nat)
    requires Inv(st) && NoSlots(st.slots, child, i) && t != child
    ensures NoSlots(CopySlot(st, t, child, i).slots, child, i + 1)
    ensures (t, i) !in st.slots ==> CopySlot(st, t, child, i) == st
    ensures (t, i) in st.slots ==> st.slots[(t, i)] in st.files
    ensures (t, i) in st.slots ==>
              var f := st.slots[(t, i)];
              CopySlot(st, t, child, i) == st.(slots := st.slots[(child, i) := f],
                                               files := st.files[f := st.files[f].(refcount := st.files[f].refcount + 1)])
  {
    hide Inv;
    if (t, i) in st.slots { SlotFile(st, (t, i)); }
  }

  lemma CloseNothing(st: State, k: Slot)
    ensures k !in st.slots ==> CloseSlot(st, k) == st
  {
  }

  lemma ClosesFile(st: State, k: Slot)
    requires Inv(st) && k in st.slots
    ensures st.slots[k] in st.files
            && (st.files[st.slots[k]].kind.PipeEnd? ==> st.files[st.slots[k]].kind.pipe in st.pipes)
    ensures CloseSlot(st, k) == Drop(st.(slots := st.slots - {k}), st.slots[k])
  {
  }

  lemma SmallSlots(st: State)
    requires Inv(st)
    ensures forall k :: k in st.slots ==> k.1 < NR_OPEN
  {
  }
}
