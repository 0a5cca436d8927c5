/**
 kmalloc and kfree of src/mm/slab.c over the slab classes, the page-frame allocator and the heap.
 The slab allocator also supplies the headers of middle slabs and the nodes of the heap, all from
 the 64-byte class. `room` says whether the pages a new slab needs can be mapped. `halt()` is
 modelled by returning `None` or false.
 */
module Kmalloc {
  import opened Common
  import opened AddressMap
  import opened Slabs
  import PageFrames
  import HeapBlocks
  import KernelHeap
  import LinkedList

  type Maps = seq<seq<seq<bool>>>

  /** Object c of some class is handed out. */
  ghost predicate Out(m: Maps, c: Range) {
    c.Cell? && c.i < |m| && c.j < |m[c.i]| && c.k < |m[c.i][c.j]| && (Small(c.i) ==> c.k > 0) && m[c.i][c.j][c.k]
  }

  ghost predicate MapsOk(m: Maps) {
    && |m| == CLASSES
    && forall i :: 0 <= i < CLASSES ==> |m[i]| <= Limit(i) && forall j :: 0 <= j < |m[i]| ==> |m[i][j]| == Bits(i)
  }

  lemma OutProper(m: Maps, c: Range)
    requires MapsOk(m) && Out(m, c)
    ensures Proper(c)
  {
    assert |m[c.i]| <= Limit(c.i) && |m[c.i][c.j]| == Bits(c.i);
  }

  /** Handing out (j, k) of class i adds exactly that object. */
  lemma GrantedOut(m: Maps, i: nat, j: nat, k: nat, c: Range)
    requires MapsOk(m) && i < CLASSES && j < |m[i]| && k < Bits(i) && !m[i][j][k] && (Small(i) ==> k > 0)
    ensures Out(m[i := Granted(m[i], j, k, Bits(i), Small(i))], c) <==> Out(m, c) || c == Cell(i, j, k)
    ensures !Out(m, Cell(i, j, k))
  {
    hide NoneFree, Bits, Limit;
    assert |m[i][j]| == Bits(i);
  }

  lemma FreedOut(m: Maps, i: nat, j: nat, k: nat, c: Range)
    requires MapsOk(m) && Out(m, Cell(i, j, k))
    ensures Out(m[i := m[i][j := m[i][j][k := false]]], c) <==> Out(m, c) && c != Cell(i, j, k)
  {
  }

  /** Object c is one of the kernel's own 64-byte objects at the addresses qs. */
  ghost predicate Within(c: Range, qs: set<nat>) {
    c.Cell? && c.i == 1 && Addr(c) in qs
  }

  ghost predicate Backed(m: Maps, q: nat) {
    exists j, k :: Out(m, Cell(1, j, k)) && Addr(Cell(1, j, k)) == q
  }

  /** Every object handed out is a live result, a heap node or a slab header, and only one of these. */
  ghost predicate Accounts(m: Maps, live: set<Range>, ns: set<nat>, hs: set<nat>) {
    && MapsOk(m) && ns !! hs
    && (forall c :: c in live && c.Cell? ==> Out(m, c) && !Within(c, ns) && !Within(c, hs))
    && (forall c :: Out(m, c) ==> c in live || Within(c, ns) || Within(c, hs))
    && (forall q :: q in ns || q in hs ==> Backed(m, q))
  }

  lemma SameObject(m: Maps, c: Range, d: Range)
    requires MapsOk(m) && (Out(m, c) || Proper(c)) && (Out(m, d) || Proper(d)) && c.Cell? && d.Cell?
             && c.i == d.i < CLASSES && Addr(c) == Addr(d)
    ensures c == d
  {
    hide Size, Offset, Bits, Limit, Span;
    if Out(m, c) { OutProper(m, c); }
    if Out(m, d) { OutProper(m, d); }
    ClassShape(c.i);
    if c != d { CellsApart(c.i, c.j, c.k, d.j, d.k); }
  }

  /** A new object's address is not in use by the kernel's own objects. */
  lemma NewAddress(m: Maps, live: set<Range>, ns: set<nat>, hs: set<nat>, c: Range)
    requires Accounts(m, live, ns, hs) && c.Cell? && c.i == 1 && Proper(c) && !Out(m, c)
    ensures Addr(c) !in ns && Addr(c) !in hs
  {
    hide Addr;
    if Addr(c) in ns || Addr(c) in hs {
      assert Backed(m, Addr(c));
      var j, k :| Out(m, Cell(1, j, k)) && Addr(Cell(1, j, k)) == Addr(c);
      SameObject(m, c, Cell(1, j, k));
    }
  }

  ghost predicate Grants(m: Maps, m': Maps, c: Range) {
    MapsOk(m) && MapsOk(m') && c.Cell? && c.i < CLASSES && Proper(c) && !Out(m, c) && forall d :: Out(m', d) <==> Out(m, d) || d == c
  }

  ghost predicate Releases(m: Maps, m': Maps, c: Range) {
    MapsOk(m) && MapsOk(m') && c.Cell? && c.i < CLASSES && Out(m, c) && forall d :: Out(m', d) <==> Out(m, d) && d != c
  }

  lemma BackedKept(m: Maps, m': Maps, c: Range, q: nat)
    requires Grants(m, m', c) && Backed(m, q)
    ensures Backed(m', q)
  {
    hide Addr, Out;
    var j, k :| Out(m, Cell(1, j, k)) && Addr(Cell(1, j, k)) == q;
    assert Out(m', Cell(1, j, k));
  }

  lemma AddLive(m: Maps, m': Maps, live: set<Range>, ns: set<nat>, hs: set<nat>, c: Range)
    requires Accounts(m, live, ns, hs) && Grants(m, m', c)
    ensures Accounts(m', live + {c}, ns, hs) && c !in live
  {
    hide Addr, Out, Proper;
    if c.i == 1 { NewAddress(m, live, ns, hs, c); }
    forall q | q in ns || q in hs ensures Backed(m', q) { BackedKept(m, m', c, q); }
  }

  lemma AddNode(m: Maps, m': Maps, live: set<Range>, ns: set<nat>, hs: set<nat>, c: Range)
    requires Accounts(m, live, ns, hs) && Grants(m, m', c) && c.i == 1
    ensures Accounts(m', live, ns + {Addr(c)}, hs) && Addr(c) !in ns
  {
    hide Addr, Out, Proper;
    NewAddress(m, live, ns, hs, c);
    assert Out(m', Cell(1, c.j, c.k));
    forall q | q in ns + {Addr(c)} || q in hs ensures Backed(m', q) {
      if q != Addr(c) { BackedKept(m, m', c, q); }
    }
    forall d | d in live && d.Cell? ensures !Within(d, ns + {Addr(c)}) {
      if d.i == 1 && Addr(d) == Addr(c) { SameObject(m, c, d); }
    }
  }

  lemma AddHeader(m: Maps, m': Maps, live: set<Range>, ns: set<nat>, hs: set<nat>, c: Range)
    requires Accounts(m, live, ns, hs) && Grants(m, m', c) && c.i == 1
    ensures Accounts(m', live, ns, hs + {Addr(c)}) && Addr(c) !in hs
  {
    hide Addr, Out, Proper;
    assert Accounts(m, live, hs, ns);
    AddNode(m, m', live, hs, ns, c);
  }

  lemma DropLive(m: Maps, m': Maps, live: set<Range>, ns: set<nat>, hs: set<nat>, c: Range)
    requires Accounts(m, live, ns, hs) && Releases(m, m', c) && c in live
    ensures Accounts(m', live - {c}, ns, hs)
  {
    hide Addr, Out, Proper;
    forall q | q in ns || q in hs ensures Backed(m', q) {
      assert Backed(m, q);
      var j, k :| Out(m, Cell(1, j, k)) && Addr(Cell(1, j, k)) == q;
      assert Cell(1, j, k) != c;
      assert Out(m', Cell(1, j, k));
    }
  }

  lemma DropNode(m: Maps, m': Maps, live: set<Range>, ns: set<nat>, hs: set<nat>, c: Range)
    requires Accounts(m, live, ns, hs) && Releases(m, m', c) && Within(c, ns)
    ensures Accounts(m', live, ns - {Addr(c)}, hs)
  {
    hide Addr, Out, Proper;
    forall q | q in ns - {Addr(c)} || q in hs ensures Backed(m', q) {
      assert Backed(m, q);
      var j, k :| Out(m, Cell(1, j, k)) && Addr(Cell(1, j, k)) == q;
      assert Cell(1, j, k) != c;
      assert Out(m', Cell(1, j, k));
    }
    forall d | Out(m', d) ensures d in live || Within(d, ns - {Addr(c)}) || Within(d, hs) {
      if Within(d, ns) && Addr(d) == Addr(c) { SameObject(m, c, d); }
    }
  }

  function SetOf(s: seq<nat>): (r: set<nat>) { set q | q in s }

  /** The one free object a class would hand out next. */
  ghost predicate NextObject(m: Maps, i: nat, j: nat, k: nat) {
    i < |m| && FirstFree(m[i], j, k)
  }

  /** The class needs another slab after its next object and cannot get one. */
  ghost predicate Stuck(m: Maps, i: nat, room: bool)
    requires i < |m| && i < CLASSES
  {
    exists j, k :: FirstFree(m[i], j, k) && NoneFree(m[i][j := m[i][j][k := true]]) && (|m[i]| == Limit(i) || !room)
  }

  lemma FirstFreeUnique(m: seq<seq<bool>>, j: int, k: int, j': int, k': int)
    requires FirstFree(m, j, k) && FirstFree(m, j', k')
    ensures (j, k) == (j', k')
  {
  }

  /** The live heap results are the used blocks of the heap. */
  ghost predicate BlocksOf(live: set<Range>, bs: seq<HeapBlocks.Block>) {
    forall s, n :: Block(s, n) in live <==> HeapBlocks.Block(s, n, true) in bs
  }

  /** The live page results are referenced frames. */
  ghost predicate PagesHeld(live: set<Range>, mrt: seq<PageFrames.Count>) {
    forall f: nat :: Page(f) in live ==> 0 < f < |mrt| && 0 < mrt[f] < 255
  }

  /** Frame f was free and is now referenced once; no other count has changed. */
  ghost predicate TookFrame(mrt: seq<PageFrames.Count>, mrt': seq<PageFrames.Count>, f: nat) {
    0 < f < |mrt| && mrt[f] == 0 && mrt' == mrt[f := 1]
  }

  /** What init_slab sets up for class i. */
  predicate Initial(c: SizeClass, i: nat)
    requires i < CLASSES
  {
    Good(c, Bits(i), Small(i), Limit(i)) && Bits(i) > 1 && Bitmaps(c.slabs) == [Empty(Bits(i), Small(i))]
  }

  method MakeClasses() returns (cs: seq<SizeClass>)
    ensures |cs| == CLASSES && forall i :: 0 <= i < CLASSES ==> Initial(cs[i], i)
  {
    hide Bits, Limit, Good, Empty, Bitmaps;
    cs := [];
    for i := 0 to CLASSES
      invariant |cs| == i && forall j :: 0 <= j < i ==> Initial(cs[j], j)
    {
      Positive(i);
      var c := NewClass(Bits(i), Small(i), Limit(i));
      cs := cs + [c];
    }
  }

  lemma Positive(i: nat)
    requires i < CLASSES
    ensures Bits(i) > 1 && Limit(i) > 0
  {
  }

  /** The first three objects of the 64-byte class. */
  method FirstObjects(c0: SizeClass) returns (c: SizeClass)
    requires Initial(c0, 1)
    ensures Good(c, Bits(1), true, Limit(1))
            && Bitmaps(c.slabs) == [Empty(Bits(1), true)[1 := true][2 := true][3 := true]]
  {
    hide Good, Clear;
    var e := Empty(Bits(1), true);
    OnlyNext(e, 1);
    OnlyNext(e[1 := true], 2);
    OnlyNext(e[1 := true][2 := true], 3);
    var r;
    r, c := Alloc(c0, Bits(1), true, Limit(1), true);
    r, c := Alloc(c, Bits(1), true, Limit(1), true);
    r, c := Alloc(c, Bits(1), true, Limit(1), true);
  }

  /** In a single slab whose first k bits are set and the others clear, the next object is k. */
  lemma OnlyNext(b: seq<bool>, k: nat)
    requires k + 1 < |b| && forall i :: 0 <= i < |b| ==> b[i] == (i < k)
    ensures forall j, o :: FirstFree([b], j, o) <==> j == 0 && o == k
    ensures !NoneFree([b][0 := b[k := true]])
    ensures forall bits, head :: bits > 0 ==> Granted([b], 0, k, bits, head) == [b[k := true]]
  {
    assert Lowest(b, k);
    var m := [b][0 := b[k := true]];
    assert !m[0][k + 1];
    forall j, o | FirstFree([b], j, o) ensures j == 0 && o == k {
      assert Lowest([b][j], o);
    }
    assert FirstFree([b], 0, k);
  }

  /** The maps init_slab and init_heap leave. */
  ghost predicate InitialMaps(m: Maps) {
    && MapsOk(m) && (forall i :: 0 <= i < CLASSES && i != 1 ==> m[i] == [Empty(Bits(i), Small(i))])
    && m[1] == [Empty(Bits(1), true)[1 := true][2 := true][3 := true]]
  }

  lemma InitialOut(m: Maps, c: Range)
    requires InitialMaps(m)
    ensures Out(m, c) <==> c in {Cell(1, 0, 1), Cell(1, 0, 2), Cell(1, 0, 3)}
  {
    hide Bits, Limit;
    assert Bits(1) == 64 by { FirstBits(); }
    if c.Cell? && c.i < CLASSES {
      Positive(c.i);
      assert c.i != 1 ==> m[c.i] == [Empty(Bits(c.i), Small(c.i))];
    }
  }

  lemma FirstBits()
    ensures Bits(1) == 64
    ensures Addr(Cell(1, 0, 1)) != Addr(Cell(1, 0, 2)) && Addr(Cell(1, 0, 1)) != Addr(Cell(1, 0, 3))
            && Addr(Cell(1, 0, 2)) != Addr(Cell(1, 0, 3))
  {
  }

  lemma InitialAccounts(m: Maps)
    requires InitialMaps(m)
    ensures Accounts(m, {}, {Addr(Cell(1, 0, 3))}, {Addr(Cell(1, 0, 1)), Addr(Cell(1, 0, 2))})
  {
    hide Out, Addr, MapsOk, Bits;
    FirstBits();
    InitialOut(m, Cell(1, 0, 1));
    InitialOut(m, Cell(1, 0, 2));
    InitialOut(m, Cell(1, 0, 3));
    assert MapsOk(m);
    forall c | Out(m, c) ensures c in {Cell(1, 0, 1), Cell(1, 0, 2), Cell(1, 0, 3)} { InitialOut(m, c); }
  }

  lemma NotNull(c: Range)
    requires c.Cell? && c.i == 1
    ensures Addr(c) != 0
  {
  }

  ghost predicate ClassesOk(cs: seq<SizeClass>) {
    |cs| == CLASSES && forall i :: 0 <= i < CLASSES ==> Good(cs[i], Bits(i), Small(i), Limit(i))
  }

  ghost function MapsOf(cs: seq<SizeClass>): (m: Maps)
    ensures |m| == |cs| && forall i :: 0 <= i < |m| ==> m[i] == Bitmaps(cs[i].slabs)
  {
    seq(|cs|, i requires 0 <= i < |cs| => Bitmaps(cs[i].slabs))
  }

  lemma MapsFit(cs: seq<SizeClass>)
    requires ClassesOk(cs)
    ensures MapsOk(MapsOf(cs))
  {
    hide Bitmaps, Bits, Limit, Clear;
    var m := MapsOf(cs);
    forall i | 0 <= i < CLASSES ensures |m[i]| <= Limit(i) && forall j :: 0 <= j < |m[i]| ==> |m[i][j]| == Bits(i) {
      assert Good(cs[i], Bits(i), Small(i), Limit(i));
      forall j | 0 <= j < |m[i]| ensures |m[i][j]| == Bits(i) { assert SlabOk(cs[i].slabs[j], Bits(i)); }
    }
  }

  /** Exactly the classes of A have one slab more. */
  ghost predicate GrewBy(cs: seq<SizeClass>, cs': seq<SizeClass>, A: set<nat>) {
    |cs'| == |cs| == CLASSES && forall i :: 0 <= i < CLASSES ==> |cs'[i].slabs| == |cs[i].slabs| + if i in A then 1 else 0
  }

  ghost predicate SameSlabs(cs: seq<SizeClass>, cs': seq<SizeClass>) {
    |cs'| == |cs| == CLASSES && forall i :: 0 <= i < CLASSES ==> |cs'[i].slabs| == |cs[i].slabs|
  }

  /** One object of class i. */
  method ClassAlloc(cs: seq<SizeClass>, i: nat, room: bool) returns (r: Option<Range>, cs': seq<SizeClass>)
    requires ClassesOk(cs) && i < CLASSES
    ensures r.None? <==> Stuck(MapsOf(cs), i, room)
    ensures r.Some? ==> ClassesOk(cs') && r.value.Cell? && r.value.i == i && Grants(MapsOf(cs), MapsOf(cs'), r.value)
    ensures r.Some? ==> NextObject(MapsOf(cs), i, r.value.j, r.value.k)
    ensures r.Some? ==> |cs'[i].slabs| == |cs[i].slabs| + if Grows(MapsOf(cs), i) then 1 else 0
    ensures r.Some? ==> forall c :: 0 <= c < CLASSES && c != i ==> cs'[c] == cs[c]
  {
    hide Bitmaps, Bits, Limit, NoneFree, Good, Clear;
    MapsFit(cs);
    ghost var m := MapsOf(cs);
    var o, c := Alloc(cs[i], Bits(i), Small(i), Limit(i), room);
    ghost var j, k :| FirstFree(m[i], j, k)
      && (o.None? <==> NoneFree(m[i][j := m[i][j][k := true]]) && (|m[i]| == Limit(i) || !room))
      && (o.Some? ==> o.value == (j, k) && Bitmaps(c.slabs) == Granted(m[i], j, k, Bits(i), Small(i)));
    forall j', k' | FirstFree(m[i], j', k') ensures j' == j && k' == k { FirstFreeUnique(m[i], j, k, j', k'); }
    if o.None? { return None, cs; }
    r, cs' := Some(Cell(i, o.value.0, o.value.1)), cs[i := c];
    MapsFit(cs');
    FirstIsClear(m[i], j, k);
    assert |m[i]| <= Limit(i) && |m[i][j]| == Bits(i);
    ghost var m' := m[i := Granted(m[i], j, k, Bits(i), Small(i))];
    assert MapsOf(cs') == m';
    forall d ensures Out(m', d) <==> Out(m, d) || d == r.value { GrantedOut(m, i, j, k, d); }
    GrantedOut(m, i, j, k, r.value);
  }

  /** Object (i, j, k) goes back to its class. */
  method ClassFree(cs: seq<SizeClass>, i: nat, j: nat, k: nat) returns (cs': seq<SizeClass>)
    requires ClassesOk(cs) && Out(MapsOf(cs), Cell(i, j, k))
    ensures ClassesOk(cs') && Releases(MapsOf(cs), MapsOf(cs'), Cell(i, j, k))
    ensures forall c :: 0 <= c < CLASSES ==> |cs'[c].slabs| == |cs[c].slabs|
  {
    hide Bitmaps, Bits, Limit, Good, Clear;
    MapsFit(cs);
    ghost var m := MapsOf(cs);
    assert |m[i][j]| == Bits(i);
    var ok, c := Free(cs[i], Bits(i), Small(i), Limit(i), j, k);
    cs' := cs[i := c];
    MapsFit(cs');
    ghost var m' := m[i := m[i][j := m[i][j][k := false]]];
    assert MapsOf(cs') == m';
    forall d ensures Out(m', d) <==> Out(m, d) && d != Cell(i, j, k) { FreedOut(m, i, j, k, d); }
  }

  lemma FirstIsClear(m: seq<seq<bool>>, j: int, k: int)
    requires FirstFree(m, j, k)
    ensures 0 <= j < |m| && 0 <= k < |m[j]| && !m[j][k]
  {
  }

  /** The class for a request: the smallest whose objects hold it. */
  function ClassFor(size: nat): (i: nat)
    requires size <= 2048
    ensures i < CLASSES && size <= Size(i) && forall j :: 0 <= j < i ==> Size(j) < size
  {
    if size <= 32 then 0 else if size <= 64 then 1 else if size <= 128 then 2 else if size <= 256 then 3
    else if size <= 512 then 4 else if size <= 1024 then 5 else 6
  }

  method PickClass(size: nat) returns (i: nat)
    requires size <= 2048
    ensures i == ClassFor(size)
  {
    i := 0;
    while size > Size(i)
      invariant i <= ClassFor(size)
      decreases CLASSES - i
    {
      i := i + 1;
    }
  }

  /** An object of class i, and the header of a slab it brings, cannot be had. */
  ghost predicate ClassExhausted(m: Maps, i: nat, room: bool)
    requires |m| == CLASSES && i < CLASSES
  {
    Stuck(m, i, room) || (!Small(i) && Grows(m, i) && Stuck(m, 1, room))
  }

  /**
   No block holds n bytes, or taking the last free one would empty the free list, or a node for a cut cannot be
   had.
   */
  ghost predicate HeapExhausted(bs: seq<HeapBlocks.Block>, m: Maps, n: nat, room: bool)
    requires |m| == CLASSES
  {
    || HeapBlocks.NoneFits(bs, n)
    || (exists k :: HeapBlocks.LastOne(bs, k, n))
    || (Stuck(m, 1, room) && exists k :: HeapBlocks.FirstFit(bs, k, n) && bs[k].size != n)
  }

  /** The class hands out its last object, so a slab is added. */
  ghost predicate Grows(m: Maps, i: nat)
    requires i < |m|
  {
    exists j, k :: FirstFree(m[i], j, k) && NoneFree(m[i][j := m[i][j][k := true]])
  }

  /** slab_alloc calls kmalloc, which takes the lock that kmalloc already holds. */
  ghost predicate Relocks(m: Maps, size: nat)
    requires |m| == CLASSES && size <= 2048
  {
    !Small(ClassFor(size)) && Grows(m, ClassFor(size))
  }

  /** The classes that get a slab when a request of the given size is served by slab_alloc. */
  ghost function SlabsAdded(m: Maps, size: nat): (A: set<nat>)
    requires |m| == CLASSES && size <= 2048
  {
    (if Grows(m, ClassFor(size)) then {ClassFor(size)} else {}) + if Relocks(m, size) && Grows(m, 1) then {1} else {}
  }

  /** The first fit for n bytes is larger, so that a node is needed. */
  ghost predicate Cuts(bs: seq<HeapBlocks.Block>, n: nat) {
    exists k :: HeapBlocks.FirstFit(bs, k, n) && bs[k].size != n
  }

  /** The classes that get a slab when kmalloc serves a request. */
  ghost function Added(m: Maps, bs: seq<HeapBlocks.Block>, size: nat): (A: set<nat>)
    requires |m| == CLASSES
  {
    if 0 < size <= 2048 then SlabsAdded(m, size)
    else if size > 4096 && Cuts(bs, HeapBlocks.Aligned(size)) && Grows(m, 1) then {1}
    else {}
  }

  /** The end of the mapped part of the heap after kmalloc has served a request. */
  ghost function Rise(bs: seq<HeapBlocks.Block>, he: nat, size: nat): (r: nat)
    ensures r >= he
  {
    var n := HeapBlocks.Aligned(size);
    if size > 4096 && exists k :: HeapBlocks.FirstFit(bs, k, n) then
      var k :| HeapBlocks.FirstFit(bs, k, n);
      if bs[k].start + n > he then bs[k].start + n else he
    else he
  }

  lemma HeaderSets(hs: seq<seq<nat>>, i: nat, q: nat)
    requires |hs| == 2 && i < 2
    ensures var hs' := hs[i := hs[i] + [q]]; SetOf(hs'[0] + hs'[1]) == SetOf(hs[0] + hs[1]) + {q}
  {
  }

  /** The objects of the classes are accounted for; class n has `extra` slabs without a header yet. */
  ghost predicate Booked(cs: seq<SizeClass>, headers: seq<seq<nat>>, live: set<Range>, ns: set<nat>, n: nat,
                         extra: nat) {
    && ClassesOk(cs) && |headers| == 2
    && |headers[0]| + (if n == 5 then extra else 0) == |cs[5].slabs|
    && |headers[1]| + (if n == 6 then extra else 0) == |cs[6].slabs|
    && Accounts(MapsOf(cs), live, ns, SetOf(headers[0] + headers[1]))
  }

  lemma BookedParts(cs: seq<SizeClass>, headers: seq<seq<nat>>, live: set<Range>, ns: set<nat>, n: nat, extra: nat)
    requires Booked(cs, headers, live, ns, n, extra)
    ensures ClassesOk(cs) && |cs| == CLASSES && |headers| == 2
  {
  }

  /** An object for the caller. */
  method UserObject(cs: seq<SizeClass>, headers: seq<seq<nat>>, ghost live: set<Range>, ghost ns: set<nat>, i: nat,
                    room: bool)
    returns (r: Option<Range>, cs': seq<SizeClass>, grew: bool)
    requires Booked(cs, headers, live, ns, 0, 0) && i < CLASSES
    ensures r.None? <==> Stuck(MapsOf(cs), i, room)
    ensures r.Some? ==> r.value.Cell? && r.value.i == i && r.value !in live && (grew <==> Grows(MapsOf(cs), i))
    ensures r.Some? ==> Booked(cs', headers, live + {r.value}, ns, i, if grew then 1 else 0)
    ensures r.Some? ==>
              GrewBy(cs, cs', if grew then {i} else {}) && forall c :: 0 <= c < CLASSES && c != i ==> cs'[c] == cs[c]
  {
    hide Accounts, MapsOk, Out, Grants, Stuck, Grows, ClassesOk, Addr, NextObject;
    BookedParts(cs, headers, live, ns, 0, 0);
    r, cs' := ClassAlloc(cs, i, room);
    grew := false;
    if r.Some? {
      ClassCount(cs');
      grew := |cs'[i].slabs| > |cs[i].slabs|;
      AddLive(MapsOf(cs), MapsOf(cs'), live, ns, SetOf(headers[0] + headers[1]), r.value);
    }
  }

  lemma ClassCount(cs: seq<SizeClass>)
    requires ClassesOk(cs)
    ensures |cs| == CLASSES
  {
  }

  /** The header of a middle slab that has just been added. */
  method HeaderObject(cs: seq<SizeClass>, headers: seq<seq<nat>>, ghost live: set<Range>, ghost ns: set<nat>, n: nat,
                      room: bool)
    returns (ok: bool, cs': seq<SizeClass>, headers': seq<seq<nat>>)
    requires 5 <= n < CLASSES && Booked(cs, headers, live, ns, n, 1)
    ensures ok <==> !Stuck(MapsOf(cs), 1, room)
    ensures ok ==> Booked(cs', headers', live, ns, 0, 0) && |cs| == CLASSES
    ensures ok ==> GrewBy(cs, cs', if Grows(MapsOf(cs), 1) then {1} else {})
  {
    hide Accounts, MapsOk, Out, Grants, Stuck, Grows, ClassesOk, Addr, NextObject;
    BookedParts(cs, headers, live, ns, n, 1);
    var h;
    h, cs' := ClassAlloc(cs, 1, room);
    headers' := headers;
    if h.None? { return false, cs', headers'; }
    ClassCount(cs');
    AddHeader(MapsOf(cs), MapsOf(cs'), live, ns, SetOf(headers[0] + headers[1]), h.value);
    HeaderSets(headers, n - 5, Addr(h.value));
    headers' := headers[n - 5 := headers[n - 5] + [Addr(h.value)]];
    ok := true;
  }

  /** slab_alloc: an object of the smallest class that holds size bytes; a new middle slab takes a header too. */
  method SlabAlloc(cs: seq<SizeClass>, headers: seq<seq<nat>>, ghost live: set<Range>, ghost ns: set<nat>, size: nat,
                   room: bool)
    returns (r: Option<Range>, cs': seq<SizeClass>, headers': seq<seq<nat>>, relocks: bool)
    requires Booked(cs, headers, live, ns, 0, 0) && 0 < size <= 2048
    ensures |cs| == CLASSES && (r.None? <==> ClassExhausted(MapsOf(cs), ClassFor(size), room))
    ensures r.Some? ==> r.value.Cell? && r.value.i == ClassFor(size) && r.value !in live
    ensures r.Some? ==>
              Booked(cs', headers', live + {r.value}, ns, 0, 0) && GrewBy(cs, cs', SlabsAdded(MapsOf(cs), size))
    ensures r.Some? ==> (relocks <==> Relocks(MapsOf(cs), size))
  {
    hide Booked, Stuck, Grows;
    BookedParts(cs, headers, live, ns, 0, 0);
    var n := PickClass(size);
    var grew;
    headers', relocks := headers, false;
    r, cs', grew := UserObject(cs, headers, live, ns, n, room);
    if r.None? { return; }
    if n >= 5 && grew {
      relocks := true;
      SameClass(MapsOf(cs), MapsOf(cs'), 1, room);
      ghost var mid := cs';
      var ok;
      ok, cs', headers' := HeaderObject(cs', headers, live + {r.value}, ns, n, room);
      if !ok { r := None; } else { GrewTwice(cs, mid, cs', {n}, if Grows(MapsOf(cs), 1) then {1} else {}); }
    } else {
      NoneMissing(cs', headers, live + {r.value}, ns, n, if grew then 1 else 0);
    }
  }

  lemma SameClass(m: Maps, m': Maps, i: nat, room: bool)
    requires i < |m| && i < |m'| && i < CLASSES && m[i] == m'[i]
    ensures (Stuck(m, i, room) <==> Stuck(m', i, room)) && (Grows(m, i) <==> Grows(m', i))
  {
  }

  lemma GrewTwice(a: seq<SizeClass>, b: seq<SizeClass>, c: seq<SizeClass>, A: set<nat>, B: set<nat>)
    requires GrewBy(a, b, A) && GrewBy(b, c, B) && A !! B
    ensures GrewBy(a, c, A + B)
  {
  }

  lemma NoneMissing(cs: seq<SizeClass>, headers: seq<seq<nat>>, live: set<Range>, ns: set<nat>, n: nat, extra: nat)
    requires Booked(cs, headers, live, ns, n, extra) && (n < 5 || extra == 0)
    ensures Booked(cs, headers, live, ns, 0, 0)
  {
  }

  /** Why kmalloc can fail: a class, the frames or the heap is exhausted. */
  ghost predicate Starved(cs: seq<SizeClass>, areas: seq<PageFrames.Area>, bs: seq<HeapBlocks.Block>, size: nat,
                          room: bool) {
    && |cs| == CLASSES
    && if 0 < size <= 2048 then ClassExhausted(MapsOf(cs), ClassFor(size), room)
       else if size <= 4096 then PageFrames.FreeTotal(areas) == 0
       else HeapExhausted(bs, MapsOf(cs), HeapBlocks.Aligned(size), room)
  }

  /** What the heap's refusal, or its need for a node, means in terms of its blocks. */
  lemma HeapOutcome(bs: seq<HeapBlocks.Block>, he: nat, k: int, n: nat)
    requires HeapBlocks.HeapOk(bs, he) && HeapBlocks.FirstFit(bs, k, n)
    ensures !HeapBlocks.NoneFits(bs, n)
    ensures forall j :: HeapBlocks.FirstFit(bs, j, n) ==> j == k
    ensures forall j :: HeapBlocks.LastOne(bs, j, n) ==> j == k
  {
    hide HeapBlocks.Tiles, HeapBlocks.Coalesced, HeapBlocks.Below;
  }

  class Allocator {
    const pages: PageFrames.PhysicalMemory
    const heap: KernelHeap.Heap
    var classes: seq<SizeClass>
    var headers: seq<seq<nat>>
    ghost var live: set<Range>

    /** The page-frame allocator and the heap hold the live pages and blocks. */
    ghost predicate Backends(held: set<Range>)
      reads pages, pages.mrt, heap
    {
      && pages.Valid() && pages.mrt.Length * 4096 <= 2 * AREA && heap.Valid()
      && PagesHeld(held, pages.mrt[..]) && BlocksOf(held, heap.Blocks())
    }

    ghost predicate Valid()
      reads this, pages, pages.mrt, heap
    {
      Booked(classes, headers, live, SetOf(heap.nodes), 0, 0) && Backends(live)
    }

    lemma ObjectsAside(held: set<Range>, c: Range)
      requires Backends(held) && c.Cell?
      ensures Backends(held + {c}) && Backends(held - {c})
    {
      hide PageFrames.FramesOk, KernelHeap.View, KernelHeap.Unused, HeapBlocks.HeapOk, KernelHeap.PagesMapped,
           LinkedList.ListOk;
    }

    /** init_slab and init_heap: three 64-byte objects hold two slab headers and the first heap node. */
    constructor (pages: PageFrames.PhysicalMemory)
      requires pages.Valid() && pages.mrt.Length * 4096 <= 2 * AREA
      ensures Valid() && live == {} && this.pages == pages && fresh(heap) && heap.he == HEAP_START
      ensures |classes| == CLASSES && forall i :: 0 <= i < CLASSES ==> |classes[i].slabs| == 1
    {
      hide Bitmaps, Bits, Limit, Empty, Good, KernelHeap.View, KernelHeap.Unused, KernelHeap.PagesMapped,
           LinkedList.ListOk, HeapBlocks.HeapOk, Addr, PageFrames.FramesOk, Accounts, MapsOk;
      var cs := MakeClasses();
      var c1 := FirstObjects(cs[1]);
      cs := cs[1 := c1];
      MapsFit(cs);
      InitialAccounts(MapsOf(cs));
      NotNull(Cell(1, 0, 3));
      this.pages := pages;
      heap := new KernelHeap.Heap(Addr(Cell(1, 0, 3)));
      classes := cs;
      headers := [[Addr(Cell(1, 0, 1))], [Addr(Cell(1, 0, 2))]];
      live := {};
      new;
      assert SetOf(headers[0] + headers[1]) == {Addr(Cell(1, 0, 1)), Addr(Cell(1, 0, 2))};
      assert SetOf(heap.nodes) == {Addr(Cell(1, 0, 3))};
    }

    /** kmalloc for 1 to 2048 bytes. */
    method FromSlab(size: nat, room: bool) returns (r: Option<Range>, relocks: bool)
      requires Valid() && 0 < size <= 2048
      modifies this`classes, this`headers, this`live
      ensures |old(classes)| == CLASSES && (r.None? <==> ClassExhausted(MapsOf(old(classes)), ClassFor(size), room))
      ensures r.Some? ==> Valid() && r.value.Cell? && r.value.i == ClassFor(size) && r.value !in old(live)
      ensures r.Some? ==> live == old(live) + {r.value} && GrewBy(old(classes), classes, SlabsAdded(MapsOf(old(classes)), size))
      ensures r.Some? ==> (relocks <==> Relocks(MapsOf(old(classes)), size))
    {
      hide Booked, ClassExhausted, PageFrames.FramesOk, KernelHeap.View, KernelHeap.Unused, HeapBlocks.HeapOk,
           KernelHeap.PagesMapped, LinkedList.ListOk;
      var cs, hs;
      r, cs, hs, relocks := SlabAlloc(classes, headers, live, SetOf(heap.nodes), size, room);
      if r.Some? {
        ObjectsAside(live, r.value);
        classes, headers, live := cs, hs, live + {r.value};
      }
    }

    /** kmalloc for 0 bytes and for 2049 to 4096 bytes: a whole page. */
    method FromPages() returns (r: Option<Range>)
      requires Valid()
      modifies this`live, pages`areas, pages.mrt
      ensures r.None? <==> PageFrames.FreeTotal(old(pages.areas)) == 0
      ensures r.Some? ==> Valid() && r.value.Page? && r.value !in old(live) && live == old(live) + {r.value}
      ensures r.Some? ==> TookFrame(old(pages.mrt[..]), pages.mrt[..], r.value.frame)
      ensures r.Some? ==> PageFrames.FreeTotal(pages.areas) == PageFrames.FreeTotal(old(pages.areas)) - 1
    {
      hide Booked, PageFrames.FramesOk, PageFrames.FreeTotal, PageFrames.OnlyAreaOf, PageFrames.FirstFree,
           KernelHeap.View, KernelHeap.Unused, HeapBlocks.HeapOk, KernelHeap.PagesMapped, LinkedList.ListOk;
      ghost var was := pages.mrt[..];
      FrameZeroReserved(was, pages.areas);
      var f := pages.AllocPage();
      if f.None? { return None; }
      r := Some(Page(f.value));
      PageGained(live, was, f.value);
      OthersBooked(classes, headers, live, SetOf(heap.nodes), Page(f.value));
      live := live + {r.value};
    }

    /** kmalloc for more than 4096 bytes; a block cut off a larger one takes a node from the 64-byte class. */
    method FromHeap(size: nat, room: bool) returns (r: Option<Range>)
      requires Valid() && 4096 < size <= 0xffff_f000
      modifies this`classes, this`live, heap
      ensures r.Some? ==> Valid() && r.value.Block? && r.value.size >= size && r.value !in old(live)
      ensures r.Some? ==> live == old(live) + {r.value} && heap.he == Rise(old(heap.Blocks()), old(heap.he), size)
      ensures |old(classes)| == CLASSES
      ensures r.Some? ==> GrewBy(old(classes), classes,
                                 if Cuts(old(heap.Blocks()), HeapBlocks.Aligned(size)) && Grows(MapsOf(old(classes)), 1) then {1} else {})
      ensures r.None? <==> HeapExhausted(old(heap.Blocks()), MapsOf(old(classes)), HeapBlocks.Aligned(size), room)
    {
      hide Booked, Accounts, Stuck, Grows, Grants, NextObject, Good, Addr, PageFrames.FramesOk, KernelHeap.View,
           KernelHeap.Unused, HeapBlocks.HeapOk, HeapBlocks.Aligned, HeapBlocks.Taken, KernelHeap.PagesMapped,
           LinkedList.ListOk, Bits, Limit;
      ghost var bs, ns, m := heap.Blocks(), SetOf(heap.nodes), MapsOf(classes);
      var c := NextNode(classes, headers, live, ns);
      var o, cut, k := heap.Alloc(size, Addr(c));
      if o.None? { return None; }
      HeapOutcome(bs, old(heap.he), k, HeapBlocks.Aligned(size));
      if cut {
        var h, cs := NodeObject(classes, headers, live, ns, c, room);
        if !h { return None; }
        classes := cs;
        assert SetOf(heap.nodes) == ns + {Addr(c)};
      } else {
        assert SetOf(heap.nodes) == ns;
      }
      ghost var n := HeapBlocks.Aligned(size);
      HeapBlocks.TakenUsed(bs, old(heap.he), k, n);
      r := Some(Block(o.value, HeapBlocks.Aligned(size)));
      BlockGained(live, bs, heap.Blocks(), r.value.start, n);
      OthersBooked(classes, headers, live, SetOf(heap.nodes), r.value);
      live := live + {r.value};
    }

    /** kmalloc: a live result of at least the requested size, apart from all others. */
    method Kmalloc(size: nat, room: bool) returns (r: Option<nat>, relocks: bool, ghost h: Range)
      requires Valid() && size <= 0xffff_f000
      modifies this`classes, this`headers, this`live, pages`areas, pages.mrt, heap
      ensures r.Some? ==> Valid() && Proper(h) && h !in old(live) && live == old(live) + {h}
      ensures r.Some? ==> Addr(h) == r.value && Len(h) >= size
      ensures |old(classes)| == CLASSES
      ensures r.Some? ==> GrewBy(old(classes), classes, Added(MapsOf(old(classes)), old(heap.Blocks()), size))
      ensures r.Some? ==> heap.he == Rise(old(heap.Blocks()), old(heap.he), size)
      // the source does not return from the calls that take the lock again
      ensures r.Some? ==> (relocks <==> 0 < size <= 2048 && Relocks(MapsOf(old(classes)), size))
      ensures r.Some? && !h.Page? ==> unchanged(pages) && unchanged(pages.mrt)
      ensures r.Some? && h.Page? ==> classes == old(classes) && heap.he == old(heap.he) && TookFrame(old(pages.mrt[..]), pages.mrt[..], h.frame)
      ensures r.Some? && h.Page? ==> PageFrames.FreeTotal(pages.areas) == PageFrames.FreeTotal(old(pages.areas)) - 1
      ensures r.Some? ==> if 0 < size <= 2048 then h.Cell? && h.i == ClassFor(size) else if size <= 4096 then h.Page? else h.Block?
      ensures r.None? <==> Starved(old(classes), old(pages.areas), old(heap.Blocks()), size, room)
    {
      hide Booked, ClassExhausted, HeapExhausted, HeapBlocks.NoneFits, HeapBlocks.LastOne, PageFrames.FreeTotal,
           PageFrames.FramesOk, KernelHeap.View, KernelHeap.Unused, HeapBlocks.HeapOk, KernelHeap.PagesMapped,
           LinkedList.ListOk;
      BookedParts(classes, headers, live, SetOf(heap.nodes), 0, 0);
      var o: Option<Range>;
      relocks := false;
      if 0 < size <= 2048 {
        o, relocks := FromSlab(size, room);
      } else if size <= 4096 {
        o := FromPages();
      } else {
        o := FromHeap(size, room);
      }
      if o.None? { return None, relocks, Page(0); }
      LiveProper(o.value);
      r, h := Some(Addr(o.value)), o.value;
    }

    /** kfree of a live result: the allocator it came from takes it back, and nothing else changes hands. */
    method Kfree(addr: nat, ghost h: Range)
      requires Valid() && h in live && Proper(h) && Addr(h) == addr
      modifies this`classes, this`live, pages`areas, pages.mrt, heap
      ensures Valid() && live == old(live) - {h} && headers == old(headers)
      ensures SameSlabs(old(classes), classes) && heap.he == old(heap.he)
      ensures !h.Page? ==> unchanged(pages) && unchanged(pages.mrt)
      ensures h.Page? ==> h.frame < pages.mrt.Length && pages.mrt[..] == old(pages.mrt[..])[h.frame := old(pages.mrt[..])[h.frame] - 1]
    {
      hide Booked, Backends, Routed, Proper, Addr;
      BookedParts(classes, headers, live, SetOf(heap.nodes), 0, 0);
      var r := Dispatch(addr);
      RouteBack(h, r);
      match r {
        case ToPage(f) => ToPages(f);
        case ToCell(i, j, k) => ToSlab(i, j, k);
        case ToHeap(s) => ToHeap(s, h.size);
        case Fault =>
      }
    }

    method ToPages(f: nat)
      requires Valid() && Page(f) in live
      modifies this`live, pages`areas, pages.mrt
      ensures Valid() && live == old(live) - {Page(f)}
      ensures f < pages.mrt.Length && pages.mrt[..] == old(pages.mrt[..])[f := old(pages.mrt[..])[f] - 1]
    {
      hide Booked, PageFrames.FramesOk, PageFrames.OnlyAreaOf, KernelHeap.View, KernelHeap.Unused, HeapBlocks.HeapOk,
           KernelHeap.PagesMapped, LinkedList.ListOk;
      PageLost(live, pages.mrt[..], f);
      OthersBooked(classes, headers, live, SetOf(heap.nodes), Page(f));
      var o := pages.DecRef(f);
      live := live - {Page(f)};
    }

    method ToSlab(i: nat, j: nat, k: nat)
      requires Valid() && Cell(i, j, k) in live
      modifies this`classes, this`live
      ensures Valid() && live == old(live) - {Cell(i, j, k)} && SameSlabs(old(classes), classes)
    {
      hide Booked, Accounts, Out, Releases, Addr, ClassesOk, PageFrames.FramesOk, KernelHeap.View, KernelHeap.Unused,
           HeapBlocks.HeapOk, KernelHeap.PagesMapped, LinkedList.ListOk;
      ghost var c := Cell(i, j, k);
      LiveOut(classes, headers, live, SetOf(heap.nodes), c);
      BookedParts(classes, headers, live, SetOf(heap.nodes), 0, 0);
      var cs := ClassFree(classes, i, j, k);
      ClassCount(cs);
      LiveReleased(classes, cs, headers, live, SetOf(heap.nodes), c);
      ObjectsAside(live, c);
      classes, live := cs, live - {c};
    }

    method ToHeap(addr: nat, ghost n: nat)
      requires Valid() && Block(addr, n) in live
      modifies this`classes, this`live, heap
      ensures Valid() && live == old(live) - {Block(addr, n)} && SameSlabs(old(classes), classes)
              && heap.he == old(heap.he)
    {
      hide Booked, Accounts, Addr, PageFrames.FramesOk, KernelHeap.View, KernelHeap.Unused, HeapBlocks.HeapOk,
           HeapBlocks.GivenBack, KernelHeap.PagesMapped, LinkedList.ListOk, KernelHeap.Dropped;
      ghost var bs, ns, b := heap.Blocks(), heap.nodes, Block(addr, n);
      assert HeapBlocks.Block(addr, n, true) in bs;
      var ok, freed, k := heap.Free(addr);
      HeapBlockLost(bs, old(heap.he), k, addr, n);
      BlockLost(live, bs, heap.Blocks(), addr, n);
      OthersBooked(classes, headers, live, SetOf(ns), b);
      live := live - {b};
      var cs := NodesBack(classes, headers, live, ns, heap.nodes, freed);
      classes := cs;
    }

    lemma LiveProper(h: Range)
      requires Valid() && h in live
      ensures Proper(h)
    {
      hide PageFrames.FramesOk, KernelHeap.View, KernelHeap.Unused, HeapBlocks.HeapOk, KernelHeap.PagesMapped,
           LinkedList.ListOk, Out, Booked;
      match h
      case Cell(i, j, k) => LiveOut(classes, headers, live, SetOf(heap.nodes), h);
      case Page(f) =>
      case Block(s, n) =>
        assert HeapBlocks.Block(s, n, true) in heap.Blocks();
        BlockProper(heap.Blocks(), heap.he, s, n);
    }

    /** A live result is apart from the heap's nodes and the middle slabs' headers. */
    lemma KernelObjectsApart(r: Range, c: Range)
      requires Valid() && r in live && c.Cell? && |classes| == CLASSES && Out(MapsOf(classes), c)
      requires Within(c, SetOf(heap.nodes)) || Within(c, SetOf(headers[0] + headers[1]))
      ensures Proper(r) && Proper(c) && Apart(r, c)
    {
      hide PageFrames.FramesOk, KernelHeap.View, KernelHeap.Unused, HeapBlocks.HeapOk, KernelHeap.PagesMapped,
           LinkedList.ListOk, Out, Proper, Addr, ClassesOk;
      LiveProper(r);
      OutProper(MapsOf(classes), c);
      if r.Cell? && r.i == c.i {
        CellIndex(r);
        CellIndex(c);
        CellsApart(r.i, r.j, r.k, c.j, c.k);
      } else {
        KindsApart(r, c);
      }
    }

    /** Any two live results are apart. */
    lemma LiveApart(r: Range, q: Range)
      requires Valid() && r in live && q in live && r != q
      ensures Proper(r) && Proper(q) && Apart(r, q)
    {
      hide PageFrames.FramesOk, KernelHeap.View, KernelHeap.Unused, HeapBlocks.HeapOk, KernelHeap.PagesMapped,
           LinkedList.ListOk, Out, Booked, PagesHeld, Proper, Addr;
      LiveProper(r);
      LiveProper(q);
      if r.Cell? && q.Cell? && r.i == q.i {
        CellIndex(r);
        CellsApart(r.i, r.j, r.k, q.j, q.k);
      } else if r.Block? && q.Block? {
        assert HeapBlocks.Block(r.start, r.size, true) in heap.Blocks()
               && HeapBlocks.Block(q.start, q.size, true) in heap.Blocks();
        BlocksApart(heap.Blocks(), heap.he, r, q);
      } else {
        KindsApart(r, q);
      }
    }
  }

  lemma LiveReleased(cs: seq<SizeClass>, cs': seq<SizeClass>, headers: seq<seq<nat>>, live: set<Range>, ns: set<nat>,
                     c: Range)
    requires Booked(cs, headers, live, ns, 0, 0) && c in live && c.Cell? && ClassesOk(cs')
             && Releases(MapsOf(cs), MapsOf(cs'), c)
    requires |cs'| == CLASSES && forall i :: 0 <= i < CLASSES ==> |cs'[i].slabs| == |cs[i].slabs|
    ensures Booked(cs', headers, live - {c}, ns, 0, 0)
  {
    hide Accounts, Releases, ClassesOk;
    BookedParts(cs, headers, live, ns, 0, 0);
    DropLive(MapsOf(cs), MapsOf(cs'), live, ns, SetOf(headers[0] + headers[1]), c);
  }

  /** slab_free of the nodes a heap_free has dropped. */
  method NodesBack(cs: seq<SizeClass>, headers: seq<seq<nat>>, ghost live: set<Range>, ghost ns: seq<nat>,
                   ghost ns': seq<nat>, freed: seq<nat>)
    returns (cs': seq<SizeClass>)
    requires Booked(cs, headers, live, SetOf(ns), 0, 0) && KernelHeap.Dropped(ns, ns', freed)
    ensures Booked(cs', headers, live, SetOf(ns'), 0, 0) && SameSlabs(cs, cs')
  {
    hide Booked, Routed, Addr;
    cs' := cs;
    BookedParts(cs, headers, live, SetOf(ns), 0, 0);
    assert SetOf(ns') + SetOf(freed[0..]) == SetOf(ns);
    for i := 0 to |freed|
      invariant Booked(cs', headers, live, SetOf(ns') + SetOf(freed[i..]), 0, 0) && SameSlabs(cs, cs')
    {
      var r := Dispatch(freed[i]);
      ghost var left := SetOf(ns') + SetOf(freed[i..]);
      assert freed[i] in freed[i..];
      var next := NodeBack(cs', headers, live, left, freed[i], r);
      assert freed[i..] == [freed[i]] + freed[i + 1..];
      assert left - {freed[i]} == SetOf(ns') + SetOf(freed[i + 1..]);
      cs' := next;
    }
    assert SetOf(ns') + SetOf(freed[|freed|..]) == SetOf(ns');
  }

  /** One node goes back to the 64-byte class. */
  method NodeBack(cs: seq<SizeClass>, headers: seq<seq<nat>>, ghost live: set<Range>, ghost ns: set<nat>, q: nat,
                  r: Route)
    returns (cs': seq<SizeClass>)
    requires Booked(cs, headers, live, ns, 0, 0) && q in ns && Routed(q, r)
    ensures Booked(cs', headers, live, ns - {q}, 0, 0) && SameSlabs(cs, cs')
  {
    hide MapsOk, Out, Releases, Addr, ClassesOk, Routed, Proper, Bits, Limit;
    ghost var j, k :| Out(MapsOf(cs), Cell(1, j, k)) && Addr(Cell(1, j, k)) == q;
    BookedParts(cs, headers, live, ns, 0, 0);
    OutProper(MapsOf(cs), Cell(1, j, k));
    RouteBack(Cell(1, j, k), r);
    cs' := ClassFree(cs, r.i, r.j, r.k);
    ClassCount(cs');
    DropNode(MapsOf(cs), MapsOf(cs'), live, ns, SetOf(headers[0] + headers[1]), Cell(1, j, k));
  }

  lemma HeapBlockLost(bs: seq<HeapBlocks.Block>, he: nat, k: int, addr: nat, n: nat)
    requires HeapBlocks.HeapOk(bs, he) && 0 <= k < |bs| && bs[k].used && bs[k].start == addr
             && HeapBlocks.Block(addr, n, true) in bs
    ensures bs[k] == HeapBlocks.Block(addr, n, true)
    ensures forall b: HeapBlocks.Block :: b.used ==> (b in HeapBlocks.GivenBack(bs, k) <==> b in bs && b != HeapBlocks.Block(addr, n, true))
  {
    hide HeapBlocks.HeapOk, HeapBlocks.GivenBack;
    var i :| 0 <= i < |bs| && bs[i] == HeapBlocks.Block(addr, n, true);
    if i != k { HeapBlocks.LiveBlocksDisjoint(bs, he, i, k); }
    HeapBlocks.GivenBackUsed(bs, he, k);
  }

  lemma BlockLost(held: set<Range>, bs: seq<HeapBlocks.Block>, bs': seq<HeapBlocks.Block>, s: nat, n: nat)
    requires BlocksOf(held, bs)
    requires forall b: HeapBlocks.Block :: b.used ==> (b in bs' <==> b in bs && b != HeapBlocks.Block(s, n, true))
    ensures BlocksOf(held - {Block(s, n)}, bs')
  {
  }

  lemma CellIndex(r: Range)
    requires Proper(r) && r.Cell?
    ensures r == Cell(r.i, r.j, r.k) && r.i < CLASSES
  {
  }

  lemma LiveOut(cs: seq<SizeClass>, headers: seq<seq<nat>>, live: set<Range>, ns: set<nat>, c: Range)
    requires Booked(cs, headers, live, ns, 0, 0) && c in live && c.Cell?
    ensures Proper(c) && |cs| == CLASSES && Out(MapsOf(cs), c)
  {
    OutProper(MapsOf(cs), c);
  }

  lemma BlockProper(bs: seq<HeapBlocks.Block>, he: nat, s: nat, n: nat)
    requires HeapBlocks.HeapOk(bs, he) && HeapBlocks.Block(s, n, true) in bs
    ensures Proper(Block(s, n))
  {
    hide HeapBlocks.OnPage;
    var i :| 0 <= i < |bs| && bs[i] == HeapBlocks.Block(s, n, true);
    if i > 0 { HeapBlocks.Apart(bs, 0, i); }
  }

  lemma BlocksApart(bs: seq<HeapBlocks.Block>, he: nat, r: Range, q: Range)
    requires HeapBlocks.HeapOk(bs, he) && r.Block? && q.Block? && r != q
    requires HeapBlocks.Block(r.start, r.size, true) in bs && HeapBlocks.Block(q.start, q.size, true) in bs
    ensures Apart(r, q)
  {
    hide HeapBlocks.HeapOk;
    var i :| 0 <= i < |bs| && bs[i] == HeapBlocks.Block(r.start, r.size, true);
    var j :| 0 <= j < |bs| && bs[j] == HeapBlocks.Block(q.start, q.size, true);
    HeapBlocks.LiveBlocksDisjoint(bs, he, i, j);
  }

  lemma PageLost(held: set<Range>, mrt: seq<PageFrames.Count>, f: nat)
    requires PagesHeld(held, mrt) && Page(f) in held
    ensures PageFrames.Releasable(mrt, f)
    ensures PagesHeld(held - {Page(f)}, mrt[f := mrt[f] - 1])
  {
  }

  lemma FrameZeroReserved(mrt: seq<PageFrames.Count>, areas: seq<PageFrames.Area>)
    requires PageFrames.FramesOk(mrt, areas)
    ensures |mrt| > 0 && mrt[0] == 255
  {
  }

  lemma PageGained(held: set<Range>, mrt: seq<PageFrames.Count>, f: nat)
    requires PagesHeld(held, mrt) && 0 < f < |mrt| && mrt[f] == 0
    ensures PagesHeld(held + {Page(f)}, mrt[f := 1]) && Page(f) !in held
  {
  }

  /** Pages and blocks do not matter to the size classes. */
  lemma OthersBooked(cs: seq<SizeClass>, headers: seq<seq<nat>>, live: set<Range>, ns: set<nat>, b: Range)
    requires Booked(cs, headers, live, ns, 0, 0) && !b.Cell?
    ensures Booked(cs, headers, live + {b}, ns, 0, 0) && Booked(cs, headers, live - {b}, ns, 0, 0)
  {
    hide MapsOk, ClassesOk;
    BookedParts(cs, headers, live, ns, 0, 0);
  }

  lemma BlockGained(held: set<Range>, bs: seq<HeapBlocks.Block>, bs': seq<HeapBlocks.Block>, s: nat, n: nat)
    requires BlocksOf(held, bs) && HeapBlocks.Block(s, n, true) !in bs
    requires forall b: HeapBlocks.Block :: b.used ==> (b in bs' <==> b in bs || b == HeapBlocks.Block(s, n, true))
    ensures BlocksOf(held + {Block(s, n)}, bs') && Block(s, n) !in held
  {
  }

  /** The object a heap node would be given; its address is not that of a node. */
  method NextNode(cs: seq<SizeClass>, headers: seq<seq<nat>>, ghost live: set<Range>, ghost ns: set<nat>)
    returns (c: Range)
    requires Booked(cs, headers, live, ns, 0, 0)
    ensures c.Cell? && c.i == 1 && |cs| == CLASSES && NextObject(MapsOf(cs), 1, c.j, c.k) && Addr(c) != 0
            && Addr(c) !in ns
  {
    hide Accounts, Good, Bits, Limit, FirstFree, Addr;
    var j, k := Peek(cs[1], Bits(1), Small(1), Limit(1));
    c := Cell(1, j, k);
    NotNull(c);
    FirstIsClear(MapsOf(cs)[1], j, k);
    NewAddress(MapsOf(cs), live, ns, SetOf(headers[0] + headers[1]), c);
  }

  /** The node object announced by NextNode. */
  method NodeObject(cs: seq<SizeClass>, headers: seq<seq<nat>>, ghost live: set<Range>, ghost ns: set<nat>, c: Range,
                    room: bool)
    returns (ok: bool, cs': seq<SizeClass>)
    requires Booked(cs, headers, live, ns, 0, 0) && c.Cell? && c.i == 1 && NextObject(MapsOf(cs), 1, c.j, c.k)
    ensures |cs| == CLASSES && (ok <==> !Stuck(MapsOf(cs), 1, room))
    ensures ok ==> Booked(cs', headers, live, ns + {Addr(c)}, 0, 0) && GrewBy(cs, cs', if Grows(MapsOf(cs), 1) then {1} else {})
  {
    hide Accounts, MapsOk, Out, Grants, Stuck, Grows, ClassesOk, Addr, FirstFree;
    BookedParts(cs, headers, live, ns, 0, 0);
    var h;
    h, cs' := ClassAlloc(cs, 1, room);
    if h.None? { return false, cs'; }
    ClassCount(cs');
    FirstFreeUnique(MapsOf(cs)[1], c.j, c.k, h.value.j, h.value.k);
    AddNode(MapsOf(cs), MapsOf(cs'), live, ns, SetOf(headers[0] + headers[1]), c);
    ok := true;
  }
}
