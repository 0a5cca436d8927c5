/**
 The physical pages behind the kernel's memory: every page of a slab and every page of the heap is mapped in the
 kernel's page tables to a frame taken from the page-frame allocator, which also supplies the tables and the whole
 pages kmalloc hands out. The frames are all different, so live results share no physical byte. Areas 0 to 6 are
 those of the slab classes and area 7 is the heap; each is mapped from its start up to its top.
 */
module KernelMemory {
  import opened Common
  import opened AddressMap
  import PageFrames
  import PageTables
  import HeapBlocks
  import KernelHeap
  import Kmalloc
  import Slabs

  const AREAS := 8

  // ---- which pages are mapped ----

  /** How far the areas are mapped. */
  ghost predicate TopsOk(tops: seq<nat>) {
    |tops| == AREAS && forall i :: 0 <= i < AREAS ==> Area(i) <= tops[i] <= Area(i) + AREA && tops[i] % 4096 == 0
  }

  /** Page number p (the address divided by 4096) lies in area i below its top. */
  predicate InArea(i: nat, top: nat, p: nat) {
    Area(i) <= 4096 * p < top
  }

  ghost predicate Covered(tops: seq<nat>, p: nat) {
    exists i :: 0 <= i < |tops| && InArea(i, tops[i], p)
  }

  function Top(cs: seq<Slabs.SizeClass>, he: nat, i: nat): (t: nat)
    requires |cs| == CLASSES && i < AREAS
  {
    if i < CLASSES then Area(i) + Times(Span(i), |cs[i].slabs|) else he
  }

  function Tops(cs: seq<Slabs.SizeClass>, he: nat): (t: seq<nat>)
    requires |cs| == CLASSES
    ensures |t| == AREAS && forall i :: 0 <= i < AREAS ==> t[i] == Top(cs, he, i)
  {
    seq(AREAS, i requires 0 <= i < AREAS => Top(cs, he, i))
  }

  /** The tops of a sound allocator are in their areas and on page boundaries. */
  lemma TopsSound(cs: seq<Slabs.SizeClass>, bs: seq<HeapBlocks.Block>, he: nat, mapped: seq<nat>)
    requires Kmalloc.ClassesOk(cs) && HeapBlocks.HeapOk(bs, he) && KernelHeap.PagesMapped(mapped, he)
    ensures TopsOk(Tops(cs, he))
  {
    hide HeapBlocks.HeapOk, KernelHeap.PagesMapped, Kmalloc.ClassesOk;
    Kmalloc.ClassCount(cs);
    var tops := Tops(cs, he);
    HeapTop(bs, he, mapped);
    forall i | 0 <= i < AREAS ensures Area(i) <= tops[i] <= Area(i) + AREA && tops[i] % 4096 == 0 {
      if i < CLASSES { SlabTop(cs, i); }
    }
  }

  lemma HeapTop(bs: seq<HeapBlocks.Block>, he: nat, mapped: seq<nat>)
    requires HeapBlocks.HeapOk(bs, he) && KernelHeap.PagesMapped(mapped, he)
    ensures Area(CLASSES) <= he <= Area(CLASSES) + AREA && he % 4096 == 0
  {
    hide HeapBlocks.Tiles, HeapBlocks.Coalesced, HeapBlocks.SomeFree;
  }

  lemma SlabTop(cs: seq<Slabs.SizeClass>, i: nat)
    requires Kmalloc.ClassesOk(cs) && i < CLASSES
    ensures Area(i) <= Top(cs, 0, i) <= Area(i) + AREA && Top(cs, 0, i) % 4096 == 0
  {
    hide Slabs.ClassOk, Span, Times, Limit, Bits;
    assert Slabs.Good(cs[i], Bits(i), Small(i), Limit(i));
    SlabsFit(i, |cs[i].slabs|);
  }

  lemma SlabsFit(i: nat, n: nat)
    requires i < CLASSES && n <= Limit(i)
    ensures Times(Span(i), n) <= AREA && Times(Span(i), n) % 4096 == 0
  {
    hide Times;
    ClassShape(i);
    if n < Limit(i) { MulLess(Span(i), n, Limit(i)); }
    WholePages(Span(i) / 4096, n);
  }

  lemma WholePages(c: nat, n: nat)
    ensures Times(4096 * c, n) % 4096 == 0
  {
    assert Times(4096 * c, n) == 4096 * (c * n);
  }

  lemma TopsSame(cs: seq<Slabs.SizeClass>, cs': seq<Slabs.SizeClass>, he: nat)
    requires Kmalloc.SameSlabs(cs, cs')
    ensures Tops(cs, he) == Tops(cs', he)
  {
    forall i | 0 <= i < AREAS ensures Tops(cs, he)[i] == Tops(cs', he)[i] {}
  }

  /** A page of one area is in no other. */
  lemma OneArea(i: nat, j: nat, p: nat)
    requires i < AREAS && j < AREAS && i != j && Area(i) <= 4096 * p < Area(i) + AREA
    ensures !(Area(j) <= 4096 * p < Area(j) + AREA)
  {
  }

  /** The page numbers lo .. hi. */
  function Numbers(lo: nat, hi: nat): (s: seq<nat>)
    ensures |s| == (if lo <= hi then hi - lo else 0) && forall k :: 0 <= k < |s| ==> s[k] == lo + k
  {
    seq(if lo <= hi then hi - lo else 0, k => lo + k)
  }

  /** The pages between two tops, in the first n areas. */
  function NewPages(lo: seq<nat>, hi: seq<nat>, n: nat): (s: seq<nat>)
    requires n <= |lo| && n <= |hi|
  {
    if n == 0 then [] else NewPages(lo, hi, n - 1) + Numbers(lo[n - 1] / 4096, hi[n - 1] / 4096)
  }

  /** Page p lies in area i between the two tops. */
  predicate Between(lo: seq<nat>, hi: seq<nat>, i: nat, p: nat)
    requires i < |lo| && i < |hi|
  {
    lo[i] <= 4096 * p < hi[i]
  }

  lemma InNumbers(lo: nat, hi: nat, p: nat)
    requires lo % 4096 == 0 && hi % 4096 == 0
    ensures p in Numbers(lo / 4096, hi / 4096) <==> lo <= 4096 * p < hi
  {
    var s := Numbers(lo / 4096, hi / 4096);
    assert 4096 * (lo / 4096) == lo && 4096 * (hi / 4096) == hi;
    if lo <= 4096 * p < hi { assert s[p - lo / 4096] == p; }
  }

  lemma {:induction false} InNewPages(lo: seq<nat>, hi: seq<nat>, n: nat, p: nat)
    requires TopsOk(lo) && TopsOk(hi) && n <= AREAS
    ensures p in NewPages(lo, hi, n) <==> exists i: nat :: i < n && Between(lo, hi, i, p)
  {
    hide Numbers, TopsOk;
    EightTops(lo);
    EightTops(hi);
    if n > 0 {
      InNewPages(lo, hi, n - 1, p);
      OnPages(lo, n - 1);
      OnPages(hi, n - 1);
      InNumbers(lo[n - 1], hi[n - 1], p);
      assert Between(lo, hi, n - 1, p) <==> p in Numbers(lo[n - 1] / 4096, hi[n - 1] / 4096);
      if exists i: nat :: i < n && Between(lo, hi, i, p) {
        var i: nat :| i < n && Between(lo, hi, i, p);
        if i < n - 1 { assert i < n - 1 && Between(lo, hi, i, p); }
      }
    }
  }

  lemma EightTops(tops: seq<nat>)
    requires TopsOk(tops)
    ensures |tops| == AREAS
  {
  }

  lemma OnPages(tops: seq<nat>, i: nat)
    requires TopsOk(tops) && i < AREAS
    ensures tops[i] % 4096 == 0 && Area(i) <= tops[i] <= Area(i) + AREA
  {
  }

  /** The pages covered up to hi are those covered up to lo and the new ones. */
  lemma CoveredMore(lo: seq<nat>, hi: seq<nat>, p: nat)
    requires TopsOk(lo) && TopsOk(hi) && forall i :: 0 <= i < AREAS ==> lo[i] <= hi[i]
    ensures Covered(hi, p) <==> Covered(lo, p) || p in NewPages(lo, hi, AREAS)
    ensures p in NewPages(lo, hi, AREAS) ==> !Covered(lo, p)
  {
    hide NewPages;
    InNewPages(lo, hi, AREAS, p);
    if Covered(hi, p) {
      var i :| 0 <= i < |hi| && InArea(i, hi[i], p);
      assert InArea(i, lo[i], p) || Between(lo, hi, i, p);
    }
    if Covered(lo, p) {
      var i :| 0 <= i < |lo| && InArea(i, lo[i], p);
      assert InArea(i, hi[i], p);
      forall j: nat | j < AREAS ensures !Between(lo, hi, j, p) { if j != i { OneArea(i, j, p); } }
    }
    if exists i: nat :: i < AREAS && Between(lo, hi, i, p) {
      var i: nat :| i < AREAS && Between(lo, hi, i, p);
      assert InArea(i, hi[i], p);
    }
  }

  ghost predicate NoRepeat(s: seq<nat>) {
    forall i, j :: 0 <= i < j < |s| ==> s[i] != s[j]
  }

  lemma {:induction false} NewPagesOnce(lo: seq<nat>, hi: seq<nat>, n: nat)
    requires TopsOk(lo) && TopsOk(hi) && n <= AREAS
    ensures NoRepeat(NewPages(lo, hi, n))
  {
    hide Numbers, TopsOk;
    EightTops(lo);
    EightTops(hi);
    if n > 0 {
      NewPagesOnce(lo, hi, n - 1);
      var a, b := NewPages(lo, hi, n - 1), Numbers(lo[n - 1] / 4096, hi[n - 1] / 4096);
      forall p | p in a && p in b ensures false { ApartAreas(lo, hi, n, p); }
      AppendOnce(a, b);
    }
  }

  lemma ApartAreas(lo: seq<nat>, hi: seq<nat>, n: nat, p: nat)
    requires TopsOk(lo) && TopsOk(hi) && 0 < n <= AREAS && p in Numbers(lo[n - 1] / 4096, hi[n - 1] / 4096)
    ensures p !in NewPages(lo, hi, n - 1)
  {
    hide Numbers;
    InNewPages(lo, hi, n - 1, p);
    InNumbers(lo[n - 1], hi[n - 1], p);
    forall i: nat | i < n - 1 ensures !Between(lo, hi, i, p) { OneArea(n - 1, i, p); }
  }

  lemma AppendOnce(a: seq<nat>, b: seq<nat>)
    requires NoRepeat(a) && (forall i, j :: 0 <= i < j < |b| ==> b[i] < b[j]) && forall p :: p in a ==> p !in b
    ensures NoRepeat(a + b)
  {
    forall i, j | 0 <= i < j < |a + b| ensures (a + b)[i] != (a + b)[j] {
      if i < |a| <= j { assert a[i] in a && b[j - |a|] in b; }
    }
  }

  // ---- the kernel's page tables ----

  /** A page of one of the eight areas. */
  predicate KernelPage(p: nat) {
    SLAB_START <= 4096 * p < HEAP_END
  }

  lemma KernelIndex(p: nat)
    requires KernelPage(p)
    ensures PageTables.Canonical(4096 * p) && 4096 * p % 4096 == 0
    ensures PageTables.Index(PageTables.Layers(4096 * p)) && PageTables.Address(PageTables.Layers(4096 * p)) == 4096 * p
  {
    PageTables.AddressOfLayers(4096 * p);
  }

  lemma CoveredIsKernel(tops: seq<nat>, p: nat)
    requires TopsOk(tops) && Covered(tops, p)
    ensures KernelPage(p)
  {
  }

  /** What the tables say about page p. */
  ghost function SlotOf(mem: seq<PageFrames.Page>, root: nat, p: nat): (s: PageTables.Slot)
    requires KernelPage(p)
  {
    KernelIndex(p);
    PageTables.Walk(mem, root, PageTables.Layers(4096 * p))
  }

  /** Exactly the pages of b are mapped in the areas, each to its frame. */
  ghost predicate MapsTo(mem: seq<PageFrames.Page>, root: nat, b: map<nat, nat>) {
    && (forall p :: p in b ==> KernelPage(p))
    && forall p: nat :: KernelPage(p) ==>
         SlotOf(mem, root, p) == if p in b then PageTables.Small(PageFrames.Word(b[p], PageTables.KERNEL_4K)) else PageTables.Absent
  }

  /** The tables are a tree, and no table is a page kmalloc has handed out. */
  ghost predicate TablesOk(mem: seq<PageFrames.Page>, mrt: seq<PageFrames.Count>, root: nat, live: set<Range>) {
    PageTables.TreeOk(mem, mrt, root) && forall f: nat :: PageTables.IsTable(mem, root, f) ==> Page(f) !in live
  }

  /** The frames behind the pages are in use, all different, and none is a live page. */
  ghost predicate FramesHeld(b: map<nat, nat>, live: set<Range>, mrt: seq<PageFrames.Count>) {
    && (forall p :: p in b ==> 0 < b[p] < |mrt| && 0 < mrt[b[p]] < 255 && Page(b[p]) !in live)
    && (forall p, q :: p in b && q in b && b[p] == b[q] ==> p == q)
  }

  /** An unmapped page p gets frame f: nothing else changes in the areas. */
  lemma MapsMore(mem: seq<PageFrames.Page>, mem': seq<PageFrames.Page>, root: nat, b: map<nat, nat>, p: nat, f: nat)
    requires MapsTo(mem, root, b) && KernelPage(p)
    requires PageTables.WalkUpdated(mem, mem', root, PageTables.Layers(4096 * p),
                                    PageTables.Small(PageFrames.Word(f, PageTables.KERNEL_4K)))
    ensures MapsTo(mem', root, b[p := f])
  {
    hide PageTables.Walk, PageTables.Layers, PageTables.Address, PageTables.Index, PageTables.Canonical;
    forall q: nat | KernelPage(q)
      ensures SlotOf(mem', root, q) == if q in b[p := f] then PageTables.Small(PageFrames.Word(b[p := f][q], PageTables.KERNEL_4K)) else PageTables.Absent
    {
      KernelIndex(p);
      KernelIndex(q);
      assert SlotOf(mem, root, q) == if q in b then PageTables.Small(PageFrames.Word(b[q], PageTables.KERNEL_4K)) else PageTables.Absent;
      assert q != p ==> PageTables.Layers(4096 * q) != PageTables.Layers(4096 * p);
    }
  }

  lemma TreeMore(mem: seq<PageFrames.Page>, mrt: seq<PageFrames.Count>, root: nat, f: nat)
    requires PageTables.TreeOk(mem, mrt, root) && f < |mrt| && mrt[f] == 0
    ensures PageTables.TreeOk(mem, mrt[f := 1], root)
  {
    hide PageTables.Table;
  }

  lemma TablesStill(mem: seq<PageFrames.Page>, mrt: seq<PageFrames.Count>, mem': seq<PageFrames.Page>,
                    mrt': seq<PageFrames.Count>,
                    root: nat, live: set<Range>, f: nat)
    requires TablesOk(mem, mrt, root, live) && Kmalloc.PagesHeld(live, mrt) && f < |mrt| && mrt[f] == 0
    requires PageTables.FreshTables(mem, mrt[f := 1], mem', root) && PageTables.TreeOk(mem', mrt', root)
    ensures TablesOk(mem', mrt', root, live)
  {
    hide PageTables.TreeOk, PageTables.IsTable;
  }

  /** Frame f goes behind page p; further frames may have been taken for tables. */
  lemma HeldMore(b: map<nat, nat>, live: set<Range>, mrt: seq<PageFrames.Count>, mrt': seq<PageFrames.Count>, p: nat,
                 f: nat)
    requires FramesHeld(b, live, mrt) && p !in b && 0 < f < |mrt| && mrt[f] == 0 && Kmalloc.PagesHeld(live, mrt)
    requires PageTables.OnlyTakes(mrt[f := 1], mrt')
    ensures FramesHeld(b[p := f], live, mrt') && Kmalloc.PagesHeld(live, mrt')
  {
    assert Page(f) !in live;
  }

  // ---- the frames a mapping takes ----

  ghost predicate KernelPages(ps: seq<nat>) {
    forall k :: 0 <= k < |ps| ==> KernelPage(ps[k])
  }

  /** The tables on the way to page p that are not there. */
  ghost function LacksAt(mem: seq<PageFrames.Page>, root: nat, p: nat): (r: set<seq<nat>>)
    requires KernelPage(p)
  {
    KernelIndex(p);
    PageTables.Lacks(mem, root, PageTables.Layers(4096 * p))
  }

  /** The tables that mapping the pages ps makes. */
  ghost function TablesFor(mem: seq<PageFrames.Page>, root: nat, ps: seq<nat>): (r: set<seq<nat>>)
    requires KernelPages(ps)
  {
    if ps == [] then {} else TablesFor(mem, root, ps[..|ps| - 1]) + LacksAt(mem, root, ps[|ps| - 1])
  }

  /** The frames that mapping the pages ps takes: one for each page and one for each new table. */
  ghost function Cost(mem: seq<PageFrames.Page>, root: nat, ps: seq<nat>): (n: nat)
    requires KernelPages(ps)
  {
    |ps| + |TablesFor(mem, root, ps)|
  }

  /** How many tables the mapping of page p makes. */
  ghost function MissingAt(mem: seq<PageFrames.Page>, root: nat, p: nat): (n: nat)
    requires KernelPage(p)
  {
    KernelIndex(p);
    PageTables.Missing(mem, root, PageTables.Layers(4096 * p), 0)
  }

  /** After the pages ps were mapped, one more takes its own frame and the tables it still lacks. */
  lemma CostStep(m0: seq<PageFrames.Page>, m1: seq<PageFrames.Page>, mrt: seq<PageFrames.Count>, root: nat,
                 ps: seq<nat>, p: nat)
    requires KernelPages(ps) && KernelPage(p) && PageTables.TreeOk(m1, mrt, root)
             && SlotOf(m1, root, p) == PageTables.Absent
    requires PageTables.TablesPaid(m0, m1, root, TablesFor(m0, root, ps))
    ensures KernelPages(ps + [p]) && TablesFor(m0, root, ps + [p]) == TablesFor(m0, root, ps) + LacksAt(m0, root, p)
    ensures Cost(m0, root, ps + [p]) == Cost(m0, root, ps) + 1 + MissingAt(m1, root, p)
  {
    hide PageTables.TreeOk, PageTables.TablesPaid, PageTables.Lacks, PageTables.Missing, PageTables.Layers,
         PageTables.Walk;
    KernelIndex(p);
    assert (ps + [p])[..|ps|] == ps;
    PageTables.LacksNow(m0, m1, root, TablesFor(m0, root, ps), PageTables.Layers(4096 * p));
    PageTables.MissingIsLacks(m1, mrt, root, PageTables.Layers(4096 * p));
  }

  lemma {:induction false} CostPrefix(mem: seq<PageFrames.Page>, root: nat, ps: seq<nat>, k: nat)
    requires KernelPages(ps) && k <= |ps|
    ensures KernelPages(ps[..k]) && TablesFor(mem, root, ps[..k]) <= TablesFor(mem, root, ps)
            && Cost(mem, root, ps[..k]) <= Cost(mem, root, ps)
  {
    hide LacksAt;
    if k < |ps| {
      var init := ps[..|ps| - 1];
      assert init[..k] == ps[..k];
      CostPrefix(mem, root, init, k);
      PageTables.SubsetCount(TablesFor(mem, root, init), TablesFor(mem, root, ps));
    } else {
      assert ps[..k] == ps;
    }
  }

  ghost predicate Keeps(b: map<nat, nat>, b': map<nat, nat>) {
    forall p :: p in b ==> p in b' && b'[p] == b[p]
  }

  /** b' has the pages of b, with the same frames, and the pages ps. */
  ghost predicate Gains(b: map<nat, nat>, b': map<nat, nat>, ps: seq<nat>) {
    Keeps(b, b') && forall p :: p in b' <==> p in b || p in ps
  }

  lemma GainsOne(b: map<nat, nat>, b1: map<nat, nat>, ps: seq<nat>, p: nat, f: nat)
    requires Gains(b, b1, ps) && p !in b
    ensures Gains(b, b1[p := f], ps + [p])
  {
  }

  /** After ps were mapped on top of m0: the tables made, the pages gained and the frames left. */
  ghost predicate Progress(m0: seq<PageFrames.Page>, mem: seq<PageFrames.Page>, root: nat, b0: map<nat, nat>,
                           b: map<nat, nat>,
                           free0: nat, free: nat, ps: seq<nat>) {
    && KernelPages(ps) && PageTables.TablesPaid(m0, mem, root, TablesFor(m0, root, ps)) && Gains(b0, b, ps)
    && free == free0 - Cost(m0, root, ps)
  }

  lemma NoProgress(mem: seq<PageFrames.Page>, root: nat, b: map<nat, nat>, free: nat)
    ensures Progress(mem, mem, root, b, b, free, free, [])
  {
    hide PageTables.HasTable;
  }

  /** One more page has been mapped. */
  lemma MoreProgress(m0: seq<PageFrames.Page>, m1: seq<PageFrames.Page>, m2: seq<PageFrames.Page>,
                     mrt: seq<PageFrames.Count>, root: nat,
                     b0: map<nat, nat>, b: map<nat, nat>, free0: nat, free: nat, ps: seq<nat>, p: nat, f: nat, free': nat)
    requires Progress(m0, m1, root, b0, b, free0, free, ps) && KernelPage(p) && p !in b0
    requires PageTables.TreeOk(m1, mrt, root) && SlotOf(m1, root, p) == PageTables.Absent
    requires PageTables.TablesAdded(m1, m2, root, PageTables.Layers(4096 * p), 3)
             && free' == free - 1 - MissingAt(m1, root, p)
    ensures Progress(m0, m2, root, b0, b[p := f], free0, free', ps + [p])
  {
    hide PageTables.TreeOk, PageTables.TablesPaid, PageTables.TablesAdded, PageTables.Layers, PageTables.Walk,
         PageTables.Missing, Gains,
         PageTables.Lacks, Cost;
    KernelIndex(p);
    CostStep(m0, m1, mrt, root, ps, p);
    PageTables.PaidMore(m0, m1, m2, root, TablesFor(m0, root, ps), PageTables.Layers(4096 * p));
    GainsOne(b0, b, ps, p, f);
  }

  class Memory {
    const alloc: Kmalloc.Allocator
    /** The kernel's top-level table, vir_ptable4. */
    const root: nat
    /** The frame behind each mapped page. */
    var backing: map<nat, nat>

    ghost function Free(): (n: nat)
      reads alloc.pages
    {
      PageFrames.FreeTotal(alloc.pages.areas)
    }

    /** The allocator, the page tables and the frames behind the pages are sound. */
    ghost predicate Sound()
      reads this, alloc, alloc.pages, alloc.pages.mrt, alloc.heap
    {
      && alloc.Valid() && FramesHeld(backing, alloc.live, alloc.pages.mrt[..])
      && MapsTo(alloc.pages.mem, root, backing) && TablesOk(alloc.pages.mem, alloc.pages.mrt[..], root, alloc.live)
    }

    /** And exactly the pages of the slabs and the mapped part of the heap have frames. */
    ghost predicate Valid()
      reads this, alloc, alloc.pages, alloc.pages.mrt, alloc.heap
    {
      Sound() && |alloc.classes| == CLASSES && forall p :: p in backing <==> Covered(Tops(alloc.classes, alloc.heap.he), p)
    }

    constructor (alloc: Kmalloc.Allocator, root: nat)
      ensures this.alloc == alloc && this.root == root && backing == map[]
    {
      this.alloc, this.root := alloc, root;
      backing := map[];
    }

    /** One page: alloc_page_4k and __put_page_4k_locked. */
    method MapPage(p: nat) returns (ok: bool)
      requires Sound() && KernelPage(p) && p !in backing
      modifies this`backing, alloc.pages`areas, alloc.pages`mem, alloc.pages.mrt
      ensures ok <==> old(Free()) >= 1 + MissingAt(old(alloc.pages.mem), root, p)
      ensures ok ==> Sound() && p in backing && backing == old(backing)[p := backing[p]]
      ensures ok ==> Free() == old(Free()) - 1 - MissingAt(old(alloc.pages.mem), root, p)
      ensures ok ==> PageTables.TablesAdded(old(alloc.pages.mem), alloc.pages.mem, root, PageTables.Layers(4096 * p), 3)
    {
      hide Kmalloc.Booked, PageFrames.FramesOk, PageFrames.FreeTotal, PageFrames.OnlyAreaOf, PageFrames.FirstFree,
           KernelHeap.View,
           KernelHeap.Unused, HeapBlocks.HeapOk, KernelHeap.PagesMapped, FramesHeld, MapsTo, TablesOk, PageTables.TreeOk,
           PageTables.WalkUpdated, PageTables.OthersKept, PageTables.TablesAdded, PageTables.FreshTables, PageTables.OnlyTakes,
           PageTables.Layers, PageTables.Walk, PageTables.Missing, PageTables.Canonical, PageTables.Address, Kmalloc.PagesHeld,
           Kmalloc.BlocksOf;
      ghost var m0, was := alloc.pages.mem, alloc.pages.mrt[..];
      Kmalloc.FrameZeroReserved(was, alloc.pages.areas);
      KernelIndex(p);
      NotMapped(m0, root, backing, p);
      TreeOf(m0, was, root, alloc.live);
      var f := alloc.pages.AllocPage();
      if f.None? { return false; }
      TreeMore(m0, was, root, f.value);
      var halted := PageTables.PutPage(alloc.pages, f.value, 4096 * p, root, 0, 0);
      if halted { return false; }
      HeldMore(backing, alloc.live, was, alloc.pages.mrt[..], p, f.value);
      MapsMore(m0, alloc.pages.mem, root, backing, p, f.value);
      TablesStill(m0, was, alloc.pages.mem, alloc.pages.mrt[..], root, alloc.live, f.value);
      backing := backing[p := f.value];
      ok := true;
    }

    /** The pages ps: it fails exactly when the frames do not suffice for the pages and their tables. */
    method MapAll(ps: seq<nat>) returns (ok: bool)
      requires Sound() && KernelPages(ps) && NoRepeat(ps) && forall k :: 0 <= k < |ps| ==> ps[k] !in backing
      modifies this`backing, alloc.pages`areas, alloc.pages`mem, alloc.pages.mrt
      ensures ok <==> old(Free()) >= Cost(old(alloc.pages.mem), root, ps)
      ensures ok ==> Sound() && Gains(old(backing), backing, ps)
      ensures ok ==> Free() == old(Free()) - Cost(old(alloc.pages.mem), root, ps)
    {
      hide Kmalloc.Allocator.Valid, FramesHeld, MapsTo, TablesOk, PageTables.TablesAdded, PageTables.Layers,
           PageFrames.FreeTotal, Progress,
           Cost, TablesFor, MissingAt, SlotOf;
      ghost var m0, b0, free0 := alloc.pages.mem, backing, Free();
      NoProgress(m0, root, b0, free0);
      assert ps[..0] == [];
      for k := 0 to |ps|
        invariant Sound() && Progress(m0, alloc.pages.mem, root, b0, backing, free0, Free(), ps[..k])
      {
        ghost var m1, c1, b1, free1 := alloc.pages.mem, alloc.pages.mrt[..], backing, Free();
        NotYet(m0, m1, root, b0, b1, free0, free1, ps, k);
        NotMapped(m1, root, b1, ps[k]);
        TreeOf(m1, c1, root, alloc.live);
        ProgressCost(m0, m1, c1, root, b0, b1, free0, free1, ps[..k], ps[k]);
        assert ps[..k + 1] == ps[..k] + [ps[k]];
        var done := MapPage(ps[k]);
        if !done {
          CostPrefix(m0, root, ps, k + 1);
          return false;
        }
        MoreProgress(m0, m1, alloc.pages.mem, c1, root, b0, b1, free0, free1, ps[..k], ps[k], backing[ps[k]], Free());
      }
      assert ps[..|ps|] == ps;
      ProgressParts(m0, alloc.pages.mem, root, b0, backing, free0, Free(), ps);
      ok := true;
    }

    /**
     init_slab and init_heap with their pages, on page tables that map nothing in the eight areas: the machine halts
     exactly if the frames do not suffice.
     */
    static method Boot(pages: PageFrames.PhysicalMemory, root: nat) returns (k: Option<Memory>)
      requires pages.Valid() && pages.mrt.Length * 4096 <= 2 * AREA
      requires PageTables.TreeOk(pages.mem, pages.mrt[..], root) && MapsTo(pages.mem, root, map[])
      modifies pages`areas, pages`mem, pages.mrt
      ensures KernelPages(BOOT)
              && (k.None? <==> PageFrames.FreeTotal(old(pages.areas)) < Cost(old(pages.mem), root, BOOT))
      ensures k.Some? ==>
                k.value.Valid() && k.value.alloc.live == {} && k.value.alloc.pages == pages && k.value.root == root
    {
      hide Kmalloc.Allocator.Valid, PageFrames.FramesOk, PageFrames.FreeTotal, Cost, MapsTo, PageTables.TreeOk, Tops,
           Covered;
      var alloc := new Kmalloc.Allocator(pages);
      var m := new Memory(alloc, root);
      BootPages(alloc.classes, alloc.heap.he);
      var ok := m.MapAll(BOOT);
      k := if ok then Some(m) else None;
    }

    lemma AllocTops()
      requires alloc.Valid()
      ensures |alloc.classes| == CLASSES && TopsOk(Tops(alloc.classes, alloc.heap.he)) && alloc.heap.Lists()
    {
      hide PageFrames.FramesOk, KernelHeap.View, KernelHeap.Unused, HeapBlocks.HeapOk, KernelHeap.PagesMapped, TopsOk;
      TopsSound(alloc.classes, alloc.heap.Blocks(), alloc.heap.he, alloc.heap.mapped);
    }

    /** The pages a request of the given size adds to the slabs and the heap. */
    ghost function Grown(size: nat): (ps: seq<nat>)
      requires Valid()
      reads this, alloc, alloc.pages, alloc.pages.mrt, alloc.heap
    {
      AllocTops();
      var bs := alloc.heap.Blocks();
      NewPages(Tops(alloc.classes, alloc.heap.he), NextTops(alloc.classes, bs, alloc.heap.he, size), AREAS)
    }

    /**
     kmalloc with the pages behind it: frames for a new slab, for new heap pages and for their tables come from the
     allocator that also hands out whole pages. It halts exactly when the layer above is starved or frames run out.
     */
    method Allocate(size: nat) returns (r: Option<nat>, relocks: bool, ghost h: Range)
      requires Valid() && size <= 0xffff_f000
      modifies this`backing, alloc`classes, alloc`headers, alloc`live, alloc.pages`areas, alloc.pages`mem,
               alloc.pages.mrt, alloc.heap
      ensures !Kmalloc.Starved(old(alloc.classes), old(alloc.pages.areas), old(alloc.heap.Blocks()), size, true) ==>
                KernelPages(old(Grown(size)))
      ensures r.None? <==> || Kmalloc.Starved(old(alloc.classes), old(alloc.pages.areas), old(alloc.heap.Blocks()), size, true)
                           || old(Free()) < Cost(old(alloc.pages.mem), root, old(Grown(size)))
      ensures r.Some? ==> Valid() && Proper(h) && h !in old(alloc.live) && alloc.live == old(alloc.live) + {h}
      ensures r.Some? ==> Addr(h) == r.value && Len(h) >= size
      ensures r.Some? ==> Gains(old(backing), backing, old(Grown(size)))
      ensures r.Some? ==>
                Free() == old(Free()) - Cost(old(alloc.pages.mem), root, old(Grown(size))) - if h.Page? then 1 else 0
      ensures r.Some? ==> (relocks <==> 0 < size <= 2048 && Kmalloc.Relocks(Kmalloc.MapsOf(old(alloc.classes)), size))
    {
      hide Kmalloc.Allocator.Valid, TopsOk, FramesHeld, MapsTo, TablesOk, PageFrames.FramesOk, PageFrames.FreeTotal,
           Kmalloc.Starved,
           Kmalloc.GrewBy, Kmalloc.Added, Kmalloc.Rise, Kmalloc.Relocks, Proper, Addr, Len, Cost, Tops, Covered, Gains, NewPages, NextTops,
           Kmalloc.TookFrame;
      AllocTops();
      ghost var cs, bs, he, live, mrt, m0 := alloc.classes, alloc.heap.Blocks(), alloc.heap.he, alloc.live, alloc.pages.mrt[..], alloc.pages.mem;
      var lo := Tops(alloc.classes, alloc.heap.he);
      r, relocks, h := alloc.Kmalloc(size, true);
      if r.None? { return; }
      NextTopsAre(cs, alloc.classes, bs, he, alloc.heap.he, size);
      StillHeld(backing, live, mrt, alloc.pages.mrt[..], h);
      StillTables(m0, mrt, alloc.pages.mrt[..], root, live, h);
      AllocTops();
      var hi := Tops(alloc.classes, alloc.heap.he);
      var ps := NewPages(lo, hi, AREAS);
      NewPagesFit(lo, hi, backing);
      if h.Page? { NothingNew(lo, AREAS); NoCost(m0, root); }
      var ok := MapAll(ps);
      if !ok { r := None; return; }
      CoveredNow(lo, hi, old(backing), backing);
    }

    /** kfree: nothing is unmapped, and every page keeps its frame. */
    method Release(addr: nat, ghost h: Range)
      requires Valid() && h in alloc.live && Proper(h) && Addr(h) == addr
      modifies alloc`classes, alloc`live, alloc.pages`areas, alloc.pages.mrt, alloc.heap
      ensures Valid() && alloc.live == old(alloc.live) - {h}
    {
      hide Tops, Covered, FramesHeld, MapsTo, TablesOk, PageFrames.FramesOk, PageFrames.FreeTotal, Kmalloc.Booked,
           KernelHeap.View, KernelHeap.Unused, HeapBlocks.HeapOk, KernelHeap.PagesMapped, Proper, Addr;
      assert h.Page? ==> h == Page(h.frame) && h.frame < alloc.pages.mrt.Length && alloc.pages.mrt[..][h.frame] > 0;
      ghost var cs, live, mrt := alloc.classes, alloc.live, alloc.pages.mrt[..];
      alloc.Kfree(addr, h);
      TopsSame(cs, alloc.classes, alloc.heap.he);
      HeldWithout(backing, live, mrt, alloc.pages.mrt[..], h);
      TablesWithout(alloc.pages.mem, mrt, alloc.pages.mrt[..], root, live, h);
    }

    /** Every byte of a live result has a physical byte, and no two have the same. */
    lemma PhysicallyApart(r: Range, v: nat, q: Range, w: nat)
      requires Valid() && r in alloc.live && q in alloc.live && Proper(r) && Proper(q)
      requires Addr(r) <= v < Addr(r) + Len(r) && Addr(q) <= w < Addr(q) + Len(q)
      ensures Physical(alloc.pages.mem, root, v).Some? && Physical(alloc.pages.mem, root, w).Some?
      ensures Physical(alloc.pages.mem, root, v) == Physical(alloc.pages.mem, root, w) ==> v == w
    {
      hide Tops, Covered, FramesHeld, MapsTo, TablesOk, PageFrames.FramesOk, Kmalloc.Booked, KernelHeap.View,
           KernelHeap.Unused,
           HeapBlocks.HeapOk, KernelHeap.PagesMapped, Proper, Addr, Len, Physical;
      LiveBacked(r, v);
      LiveBacked(q, w);
      BytesApart(alloc.pages.mem, root, backing, alloc.live, alloc.pages.mrt[..], r, v, q, w);
    }

    /** A byte of a live result lies on a backed page, or in the live page it belongs to. */
    lemma LiveBacked(r: Range, v: nat)
      requires Valid() && r in alloc.live && Proper(r) && Addr(r) <= v < Addr(r) + Len(r)
      ensures Located(backing, r, v)
    {
      hide FramesHeld, MapsTo, TablesOk, PageFrames.FramesOk, KernelHeap.View, KernelHeap.Unused, HeapBlocks.HeapOk,
           KernelHeap.PagesMapped, Kmalloc.Booked, Kmalloc.PagesHeld;
      match r
      case Page(f) =>
      case Cell(i, j, k) =>
        Kmalloc.LiveOut(alloc.classes, alloc.headers, alloc.live, Kmalloc.SetOf(alloc.heap.nodes), r);
        CellCovered(alloc.classes, alloc.heap.he, i, j, k, v);
      case Block(s, n) =>
        assert HeapBlocks.Block(s, n, true) in alloc.heap.Blocks();
        BlockCovered(alloc.classes, alloc.heap.Blocks(), alloc.heap.he, s, n, v);
    }
  }

  /** A page that is still to be mapped has no frame yet. */
  lemma NotYet(m0: seq<PageFrames.Page>, mem: seq<PageFrames.Page>, root: nat, b0: map<nat, nat>, b: map<nat, nat>,
               free0: nat, free: nat, ps: seq<nat>, k: nat)
    requires k < |ps| && Progress(m0, mem, root, b0, b, free0, free, ps[..k]) && NoRepeat(ps) && ps[k] !in b0
    ensures ps[k] !in b
  {
    hide PageTables.TablesPaid;
    assert ps[k] !in ps[..k];
  }

  lemma ProgressCost(m0: seq<PageFrames.Page>, m1: seq<PageFrames.Page>, mrt: seq<PageFrames.Count>, root: nat,
                     b0: map<nat, nat>, b: map<nat, nat>, free0: nat, free: nat, ps: seq<nat>, p: nat)
    requires Progress(m0, m1, root, b0, b, free0, free, ps) && KernelPage(p)
    requires PageTables.TreeOk(m1, mrt, root) && SlotOf(m1, root, p) == PageTables.Absent
    ensures KernelPages(ps + [p]) && Cost(m0, root, ps + [p]) == free0 - free + 1 + MissingAt(m1, root, p)
  {
    hide PageTables.TablesPaid, PageTables.TreeOk, Gains, MissingAt, SlotOf;
    CostStep(m0, m1, mrt, root, ps, p);
  }

  lemma ProgressParts(m0: seq<PageFrames.Page>, mem: seq<PageFrames.Page>, root: nat, b0: map<nat, nat>,
                      b: map<nat, nat>,
                      free0: nat, free: nat, ps: seq<nat>)
    requires Progress(m0, mem, root, b0, b, free0, free, ps)
    ensures KernelPages(ps) && Gains(b0, b, ps) && free == free0 - Cost(m0, root, ps)
  {
    hide PageTables.TablesPaid, Gains, Cost;
  }

  lemma NotMapped(mem: seq<PageFrames.Page>, root: nat, b: map<nat, nat>, p: nat)
    requires MapsTo(mem, root, b) && KernelPage(p) && p !in b
    ensures SlotOf(mem, root, p) == PageTables.Absent
  {
    hide SlotOf;
  }

  lemma TreeOf(mem: seq<PageFrames.Page>, mrt: seq<PageFrames.Count>, root: nat, live: set<Range>)
    requires TablesOk(mem, mrt, root, live)
    ensures PageTables.TreeOk(mem, mrt, root)
  {
  }

  /** New pages of the areas are pages of the kernel, each new and named once. */
  lemma NewPagesFit(lo: seq<nat>, hi: seq<nat>, b: map<nat, nat>)
    requires TopsOk(lo) && TopsOk(hi) && (forall i :: 0 <= i < AREAS ==> lo[i] <= hi[i])
             && forall p :: p in b <==> Covered(lo, p)
    ensures var ps := NewPages(lo, hi, AREAS);
            KernelPages(ps) && NoRepeat(ps) && forall k :: 0 <= k < |ps| ==> ps[k] !in b
  {
    hide NewPages, TopsOk, Covered;
    EightTops(lo);
    EightTops(hi);
    NewPagesOnce(lo, hi, AREAS);
    var ps := NewPages(lo, hi, AREAS);
    forall k | 0 <= k < |ps| ensures KernelPage(ps[k]) && ps[k] !in b {
      CoveredMore(lo, hi, ps[k]);
      CoveredIsKernel(hi, ps[k]);
    }
  }

  lemma CoveredNow(lo: seq<nat>, hi: seq<nat>, b: map<nat, nat>, b': map<nat, nat>)
    requires TopsOk(lo) && TopsOk(hi) && (forall i :: 0 <= i < AREAS ==> lo[i] <= hi[i])
             && forall p :: p in b <==> Covered(lo, p)
    requires Gains(b, b', NewPages(lo, hi, AREAS))
    ensures forall p :: p in b' <==> Covered(hi, p)
  {
    hide NewPages, TopsOk, Covered;
    EightTops(lo);
    EightTops(hi);
    forall p: nat ensures p in b' <==> Covered(hi, p) { CoveredMore(lo, hi, p); }
  }

  /** The tops after kmalloc has served a request. */
  ghost function NextTops(cs: seq<Slabs.SizeClass>, bs: seq<HeapBlocks.Block>, he: nat, size: nat): (t: seq<nat>)
    requires |cs| == CLASSES
    ensures |t| == AREAS
  {
    var A := Kmalloc.Added(Kmalloc.MapsOf(cs), bs, size);
    seq(AREAS, i requires 0 <= i < AREAS =>
          if i < CLASSES then Area(i) + Times(Span(i), |cs[i].slabs| + if i in A then 1 else 0) else Kmalloc.Rise(bs, he, size))
  }

  lemma CellCovered(cs: seq<Slabs.SizeClass>, he: nat, i: nat, j: nat, k: nat, v: nat)
    requires |cs| == CLASSES && Proper(Cell(i, j, k)) && j < |cs[i].slabs|
    requires Addr(Cell(i, j, k)) <= v < Addr(Cell(i, j, k)) + Size(i)
    ensures Covered(Tops(cs, he), v / 4096) && v >= SLAB_START
  {
    hide Size, Span, Bits, Limit, Times;
    CellInside(i, j, k);
    MulLess(Span(i), j, |cs[i].slabs|);
    SlabsOnPages(i);
    assert Area(i) % 4096 == 0;
    assert InArea(i, Tops(cs, he)[i], v / 4096);
  }

  lemma SlabsOnPages(i: nat)
    requires i < CLASSES
    ensures Area(i) >= SLAB_START && Area(i) % 4096 == 0
  {
  }

  lemma BlockCovered(cs: seq<Slabs.SizeClass>, bs: seq<HeapBlocks.Block>, he: nat, s: nat, n: nat, v: nat)
    requires |cs| == CLASSES && HeapBlocks.HeapOk(bs, he) && HeapBlocks.Block(s, n, true) in bs
             && HEAP_START <= s <= v < s + n
    ensures Covered(Tops(cs, he), v / 4096) && v >= SLAB_START
  {
    hide HeapBlocks.Tiles, HeapBlocks.Coalesced, HeapBlocks.SomeFree;
    var i :| 0 <= i < |bs| && bs[i] == HeapBlocks.Block(s, n, true);
    assert HEAP_START % 4096 == 0 && Area(CLASSES) == HEAP_START;
    assert InArea(CLASSES, Tops(cs, he)[CLASSES], v / 4096);
  }

  /** Frames stay behind their pages when kmalloc hands out one more result. */
  lemma StillHeld(b: map<nat, nat>, live: set<Range>, mrt: seq<PageFrames.Count>, mrt': seq<PageFrames.Count>, h: Range)
    requires FramesHeld(b, live, mrt) && if h.Page? then Kmalloc.TookFrame(mrt, mrt', h.frame) else mrt' == mrt
    ensures FramesHeld(b, live + {h}, mrt')
  {
  }

  /** And when kfree takes one back. */
  lemma HeldWithout(b: map<nat, nat>, live: set<Range>, mrt: seq<PageFrames.Count>, mrt': seq<PageFrames.Count>,
                    h: Range)
    requires FramesHeld(b, live, mrt) && h in live
    requires if h.Page? then h.frame < |mrt| && mrt[h.frame] > 0 && mrt' == mrt[h.frame := mrt[h.frame] - 1] else mrt' == mrt
    ensures FramesHeld(b, live - {h}, mrt')
  {
    forall p | p in b ensures h.Page? ==> b[p] != h.frame { assert Page(b[p]) !in live; }
  }

  lemma StillTables(mem: seq<PageFrames.Page>, mrt: seq<PageFrames.Count>, mrt': seq<PageFrames.Count>, root: nat,
                    live: set<Range>, h: Range)
    requires TablesOk(mem, mrt, root, live) && if h.Page? then Kmalloc.TookFrame(mrt, mrt', h.frame) else mrt' == mrt
    ensures TablesOk(mem, mrt', root, live + {h})
  {
    hide PageTables.Table;
    if h.Page? { TreeMore(mem, mrt, root, h.frame); }
    forall f: nat | PageTables.IsTable(mem, root, f) ensures Page(f) !in live + {h} {
      var p :| PageTables.Prefix(p) && PageTables.Table(mem, root, p) == Some(f);
    }
  }

  lemma TablesWithout(mem: seq<PageFrames.Page>, mrt: seq<PageFrames.Count>, mrt': seq<PageFrames.Count>, root: nat,
                      live: set<Range>, h: Range)
    requires TablesOk(mem, mrt, root, live) && h in live
    requires if h.Page? then h.frame < |mrt| && mrt[h.frame] > 0 && mrt' == mrt[h.frame := mrt[h.frame] - 1] else mrt' == mrt
    ensures TablesOk(mem, mrt', root, live - {h})
  {
    hide PageTables.Table;
    forall p | PageTables.Prefix(p) && PageTables.Table(mem, root, p).Some?
      ensures PageTables.Table(mem, root, p).value < |mem| && mrt'[PageTables.Table(mem, root, p).value] != 0
    {
      assert PageTables.IsTable(mem, root, PageTables.Table(mem, root, p).value);
      assert h.Page? ==> h == Page(h.frame);
    }
  }

  // ---- physical addresses ----

  /** The physical address of a kernel address: directly mapped, or through the page tables. */
  ghost function Physical(mem: seq<PageFrames.Page>, root: nat, v: nat): (r: Option<nat>) {
    if V0 <= v < SLAB_START then Some(v - V0)
    else if PageTables.Canonical(v) then PageTables.Translate(mem, root, v)
    else None
  }

  /** Where byte v of result r is: in the live page itself, or on a page that has a frame. */
  predicate Located(b: map<nat, nat>, r: Range, v: nat) {
    if r.Page? then v / 4096 == V0 / 4096 + r.frame && V0 <= v < SLAB_START else v / 4096 in b && v >= SLAB_START
  }

  lemma Byte(mem: seq<PageFrames.Page>, root: nat, b: map<nat, nat>, r: Range, v: nat, f: nat)
    requires MapsTo(mem, root, b) && Located(b, r, v) && f == if r.Page? then r.frame else b[v / 4096]
    ensures Physical(mem, root, v) == Some(4096 * f + v % 4096)
  {
    hide PageTables.Walk, PageTables.Layers, PageTables.Address;
    if !r.Page? {
      var p := v / 4096;
      assert KernelPage(p) && v - v % 4096 == 4096 * p;
      KernelIndex(p);
      assert SlotOf(mem, root, p) == PageTables.Small(PageFrames.Word(b[p], PageTables.KERNEL_4K));
    }
  }

  lemma BytesApart(mem: seq<PageFrames.Page>, root: nat, b: map<nat, nat>, live: set<Range>, mrt: seq<PageFrames.Count>,
                   r: Range, v: nat, q: Range, w: nat)
    requires MapsTo(mem, root, b) && FramesHeld(b, live, mrt) && r in live && q in live && Located(b, r, v)
             && Located(b, q, w)
    ensures Physical(mem, root, v).Some? && Physical(mem, root, w).Some?
    ensures Physical(mem, root, v) == Physical(mem, root, w) ==> v == w
  {
    hide Physical, MapsTo;
    var f := if r.Page? then r.frame else b[v / 4096];
    var g := if q.Page? then q.frame else b[w / 4096];
    Byte(mem, root, b, r, v, f);
    Byte(mem, root, b, q, w, g);
    if Physical(mem, root, v) == Physical(mem, root, w) {
      assert f == g && v % 4096 == w % 4096;
      assert r.Page? == q.Page? by { assert r.Page? ==> r == Page(r.frame); assert q.Page? ==> q == Page(q.frame); }
    }
  }

  lemma NextTopsAre(cs: seq<Slabs.SizeClass>, cs': seq<Slabs.SizeClass>, bs: seq<HeapBlocks.Block>, he: nat, he': nat,
                    size: nat)
    requires |cs| == CLASSES && Kmalloc.GrewBy(cs, cs', Kmalloc.Added(Kmalloc.MapsOf(cs), bs, size))
             && he' == Kmalloc.Rise(bs, he, size)
    ensures |cs'| == CLASSES && NextTops(cs, bs, he, size) == Tops(cs', he')
    ensures forall i :: 0 <= i < AREAS ==> Tops(cs, he)[i] <= Tops(cs', he')[i]
  {
    hide Kmalloc.Added, Kmalloc.Rise, Span, Times;
    forall i | 0 <= i < CLASSES ensures Top(cs, he, i) <= Top(cs', he', i) {
      if |cs[i].slabs| < |cs'[i].slabs| { MulLess(Span(i), |cs[i].slabs|, |cs'[i].slabs|); }
    }
  }

  lemma NoCost(mem: seq<PageFrames.Page>, root: nat)
    ensures KernelPages([]) && Cost(mem, root, []) == 0
  {
  }

  lemma {:induction false} NothingNew(lo: seq<nat>, n: nat)
    requires n <= |lo|
    ensures NewPages(lo, lo, n) == []
  {
    if n > 0 { NothingNew(lo, n - 1); }
  }

  // ---- booting ----

  /** Nothing mapped yet. */
  const BARE: seq<nat> := seq(AREAS, i requires 0 <= i < AREAS => Area(i))

  /** The tops of the first slabs. */
  const FIRST: seq<nat> := seq(AREAS, i requires 0 <= i < AREAS => Area(i) + if i < CLASSES then Span(i) else 0)

  /** The pages of the first slabs: one for each small class, 64 and 128 for the middle ones. */
  const BOOT: seq<nat> := NewPages(BARE, FIRST, AREAS)

  lemma BootPages(cs: seq<Slabs.SizeClass>, he: nat)
    requires |cs| == CLASSES && he == HEAP_START && forall i :: 0 <= i < CLASSES ==> |cs[i].slabs| == 1
    ensures Tops(cs, he) == FIRST && KernelPages(BOOT) && NoRepeat(BOOT)
            && forall p: nat :: p in BOOT <==> Covered(FIRST, p)
  {
    hide NewPages, Covered, Span;
    OneSlabEach(cs, he);
    BootTops();
    NewPagesFit(BARE, FIRST, map[]);
    forall p: nat ensures p in BOOT <==> Covered(FIRST, p) { CoveredMore(BARE, FIRST, p); }
  }

  lemma OneSlabEach(cs: seq<Slabs.SizeClass>, he: nat)
    requires |cs| == CLASSES && he == HEAP_START && forall i :: 0 <= i < CLASSES ==> |cs[i].slabs| == 1
    ensures Tops(cs, he) == FIRST
  {
    hide Span;
    forall i | 0 <= i < AREAS ensures Tops(cs, he)[i] == FIRST[i] {}
  }

  /** The number of pages of the first n areas at boot. */
  function FirstPages(n: nat): (r: nat)
    requires n <= AREAS
  {
    [0, 1, 2, 3, 4, 5, 69, 197, 197][n]
  }

  lemma {:induction false} BootCount(n: nat)
    requires n <= AREAS
    ensures |NewPages(BARE, FIRST, n)| == FirstPages(n)
  {
    if n > 0 { BootCount(n - 1); }
  }

  /** The two lower tables each of the first n slab areas needs for its first slab. */
  ghost function LowTables(n: nat): (r: set<seq<nat>>)
    requires n <= CLASSES
    ensures |r| == 2 * n && forall q :: q in r ==> Entry(q) < 258 + n
  {
    if n == 0 then {} else
    var r1 := LowTables(n - 1) + {[257 + n, 0]};
    assert Entry([257 + n, 0]) == Entry([257 + n, 0, 0]) == 257 + n && |[257 + n, 0]| != |[257 + n, 0, 0]|;
    r1 + {[257 + n, 0, 0]}
  }

  predicate Low(e: nat, q: seq<nat>) { q == [e, 0] || q == [e, 0, 0] }

  lemma {:induction false} InLowTables(n: nat, q: seq<nat>)
    requires n <= CLASSES
    ensures q in LowTables(n) <==> exists e :: 258 <= e < 258 + n && Low(e, q)
  {
    hide LowTables, Low;
    if n == 0 {
      NoLowTables();
    } else {
      InLowTables(n - 1, q);
      MoreLowTables(n, q);
    }
  }

  lemma NoLowTables()
    ensures LowTables(0) == {}
  {
  }

  lemma MoreLowTables(n: nat, q: seq<nat>)
    requires 0 < n <= CLASSES
    ensures q in LowTables(n) <==> q in LowTables(n - 1) || Low(257 + n, q)
  {
    hide Entry;
  }

  function Entry(q: seq<nat>): (e: nat) { if q == [] then 0 else q[0] }

  /** set_kernel_area has made the tables of the slab areas, and they are empty. */
  ghost predicate AreasPrepared(mem: seq<PageFrames.Page>, root: nat) {
    forall e :: 258 <= e < 258 + CLASSES ==> PageTables.HasTable(mem, root, [e]) && !PageTables.HasTable(mem, root, [e, 0])
  }

  lemma {:induction false} InTables(mem: seq<PageFrames.Page>, root: nat, ps: seq<nat>, q: seq<nat>)
    requires KernelPages(ps)
    ensures q in TablesFor(mem, root, ps) <==> exists k :: 0 <= k < |ps| && q in LacksAt(mem, root, ps[k])
  {
    hide LacksAt;
    if ps != [] {
      var init := ps[..|ps| - 1];
      InTables(mem, root, init, q);
      assert forall k :: 0 <= k < |init| ==> init[k] == ps[k];
    }
  }

  lemma BootLayers(i: nat, k: nat)
    requires i < CLASSES && k < 128
    ensures PageTables.Layers(4096 * (Area(i) / 4096 + k)) == [258 + i, 0, 0, k]
  {
    hide PageTables.Layers;
    var idx := [258 + i, 0, 0, k];
    PageTables.LayersOfAddress(idx);
    assert PageTables.Address(idx) == 4096 * (Area(i) / 4096 + k);
  }

  lemma BootLacks(mem: seq<PageFrames.Page>, root: nat, i: nat, k: nat)
    requires AreasPrepared(mem, root) && i < CLASSES && k < 128 && KernelPage(Area(i) / 4096 + k)
    ensures LacksAt(mem, root, Area(i) / 4096 + k) == {[258 + i, 0], [258 + i, 0, 0]}
  {
    hide PageTables.HasTable, PageTables.Layers, PageTables.Lacks;
    var idx := [258 + i, 0, 0, k];
    BootLayers(i, k);
    assert PageTables.HasTable(mem, root, [258 + i]) && !PageTables.HasTable(mem, root, [258 + i, 0]);
    assert idx[..1] == [258 + i] && idx[..2] == [258 + i, 0] && idx[..3] == [258 + i, 0, 0];
    PageTables.LacksBelow(mem, root, idx, 2);
    PageTables.LacksIs(mem, root, idx);
  }

  /** A page of the first slabs is one of the first 128 of a slab area. */
  lemma BootPage(p: nat) returns (i: nat)
    requires p in BOOT
    ensures i < CLASSES && InArea(i, Area(i) + 0x8_0000, p)
  {
    hide NewPages, Numbers, TopsOk;
    BootTops();
    InNewPages(BARE, FIRST, AREAS, p);
    i :| i < AREAS && Between(BARE, FIRST, i, p);
  }

  lemma BootArea(i: nat)
    requires i < CLASSES
    ensures Area(i) / 4096 in BOOT && InArea(i, Area(i) + 0x8_0000, Area(i) / 4096)
  {
    hide NewPages, Numbers, TopsOk;
    BootTops();
    InNewPages(BARE, FIRST, AREAS, Area(i) / 4096);
    assert Between(BARE, FIRST, i, Area(i) / 4096);
  }

  /** Booting takes 197 frames for pages and 14 for tables. */
  lemma BootCost(mem: seq<PageFrames.Page>, root: nat)
    requires AreasPrepared(mem, root)
    ensures KernelPages(BOOT) && Cost(mem, root, BOOT) == 197 + 14
  {
    hide NewPages, AreasPrepared, LacksAt, TablesFor, LowTables;
    BootTops();
    NewPagesFit(BARE, FIRST, map[]);
    BootCount(AREAS);
    forall q ensures q in TablesFor(mem, root, BOOT) <==> q in LowTables(CLASSES) { BootTable(mem, root, q); }
    assert TablesFor(mem, root, BOOT) == LowTables(CLASSES);
  }

  lemma BootTable(mem: seq<PageFrames.Page>, root: nat, q: seq<nat>)
    requires AreasPrepared(mem, root) && KernelPages(BOOT)
    ensures q in TablesFor(mem, root, BOOT) <==> q in LowTables(CLASSES)
  {
    hide NewPages, AreasPrepared, LacksAt, TablesFor, LowTables, Low, InArea, Area;
    InTables(mem, root, BOOT, q);
    InLowTables(CLASSES, q);
    if q in TablesFor(mem, root, BOOT) {
      var n :| 0 <= n < |BOOT| && q in LacksAt(mem, root, BOOT[n]);
      var i := BootPage(BOOT[n]);
      LacksLow(mem, root, i, BOOT[n], q);
    }
    if exists e :: 258 <= e < 258 + CLASSES && Low(e, q) {
      var e :| 258 <= e < 258 + CLASSES && Low(e, q);
      var p := Area(e - 258) / 4096;
      BootArea(e - 258);
      var n :| 0 <= n < |BOOT| && BOOT[n] == p;
      LacksLow(mem, root, e - 258, p, q);
    }
  }

  lemma LacksLow(mem: seq<PageFrames.Page>, root: nat, i: nat, p: nat, q: seq<nat>)
    requires AreasPrepared(mem, root) && i < CLASSES && InArea(i, Area(i) + 0x8_0000, p) && KernelPage(p)
    ensures q in LacksAt(mem, root, p) <==> Low(258 + i, q)
  {
    hide AreasPrepared, LacksAt;
    BootLacks(mem, root, i, p - Area(i) / 4096);
  }

  lemma BootTops()
    ensures TopsOk(BARE) && TopsOk(FIRST) && (forall i :: 0 <= i < AREAS ==> BARE[i] <= FIRST[i])
            && forall p: nat :: !Covered(BARE, p)
  {
  }
}
