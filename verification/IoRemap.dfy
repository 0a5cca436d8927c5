/**
 The device window of src/mm/mm.c: io_remap finds the first gap of unmapped kernel pages, maps a
 physical range into it uncached, and io_unmap takes the mapping away again.
 */
module IoRemap {
  import opened Common
  import opened PageFrames
  import opened PageTables

  /** IO_REMAP_START and the number of pages up to IO_REMAP_END. */
  const WINDOW: nat := VIRTUAL_0 + 10 * 0x80_0000_0000
  const PAGES: nat := 0x800_0000

  /** The address of the j-th page of the window. */
  function PageAt(j: nat): (v: nat) {
    WINDOW + 4096 * j
  }

  lemma WindowPage(j: nat)
    requires j < PAGES
    ensures Canonical(PageAt(j)) && PageAt(j) % 4096 == 0
    ensures Index(Layers(PageAt(j))) && Address(Layers(PageAt(j))) == PageAt(j)
  {
    AddressOfLayers(PageAt(j));
  }

  /** The slot of the j-th page of the window. */
  ghost function SlotAt(mem: seq<Page>, root: nat, j: nat): Slot
    requires j < PAGES
  {
    WindowPage(j);
    Walk(mem, root, Layers(PageAt(j)))
  }

  /** Page idx is one of the pages s .. s + n of the window. */
  ghost predicate InRange(idx: seq<nat>, s: nat, n: nat)
    requires Index(idx)
  {
    PageAt(s) <= Address(idx) < PageAt(s + n)
  }

  lemma SamePage(idx: seq<nat>, j: nat)
    requires Index(idx) && j < PAGES
    ensures Address(idx) % 4096 == 0 && (idx == Layers(PageAt(j)) <==> Address(idx) == PageAt(j))
  {
    hide Address, Layers;
    WindowPage(j);
    LayersOfAddress(idx);
  }

  lemma RangePage(idx: seq<nat>, s: nat, n: nat) returns (j: nat)
    requires Index(idx) && s + n <= PAGES && InRange(idx, s, n)
    ensures s <= j < s + n && idx == Layers(PageAt(j))
  {
    hide Address, Layers;
    LayersOfAddress(idx);
    j := (Address(idx) - WINDOW) / 4096;
    SamePage(idx, j);
  }

  /** n consecutive unmapped pages of the window starting with the s-th. */
  ghost predicate Gap(mem: seq<Page>, root: nat, s: int, n: nat) {
    0 <= s && s + n <= PAGES && forall j :: s <= j < s + n ==> SlotAt(mem, root, j) == Absent
  }

  /** Pages outside s .. s + n are mapped in mem as in m0. */
  ghost predicate SameOutside(m0: seq<Page>, mem: seq<Page>, root: nat, s: nat, n: nat) {
    forall idx :: Index(idx) && !InRange(idx, s, n) ==> Walk(mem, root, idx) == Walk(m0, root, idx)
  }

  /** Pages s .. s + n map the frames from `frame` on and everything else is as in m0. */
  ghost predicate RangeMapped(m0: seq<Page>, mem: seq<Page>, root: nat, s: nat, n: nat, frame: nat) {
    && s + n <= PAGES && SameOutside(m0, mem, root, s, n)
    && forall j :: s <= j < s + n ==> SlotAt(mem, root, j) == Small(Word(frame + (j - s), DEVICE_4K))
  }

  /** Pages s .. s + n are unmapped and everything else is as in m0. */
  ghost predicate RangeCleared(m0: seq<Page>, mem: seq<Page>, root: nat, s: nat, n: nat) {
    && s + n <= PAGES && SameOutside(m0, mem, root, s, n)
    && forall j :: s <= j < s + n ==> SlotAt(mem, root, j) == Absent
  }

  lemma OutsidePage(m0: seq<Page>, mem: seq<Page>, root: nat, s: nat, n: nat, j: nat)
    requires SameOutside(m0, mem, root, s, n) && j < PAGES && !(s <= j < s + n)
    ensures SlotAt(mem, root, j) == SlotAt(m0, root, j)
  {
    WindowPage(j);
  }

  /** Changing page s + n extends the range of changed pages by one. */
  lemma OneMore(m0: seq<Page>, m1: seq<Page>, m2: seq<Page>, root: nat, s: nat, n: nat, slot: Slot)
    requires s + n < PAGES && SameOutside(m0, m1, root, s, n)
    requires WalkUpdated(m1, m2, root, Layers(PageAt(s + n)), slot)
    ensures SameOutside(m0, m2, root, s, n + 1) && SlotAt(m2, root, s + n) == slot
    ensures forall j :: s <= j < s + n ==> SlotAt(m2, root, j) == SlotAt(m1, root, j)
  {
    hide Address, Layers, Walk;
    forall idx | Index(idx) && !InRange(idx, s, n + 1) ensures Walk(m2, root, idx) == Walk(m0, root, idx) {
      SamePage(idx, s + n);
    }
    WindowPage(s + n);
    forall j | s <= j < s + n ensures SlotAt(m2, root, j) == SlotAt(m1, root, j) {
      WindowPage(j);
    }
  }

  // ---- the tables a mapping needs ----

  /** The tables that pages s .. s + n of the window need and that are not there. */
  ghost function NewTables(mem: seq<Page>, root: nat, s: nat, n: nat): (r: set<seq<nat>>)
    requires s + n <= PAGES
  {
    if n == 0 then {} else WindowPage(s + n - 1); NewTables(mem, root, s, n - 1) + Lacks(mem, root, Layers(PageAt(s + n - 1)))
  }

  lemma {:induction false} FewerTables(mem: seq<Page>, root: nat, s: nat, i: nat, n: nat)
    requires i <= n && s + n <= PAGES
    ensures NewTables(mem, root, s, i) <= NewTables(mem, root, s, n)
            && |NewTables(mem, root, s, i)| <= |NewTables(mem, root, s, n)|
  {
    hide Lacks;
    if i < n {
      FewerTables(mem, root, s, i, n - 1);
      SubsetCount(NewTables(mem, root, s, n - 1), NewTables(mem, root, s, n));
    }
  }

  /** The mapping loop of io_remap over a gap: it halts exactly when the tables cannot be paid for. */
  method MapRange(pm: PhysicalMemory, root: nat, s: nat, n: nat, frame: nat) returns (halted: bool)
    requires pm.Valid() && TreeOk(pm.mem, pm.mrt[..], root) && Gap(pm.mem, root, s, n)
    modifies pm`areas, pm`mem, pm.mrt
    ensures halted <==> FreeTotal(old(pm.areas)) < |NewTables(old(pm.mem), root, s, n)|
    ensures !halted ==> FreeTotal(pm.areas) == FreeTotal(old(pm.areas)) - |NewTables(old(pm.mem), root, s, n)|
    ensures !halted ==>
              && pm.Valid() && TreeOk(pm.mem, pm.mrt[..], root)
              && RangeMapped(old(pm.mem), pm.mem, root, s, n, frame)
              && OnlyTakes(old(pm.mrt[..]), pm.mrt[..])
  {
    hide TreeOk, FramesOk, WalkUpdated, OthersKept, SameOutside, Address, Layers, Walk, PageAt, Canonical, Index,
         TablesPaid, TablesAdded, Lacks, NewTables;
    ghost var m0, free := pm.mem, FreeTotal(pm.areas);
    SameOutsideSelf(m0, root, s);
    NothingPaid(m0, root, s);
    for i := 0 to n
      invariant pm.Valid() && TreeOk(pm.mem, pm.mrt[..], root) && RangeMapped(m0, pm.mem, root, s, i, frame)
      invariant TablesPaid(m0, pm.mem, root, NewTables(m0, root, s, i))
                && FreeTotal(pm.areas) == free - |NewTables(m0, root, s, i)|
      invariant OnlyTakes(old(pm.mrt[..]), pm.mrt[..])
    {
      ghost var m1 := pm.mem;
      WindowPage(s + i);
      OutsidePage(m0, m1, root, s, i, s + i);
      NextTables(m0, m1, pm.mrt[..], root, s, i);
      halted := PutPage(pm, frame + i, PageAt(s + i), root, 3, DEVICE_4K);
      if halted {
        FewerTables(m0, root, s, i + 1, n);
        return;
      }
      PaidMore(m0, m1, pm.mem, root, NewTables(m0, root, s, i), Layers(PageAt(s + i)));
      OneMore(m0, m1, pm.mem, root, s, i, Small(Word(frame + i, DEVICE_4K)));
    }
    halted := false;
  }

  lemma NothingPaid(mem: seq<Page>, root: nat, s: nat)
    requires s <= PAGES
    ensures NewTables(mem, root, s, 0) == {} && TablesPaid(mem, mem, root, {})
  {
  }

  /** What page s + i adds to the tables needed. */
  lemma NextTables(m0: seq<Page>, m1: seq<Page>, mrt: seq<Count>, root: nat, s: nat, i: nat)
    requires s + i < PAGES && TreeOk(m1, mrt, root) && SlotAt(m1, root, s + i) == Absent
    requires TablesPaid(m0, m1, root, NewTables(m0, root, s, i))
    ensures Index(Layers(PageAt(s + i)))
    ensures NewTables(m0, root, s, i + 1) == NewTables(m0, root, s, i) + Lacks(m0, root, Layers(PageAt(s + i)))
    ensures |NewTables(m0, root, s, i + 1)| == |NewTables(m0, root, s, i)| + Missing(m1, root, Layers(PageAt(s + i)), 0)
  {
    hide TreeOk, TablesPaid, Lacks, Missing, Walk, Layers, PageAt;
    WindowPage(s + i);
    LacksNow(m0, m1, root, NewTables(m0, root, s, i), Layers(PageAt(s + i)));
    MissingIsLacks(m1, mrt, root, Layers(PageAt(s + i)));
  }

  lemma SameOutsideSelf(mem: seq<Page>, root: nat, s: nat)
    ensures SameOutside(mem, mem, root, s, 0)
  {
  }

  /** The number of pages that cover `size` bytes from an address with the given page offset. */
  function PageCount(size: nat, offset: nat): (n: nat) {
    (size + offset + 4095) / 4096
  }

  /** The pages cover the bytes, and no fewer do. */
  lemma PageCountLeast(size: nat, offset: nat)
    ensures size + offset <= 4096 * PageCount(size, offset) < size + offset + 4096
  {
  }

  /** The gap io_remap takes for n pages. */
  ghost predicate FirstGap(mem: seq<Page>, root: nat, s: nat, n: nat)
    ensures FirstGap(mem, root, s, n) ==> s + n <= PAGES
  {
    n > 0 && Gap(mem, root, s, n) && forall t :: t < s ==> !Gap(mem, root, t, n)
  }

  lemma OneFirstGap(mem: seq<Page>, root: nat, s: nat, t: nat, n: nat)
    requires FirstGap(mem, root, s, n) && FirstGap(mem, root, t, n)
    ensures s == t
  {
    hide Gap;
  }

  /** What a successful io_remap establishes: the first gap, from page s on, now maps the range. */
  ghost predicate Remapped(m0: seq<Page>, mem: seq<Page>, root: nat, phy: nat, size: nat, r: nat, s: nat) {
    var n := PageCount(size, phy % 4096);
    && r == PageAt(s) + phy % 4096 && Gap(m0, root, s, n) && (forall t :: t < s ==> !Gap(m0, root, t, n))
    && RangeMapped(m0, mem, root, s, n, phy / 4096)
  }

  /** io_remap: 0 when the window has no gap that is large enough. */
  method Remap(pm: PhysicalMemory, root: nat, phy: nat, size: nat) returns (halted: bool, r: nat)
    requires pm.Valid() && TreeOk(pm.mem, pm.mrt[..], root) && phy + size + 4095 < TWO_64
    modifies pm`areas, pm`mem, pm.mrt
    ensures halted <==> exists s: nat :: FirstGap(old(pm.mem), root, s, PageCount(size, phy % 4096))
                                         && FreeTotal(old(pm.areas)) < |NewTables(old(pm.mem), root, s, PageCount(size, phy % 4096))|
    ensures !halted ==> pm.Valid() && TreeOk(pm.mem, pm.mrt[..], root) && OnlyTakes(old(pm.mrt[..]), pm.mrt[..])
    ensures !halted ==>
              (r == 0 <==> var n := PageCount(size, phy % 4096); n == 0 || forall s :: !Gap(old(pm.mem), root, s, n))
    ensures !halted && r == 0 ==> pm.mem == old(pm.mem) && pm.areas == old(pm.areas) && pm.mrt[..] == old(pm.mrt[..])
    ensures !halted && r != 0 ==> exists s: nat :: Remapped(old(pm.mem), pm.mem, root, phy, size, r, s)
  {
    hide TreeOk, FramesOk, RangeMapped, Gap, PageCount, NewTables;
    var offset := phy % 4096;
    var pages := PageCount(size, offset);
    var found := FindGap(pm, root, pages);
    if found.None? { return false, 0; }
    ghost var m0 := pm.mem;
    assert FirstGap(m0, root, found.value, pages);
    forall s: nat | FirstGap(m0, root, s, pages)
      ensures s == found.value { OneFirstGap(m0, root, s, found.value, pages); }
    halted := MapRange(pm, root, found.value, pages, phy / 4096);
    r := PageAt(found.value) + offset;
    assert !halted ==> Remapped(old(pm.mem), pm.mem, root, phy, size, r, found.value);
  }

  /** The scan of io_remap for the first gap; it never finds one of zero pages. */
  method FindGap(pm: PhysicalMemory, root: nat, pages: nat) returns (found: Option<nat>)
    requires pm.Valid() && TreeOk(pm.mem, pm.mrt[..], root)
    ensures found.None? <==> pages == 0 || forall s :: !Gap(pm.mem, root, s, pages)
    ensures found.Some? ==> Gap(pm.mem, root, found.value, pages)
    ensures found.Some? ==> forall s :: s < found.value ==> !Gap(pm.mem, root, s, pages)
  {
    hide TreeOk, FramesOk, Layers, Address, Walk;
    var m := 0;
    var start := 0;
    for j := 0 to PAGES
      invariant m <= j && (m > 0 ==> start == j - m) && (pages > 0 ==> m < pages)
      invariant forall k :: j - m <= k < j ==> SlotAt(pm.mem, root, k) == Absent
      invariant j > m ==> SlotAt(pm.mem, root, j - m - 1) != Absent
      invariant pages > 0 ==> forall s :: s + pages <= j ==> !Gap(pm.mem, root, s, pages)
    {
      WindowPage(j);
      var mapped := ExistPage(pm, PageAt(j), root);
      assert SlotAt(pm.mem, root, j) == Absent <==> mapped == Some(false);
      if mapped == Some(false) {
        if m == 0 { start := j; }
        m := m + 1;
        if m == pages {
          assert Gap(pm.mem, root, start, pages);
          return Some(start);
        }
      } else {
        m := 0;
      }
    }
    found := None;
  }

  /** Every byte of a remapped range translates to the physical byte it stands for. */
  lemma RemappedTranslates(m0: seq<Page>, mem: seq<Page>, root: nat, phy: nat, size: nat, r: nat, s: nat, k: nat)
    requires Remapped(m0, mem, root, phy, size, r, s) && k < size
    ensures Canonical(r + k) && Translate(mem, root, r + k) == Some(phy + k)
  {
    hide Address, Layers, Walk, Translate, PageCount, SameOutside, Gap, Canonical;
    var i, rest := BytePage(size, phy % 4096, k);
    WindowPage(s + i);
    assert SlotAt(mem, root, s + i) == Small(Word(phy / 4096 + i, DEVICE_4K));
    TranslateAt(mem, root, PageAt(s + i), rest, Word(phy / 4096 + i, DEVICE_4K));
  }

  lemma BytePage(size: nat, off: nat, k: nat) returns (i: nat, rest: nat)
    requires k < size
    ensures off + k == 4096 * i + rest && rest < 4096 && i < PageCount(size, off)
  {
    i, rest := (off + k) / 4096, (off + k) % 4096;
  }

  lemma TranslateAt(mem: seq<Page>, root: nat, page: nat, rest: nat, w: Word)
    requires Canonical(page) && page % 4096 == 0 && rest < 4096
    requires Index(Layers(page)) && Walk(mem, root, Layers(page)) == Small(w)
    ensures Canonical(page + rest) && Translate(mem, root, page + rest) == Some(w.frame * 4096 + rest)
  {
    hide Layers, Walk, Address;
    assert (page + rest) % 4096 == rest;
  }

  /** The number of the page of the window that holds an address. */
  function PageNumber(vir: nat): (j: nat)
    requires vir >= WINDOW
  {
    (vir - WINDOW) / 4096
  }

  /** io_unmap of an address range of the window; halts unless each page is a mapped 4 KiB page. */
  method Unmap(pm: PhysicalMemory, root: nat, vir: nat, size: nat) returns (halted: bool)
    requires pm.Valid() && TreeOk(pm.mem, pm.mrt[..], root)
    requires vir >= WINDOW && PageNumber(vir) + PageCount(size, vir % 4096) <= PAGES
    modifies pm`mem
    ensures halted <==> exists j :: PageNumber(vir) <= j < PageNumber(vir) + PageCount(size, vir % 4096)
                                    && !SlotAt(old(pm.mem), root, j).Small?
    ensures !halted ==>
              && pm.Valid() && TreeOk(pm.mem, pm.mrt[..], root)
              && RangeCleared(old(pm.mem), pm.mem, root, PageNumber(vir), PageCount(size, vir % 4096))
  {
    hide TreeOk, FramesOk, PageNumber, PageCount, SlotAt, RangeCleared;
    halted := UnmapPages(pm, root, PageNumber(vir), PageCount(size, vir % 4096));
  }

  /** A device range mapped and unmapped again: the unmapping does not halt and restores the map. */
  method RemapThenUnmap(pm: PhysicalMemory, root: nat, phy: nat, size: nat)
    returns (remapHalted: bool, r: nat, unmapHalted: bool)
    requires pm.Valid() && TreeOk(pm.mem, pm.mrt[..], root) && phy + size + 4095 < TWO_64
    modifies pm`areas, pm`mem, pm.mrt
    ensures !remapHalted && r != 0 ==> !unmapHalted
    ensures !remapHalted ==> SameWalk(old(pm.mem), pm.mem, root) && TreeOk(pm.mem, pm.mrt[..], root)
  {
    hide TreeOk, FramesOk, SlotAt, RangeCleared, RangeMapped, Gap;
    unmapHalted := false;
    remapHalted, r := Remap(pm, root, phy, size);
    if !remapHalted && r != 0 {
      ghost var m1 := pm.mem;
      ghost var s: nat :| Remapped(old(pm.mem), m1, root, phy, size, r, s);
      GapFits(old(pm.mem), root, s, PageCount(size, phy % 4096));
      assert PageNumber(r) == s && r % 4096 == phy % 4096;
      unmapHalted := Unmap(pm, root, r, size);
      UnmapUndoesRemap(old(pm.mem), m1, pm.mem, root, phy, size, r, s);
    }
  }

  lemma GapFits(mem: seq<Page>, root: nat, s: int, n: nat)
    requires Gap(mem, root, s, n)
    ensures 0 <= s && s + n <= PAGES
  {
  }

  /** The unmapping loop of io_unmap. */
  method UnmapPages(pm: PhysicalMemory, root: nat, s: nat, n: nat) returns (halted: bool)
    requires pm.Valid() && TreeOk(pm.mem, pm.mrt[..], root) && s + n <= PAGES
    modifies pm`mem
    ensures halted ==> exists j :: s <= j < s + n && !SlotAt(old(pm.mem), root, j).Small?
    ensures !halted ==> forall j :: s <= j < s + n ==> SlotAt(old(pm.mem), root, j).Small?
    ensures !halted ==>
              && pm.Valid() && TreeOk(pm.mem, pm.mrt[..], root) && RangeCleared(old(pm.mem), pm.mem, root, s, n)
  {
    hide TreeOk, FramesOk, WalkUpdated, SameOutside, SlotAt, PageAt, Layers;
    ghost var m0 := pm.mem;
    SameOutsideSelf(m0, root, s);
    for i := 0 to n
      invariant pm.Valid() && TreeOk(pm.mem, pm.mrt[..], root) && RangeCleared(m0, pm.mem, root, s, i)
      invariant forall j :: s <= j < s + i ==> SlotAt(m0, root, j).Small?
    {
      ghost var m1 := pm.mem;
      OutsidePage(m0, m1, root, s, i, s + i);
      halted := UnmapOne(pm, root, s + i);
      if halted { return; }
      OneMore(m0, m1, pm.mem, root, s, i, Absent);
    }
    halted := false;
  }

  method UnmapOne(pm: PhysicalMemory, root: nat, j: nat) returns (halted: bool)
    requires pm.Valid() && TreeOk(pm.mem, pm.mrt[..], root) && j < PAGES
    modifies pm`mem
    ensures halted <==> !SlotAt(old(pm.mem), root, j).Small?
    ensures !halted ==>
              && pm.Valid() && TreeOk(pm.mem, pm.mrt[..], root)
              && WalkUpdated(old(pm.mem), pm.mem, root, Layers(PageAt(j)), Absent)
  {
    hide TreeOk, FramesOk, WalkUpdated, OthersKept, Address, Layers, Walk;
    WindowPage(j);
    halted := RmPage(pm, PageAt(j), root);
  }

  /** io_unmap after io_remap: the unmapping cannot halt, and the map is what it was before. */
  lemma UnmapUndoesRemap(m0: seq<Page>, m1: seq<Page>, m2: seq<Page>, root: nat, phy: nat, size: nat, r: nat, s: nat)
    requires Remapped(m0, m1, root, phy, size, r, s)
    ensures forall j :: s <= j < s + PageCount(size, phy % 4096) ==> SlotAt(m1, root, j).Small?
    ensures RangeCleared(m1, m2, root, s, PageCount(size, phy % 4096)) ==> SameWalk(m0, m2, root)
  {
    hide Address, Layers, Walk, PageCount;
    var n := PageCount(size, phy % 4096);
    if RangeCleared(m1, m2, root, s, n) {
      forall idx | Index(idx) ensures Walk(m2, root, idx) == Walk(m0, root, idx) {
        if InRange(idx, s, n) {
          var j := RangePage(idx, s, n);
          assert SlotAt(m0, root, j) == Absent && SlotAt(m2, root, j) == Absent;
        } else {
          assert Walk(m2, root, idx) == Walk(m1, root, idx) == Walk(m0, root, idx);
        }
      }
    }
  }
}
