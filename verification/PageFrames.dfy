/**
 The page-frame allocator of src/mm/mm.c: one reference count per physical frame and, per memory
 area, the number of free frames (`fpp`) and a hint (`nfpa`) to the lowest of them.

 Addresses are frame numbers (a physical address shifted right by 12): the source keeps every area
 bound and every page address page-aligned. `halt()` is modelled by returning `None`.
 */
module PageFrames {
  import opened Common

  /** An entry of the reference table; 255 marks a frame the allocator does not own. */
  type Count = c: nat | c <= 255

  /** A 64-bit word, split into bits 12 and up (a frame number in page-table entries) and bits 0-11. */
  datatype Word = Word(frame: nat, flags: nat)

  /** The contents of one frame: 512 words. */
  type Page = s: seq<Word> | |s| == 512 witness ZERO_PAGE

  const ZERO_PAGE: seq<Word> := seq(512, _ => Word(0, 0))

  /** PHYSIC_AREA_ITEM: frames [spa, epa), the number of free ones, and the lowest free one. */
  datatype Area = Area(spa: nat, epa: nat, fpp: nat, nfpa: nat)

  /** The number of frames of [lo, hi) whose reference count is zero. */
  ghost function FreeIn(mrt: seq<Count>, lo: nat, hi: nat): (n: nat)
    requires lo <= hi <= |mrt|
  {
    if lo == hi then 0 else FreeIn(mrt, lo, hi - 1) + if mrt[hi - 1] == 0 then 1 else 0
  }

  ghost predicate LowestFree(mrt: seq<Count>, lo: nat, hi: nat, p: nat)
    requires lo <= hi <= |mrt|
  {
    lo <= p < hi && mrt[p] == 0 && forall j :: lo <= j < p ==> mrt[j] != 0
  }

  /** n consecutive free frames starting at s. */
  ghost predicate Run(mrt: seq<Count>, s: int, n: nat) {
    0 <= s && s + n <= |mrt| && forall k :: s <= k < s + n ==> mrt[k] == 0
  }

  ghost predicate AreaOk(mrt: seq<Count>, a: Area) {
    && a.spa <= a.epa <= |mrt|
    && a.fpp == FreeIn(mrt, a.spa, a.epa)
    && (a.fpp > 0 ==> LowestFree(mrt, a.spa, a.epa, a.nfpa))
  }

  predicate Inside(a: Area, p: int) {
    a.spa <= p < a.epa
  }

  /** What every allocator operation keeps. Frame 0 and the frames outside the areas are reserved. */
  ghost predicate FramesOk(mrt: seq<Count>, areas: seq<Area>) {
    && |mrt| > 0 && mrt[0] == 255
    && (forall i :: 0 <= i < |areas| ==> AreaOk(mrt, areas[i]))
    && (forall p :: 0 <= p < |mrt| && !Owned(areas, p) ==> mrt[p] == 255)
    && (forall i, j :: 0 <= i < j < |areas| ==> areas[i].epa <= areas[j].spa || areas[j].epa <= areas[i].spa)
  }

  ghost predicate SameBounds(a: seq<Area>, b: seq<Area>) {
    |a| == |b| && forall i :: 0 <= i < |a| ==> a[i].spa == b[i].spa && a[i].epa == b[i].epa
  }

  /** The area list after frame p changed from free to used or back: only p's own area differs. */
  ghost predicate OnlyAreaOf(p: nat, a: seq<Area>, b: seq<Area>) {
    SameBounds(a, b) && forall i :: 0 <= i < |a| && !Inside(b[i], p) ==> a[i] == b[i]
  }

  ghost predicate Owned(areas: seq<Area>, p: int) {
    exists i :: 0 <= i < |areas| && Inside(areas[i], p)
  }

  /** The free frames of all areas together. */
  ghost function FreeTotal(areas: seq<Area>): nat {
    if areas == [] then 0 else FreeTotal(areas[..|areas| - 1]) + areas[|areas| - 1].fpp
  }

  function SetRun(mrt: seq<Count>, s: nat, n: nat, v: Count): (r: seq<Count>)
    requires s + n <= |mrt|
  {
    mrt[..s] + seq(n, _ => v) + mrt[s + n..]
  }

  // ---- counting lemmas ----

  lemma {:induction false} FreeInSame(m: seq<Count>, m': seq<Count>, lo: nat, hi: nat)
    requires lo <= hi <= |m| && hi <= |m'|
    requires forall k :: lo <= k < hi ==> (m[k] == 0 <==> m'[k] == 0)
    ensures FreeIn(m, lo, hi) == FreeIn(m', lo, hi)
  {
    if lo < hi { FreeInSame(m, m', lo, hi - 1); }
  }

  lemma {:induction false} FreeInSplit(m: seq<Count>, lo: nat, mid: nat, hi: nat)
    requires lo <= mid <= hi <= |m|
    ensures FreeIn(m, lo, hi) == FreeIn(m, lo, mid) + FreeIn(m, mid, hi)
  {
    if mid < hi { FreeInSplit(m, lo, mid, hi - 1); }
  }

  lemma {:induction false} FreeInZero(m: seq<Count>, lo: nat, hi: nat)
    requires lo <= hi <= |m|
    ensures FreeIn(m, lo, hi) == 0 <==> forall k :: lo <= k < hi ==> m[k] != 0
  {
    if lo < hi { FreeInZero(m, lo, hi - 1); }
  }

  lemma {:induction false} FreeInRun(m: seq<Count>, lo: nat, hi: nat)
    requires lo <= hi <= |m| && forall k :: lo <= k < hi ==> m[k] == 0
    ensures FreeIn(m, lo, hi) == hi - lo
  {
    if lo < hi { FreeInRun(m, lo, hi - 1); }
  }

  /** Changing the freeness of [s, s + n) inside [lo, hi) changes the count by n. */
  lemma FreeInTake(m: seq<Count>, m': seq<Count>, lo: nat, hi: nat, s: nat, n: nat)
    requires |m| == |m'| && lo <= s && s + n <= hi <= |m|
    requires forall k :: s <= k < s + n ==> m[k] == 0 && m'[k] != 0
    requires forall k :: lo <= k < hi && !(s <= k < s + n) ==> (m[k] == 0 <==> m'[k] == 0)
    ensures FreeIn(m, lo, hi) == FreeIn(m', lo, hi) + n
  {
    FreeInSplit(m, lo, s, hi);
    FreeInSplit(m, s, s + n, hi);
    FreeInSplit(m', lo, s, hi);
    FreeInSplit(m', s, s + n, hi);
    FreeInSame(m, m', lo, s);
    FreeInSame(m, m', s + n, hi);
    FreeInRun(m, s, s + n);
    FreeInZero(m', s, s + n);
  }

  lemma {:induction false} FreeTotalUpdate(areas: seq<Area>, i: nat, a: Area)
    requires i < |areas|
    ensures FreeTotal(areas[i := a]) == FreeTotal(areas) - areas[i].fpp + a.fpp
  {
    var n := |areas| - 1;
    if i < n {
      FreeTotalUpdate(areas[..n], i, a);
      assert areas[i := a][..n] == areas[..n][i := a];
    } else {
      assert areas[i := a][..n] == areas[..n];
    }
  }

  lemma {:induction false} FreeTotalZero(areas: seq<Area>)
    ensures FreeTotal(areas) == 0 <==> forall i :: 0 <= i < |areas| ==> areas[i].fpp == 0
  {
    if areas != [] { FreeTotalZero(areas[..|areas| - 1]); }
  }

  /** An area disjoint from the frames that changed stays as it was. */
  lemma AreaKept(m: seq<Count>, m': seq<Count>, a: Area)
    requires |m| == |m'| && AreaOk(m, a)
    requires forall k :: Inside(a, k) ==> m[k] == m'[k]
    ensures AreaOk(m', a)
  {
    FreeInSame(m, m', a.spa, a.epa);
  }

  lemma AreaSound(m: seq<Count>, areas: seq<Area>, i: nat)
    requires FramesOk(m, areas) && i < |areas|
    ensures |m| > 0 && m[0] == 255 && AreaOk(m, areas[i])
  {
  }

  /** A frame that is not reserved lies in exactly one area. */
  lemma FrameOwned(m: seq<Count>, areas: seq<Area>, p: nat)
    requires FramesOk(m, areas) && p < |m| && m[p] != 255
    ensures p > 0 && Owned(areas, p)
    ensures forall i, j :: 0 <= i < |areas| && 0 <= j < |areas| && Inside(areas[i], p) && Inside(areas[j], p) ==> i == j
  {
  }

  /** Changing counts without changing which frames are free keeps the bookkeeping sound. */
  lemma SameFrees(m: seq<Count>, m': seq<Count>, areas: seq<Area>)
    requires FramesOk(m, areas) && |m'| == |m|
    requires forall k :: 0 <= k < |m| ==> (m'[k] == 0 <==> m[k] == 0) && (m[k] == 255 ==> m'[k] == 255)
    ensures FramesOk(m', areas)
  {
    forall i | 0 <= i < |areas| ensures AreaOk(m', areas[i]) {
      assert AreaOk(m, areas[i]);
      FreeInSame(m, m', areas[i].spa, areas[i].epa);
    }
  }

  /** Changes confined to the i-th area leave the others as they were, so a sound i-th area suffices. */
  lemma AreaReplaced(m: seq<Count>, m': seq<Count>, areas: seq<Area>, i: nat, a: Area)
    requires FramesOk(m, areas) && i < |areas| && |m'| == |m| && m'[0] == 255
    requires forall k :: 0 <= k < |m| && !Inside(areas[i], k) ==> m'[k] == m[k]
    requires AreaOk(m', a) && a.spa == areas[i].spa && a.epa == areas[i].epa
    ensures FramesOk(m', areas[i := a])
  {
    var after := areas[i := a];
    forall p | 0 <= p < |m'| && m'[p] != 255 ensures Owned(after, p) {
      if Inside(a, p) {
        assert Inside(after[i], p);
      } else {
        assert Owned(areas, p);
        var k :| 0 <= k < |areas| && Inside(areas[k], p);
        assert Inside(after[k], p);
      }
    }
    forall k | 0 <= k < |after| ensures AreaOk(m', after[k]) {
      if k != i {
        assert AreaOk(m, areas[k]) && AreaOk(m, areas[i]);
        AreaKept(m, m', areas[k]);
      }
    }
  }

  /**
   The reference counts determine the bookkeeping: equal tables and equal bounds mean equal free
   counts, and equal hints wherever there is a free frame at all.
   */
  lemma CountsDetermineAreas(m: seq<Count>, a: seq<Area>, b: seq<Area>)
    requires FramesOk(m, a) && FramesOk(m, b) && SameBounds(a, b)
    ensures forall i :: 0 <= i < |a| ==> a[i].fpp == b[i].fpp && (a[i].fpp > 0 ==> a[i] == b[i])
  {
    forall i | 0 <= i < |a|
      ensures a[i].fpp == b[i].fpp && (a[i].fpp > 0 ==> a[i] == b[i])
    {
      assert AreaOk(m, a[i]) && AreaOk(m, b[i]);
    }
  }

  /** An area of the memory map without the frames below `first`; one that lies below it has nothing free. */
  function Clipped(b: (nat, nat), first: nat): (a: Area)
    requires b.0 <= b.1
  {
    if b.1 <= first then Area(b.0, b.1, 0, b.0)
    else if b.0 < first then Area(first, b.1, b.1 - first, first)
    else Area(b.0, b.1, b.1 - b.0, b.0)
  }

  lemma ClippedShape(b: (nat, nat), first: nat)
    requires b.0 <= b.1
    ensures var a := Clipped(b, first);
            && b.0 <= a.spa <= a.epa == b.1
            && if a.fpp > 0 then first <= a.spa == a.nfpa && a.fpp == a.epa - a.spa else a.spa == a.epa || a.epa <= first
  {
  }

  lemma {:induction false} FreeInNone(mrt: seq<Count>, lo: nat, hi: nat)
    requires lo <= hi <= |mrt| && forall p :: lo <= p < hi ==> mrt[p] != 0
    ensures FreeIn(mrt, lo, hi) == 0
    decreases hi - lo
  {
    if lo < hi { FreeInNone(mrt, lo, hi - 1); }
  }

  class PhysicalMemory {
    /** _mrt_start: the reference table, one entry per frame below `hpa`. */
    const mrt: array<Count>
    /** pais[0 .. npai) */
    var areas: seq<Area>
    /** The contents of the frames. */
    var mem: seq<Page>

    ghost predicate Valid()
      reads this, mrt
    {
      FramesOk(mrt[..], areas) && |mem| == mrt.Length
    }

    /**
     set_mrt_table: frames below `first`, where the kernel and this table lie, and frames outside the areas of
     the memory map are reserved; all others are free.
     */
    constructor (frames: nat, bounds: seq<(nat, nat)>, first: nat)
      requires frames > 0 && first > 0
      requires forall i :: 0 <= i < |bounds| ==> bounds[i].0 <= bounds[i].1 <= frames
      requires forall i, j :: 0 <= i < j < |bounds| ==> bounds[i].1 <= bounds[j].0
      ensures Valid() && fresh(mrt) && mrt.Length == frames && |areas| == |bounds|
      ensures forall i :: 0 <= i < |areas| ==> areas[i] == Clipped(bounds[i], first)
      ensures forall p :: 0 <= p < frames ==> mrt[p] == if p >= first && Owned(areas, p) then 0 else 255
    {
      var table: array<Count> := new Count[frames](_ => 255);
      var list: seq<Area> := [];
      for i := 0 to |bounds|
        invariant |list| == i && forall k :: 0 <= k < i ==> list[k] == Clipped(bounds[k], first)
        invariant forall p :: 0 <= p < frames ==> table[p] == if p >= first && Owned(list, p) then 0 else 255
      {
        var a := Clipped(bounds[i], first);
        ghost var before := list;
        ghost var was := table[..];
        if a.fpp > 0 {
          for p := a.spa to a.epa
            invariant forall q :: 0 <= q < frames ==> table[q] == if a.spa <= q < p then 0 else was[q]
          {
            table[p] := 0;
          }
        }
        list := list + [a];
        forall p | 0 <= p < frames
          ensures Owned(list, p) <==> Owned(before, p) || Inside(a, p)
        {
          if Owned(before, p) {
            var k :| 0 <= k < |before| && Inside(before[k], p);
            assert Inside(list[k], p);
          }
          if Inside(a, p) { assert Inside(list[i], p); }
        }
      }
      mrt := table;
      areas := list;
      mem := seq(frames, _ => ZERO_PAGE);
      new;
      forall i | 0 <= i < |areas| ensures AreaOk(mrt[..], areas[i]) {
        ClippedShape(bounds[i], first);
        if areas[i].fpp > 0 {
          forall k: nat | Inside(areas[i], k) ensures mrt[k] == 0 { assert Owned(areas, k); }
          FreeInRun(mrt[..], areas[i].spa, areas[i].epa);
        } else {
          FreeInNone(mrt[..], areas[i].spa, areas[i].epa);
        }
      }
    }

    /** alloc_page_4k: the hinted frame of the first area that has a free one; halts when none has. */
    method AllocPage() returns (r: Option<nat>)
      requires Valid()
      modifies this`areas, mrt
      ensures Valid()
      ensures r.None? <==> FreeTotal(old(areas)) == 0
      ensures r.None? ==> areas == old(areas) && mrt[..] == old(mrt[..])
      ensures r.Some? ==>
                && r.value < mrt.Length && old(mrt[..])[r.value] == 0
                && mrt[..] == old(mrt[..])[r.value := 1]
                && OnlyAreaOf(r.value, areas, old(areas)) && FreeTotal(areas) == FreeTotal(old(areas)) - 1
                && exists i :: FirstFree(old(mrt[..]), old(areas), i, r.value)
    {
      hide FramesOk;
      FreeTotalZero(areas);
      for i := 0 to |areas|
        invariant areas == old(areas) && mrt[..] == old(mrt[..])
        invariant forall k :: 0 <= k < i ==> areas[k].fpp == 0
      {
        if areas[i].fpp > 0 {
          AreaSound(mrt[..], areas, i);
          var ret := TakeHinted(i);
          assert FirstFree(old(mrt[..]), old(areas), i, ret);
          return Some(ret);
        }
      }
      r := None;
    }

    /** The taking part of alloc_page_4k: count the hinted frame, lower `fpp`, move the hint. */
    method TakeHinted(i: nat) returns (ret: nat)
      requires Valid() && i < |areas| && areas[i].fpp > 0
      modifies this`areas, mrt
      ensures Valid() && SameBounds(areas, old(areas)) && FreeTotal(areas) == FreeTotal(old(areas)) - 1
      ensures LowestFree(old(mrt[..]), areas[i].spa, areas[i].epa, ret) && mrt[..] == old(mrt[..])[ret := 1]
      ensures forall k :: 0 <= k < |areas| && k != i ==> areas[k] == old(areas)[k]
    {
      hide FramesOk;
      ghost var was, before := mrt[..], areas;
      AreaSound(was, areas, i);
      ret := areas[i].nfpa;
      mrt[ret] := mrt[ret] + 1;
      FreeInTake(was, mrt[..], areas[i].spa, areas[i].epa, ret, 1);
      areas := areas[i := areas[i].(fpp := areas[i].fpp - 1)];
      if areas[i].fpp > 0 {
        var j := LowestFrom(areas[i], ret);
        areas := areas[i := areas[i].(nfpa := j)];
      }
      assert areas == before[i := areas[i]] && mrt[..] == was[ret := 1];
      AreaReplaced(was, mrt[..], before, i, areas[i]);
      FreeTotalUpdate(before, i, areas[i]);
    }

    /** The hint search at the end of both allocators; the source halts where it runs off the area. */
    method LowestFrom(a: Area, from: nat) returns (p: nat)
      requires a.spa <= from <= a.epa <= mrt.Length && FreeIn(mrt[..], a.spa, a.epa) > 0
      requires forall k :: a.spa <= k < from ==> mrt[k] != 0
      ensures LowestFree(mrt[..], a.spa, a.epa, p)
    {
      for j := from to a.epa
        invariant forall k :: a.spa <= k < j ==> mrt[k] != 0
      {
        if mrt[j] == 0 { return j; }
      }
      FreeInZero(mrt[..], a.spa, a.epa);
      assert false;
    }

    /** __alloc_n_pages_4k_locked: first fit over the areas; frame 0 stands for failure. */
    method AllocN(n: nat) returns (r: nat)
      requires Valid()
      modifies this`areas, mrt
      ensures Valid() && SameBounds(areas, old(areas))
      ensures r == 0 <==> n == 0 || forall i, s :: 0 <= i < |old(areas)| ==> !RunInArea(old(mrt[..]), old(areas)[i], s, n)
      ensures r == 0 ==> areas == old(areas) && mrt[..] == old(mrt[..])
      ensures r != 0 ==>
                && Run(old(mrt[..]), r, n) && mrt[..] == SetRun(old(mrt[..]), r, n, 1)
                && exists i :: FirstRun(old(mrt[..]), old(areas), i, r, n)
                               && forall k :: 0 <= k < |areas| && k != i ==> areas[k] == old(areas)[k]
    {
      hide FramesOk;
      if n == 0 { return 0; }
      ghost var was, before := mrt[..], areas;
      for i := 0 to |areas|
        invariant areas == before && mrt[..] == was
        invariant forall k, s :: 0 <= k < i ==> !RunInArea(was, before[k], s, n)
      {
        AreaSound(was, areas, i);
        if areas[i].fpp >= n {
          var found := FindRun(areas[i], n);
          if found.Some? {
            assert FirstRun(was, before, i, found.value, n);
            RunNotZero(was, before, i, found.value, n);
            TakeRun(i, found.value, n);
            return found.value;
          }
        } else {
          NoRunWithoutRoom(was, before[i], n);
        }
      }
      r := 0;
    }

    /** The scan of one area for n consecutive free frames, from the hint on. */
    method FindRun(a: Area, n: nat) returns (found: Option<nat>)
      requires n > 0 && AreaOk(mrt[..], a) && a.fpp > 0
      ensures found.None? ==> forall s :: !RunInArea(mrt[..], a, s, n)
      ensures found.Some? ==>
                RunInArea(mrt[..], a, found.value, n) && forall s :: s < found.value ==> !RunInArea(mrt[..], a, s, n)
    {
      hide FreeIn;
      var m := 0;
      var ret := 0;
      forall s | a.spa <= s && s + n <= a.nfpa ensures !Run(mrt[..], s, n) { assert mrt[s] != 0; }
      for j := a.nfpa to a.epa
        invariant m < n && m <= j - a.nfpa && (m > 0 ==> ret == j - m)
        invariant forall k :: j - m <= k < j ==> mrt[k] == 0
        invariant j - m > a.spa ==> mrt[j - m - 1] != 0
        invariant forall s :: a.spa <= s && s + n <= j ==> !Run(mrt[..], s, n)
      {
        if mrt[j] == 0 {
          if m == 0 { ret := j; }
          m := m + 1;
          if m == n {
            assert RunInArea(mrt[..], a, ret, n);
            return Some(ret);
          }
          forall s | a.spa <= s && s + n <= j + 1 ensures !Run(mrt[..], s, n) {
            if s + n == j + 1 { assert mrt[j + 1 - m - 1] != 0; }
          }
        } else {
          m := 0;
        }
      }
      found := None;
    }

    /** The taking part of alloc_n: mark the run, lower the count, move the hint. */
    method TakeRun(i: nat, s: nat, n: nat)
      requires Valid() && i < |areas| && n > 0 && RunInArea(mrt[..], areas[i], s, n)
      modifies this`areas, mrt
      ensures Valid() && SameBounds(areas, old(areas)) && mrt[..] == SetRun(old(mrt[..]), s, n, 1)
      ensures forall k :: 0 <= k < |areas| && k != i ==> areas[k] == old(areas)[k]
    {
      hide FramesOk;
      ghost var was, before := mrt[..], areas;
      AreaSound(was, areas, i);
      for k := 0 to n
        invariant areas == before
        invariant forall q :: 0 <= q < mrt.Length ==> mrt[q] == if s <= q < s + k then 1 else was[q]
      {
        mrt[s + k] := 1;
      }
      FreeInTake(was, mrt[..], areas[i].spa, areas[i].epa, s, n);
      areas := areas[i := areas[i].(fpp := areas[i].fpp - n)];
      if areas[i].fpp > 0 {
        var k := LowestFrom(areas[i], areas[i].nfpa);
        areas := areas[i := areas[i].(nfpa := k)];
      }
      assert areas == before[i := areas[i]];
      AreaReplaced(was, mrt[..], before, i, areas[i]);
    }

    /** decrease_reference_page_4k: halts on a frame it must not release. */
    method DecRef(p: nat) returns (r: Option<Count>)
      requires Valid()
      modifies this`areas, mrt
      ensures r.None? <==> !Releasable(old(mrt[..]), p)
      ensures r.Some? ==>
                && Valid() && mrt[..] == old(mrt[..])[p := old(mrt[..])[p] - 1] && r.value == mrt[p]
                && (r.value > 0 ==> areas == old(areas)) && OnlyAreaOf(p, areas, old(areas))
    {
      hide FramesOk;
      if p >= mrt.Length { return None; }
      if mrt[p] == 255 || mrt[p] == 0 { return None; }
      ghost var was, before := mrt[..], areas;
      mrt[p] := mrt[p] - 1;
      ghost var now := mrt[..];
      assert now == was[p := was[p] - 1];
      FrameOwned(was, before, p);
      if mrt[p] == 0 {
        for i := 0 to |areas|
          invariant areas == before && mrt[..] == now
          invariant forall k :: 0 <= k < i ==> !Inside(areas[k], p)
        {
          if Inside(areas[i], p) {
            AreaSound(was, before, i);
            ReleasedArea(was, now, before[i], p);
            var hint := if areas[i].fpp == 0 || p < areas[i].nfpa then p else areas[i].nfpa;
            areas := areas[i := areas[i].(nfpa := hint, fpp := areas[i].fpp + 1)];
            AreaReplaced(was, now, before, i, areas[i]);
            return Some(0);
          }
        }
        // The source halts here; a frame outside every area is reserved, so it is never released.
        assert false;
      } else {
        SameFrees(was, now, before);
        r := Some(mrt[p]);
      }
    }

    /** add_reference_page_4k: 1 when the count is saturated, 0 when it was raised. */
    method AddRef(p: nat) returns (r: Option<nat>)
      requires Valid() && p < mrt.Length
      modifies mrt
      ensures Valid()
      ensures r.None? <==> old(mrt[p]) == 0 || old(mrt[p]) == 255
      ensures r.Some? ==> r.value == if old(mrt[p]) == 254 then 1 else 0
      ensures mrt[..] == if r == Some(0) then old(mrt[..])[p := old(mrt[p]) + 1] else old(mrt[..])
    {
      hide FramesOk;
      ghost var was := mrt[..];
      if mrt[p] == 255 || mrt[p] == 0 {
        r := None;
      } else if mrt[p] == 254 {
        r := Some(1);
      } else {
        mrt[p] := mrt[p] + 1;
        r := Some(0);
        SameFrees(was, mrt[..], areas);
      }
    }

    /** free_n_pages_4k: releases n frames one by one; the result tells whether it halted. */
    method FreeN(n: nat, p: nat) returns (halted: bool)
      requires Valid()
      modifies this`areas, mrt
      ensures halted <==> exists k :: p <= k < p + n && !Releasable(old(mrt[..]), k)
      ensures !halted ==> Valid() && SameBounds(areas, old(areas))
      ensures !halted ==> forall k :: 0 <= k < mrt.Length ==>
                mrt[k] as int == old(mrt[..])[k] as int - if p <= k < p + n then 1 else 0
      ensures !halted ==> forall i :: 0 <= i < |areas| && (forall k :: p <= k < p + n ==> !Inside(areas[i], k)) ==>
                areas[i] == old(areas)[i]
    {
      hide FramesOk;
      ghost var was, before := mrt[..], areas;
      for i := 0 to n
        invariant Valid() && SameBounds(areas, before)
        invariant forall k :: p <= k < p + i ==> Releasable(was, k)
        invariant forall k :: 0 <= k < mrt.Length ==> mrt[k] as int == was[k] as int - if p <= k < p + i then 1 else 0
        invariant forall j :: 0 <= j < |areas| && (forall k :: p <= k < p + i ==> !Inside(areas[j], k)) ==> areas[j] == before[j]
      {
        ghost var mid := areas;
        var r := DecRef(p + i);
        if r.None? {
          assert !Releasable(was, p + i);
          return true;
        }
        assert forall j :: 0 <= j < |areas| ==> (Inside(areas[j], p + i) <==> Inside(mid[j], p + i));
      }
      halted := false;
    }

    /** free_n_pages_4k after __alloc_n_pages_4k_locked restores the whole allocator state. */
    method AllocThenFree(n: nat) returns (r: nat)
      requires Valid()
      modifies this`areas, mrt
      ensures Valid() && areas == old(areas) && mrt[..] == old(mrt[..])
    {
      hide FramesOk;
      ghost var was, before := mrt[..], areas;
      r := AllocN(n);
      if r != 0 {
        ghost var i :| FirstRun(was, before, i, r, n)
                       && forall k :: 0 <= k < |areas| && k != i ==> areas[k] == before[k];
        ghost var mid := areas;
        var halted := FreeN(n, r);
        forall k | 0 <= k < |areas| && k != i ensures areas[k] == mid[k] {
          forall q | r <= q < r + n ensures !Inside(areas[k], q) {
            FrameOwned(was, before, q);
            assert Inside(before[i], q) && (Inside(areas[k], q) <==> Inside(before[k], q));
          }
        }
        assert mrt[..] == was;
        SameAreas(was, before, areas, i, r);
      }
    }
  }

  lemma SameAreas(m: seq<Count>, a: seq<Area>, b: seq<Area>, i: nat, p: nat)
    requires FramesOk(m, a) && FramesOk(m, b) && SameBounds(a, b) && i < |a|
    requires forall k :: 0 <= k < |a| && k != i ==> a[k] == b[k]
    requires Inside(a[i], p) && p < |m| && m[p] == 0
    ensures a == b
  {
    assert AreaOk(m, a[i]);
    FreeInZero(m, a[i].spa, a[i].epa);
    CountsDetermineAreas(m, a, b);
  }

  /** One frame of an area becomes free: the count rises and the hint is the lower of the two. */
  lemma ReleasedArea(m: seq<Count>, m': seq<Count>, a: Area, p: nat)
    requires AreaOk(m, a) && Inside(a, p) && m[p] != 0 && m' == m[p := 0]
    ensures AreaOk(m', a.(nfpa := if a.fpp == 0 || p < a.nfpa then p else a.nfpa, fpp := a.fpp + 1))
  {
    FreeInTake(m', m, a.spa, a.epa, p, 1);
    FreeInZero(m, a.spa, a.epa);
  }

  /** decrease_reference_page_4k does not halt: a counted frame that is not reserved. */
  predicate Releasable(mrt: seq<Count>, p: nat) {
    p < |mrt| && 0 < mrt[p] < 255
  }

  ghost predicate FirstFree(mrt: seq<Count>, areas: seq<Area>, i: int, p: nat) {
    && 0 <= i < |areas| && areas[i].spa <= areas[i].epa <= |mrt|
    && (forall k :: 0 <= k < i ==> areas[k].fpp == 0)
    && LowestFree(mrt, areas[i].spa, areas[i].epa, p)
  }

  ghost predicate RunInArea(mrt: seq<Count>, a: Area, s: int, n: nat) {
    a.spa <= s && s + n <= a.epa && Run(mrt, s, n)
  }

  /** The lowest run of the first area that has one. */
  ghost predicate FirstRun(mrt: seq<Count>, areas: seq<Area>, i: int, s: nat, n: nat) {
    && 0 <= i < |areas| && RunInArea(mrt, areas[i], s, n)
    && (forall k, t :: 0 <= k < i ==> !RunInArea(mrt, areas[k], t, n))
    && (forall t :: t < s ==> !RunInArea(mrt, areas[i], t, n))
  }

  /** A run never starts at frame 0, so 0 can stand for failure. */
  lemma RunNotZero(m: seq<Count>, areas: seq<Area>, i: nat, s: nat, n: nat)
    requires FramesOk(m, areas) && i < |areas| && n > 0 && RunInArea(m, areas[i], s, n)
    ensures s != 0
  {
    assert m[s] == 0;
  }

  lemma NoRunWithoutRoom(m: seq<Count>, a: Area, n: nat)
    requires AreaOk(m, a) && a.fpp < n
    ensures forall s :: !RunInArea(m, a, s, n)
  {
    forall s ensures !RunInArea(m, a, s, n) {
      if RunInArea(m, a, s, n) {
        FreeInSplit(m, a.spa, s, a.epa);
        FreeInSplit(m, s, s + n, a.epa);
        FreeInRun(m, s, s + n);
      }
    }
  }
}
