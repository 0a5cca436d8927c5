/**
 Copying and freeing a user address space (src/mm/mm.c): copy_pagetable_and_mem duplicates every
 user table and page of the parent into fresh frames, free_ptable_and_mem gives them all back.
 Tables of level 0 are PML4s, of level 3 the last-level tables that point to the pages.
 A 4096-byte kmalloc is alloc_page_4k and its kfree is decrease_reference_page_4k.
 */
module Fork {
  import opened Common
  import opened PageFrames
  import opened PageTables

  /** The frames referred to by the first k entries of table t, and everything below them. */
  ghost function Below(mem: seq<Page>, t: nat, level: nat, k: nat): set<nat>
    requires t < |mem| && level <= 3 && k <= 512
    decreases 3 - level, k
  {
    if k == 0 then {} else
    var w := mem[t][k - 1];
    Below(mem, t, level, k - 1)
    + if !Present(w) then {} else
      {w.frame} + if level < 3 && w.frame < |mem| then Below(mem, w.frame, level + 1, 512) else {}
  }

  /** The first k entries span a tree: no frame is referred to twice. */
  ghost predicate Distinct(mem: seq<Page>, t: nat, level: nat, k: nat)
    requires t < |mem| && level <= 3 && k <= 512
    decreases 3 - level, k
  {
    k == 0 ||
    var w := mem[t][k - 1];
    && Distinct(mem, t, level, k - 1)
    && (Present(w) ==>
          && w.frame < |mem| && w.frame !in Below(mem, t, level, k - 1)
          && (level < 3 ==>
                && Distinct(mem, w.frame, level + 1, 512) && w.frame !in Below(mem, w.frame, level + 1, 512)
                && Below(mem, w.frame, level + 1, 512) !! Below(mem, t, level, k - 1)))
  }

  /** The first k entries of d copy those of s: same shape, same flags, same page contents. */
  ghost predicate Clone(mem: seq<Page>, s: nat, d: nat, level: nat, k: nat)
    requires s < |mem| && d < |mem| && level <= 3 && k <= 512
    decreases 3 - level, k
  {
    k == 0 ||
    var w, v := mem[s][k - 1], mem[d][k - 1];
    && Clone(mem, s, d, level, k - 1)
    && (Present(v) <==> Present(w))
    && (Present(w) ==>
          && v.flags == w.flags && !Big(w) && w.frame < |mem| && v.frame < |mem|
          && if level == 3 then mem[v.frame] == mem[w.frame]
             else Clone(mem, w.frame, v.frame, level + 1, 512))
  }

  /** The number of frames a copy of the first k entries takes. */
  ghost function Need(mem: seq<Page>, t: nat, level: nat, k: nat): nat
    requires t < |mem| && level <= 3 && k <= 512
    decreases 3 - level, k
  {
    if k == 0 then 0 else
    var w := mem[t][k - 1];
    Need(mem, t, level, k - 1)
    + if !Present(w) then 0 else 1 + if level < 3 && w.frame < |mem| then Need(mem, w.frame, level + 1, 512) else 0
  }

  /** Some present entry carries the large-page bit, at any level. */
  ghost predicate BigIn(mem: seq<Page>, t: nat, level: nat, k: nat)
    requires t < |mem| && level <= 3 && k <= 512
    decreases 3 - level, k
  {
    k > 0 &&
    var w := mem[t][k - 1];
    || BigIn(mem, t, level, k - 1)
    || (Present(w) && (Big(w) || (level < 3 && w.frame < |mem| && BigIn(mem, w.frame, level + 1, 512))))
  }

  /** Every frame below the first k entries is an allocated frame. */
  ghost predicate Live(mem: seq<Page>, mrt: seq<Count>, t: nat, level: nat, k: nat)
    requires t < |mem| && level <= 3 && k <= 512
  {
    |mem| == |mrt| && forall f :: f in Below(mem, t, level, k) ==> f < |mem| && mrt[f] != 0
  }

  /** The frames that were free before and are not any more. */
  ghost function Taken(mrt: seq<Count>, mrt': seq<Count>): set<nat>
    requires |mrt'| == |mrt|
  {
    set f: nat | f < |mrt| && mrt[f] == 0 && mrt'[f] != 0
  }

  // ---- reading the definitions ----

  lemma {:induction false} BelowMonotone(mem: seq<Page>, t: nat, level: nat, j: nat, k: nat)
    requires t < |mem| && level <= 3 && j <= k <= 512
    ensures Below(mem, t, level, j) <= Below(mem, t, level, k)
  {
    if j < k { BelowMonotone(mem, t, level, j, k - 1); }
  }

  /** An entry's own frame, and everything below that frame, is below the table. */
  lemma BelowEntry(mem: seq<Page>, t: nat, level: nat, k: nat, i: nat)
    requires t < |mem| && level <= 3 && i < k <= 512 && Present(mem[t][i])
    ensures mem[t][i].frame in Below(mem, t, level, k)
    ensures level < 3 && mem[t][i].frame < |mem| ==>
              Below(mem, mem[t][i].frame, level + 1, 512) <= Below(mem, t, level, k)
  {
    BelowMonotone(mem, t, level, i + 1, k);
  }

  /** Below, Distinct, Clone, Need and BigIn only depend on the tables they mention. */
  lemma {:induction false} BelowFrame(m: seq<Page>, m': seq<Page>, t: nat, level: nat, k: nat)
    requires t < |m| == |m'| && level <= 3 && k <= 512
    requires forall e :: 0 <= e < k ==> m'[t][e] == m[t][e]
    requires forall f :: f in Below(m, t, level, k) && f < |m| ==> m'[f] == m[f]
    ensures Below(m', t, level, k) == Below(m, t, level, k)
    ensures Distinct(m', t, level, k) == Distinct(m, t, level, k)
    ensures Need(m', t, level, k) == Need(m, t, level, k) && BigIn(m', t, level, k) == BigIn(m, t, level, k)
    decreases 3 - level, k
  {
    if k > 0 {
      BelowFrame(m, m', t, level, k - 1);
      var w := m[t][k - 1];
      if Present(w) && level < 3 && w.frame < |m| {
        BelowFrame(m, m', w.frame, level + 1, 512);
      }
    }
  }

  lemma {:induction false} CloneFrame(m: seq<Page>, m': seq<Page>, s: nat, d: nat, level: nat, k: nat)
    requires s < |m| == |m'| && d < |m| && level <= 3 && k <= 512 && Clone(m, s, d, level, k)
    requires forall e :: 0 <= e < k ==> m'[s][e] == m[s][e] && m'[d][e] == m[d][e]
    requires forall f :: (f in Below(m, s, level, k) || f in Below(m, d, level, k)) && f < |m| ==> m'[f] == m[f]
    ensures Clone(m', s, d, level, k)
    decreases 3 - level, k
  {
    if k > 0 {
      CloneFrame(m, m', s, d, level, k - 1);
      var w, v := m[s][k - 1], m[d][k - 1];
      if Present(w) && level < 3 {
        CloneFrame(m, m', w.frame, v.frame, level + 1, 512);
      }
    }
  }

  /** A clone maps exactly the same pages, with the same flags, rights and contents. */
  lemma {:induction false} CloneWalk(mem: seq<Page>, s: nat, d: nat, level: nat, k: nat, idx: seq<nat>)
    requires s < |mem| && d < |mem| && level <= 3 && k <= 512 && Clone(mem, s, d, level, k)
    requires Index(idx) && idx[level] < k
    ensures var a, b := WalkFrom(mem, s, idx, level), WalkFrom(mem, d, idx, level);
            && !a.Large? && !b.Large? && (a.Small? <==> b.Small?)
            && (a.Small? ==> && b.w.flags == a.w.flags && a.w.frame < |mem| && b.w.frame < |mem|
                             && mem[b.w.frame] == mem[a.w.frame])
    ensures RightsFrom(mem, d, idx, level) == RightsFrom(mem, s, idx, level)
    decreases 3 - level, k
  {
    if idx[level] < k - 1 {
      CloneWalk(mem, s, d, level, k - 1, idx);
    } else {
      var w, v := mem[s][k - 1], mem[d][k - 1];
      if Present(w) && level < 3 {
        CloneWalk(mem, w.frame, v.frame, level + 1, 512, idx);
      }
    }
  }

  /** The page a walk finds is below the table. */
  lemma {:induction false} WalkBelow(mem: seq<Page>, t: nat, level: nat, k: nat, idx: seq<nat>)
    requires t < |mem| && level <= 3 && k <= 512 && Index(idx) && idx[level] < k
    requires WalkFrom(mem, t, idx, level).Small?
    ensures WalkFrom(mem, t, idx, level).w.frame in Below(mem, t, level, k)
    decreases 3 - level
  {
    BelowEntry(mem, t, level, k, idx[level]);
    if level < 3 {
      WalkBelow(mem, mem[t][idx[level]].frame, level + 1, 512, idx);
    }
  }

  /** In a tree, different pages are mapped to different frames. */
  lemma {:induction false} DistinctWalk(mem: seq<Page>, t: nat, level: nat, k: nat, idx: seq<nat>, idx': seq<nat>)
    requires t < |mem| && level <= 3 && k <= 512 && Distinct(mem, t, level, k)
    requires Index(idx) && Index(idx') && idx[level] < k && idx'[level] < k && idx[..level] == idx'[..level]
             && idx != idx'
    requires WalkFrom(mem, t, idx, level).Small? && WalkFrom(mem, t, idx', level).Small?
    ensures WalkFrom(mem, t, idx, level).w.frame != WalkFrom(mem, t, idx', level).w.frame
    decreases 3 - level, k
  {
    assert idx == idx[..4] && idx' == idx'[..4];
    var i, j := idx[level], idx'[level];
    var w := mem[t][k - 1];
    if i < k - 1 && j < k - 1 {
      DistinctWalk(mem, t, level, k - 1, idx, idx');
    } else if i == j {
      assert idx[..level + 1] == idx'[..level + 1];
      if level < 3 {
        DistinctWalk(mem, w.frame, level + 1, 512, idx, idx');
      }
    } else if i == k - 1 {
      WalkBelow(mem, t, level, k - 1, idx');
      if level < 3 { WalkBelow(mem, w.frame, level + 1, 512, idx); }
    } else {
      WalkBelow(mem, t, level, k - 1, idx);
      if level < 3 { WalkBelow(mem, w.frame, level + 1, 512, idx'); }
    }
  }

  // ---- one entry at a time ----

  /** The source tree is live, the destination is an allocated table apart from it, still empty. */
  ghost predicate Ready(m: seq<Page>, c: seq<Count>, s: nat, d: nat, level: nat, n: nat) {
    && |m| == |c| && s < |m| && d < |m| && level <= 3 && n <= 512
    && Live(m, c, s, level, n) && c[s] != 0 && c[d] != 0 && s != d && d !in Below(m, s, level, n)
    && forall e :: 0 <= e < n ==> !Present(m[d][e])
  }

  /** What holds once the first k entries are copied. */
  ghost predicate Copied(m0: seq<Page>, c0: seq<Count>, m: seq<Page>, c: seq<Count>, s: nat, d: nat, level: nat,
                         k: nat) {
    && |m| == |c| == |m0| == |c0| && s < |m| && d < |m| && level <= 3 && k <= 512
    && OnlyTakes(c0, c) && (forall f :: 0 <= f < |c| && c0[f] == 0 ==> c[f] <= 1)
    && (forall f :: 0 <= f < |m| && c0[f] != 0 && f != d ==> m[f] == m0[f])
    && (forall e :: k <= e < 512 ==> m[d][e] == m0[d][e])
    && Below(m, d, level, k) == Taken(c0, c) && Distinct(m, d, level, k) && Clone(m, s, d, level, k)
  }

  lemma CopiedNone(m: seq<Page>, c: seq<Count>, s: nat, d: nat, level: nat)
    requires |m| == |c| && s < |m| && d < |m| && level <= 3
    ensures Copied(m, c, m, c, s, d, level, 0)
  {
  }

  /** Writing entry k of d and frames free so far leaves what is already copied alone. */
  lemma CopiedKept(m0: seq<Page>, c0: seq<Count>, m: seq<Page>, c: seq<Count>, m': seq<Page>, s: nat, d: nat,
                   level: nat, n: nat, k: nat)
    requires Ready(m0, c0, s, d, level, n) && k < n && Copied(m0, c0, m, c, s, d, level, k) && |m'| == |m|
    requires forall e :: 0 <= e < k ==> m'[d][e] == m[d][e]
    requires forall f :: 0 <= f < |m| && c[f] != 0 && f != d ==> m'[f] == m[f]
    ensures Below(m', d, level, k) == Taken(c0, c) && Distinct(m', d, level, k) && Clone(m', s, d, level, k)
  {
    assert forall f :: f in Taken(c0, c) ==> f != d && c[f] != 0;
    BelowFrame(m, m', d, level, k);
    SourceBelow(m0, c0, m, c, s, d, level, n, k);
    CloneFrame(m, m', s, d, level, k);
  }

  /** The source keeps its shape while it is being copied. */
  lemma SourceBelow(m0: seq<Page>, c0: seq<Count>, m: seq<Page>, c: seq<Count>, s: nat, d: nat, level: nat, n: nat,
                    k: nat)
    requires Ready(m0, c0, s, d, level, n) && k <= n && Copied(m0, c0, m, c, s, d, level, k)
    ensures Below(m, s, level, n) == Below(m0, s, level, n) && Below(m, s, level, k) <= Below(m0, s, level, n)
    ensures forall f :: f in Below(m0, s, level, n) ==> f < |m| && c[f] != 0 && f != d
  {
    BelowFrame(m0, m, s, level, n);
    BelowMonotone(m, s, level, k, n);
  }

  lemma StepAbsent(m0: seq<Page>, c0: seq<Count>, m: seq<Page>, c: seq<Count>, s: nat, d: nat, level: nat, n: nat,
                   k: nat)
    requires Ready(m0, c0, s, d, level, n) && k < n && Copied(m0, c0, m, c, s, d, level, k) && !Present(m[s][k])
    ensures Copied(m0, c0, m[d := m[d][k := Word(0, 0)]], c, s, d, level, k + 1)
  {
    var m' := m[d := m[d][k := Word(0, 0)]];
    CopiedKept(m0, c0, m, c, m', s, d, level, n, k);
  }

  lemma StepLeaf(m0: seq<Page>, c0: seq<Count>, m: seq<Page>, c: seq<Count>, s: nat, d: nat, n: nat, k: nat, new_: nat)
    requires Ready(m0, c0, s, d, 3, n) && k < n && Copied(m0, c0, m, c, s, d, 3, k)
    requires Present(m[s][k]) && !Big(m[s][k]) && new_ < |m| && c[new_] == 0
    ensures m[s][k].frame < |m|
    ensures var w := m[s][k];
            Copied(m0, c0, m[new_ := m[w.frame]][d := m[d][k := Word(new_, w.flags)]], c[new_ := 1], s, d, 3, k + 1)
  {
    var w := m[s][k];
    SourceBelow(m0, c0, m, c, s, d, 3, n, k);
    BelowEntry(m, s, 3, n, k);
    var m' := m[new_ := m[w.frame]][d := m[d][k := Word(new_, w.flags)]];
    var c' := c[new_ := 1];
    CopiedKept(m0, c0, m, c, m', s, d, 3, n, k);
    assert Taken(c0, c') == Taken(c0, c) + {new_};
    assert m'[d][k] == Word(new_, w.flags) && m'[s][k] == w;
  }

  /** The destination entry gets a new empty table; the recursive copy into it may start. */
  lemma StepDown(m0: seq<Page>, c0: seq<Count>, m: seq<Page>, c: seq<Count>, s: nat, d: nat, level: nat, n: nat,
                 k: nat, new_: nat)
    requires Ready(m0, c0, s, d, level, n) && k < n && level < 3 && Copied(m0, c0, m, c, s, d, level, k)
    requires Present(m[s][k]) && new_ < |m| && c[new_] == 0
    ensures m[s][k].frame < |m|
    ensures var w := m[s][k];
            var m' := m[new_ := ZERO_PAGE][d := m[d][k := Word(new_, w.flags)]];
            && Need(m', w.frame, level + 1, 512) == Need(m, w.frame, level + 1, 512)
            && BigIn(m', w.frame, level + 1, 512) == BigIn(m, w.frame, level + 1, 512)
    ensures var w := m[s][k];
            Ready(m[new_ := ZERO_PAGE][d := m[d][k := Word(new_, w.flags)]], c[new_ := 1], w.frame, new_, level + 1, 512)
  {
    var w := m[s][k];
    SourceBelow(m0, c0, m, c, s, d, level, n, k);
    BelowEntry(m, s, level, n, k);
    var m' := m[new_ := ZERO_PAGE][d := m[d][k := Word(new_, w.flags)]];
    BelowFrame(m, m', w.frame, level + 1, 512);
  }

  lemma StepTable(m0: seq<Page>, c0: seq<Count>, m: seq<Page>, c: seq<Count>, m2: seq<Page>, c2: seq<Count>,
                  s: nat, d: nat, level: nat, n: nat, k: nat, new_: nat)
    requires Ready(m0, c0, s, d, level, n) && k < n && level < 3 && Copied(m0, c0, m, c, s, d, level, k)
    requires Present(m[s][k]) && !Big(m[s][k]) && new_ < |m| && c[new_] == 0 && |m2| == |m|
    requires var w := m[s][k];
             Copied(m[new_ := ZERO_PAGE][d := m[d][k := Word(new_, w.flags)]], c[new_ := 1], m2, c2, w.frame, new_, level + 1, 512)
    ensures Copied(m0, c0, m2, c2, s, d, level, k + 1)
  {
    hide Below, Distinct, Clone, Live;
    var w := m[s][k];
    SourceBelow(m0, c0, m, c, s, d, level, n, k);
    BelowEntry(m, s, level, n, k);
    var m1 := m[new_ := ZERO_PAGE][d := m[d][k := Word(new_, w.flags)]];
    var c1 := c[new_ := 1];
    assert forall f :: 0 <= f < |m| && c[f] != 0 && f != d ==> m2[f] == m[f];
    assert m2[d] == m1[d];
    CopiedKept(m0, c0, m, c, m2, s, d, level, n, k);
    assert Taken(c0, c2) == Taken(c0, c) + {new_} + Taken(c1, c2);
    assert Taken(c0, c) !! {new_} !! Taken(c1, c2);
    OneMoreTable(m2, s, d, level, k, w, new_);
  }

  /** Unfolding Below, Distinct and Clone for an entry that points to a table. */
  lemma OneMoreTable(m: seq<Page>, s: nat, d: nat, level: nat, k: nat, w: Word, new_: nat)
    requires s < |m| && d < |m| && level < 3 && k < 512 && new_ < |m| && w.frame < |m|
    requires Present(w) && !Big(w) && m[s][k] == w && m[d][k] == Word(new_, w.flags)
    requires Distinct(m, d, level, k) && Distinct(m, new_, level + 1, 512)
    requires Below(m, d, level, k) !! {new_} !! Below(m, new_, level + 1, 512)
    requires Clone(m, s, d, level, k) && Clone(m, w.frame, new_, level + 1, 512)
    ensures Below(m, d, level, k + 1) == Below(m, d, level, k) + {new_} + Below(m, new_, level + 1, 512)
    ensures Distinct(m, d, level, k + 1) && Clone(m, s, d, level, k + 1)
  {
  }

  // ---- the operations ----

  /** Whether copying entry k halts: a large-page bit below it, or more frames needed than are free. */
  ghost predicate EntryHalts(m: seq<Page>, free: nat, t: nat, level: nat, k: nat)
    requires t < |m| && level <= 3 && k < 512
  {
    var w := m[t][k];
    Present(w) &&
    (Big(w) || free == 0 ||
     (level < 3 && w.frame < |m| && (BigIn(m, w.frame, level + 1, 512) || free - 1 < Need(m, w.frame, level + 1, 512))))
  }

  ghost function EntryNeed(m: seq<Page>, t: nat, level: nat, k: nat): nat
    requires t < |m| && level <= 3 && k < 512
  {
    NeedMonotone(m, t, level, k, k + 1);
    Need(m, t, level, k + 1) - Need(m, t, level, k)
  }

  /** One iteration of the copying loops, for the entry of any level. */
  method CopyEntry(pm: PhysicalMemory, ghost m0: seq<Page>, ghost c0: seq<Count>, s: nat, d: nat, level: nat,
                   ghost n: nat, k: nat)
    returns (halted: bool)
    requires pm.Valid() && Ready(m0, c0, s, d, level, n) && k < n && Copied(m0, c0, pm.mem, pm.mrt[..], s, d, level, k)
    modifies pm`areas, pm`mem, pm.mrt
    ensures halted <==> EntryHalts(old(pm.mem), FreeTotal(old(pm.areas)), s, level, k)
    ensures !halted ==>
              && pm.Valid() && SameBounds(pm.areas, old(pm.areas))
              && FreeTotal(pm.areas) == FreeTotal(old(pm.areas)) - EntryNeed(old(pm.mem), s, level, k)
              && Copied(m0, c0, pm.mem, pm.mrt[..], s, d, level, k + 1)
    decreases 3 - level, 1
  {
    hide FramesOk, Copied, Ready;
    CopiedSizes(m0, c0, pm.mem, pm.mrt[..], s, d, level, n, k);
    ghost var m, c := pm.mem, pm.mrt[..];
    var w := pm.mem[s][k];
    if !Present(w) {
      StepAbsent(m0, c0, m, c, s, d, level, n, k);
      pm.mem := pm.mem[d := pm.mem[d][k := Word(0, 0)]];
      return false;
    }
    if Big(w) { return true; }
    var r := pm.AllocPage();
    if r.None? { return true; }
    var new_ := r.value;
    if level == 3 {
      StepLeaf(m0, c0, m, c, s, d, n, k, new_);
      pm.mem := pm.mem[new_ := pm.mem[w.frame]];
      pm.mem := pm.mem[d := pm.mem[d][k := Word(new_, w.flags)]];
      halted := false;
    } else {
      halted := CopyTable(pm, m0, c0, c, s, d, level, n, k, new_);
    }
  }

  /** The entry refers to a table: make an empty one in frame new_ and copy into it. */
  method CopyTable(pm: PhysicalMemory, ghost m0: seq<Page>, ghost c0: seq<Count>, ghost c: seq<Count>,
                   s: nat, d: nat, level: nat, ghost n: nat, k: nat, new_: nat) returns (halted: bool)
    requires pm.Valid() && Ready(m0, c0, s, d, level, n) && k < n && level < 3
             && Copied(m0, c0, pm.mem, c, s, d, level, k)
    requires s < |pm.mem| && k < 512 && Present(pm.mem[s][k]) && !Big(pm.mem[s][k])
    requires new_ < |c| && c[new_] == 0 && pm.mrt[..] == c[new_ := 1]
    modifies pm`areas, pm`mem, pm.mrt
    ensures var w := old(pm.mem)[s][k];
            && w.frame < |old(pm.mem)|
            && (halted <==> BigIn(old(pm.mem), w.frame, level + 1, 512) || FreeTotal(old(pm.areas)) < Need(old(pm.mem), w.frame, level + 1, 512))
            && (!halted ==> FreeTotal(pm.areas) == FreeTotal(old(pm.areas)) - Need(old(pm.mem), w.frame, level + 1, 512))
    ensures !halted ==>
              && pm.Valid() && SameBounds(pm.areas, old(pm.areas))
              && Copied(m0, c0, pm.mem, pm.mrt[..], s, d, level, k + 1)
    decreases 3 - level, 0
  {
    hide FramesOk, Copied, Ready, Need, BigIn;
    CopiedSizes(m0, c0, pm.mem, c, s, d, level, n, k);
    ghost var m := pm.mem;
    var w := pm.mem[s][k];
    // The destination table is empty here, so the source always makes a new one.
    StepDown(m0, c0, m, c, s, d, level, n, k, new_);
    pm.mem := pm.mem[new_ := ZERO_PAGE];
    pm.mem := pm.mem[d := pm.mem[d][k := Word(new_, w.flags)]];
    halted := CopyUser(pm, w.frame, new_, level + 1);
    if !halted {
      StepTable(m0, c0, m, c, pm.mem, pm.mrt[..], s, d, level, n, k, new_);
    }
  }

  lemma CopiedSizes(m0: seq<Page>, c0: seq<Count>, m: seq<Page>, c: seq<Count>, s: nat, d: nat, level: nat, n: nat,
                    k: nat)
    requires Ready(m0, c0, s, d, level, n) && k < n && Copied(m0, c0, m, c, s, d, level, k)
    ensures |m| == |c| == |m0| && s < |m| && d < |m| && level <= 3 && k < n <= 512 && s != d && c[d] != 0
    ensures Present(m[s][k]) ==> m[s][k].frame < |m| && m[s][k].frame != d && c[m[s][k].frame] != 0
  {
    SourceBelow(m0, c0, m, c, s, d, level, n, k);
    if Present(m[s][k]) { BelowEntry(m, s, level, n, k); }
  }

  /** copy_user_pagetable: copy a table of level 1 to 3 with everything below it. */
  method CopyUser(pm: PhysicalMemory, s: nat, d: nat, level: nat) returns (halted: bool)
    requires pm.Valid() && 1 <= level <= 3 && Ready(pm.mem, pm.mrt[..], s, d, level, 512)
    modifies pm`areas, pm`mem, pm.mrt
    ensures halted <==> BigIn(old(pm.mem), s, level, 512) || FreeTotal(old(pm.areas)) < Need(old(pm.mem), s, level, 512)
    ensures !halted ==>
              && pm.Valid() && SameBounds(pm.areas, old(pm.areas))
              && FreeTotal(pm.areas) == FreeTotal(old(pm.areas)) - Need(old(pm.mem), s, level, 512)
              && Copied(old(pm.mem), old(pm.mrt[..]), pm.mem, pm.mrt[..], s, d, level, 512)
    decreases 3 - level, 3
  {
    halted := CopyEntries(pm, s, d, level, 512);
  }

  lemma {:induction false} NeedMonotone(m: seq<Page>, t: nat, level: nat, j: nat, k: nat)
    requires t < |m| && level <= 3 && j <= k <= 512
    ensures Need(m, t, level, j) <= Need(m, t, level, k) && (BigIn(m, t, level, j) ==> BigIn(m, t, level, k))
  {
    if j < k { NeedMonotone(m, t, level, j, k - 1); }
  }

  /** What entry k costs now is what it costs in the original source tree. */
  lemma EntryEffect(m0: seq<Page>, c0: seq<Count>, m: seq<Page>, c: seq<Count>, s: nat, d: nat, level: nat, n: nat,
                    k: nat, free: nat)
    requires Ready(m0, c0, s, d, level, n) && k < n && Copied(m0, c0, m, c, s, d, level, k)
    requires !BigIn(m0, s, level, k) && Need(m0, s, level, k) <= free
    ensures Need(m0, s, level, k + 1) == Need(m0, s, level, k) + EntryNeed(m, s, level, k)
    ensures EntryHalts(m, free - Need(m0, s, level, k), s, level, k) ==>
              BigIn(m0, s, level, n) || free < Need(m0, s, level, n)
    ensures !EntryHalts(m, free - Need(m0, s, level, k), s, level, k) ==>
              !BigIn(m0, s, level, k + 1) && Need(m0, s, level, k + 1) <= free
  {
    hide Ready, Copied;
    CopiedSizes(m0, c0, m, c, s, d, level, n, k);
    SourceCost(m0, c0, m, c, s, d, level, n, k);
    NeedMonotone(m0, s, level, k + 1, n);
  }

  lemma SourceCost(m0: seq<Page>, c0: seq<Count>, m: seq<Page>, c: seq<Count>, s: nat, d: nat, level: nat, n: nat,
                   k: nat)
    requires Ready(m0, c0, s, d, level, n) && k < n && Copied(m0, c0, m, c, s, d, level, k)
    ensures Need(m, s, level, k) == Need(m0, s, level, k) && Need(m, s, level, k + 1) == Need(m0, s, level, k + 1)
    ensures BigIn(m, s, level, k) == BigIn(m0, s, level, k) && BigIn(m, s, level, k + 1) == BigIn(m0, s, level, k + 1)
  {
    hide Clone, Distinct, Need, BigIn, Below, Taken;
    SourceBelow(m0, c0, m, c, s, d, level, n, k);
    BelowMonotone(m0, s, level, k, k + 1);
    BelowMonotone(m0, s, level, k + 1, n);
    BelowFrame(m0, m, s, level, k);
    BelowFrame(m0, m, s, level, k + 1);
  }

  /** The loop over the first n entries, common to both copying functions. */
  method CopyEntries(pm: PhysicalMemory, s: nat, d: nat, level: nat, n: nat) returns (halted: bool)
    requires pm.Valid() && Ready(pm.mem, pm.mrt[..], s, d, level, n)
    modifies pm`areas, pm`mem, pm.mrt
    ensures halted <==> BigIn(old(pm.mem), s, level, n) || FreeTotal(old(pm.areas)) < Need(old(pm.mem), s, level, n)
    ensures !halted ==>
              && pm.Valid() && SameBounds(pm.areas, old(pm.areas))
              && FreeTotal(pm.areas) == FreeTotal(old(pm.areas)) - Need(old(pm.mem), s, level, n)
              && Copied(old(pm.mem), old(pm.mrt[..]), pm.mem, pm.mrt[..], s, d, level, n)
    decreases 3 - level, 2
  {
    hide FramesOk, Copied, Below, Distinct, Clone, Live, EntryHalts;
    ghost var m0, c0, free := pm.mem, pm.mrt[..], FreeTotal(pm.areas);
    CopiedNone(m0, c0, s, d, level);
    for k := 0 to n
      invariant pm.Valid() && SameBounds(pm.areas, old(pm.areas))
      invariant Copied(m0, c0, pm.mem, pm.mrt[..], s, d, level, k)
      invariant !BigIn(m0, s, level, k) && FreeTotal(pm.areas) == free - Need(m0, s, level, k)
    {
      EntryEffect(m0, c0, pm.mem, pm.mrt[..], s, d, level, n, k, free);
      halted := CopyEntry(pm, m0, c0, s, d, level, n, k);
      if halted { return; }
    }
    halted := false;
  }

  /** copy_pagetable_and_mem: share the kernel half, copy the user half. */
  method CopyPageTable(pm: PhysicalMemory, d: nat, s: nat) returns (halted: bool)
    requires pm.Valid() && Ready(pm.mem, pm.mrt[..], s, d, 0, 256)
    modifies pm`areas, pm`mem, pm.mrt
    ensures halted <==> BigIn(old(pm.mem), s, 0, 256) || FreeTotal(old(pm.areas)) < Need(old(pm.mem), s, 0, 256)
    ensures !halted ==>
              && pm.Valid() && SameBounds(pm.areas, old(pm.areas))
              && FreeTotal(pm.areas) == FreeTotal(old(pm.areas)) - Need(old(pm.mem), s, 0, 256)
              && Forked(old(pm.mem), old(pm.mrt[..]), pm.mem, pm.mrt[..], s, d)
  {
    hide FramesOk, Below, Distinct, Clone, Live, Copied;
    ghost var m0, c0 := pm.mem, pm.mrt[..];
    pm.mem := pm.mem[d := pm.mem[d][..256] + pm.mem[s][256..]];
    KernelHalfCopied(m0, c0, s, d);
    halted := CopyEntries(pm, s, d, 0, 256);
    if !halted {
      CopiedIsForked(m0, c0, pm.mem, pm.mrt[..], s, d);
    }
  }

  /** The kernel entries of the destination do not matter to the user copy. */
  lemma KernelHalfCopied(m: seq<Page>, c: seq<Count>, s: nat, d: nat)
    requires Ready(m, c, s, d, 0, 256)
    ensures var m' := m[d := m[d][..256] + m[s][256..]];
            Ready(m', c, s, d, 0, 256) && Need(m', s, 0, 256) == Need(m, s, 0, 256)
            && BigIn(m', s, 0, 256) == BigIn(m, s, 0, 256)
  {
    BelowFrame(m, m[d := m[d][..256] + m[s][256..]], s, 0, 256);
  }

  /**
   The copy d of the address space s, made when memory was m0 with counts c0: every user page is
   mapped in d exactly if it is in s, with the same flags, rights and contents, in a frame that was free and
   that no other page has; nothing that was in use changed except d itself; the kernel half is shared.
   */
  ghost predicate Forked(m0: seq<Page>, c0: seq<Count>, m: seq<Page>, c: seq<Count>, s: nat, d: nat) {
    && |m| == |c| == |m0| == |c0| && s < |m| && d < |m|
    && (forall idx :: Index(idx) && idx[0] < 256 ==> SamePage(m0, c0, m, c, s, d, idx))
    && (forall idx, idx' | (Index(idx) && Index(idx') && idx[0] < 256 && idx'[0] < 256 && idx != idx'
                            && Walk(m, d, idx).Small? && Walk(m, d, idx').Small?)
          :: Walk(m, d, idx).w.frame != Walk(m, d, idx').w.frame)
    && (forall e :: 256 <= e < 512 ==> m[d][e] == m0[s][e])
    && (forall f :: 0 <= f < |m| && c0[f] != 0 && f != d ==> m[f] == m0[f]) && OnlyTakes(c0, c)
    && Tree(m, c, d) && Below(m, d, 0, 256) == Taken(c0, c)
  }

  ghost predicate SamePage(m0: seq<Page>, c0: seq<Count>, m: seq<Page>, c: seq<Count>, s: nat, d: nat, idx: seq<nat>)
    requires Index(idx) && |m| == |c| == |m0| == |c0|
  {
    var a, b := Walk(m0, s, idx), Walk(m, d, idx);
    && !a.Large? && !b.Large? && (b.Small? <==> a.Small?) && RightsOf(m, d, idx) == RightsOf(m0, s, idx)
    && (a.Small? ==>
          && b.w.flags == a.w.flags && a.w.frame < |m| && b.w.frame < |m| && m[b.w.frame] == m0[a.w.frame]
          && c0[b.w.frame] == 0 && c[b.w.frame] == 1)
  }

  /** A user address space that owns all its frames: a tree in which every count is one. */
  ghost predicate Tree(m: seq<Page>, c: seq<Count>, root: nat) {
    && |m| == |c| && root < |m| && Distinct(m, root, 0, 256) && root !in Below(m, root, 0, 256)
    && CountOne(c, Below(m, root, 0, 256))
  }

  lemma {:induction false} WalkFrame(m: seq<Page>, m': seq<Page>, t: nat, level: nat, k: nat, idx: seq<nat>)
    requires t < |m| == |m'| && level <= 3 && k <= 512 && Index(idx) && idx[level] < k
    requires m'[t][idx[level]] == m[t][idx[level]]
    requires forall f :: f in Below(m, t, level, k) && f < |m| ==> m'[f] == m[f]
    ensures WalkFrom(m', t, idx, level) == WalkFrom(m, t, idx, level)
    ensures RightsFrom(m', t, idx, level) == RightsFrom(m, t, idx, level)
    decreases 3 - level
  {
    var w := m[t][idx[level]];
    if Present(w) && level < 3 && w.frame < |m| {
      BelowEntry(m, t, level, k, idx[level]);
      WalkFrame(m, m', w.frame, level + 1, 512, idx);
    }
  }

  lemma CopiedIsForked(m0: seq<Page>, c0: seq<Count>, m: seq<Page>, c: seq<Count>, s: nat, d: nat)
    requires Ready(m0, c0, s, d, 0, 256)
    requires Copied(m0[d := m0[d][..256] + m0[s][256..]], c0, m, c, s, d, 0, 256)
    ensures Forked(m0, c0, m, c, s, d)
  {
    var m1 := m0[d := m0[d][..256] + m0[s][256..]];
    assert forall f :: f in Below(m0, s, 0, 256) ==> m[f] == m1[f] == m0[f];
    forall idx | Index(idx) && idx[0] < 256 ensures SamePage(m0, c0, m, c, s, d, idx) {
      CloneWalk(m, s, d, 0, 256, idx);
      WalkFrame(m0, m, s, 0, 256, idx);
      if Walk(m0, s, idx).Small? {
        WalkBelow(m, d, 0, 256, idx);
        WalkBelow(m0, s, 0, 256, idx);
      }
    }
    forall idx, idx' | Index(idx) && Index(idx') && idx[0] < 256 && idx'[0] < 256 && idx != idx'
      && Walk(m, d, idx).Small? && Walk(m, d, idx').Small?
      ensures Walk(m, d, idx).w.frame != Walk(m, d, idx').w.frame
    {
      DistinctWalk(m, d, 0, 256, idx, idx');
    }
  }

  // ---- freeing ----

  /** The frames one entry of a table refers to, directly and below. */
  ghost function Sub(m: seq<Page>, w: Word, level: nat): set<nat>
    requires level <= 3
  {
    if !Present(w) then {} else
    {w.frame} + if level < 3 && w.frame < |m| then Below(m, w.frame, level + 1, 512) else {}
  }

  ghost predicate CountOne(c: seq<Count>, S: set<nat>) {
    forall f :: f in S ==> f < |c| && c[f] == 1
  }

  /** Frames that are referenced, here and perhaps elsewhere, and not reserved. */
  ghost predicate Held(c: seq<Count>, S: set<nat>) {
    forall f :: f in S ==> Releasable(c, f)
  }

  /** A user address space: a tree of distinct frames, each of which is held. */
  ghost predicate HeldTree(m: seq<Page>, c: seq<Count>, root: nat) {
    && |m| == |c| && root < |m| && Distinct(m, root, 0, 256) && root !in Below(m, root, 0, 256)
    && Held(c, Below(m, root, 0, 256) + {root})
  }

  /** One entry spans a tree whose every frame is held. */
  ghost predicate SubTree(m: seq<Page>, c: seq<Count>, w: Word, level: nat)
    requires level <= 3
  {
    && |m| == |c| && Held(c, Sub(m, w, level))
    && (Present(w) && level < 3 ==>
          w.frame < |m| && Distinct(m, w.frame, level + 1, 512) && w.frame !in Below(m, w.frame, level + 1, 512))
  }

  /** The counts after the frames of S have lost a reference each. */
  ghost predicate Released(c: seq<Count>, c': seq<Count>, S: set<nat>) {
    |c'| == |c| && forall f :: 0 <= f < |c| ==> c'[f] == if f in S && c[f] > 0 then c[f] - 1 else c[f]
  }

  /** Entry k of a tree spans a tree of its own, apart from the entries before it. */
  lemma {:induction false} EntrySub(m: seq<Page>, t: nat, level: nat, n: nat, k: nat)
    requires t < |m| && level <= 3 && k < n <= 512 && Distinct(m, t, level, n)
    ensures Distinct(m, t, level, k + 1) && Sub(m, m[t][k], level) <= Below(m, t, level, n)
    ensures Below(m, t, level, k + 1) == Below(m, t, level, k) + Sub(m, m[t][k], level)
    ensures Below(m, t, level, k) !! Sub(m, m[t][k], level)
    decreases n
  {
    if k < n - 1 { EntrySub(m, t, level, n - 1, k); }
  }

  /** free_pagetable_level for the tables below one entry, then kfree of the entry's own frame. */
  method FreeEntry(pm: PhysicalMemory, w: Word, level: nat) returns (halted: bool)
    requires pm.Valid() && level <= 3 && SubTree(pm.mem, pm.mrt[..], w, level)
    modifies pm`areas, pm.mrt
    ensures !halted && pm.Valid() && SameBounds(pm.areas, old(pm.areas))
    ensures Released(old(pm.mrt[..]), pm.mrt[..], Sub(pm.mem, w, level))
    decreases 3 - level, 0
  {
    hide FramesOk, Below, Distinct;
    halted := false;
    if Present(w) {
      if level < 3 {
        halted := FreeLevel(pm, w.frame, level + 1);
      }
      var r := pm.DecRef(w.frame);
      halted := r.None?;
    }
  }

  /** free_pagetable_level: release everything below a table of level 1 to 3. */
  method FreeLevel(pm: PhysicalMemory, t: nat, level: nat) returns (halted: bool)
    requires pm.Valid() && 1 <= level <= 3 && t < |pm.mem| && Distinct(pm.mem, t, level, 512)
    requires Held(pm.mrt[..], Below(pm.mem, t, level, 512))
    modifies pm`areas, pm.mrt
    ensures !halted && pm.Valid() && SameBounds(pm.areas, old(pm.areas))
    ensures Released(old(pm.mrt[..]), pm.mrt[..], Below(pm.mem, t, level, 512))
    decreases 3 - level, 1
  {
    hide FramesOk, Distinct;
    ghost var c0 := pm.mrt[..];
    for i := 0 to 512
      invariant pm.Valid() && SameBounds(pm.areas, old(pm.areas))
      invariant Released(c0, pm.mrt[..], Below(pm.mem, t, level, i))
    {
      EntrySub(pm.mem, t, level, 512, i);
      EntryIsTree(pm.mem, pm.mrt[..], t, level, i);
      var stop := FreeEntry(pm, pm.mem[t][i], level);
    }
    halted := false;
  }

  lemma EntryIsTree(m: seq<Page>, c: seq<Count>, t: nat, level: nat, k: nat)
    requires |m| == |c| && t < |m| && level <= 3 && k < 512 && Distinct(m, t, level, k + 1)
    requires Held(c, Sub(m, m[t][k], level))
    ensures SubTree(m, c, m[t][k], level)
  {
  }

  /** free_ptable_and_mem: release a user address space; the kernel's own table is left alone. */
  method FreePageTable(pm: PhysicalMemory, root: nat, kernel: nat) returns (halted: bool)
    requires pm.Valid() && HeldTree(pm.mem, pm.mrt[..], root)
    modifies pm`areas, pm`mem, pm.mrt
    ensures !halted && pm.Valid() && SameBounds(pm.areas, old(pm.areas))
    ensures root == kernel ==> pm.mem == old(pm.mem) && pm.mrt[..] == old(pm.mrt[..]) && pm.areas == old(pm.areas)
    ensures root != kernel ==> Released(old(pm.mrt[..]), pm.mrt[..], Below(old(pm.mem), root, 0, 256) + {root})
    ensures forall f :: 0 <= f < |pm.mem| && f != root ==> pm.mem[f] == old(pm.mem)[f]
  {
    hide FramesOk, Below, Distinct;
    if root == kernel { return false; }
    ghost var m0, c0 := pm.mem, pm.mrt[..];
    BelowNone(m0, root);
    for i := 0 to 256
      invariant pm.Valid() && SameBounds(pm.areas, old(pm.areas))
      invariant pm.mem == m0[root := pm.mem[root]] && forall e :: i <= e < 512 ==> pm.mem[root][e] == m0[root][e]
      invariant Released(c0, pm.mrt[..], Below(m0, root, 0, i))
    {
      EntrySub(m0, root, 0, 256, i);
      var w := pm.mem[root][i];
      if Present(w) {
        EntryIsTree(m0, pm.mrt[..], root, 0, i);
        BelowFrame(m0, pm.mem, w.frame, 1, 512);
        var stop := FreeEntry(pm, w, 0);
        pm.mem := pm.mem[root := pm.mem[root][i := Word(0, 0)]];
      }
    }
    var r := pm.DecRef(root);
    halted := r.None?;
  }

  lemma BelowNone(m: seq<Page>, t: nat)
    requires t < |m|
    ensures Below(m, t, 0, 0) == {}
  {
  }

  /** fork_enter: a fresh top-level table with the kernel's entries and a copy of the user half. */
  method ForkAddressSpace(pm: PhysicalMemory, s: nat, kernel: nat) returns (halted: bool, cr3: nat)
    requires pm.Valid() && s < |pm.mem| && kernel < |pm.mem| && Live(pm.mem, pm.mrt[..], s, 0, 256) && pm.mrt[s] != 0
    modifies pm`areas, pm`mem, pm.mrt
    ensures halted <==> BigIn(old(pm.mem), s, 0, 256) || FreeTotal(old(pm.areas)) < 1 + Need(old(pm.mem), s, 0, 256)
    ensures !halted ==>
              && pm.Valid() && SameBounds(pm.areas, old(pm.areas)) && cr3 < |pm.mem| && old(pm.mrt[..])[cr3] == 0
              && Forked(old(pm.mem), old(pm.mrt[..])[cr3 := 1], pm.mem, pm.mrt[..], s, cr3)
  {
    hide FramesOk, Below, Distinct, Forked, Ready, Live;
    ghost var m0, c0 := pm.mem, pm.mrt[..];
    var r := pm.AllocPage();
    if r.None? { return true, 0; }
    cr3 := r.value;
    NewRoot(m0, c0, s, cr3, ZERO_PAGE[..256] + pm.mem[kernel][256..]);
    pm.mem := pm.mem[cr3 := ZERO_PAGE[..256] + pm.mem[kernel][256..]];
    ghost var m1 := pm.mem;
    halted := CopyPageTable(pm, cr3, s);
    if !halted {
      ForkedFrom(m0, c0, m1, pm.mem, pm.mrt[..], s, cr3);
    }
  }

  lemma NewRoot(m: seq<Page>, c: seq<Count>, s: nat, d: nat, page: Page)
    requires |m| == |c| && s < |m| && Live(m, c, s, 0, 256) && c[s] != 0 && d < |m| && c[d] == 0
    requires forall e :: 0 <= e < 256 ==> !Present(page[e])
    ensures Ready(m[d := page], c[d := 1], s, d, 0, 256)
    ensures Need(m[d := page], s, 0, 256) == Need(m, s, 0, 256) && BigIn(m[d := page], s, 0, 256) == BigIn(m, s, 0, 256)
  {
    BelowFrame(m, m[d := page], s, 0, 256);
  }

  /** What the new top-level table held before the copy does not matter. */
  lemma ForkedFrom(m0: seq<Page>, c0: seq<Count>, m1: seq<Page>, m: seq<Page>, c: seq<Count>, s: nat, d: nat)
    requires |m0| == |c0| == |m1| && s < |m0| && Live(m0, c0, s, 0, 256) && c0[s] != 0 && d < |m0| && c0[d] == 0
    requires m1 == m0[d := m1[d]] && Forked(m1, c0[d := 1], m, c, s, d)
    ensures Forked(m0, c0[d := 1], m, c, s, d)
  {
    var c1 := c0[d := 1];
    forall idx | Index(idx) && idx[0] < 256 ensures SamePage(m0, c1, m, c, s, d, idx) {
      assert SamePage(m1, c1, m, c, s, d, idx);
      WalkFrame(m0, m1, s, 0, 256, idx);
      if Walk(m0, s, idx).Small? { WalkBelow(m0, s, 0, 256, idx); }
    }
  }

  /** A forked address space that is freed again leaves every count, and so every free count, as it was. */
  method ForkThenFree(pm: PhysicalMemory, s: nat, kernel: nat) returns (forkHalted: bool, freeHalted: bool)
    requires pm.Valid() && s < |pm.mem| && kernel < |pm.mem| && Live(pm.mem, pm.mrt[..], s, 0, 256)
    requires pm.mrt[s] != 0 && pm.mrt[kernel] != 0
    modifies pm`areas, pm`mem, pm.mrt
    ensures !forkHalted ==>
              && !freeHalted && pm.Valid() && pm.mrt[..] == old(pm.mrt[..]) && SameBounds(pm.areas, old(pm.areas))
              && forall i :: 0 <= i < |pm.areas| ==>
                   && pm.areas[i].fpp == old(pm.areas)[i].fpp
                   && (pm.areas[i].fpp > 0 ==> pm.areas[i] == old(pm.areas)[i])
  {
    hide FramesOk, Below, Distinct, SamePage, Live;
    ghost var c0, a0 := pm.mrt[..], pm.areas;
    freeHalted := false;
    var cr3;
    forkHalted, cr3 := ForkAddressSpace(pm, s, kernel);
    if !forkHalted {
      assert pm.mrt[..][cr3] == 1;
      ghost var c1 := pm.mrt[..];
      freeHalted := FreePageTable(pm, cr3, kernel);
      forall f | 0 <= f < |c0| ensures pm.mrt[..][f] == c0[f] {
        assert f in Taken(c0[cr3 := 1], c1) <==> c0[f] == 0 && f != cr3 && c1[f] != 0;
      }
      assert pm.mrt[..] == c0;
      CountsDetermineAreas(c0, pm.areas, a0);
    }
  }
}
