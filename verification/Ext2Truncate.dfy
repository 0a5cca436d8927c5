/**
 Cutting a file short (src/fs/ext2.c): ext2_truncate_blocks with ext2_free_ind_blocks, and ext2_delete.
 The result is stated against the tree as it was before the call: pointers beyond the new end become
 0, the blocks given back are exactly those that left the tree, and all three counters move by their number.
 */
module Ext2Truncate {
  import opened Common
  import opened Ext2Volume
  import opened Ext2Tree

  /** Where the new end of the file falls in the double indirect block: the entry and the place in it. */
  function CutEntry(per: nat, n: nat): (i: nat)
    requires per > 0 && n > NDIR + per
  {
    (n - NDIR - per) / per
  }

  function CutRest(per: nat, n: nat): (j: nat)
    requires per > 0 && n > NDIR + per
  {
    (n - NDIR - per) % per
  }

  /** Which pointers survive when the file keeps its first n blocks. */
  predicate Kept(per: nat, n: nat, p: Path)
    requires per > 0
  {
    match p
    case Direct(i) => i < n
    case Ind => n > NDIR
    case IndEntry(i) => NDIR + i < n
    case Dind => n > NDIR + per
    case DindEntry(i) => n > NDIR + per && i <= CutEntry(per, n)
    case DindSub(i, j) => NDIR + per + i * per + j < n
  }

  /** What a call spares that sees n new and o old blocks: it looks at direct pointers from n up to o only. */
  predicate Spared(per: nat, n: nat, o: nat, p: Path)
    requires per > 0
  {
    if p.Direct? then !(n <= p.i < o) else Kept(per, n, p)
  }

  /** A data pointer survives exactly if its logical block does. */
  lemma KeptData(per: nat, n: nat, p: Path)
    requires per > 0 && InTree(per, p) && IsData(p)
    ensures Kept(per, n, p) <==> LogicalOf(per, p) < n
  {
  }

  /** A surviving entry of a double indirect block has a surviving parent, and conversely by position. */
  lemma KeptSub(per: nat, n: nat, i: nat, j: nat)
    requires per > 0 && j < per && n > NDIR + per
    ensures Kept(per, n, DindSub(i, j)) <==> i < CutEntry(per, n) || (i == CutEntry(per, n) && j < CutRest(per, n))
  {
    var s := n - NDIR - per;
    assert s / per * per + s % per == s;
    MulStep(i, s / per, per);
    MulStep(s / per, i, per);
  }

  /** The tree and the counters as they were when the call began. */
  datatype Snapshot = Snapshot(disk: seq<Block>, used: set<nat>, ib: seq<nat>, per: nat, free: nat, units: int, delta: nat,
                               end: nat) {
    ghost predicate Ok() { TreeOk(disk, used, ib, per) }

    /** What a call leaves that cuts down to n blocks and takes the file to have `end` blocks. */
    predicate Spares(n: nat, p: Path)
      requires per > 0
    {
      Spared(per, n, end, p)
    }

    function Old(p: Path): nat { At(disk, ib, p) }
  }

  /** The blocks at a set of places. */
  ghost function Image(s: Snapshot, F: set<Path>): set<nat> {
    set p | p in F :: s.Old(p)
  }

  /** After giving back the blocks at the places F. */
  ghost predicate Tracks(s: Snapshot, F: set<Path>, used: set<nat>, free: nat, units: int) {
    && (forall p :: p in F ==> InTree(s.per, p) && s.Old(p) != 0)
    && used == s.used - Image(s, F) && free == s.free + |F| && units == s.units - s.delta * |F|
  }

  /** In a tree, different places hold different blocks. */
  lemma {:induction false} ImageCount(s: Snapshot, F: set<Path>)
    requires s.Ok() && forall p :: p in F ==> InTree(s.per, p) && s.Old(p) != 0
    ensures |Image(s, F)| == |F|
    decreases F
  {
    if F != {} {
      var p :| p in F;
      var G := F - {p};
      ImageCount(s, G);
      assert s.Old(p) !in Image(s, G);
      assert Image(s, F) == Image(s, G) + {s.Old(p)};
    } else {
      assert Image(s, F) == {};
    }
  }

  lemma TrackOne(s: Snapshot, F: set<Path>, used: set<nat>, free: nat, units: int, p: Path)
    requires s.Ok() && Tracks(s, F, used, free, units) && InTree(s.per, p) && s.Old(p) != 0 && p !in F
    ensures s.Old(p) in used && s.Old(p) < |s.disk| < TWO_32
    ensures Tracks(s, F + {p}, used - {s.Old(p)}, free + 1, units - s.delta)
  {
    hide At;
    assert s.Old(p) !in Image(s, F);
    assert Image(s, F + {p}) == Image(s, F) + {s.Old(p)};
    assert |F + {p}| == |F| + 1;
  }

  /** p is q or lies on the way to q. */
  predicate Under(p: Path, q: Path) {
    p == q
    || (p.Ind? && q.IndEntry?)
    || (p.Dind? && (q.DindEntry? || q.DindSub?))
    || (p.DindEntry? && q.DindSub? && q.i == p.i)
  }

  /** The place of the k-th pointer in the block at p. */
  function Child(p: Path, k: nat): (q: Path)
    requires !IsData(p)
  {
    match p
    case Ind => IndEntry(k)
    case Dind => DindEntry(k)
    case DindEntry(i) => DindSub(i, k)
  }

  /** q lies below one of the first k pointers in the block at p. */
  predicate UnderFirst(p: Path, k: nat, q: Path)
    requires !IsData(p)
  {
    match p
    case Ind => q.IndEntry? && q.i < k
    case Dind => (q.DindEntry? || q.DindSub?) && q.i < k
    case DindEntry(i) => q.DindSub? && q.i == i && q.j < k
  }

  /** F' is F with everything in use below p. */
  ghost predicate AddsUnder(s: Snapshot, F: set<Path>, F': set<Path>, p: Path) {
    forall q :: q in F' <==> q in F || (InTree(s.per, q) && Under(p, q) && s.Old(q) != 0)
  }

  ghost predicate AddsUnderFirst(s: Snapshot, F: set<Path>, F': set<Path>, p: Path, k: nat)
    requires !IsData(p)
  {
    forall q :: q in F' <==> q in F || (InTree(s.per, q) && UnderFirst(p, k, q) && s.Old(q) != 0)
  }

  /** The pointer blocks from p down hold what they held at the start. */
  ghost predicate SameBelow(s: Snapshot, disk: seq<Block>, p: Path) {
    |disk| == |s.disk| &&
    forall q :: InTree(s.per, q) && !IsData(q) && Under(p, q) && 0 < s.Old(q) < |disk| ==> disk[s.Old(q)] == s.disk[s.Old(q)]
  }

  /** The k-th word of the block at p is the pointer at its k-th child. */
  lemma ChildPointer(s: Snapshot, p: Path, k: nat)
    requires s.Ok() && InTree(s.per, p) && !IsData(p) && k < s.per && s.Old(p) != 0
    ensures InTree(s.per, Child(p, k)) && 0 < s.Old(p) < |s.disk| && |s.disk[s.Old(p)]| == 4 * s.per
    ensures s.Old(Child(p, k)) == Word(s.disk[s.Old(p)], k)
  {
  }

  /** An absent pointer has nothing below it. */
  lemma AbsentBelow(s: Snapshot, p: Path, q: Path)
    requires s.Ok() && InTree(s.per, p) && InTree(s.per, q) && Under(p, q) && s.Old(p) == 0
    ensures s.Old(q) == 0
  {
    hide Word;
  }

  /** The level ext2_free_ind_blocks is called with for the block at p. */
  function Level(p: Path): (l: nat) {
    match p
    case Dind => 2
    case Ind | DindEntry(_) => 1
    case _ => 0
  }

  /** ext2_free_block with its i_blocks adjustment. */
  method Release(vol: Volume, ino: Inode, ghost s: Snapshot, ghost F: set<Path>, ghost p: Path, b: nat)
    requires vol.Valid() && s.Ok() && |vol.disk| == |s.disk| && s.delta == Delta(vol.geo)
    requires Tracks(s, F, vol.UsedBlocks(), vol.sbFree, ino.iBlocks)
    requires InTree(s.per, p) && p !in F && b == s.Old(p) != 0
    modifies vol`bitmaps, vol`freeCount, vol`sbFree, ino`iBlocks
    ensures vol.Valid() && Tracks(s, F + {p}, vol.UsedBlocks(), vol.sbFree, ino.iBlocks)
  {
    hide VolumeOk, At, Tracks, TreeOk, Delta;
    TrackOne(s, F, vol.UsedBlocks(), vol.sbFree, ino.iBlocks, p);
    vol.FreeBlock(b);
    ino.iBlocks := ino.iBlocks - Delta(vol.geo);
  }

  /** ext2_free_ind_blocks: give back the block at p and everything below it. */
  method FreeInd(vol: Volume, ino: Inode, ghost s: Snapshot, ghost F: set<Path>, ghost p: Path, b: nat, level: nat)
    returns (ghost F': set<Path>)
    requires vol.Valid() && s.Ok() && |vol.disk| == |s.disk| && s.delta == Delta(vol.geo) && s.per == vol.geo.perBlock
    requires Tracks(s, F, vol.UsedBlocks(), vol.sbFree, ino.iBlocks)
    requires InTree(s.per, p) && level == Level(p) && b == s.Old(p) && SameBelow(s, vol.disk, p)
    requires forall q :: q in F ==> !Under(p, q)
    modifies vol`bitmaps, vol`freeCount, vol`sbFree, ino`iBlocks
    ensures vol.Valid() && Tracks(s, F', vol.UsedBlocks(), vol.sbFree, ino.iBlocks) && AddsUnder(s, F, F', p)
    decreases level
  {
    hide VolumeOk, At, Word, Tracks, TreeOk, Delta;
    F' := F;
    if b == 0 {
      NothingUnder(s, F, p);
      return;
    }
    if level == 0 {
      Release(vol, ino, s, F, p, b);
      F' := F + {p};
      return;
    }
    for k := 0 to vol.geo.perBlock
      invariant vol.Valid() && Tracks(s, F', vol.UsedBlocks(), vol.sbFree, ino.iBlocks)
      invariant AddsUnderFirst(s, F, F', p, k)
    {
      ChildPointer(s, p, k);
      var c := Word(vol.disk[b], k);
      ghost var before := F';
      if c != 0 {
        F' := FreeInd(vol, ino, s, F', Child(p, k), c, level - 1);
      } else {
        NothingUnder(s, F', Child(p, k));
      }
      OneMoreChild(s, F, before, F', p, k);
    }
    Release(vol, ino, s, F', p, b);
    AllChildren(s, F, F', p);
    F' := F' + {p};
  }

  lemma NothingUnder(s: Snapshot, F: set<Path>, p: Path)
    requires s.Ok() && InTree(s.per, p) && s.Old(p) == 0
    ensures AddsUnder(s, F, F, p)
  {
    forall q | InTree(s.per, q) && Under(p, q) ensures s.Old(q) == 0 { AbsentBelow(s, p, q); }
  }

  lemma OneMoreChild(s: Snapshot, F: set<Path>, G: set<Path>, H: set<Path>, p: Path, k: nat)
    requires !IsData(p) && AddsUnderFirst(s, F, G, p, k) && AddsUnder(s, G, H, Child(p, k))
    ensures AddsUnderFirst(s, F, H, p, k + 1)
  {
    hide At;
  }

  lemma AllChildren(s: Snapshot, F: set<Path>, G: set<Path>, p: Path)
    requires !IsData(p) && AddsUnderFirst(s, F, G, p, s.per) && s.Old(p) != 0 && InTree(s.per, p)
    ensures AddsUnder(s, F, G + {p}, p)
  {
    hide At;
  }

  /** buf is the pointer block old with the words from `start` up to k cleared. */
  ghost predicate Cleared(per: nat, old_: Block, buf: Block, start: nat, k: nat) {
    && |buf| == |old_| == 4 * per
    && forall j :: 0 <= j < per ==> Word(buf, j) == if start <= j < k then 0 else Word(old_, j)
  }

  lemma ClearOne(per: nat, old_: Block, buf: Block, start: nat, k: nat)
    requires Cleared(per, old_, buf, start, k) && start <= k < per
    ensures Cleared(per, old_, if Word(buf, k) != 0 then PutWord(buf, k, 0) else buf, start, k + 1)
  {
    hide Word, PutWord;
    if Word(buf, k) != 0 {
      WordOfPut(buf, k, 0, k);
      forall j | 0 <= j < per ensures Word(PutWord(buf, k, 0), j) == if start <= j < k + 1 then 0 else Word(old_, j) {
        WordOfPut(buf, k, 0, j);
      }
    }
  }

  /** F' is F with the places of the pointers start .. k of the block at p that are in use. */
  ghost predicate AddsTail(s: Snapshot, F: set<Path>, F': set<Path>, p: Path, start: nat, k: nat)
    requires !IsData(p)
  {
    forall q :: q in F' <==> q in F || (InTree(s.per, q) && IsData(q) && UnderFirst(p, k, q) && !UnderFirst(p, start, q) && s.Old(q) != 0)
  }

  /** The partial freeing of a block of data pointers: entries from `start` on are freed and cleared. */
  method FreeTail(vol: Volume, ino: Inode, ghost s: Snapshot, ghost F: set<Path>, ghost p: Path, b: nat, start: nat)
    returns (ghost F': set<Path>)
    requires vol.Valid() && s.Ok() && |vol.disk| == |s.disk| && s.delta == Delta(vol.geo) && s.per == vol.geo.perBlock
    requires Tracks(s, F, vol.UsedBlocks(), vol.sbFree, ino.iBlocks)
    requires InTree(s.per, p) && Level(p) == 1 && b == s.Old(p) != 0 && SameBelow(s, vol.disk, p)
    requires forall q :: q in F ==> !Under(p, q)
    modifies vol, ino`iBlocks
    ensures vol.Valid() && Tracks(s, F', vol.UsedBlocks(), vol.sbFree, ino.iBlocks)
            && AddsTail(s, F, F', p, start, s.per)
    ensures b < |old(vol.disk)| == |vol.disk| && vol.disk == old(vol.disk)[b := vol.disk[b]]
    ensures Cleared(s.per, s.disk[b], vol.disk[b], start, s.per)
  {
    hide VolumeOk, At, Word, PutWord, Tracks, TreeOk, Delta;
    Shape(s);
    ChildPointer(s, p, 0);
    assert vol.disk[b] == s.disk[b];
    var buf := vol.disk[b];
    F' := F;
    if start < vol.geo.perBlock {
      for k := start to vol.geo.perBlock
        invariant vol.Valid() && Tracks(s, F', vol.UsedBlocks(), vol.sbFree, ino.iBlocks) && vol.disk == old(vol.disk)
        invariant AddsTail(s, F, F', p, start, k) && Cleared(s.per, s.disk[b], buf, start, k)
      {
        ChildPointer(s, p, k);
        ClearOne(s.per, s.disk[b], buf, start, k);
        if Word(buf, k) != 0 {
          Release(vol, ino, s, F', Child(p, k), Word(buf, k));
          F' := F' + {Child(p, k)};
          buf := PutWord(buf, k, 0);
        }
      }
    }
    var disk' := vol.disk[b := buf];
    DiskWrittenAt(vol.geo, vol.bitmaps, vol.freeCount, vol.sbFree, vol.disk, b, buf);
    vol.disk := disk';
  }

  lemma Shape(s: Snapshot)
    requires s.Ok()
    ensures s.per > 0 && |s.ib| == 15 && |s.disk| < TWO_32
    ensures s.Old(Ind) == s.ib[IND] && s.Old(Dind) == s.ib[DIND]
    ensures forall i :: 0 <= i < NDIR ==> s.Old(Direct(i)) == s.ib[i]
  {
  }

  // ---- the three stages of ext2_truncate_blocks ----

  function Stage(p: Path): (k: nat) {
    match p
    case Direct(_) => 0
    case Ind | IndEntry(_) => 1
    case _ => 2
  }

  /** Pointers of the finished stages are cut, the others are as they were. */
  ghost predicate Cut(s: Snapshot, n: nat, stage: nat, disk: seq<Block>, ib: seq<nat>)
    requires s.per > 0
  {
    && |ib| == 15 && |disk| == |s.disk| && (forall b :: 0 <= b < |disk| ==> |disk[b]| == 4 * s.per)
    && (forall q :: InTree(s.per, q) ==> At(disk, ib, q) == if Stage(q) < stage && !s.Spares(n, q) then 0 else s.Old(q))
    && OthersKept(s.disk, s.used, s.ib, s.per, disk)
  }

  /** The places given back so far: those of the finished stages that do not survive. */
  ghost predicate FreedTo(s: Snapshot, n: nat, stage: nat, F: set<Path>)
    requires s.per > 0
  {
    forall q :: q in F <==> InTree(s.per, q) && Stage(q) < stage && !s.Spares(n, q) && s.Old(q) != 0
  }

  /** State of the volume and the inode between two stages. */
  ghost predicate Between(vol: Volume, ino: Inode, s: Snapshot, n: nat, stage: nat, F: set<Path>)
    reads vol, ino
  {
    && vol.Valid() && s.Ok() && s.delta == Delta(vol.geo) && s.per == vol.geo.perBlock && s.per > 0
    && Tracks(s, F, vol.UsedBlocks(), vol.sbFree, ino.iBlocks)
    && FreedTo(s, n, stage, F) && Cut(s, n, stage, vol.disk, ino.iBlock)
  }

  /** The direct pointers from the new end to the old end. */
  method CutDirect(vol: Volume, ino: Inode, ghost s: Snapshot, n: nat, oldBlocks: nat) returns (ghost F: set<Path>)
    requires Between(vol, ino, s, n, 0, {}) && vol.disk == s.disk && ino.iBlock == s.ib && oldBlocks == s.end
    modifies vol`bitmaps, vol`freeCount, vol`sbFree, ino`iBlock, ino`iBlocks
    ensures Between(vol, ino, s, n, 1, F)
  {
    hide VolumeOk, At, Word, Tracks, TreeOk, Delta, OthersKept;
    Shape(s);
    F := {};
    var i := n;
    while i < NDIR && i < oldBlocks
      invariant i >= n && ((i <= NDIR && i <= oldBlocks) || i == n)
      invariant vol.Valid() && Tracks(s, F, vol.UsedBlocks(), vol.sbFree, ino.iBlocks)
      invariant |ino.iBlock| == 15 && forall k :: 0 <= k < 15 ==> ino.iBlock[k] == if n <= k < i && k < NDIR then 0 else s.ib[k]
      invariant forall q :: q in F <==> q.Direct? && n <= q.i < i && q.i < NDIR && s.Old(q) != 0
      decreases NDIR - i
    {
      if ino.iBlock[i] != 0 {
        Release(vol, ino, s, F, Direct(i), ino.iBlock[i]);
        F := F + {Direct(i)};
        ino.iBlock := ino.iBlock[i := 0];
      }
      i := i + 1;
    }
    DirectDone(s, n, ino.iBlock);
  }

  lemma DirectDone(s: Snapshot, n: nat, ib: seq<nat>)
    requires s.Ok() && s.per > 0 && |ib| == 15
    requires forall k :: 0 <= k < 15 ==> ib[k] == if n <= k < NDIR && k < s.end then 0 else s.ib[k]
    ensures Cut(s, n, 1, s.disk, ib)
  {
    hide Word;
  }

  /** The single indirect block: freed whole, or its tail freed and cleared. */
  method CutInd(vol: Volume, ino: Inode, ghost s: Snapshot, n: nat, ghost F: set<Path>) returns (ghost F': set<Path>)
    requires Between(vol, ino, s, n, 1, F) && vol.disk == s.disk
    modifies vol, ino`iBlock, ino`iBlocks
    ensures Between(vol, ino, s, n, 2, F') && SameBelow(s, vol.disk, Dind)
  {
    hide VolumeOk, At, Word, Tracks, TreeOk, Delta, OthersKept, WordAt, Cut, FreedTo;
    Shape(s);
    CutRoots(s, n, 1, vol.disk, ino.iBlock);
    FreedOutside(s, n, 1, F);
    F' := F;
    if n <= NDIR {
      IndGone(s, n, vol.disk, ino.iBlock);
      if ino.iBlock[IND] != 0 {
        F' := FreeInd(vol, ino, s, F, Ind, ino.iBlock[IND], 1);
        ino.iBlock := ino.iBlock[IND := 0];
      } else {
        NothingUnder(s, F, Ind);
        assert ino.iBlock[IND := 0] == ino.iBlock;
      }
      FreedInd(s, n, F, F');
    } else {
      var start := n - NDIR;
      if ino.iBlock[IND] != 0 {
        F' := FreeTail(vol, ino, s, F, Ind, ino.iBlock[IND], start);
        IndTail(s, n, s.disk, ino.iBlock, vol.disk[s.ib[IND]]);
      } else {
        IndAbsent(s, n, F, vol.disk, ino.iBlock);
      }
      FreedIndTail(s, n, F, F');
    }
  }

  lemma CutRoots(s: Snapshot, n: nat, stage: nat, disk: seq<Block>, ib: seq<nat>)
    requires s.Ok() && s.per > 0 && Cut(s, n, stage, disk, ib)
    ensures |ib| == 15 && |disk| == |s.disk|
    ensures ib[IND] == if 1 < stage && n <= NDIR then 0 else s.ib[IND]
    ensures ib[DIND] == if 2 < stage && n <= NDIR + s.per then 0 else s.ib[DIND]
    ensures forall b :: 0 <= b < |disk| ==> |disk[b]| == 4 * s.per
  {
    hide Word;
    assert InTree(s.per, Ind) && InTree(s.per, Dind);
    assert At(disk, ib, Ind) == ib[IND] && At(disk, ib, Dind) == ib[DIND];
  }

  /** What was freed in earlier stages does not lie below the roots of later ones. */
  lemma FreedOutside(s: Snapshot, n: nat, stage: nat, F: set<Path>)
    requires s.per > 0 && FreedTo(s, n, stage, F)
    ensures forall q :: q in F ==> Stage(q) < stage
    ensures forall p, q :: q in F && Stage(p) >= stage ==> !Under(p, q)
  {
  }

  lemma IndGone(s: Snapshot, n: nat, disk: seq<Block>, ib: seq<nat>)
    requires s.Ok() && s.per > 0 && n <= NDIR && Cut(s, n, 1, disk, ib)
    ensures Cut(s, n, 2, disk, ib[IND := 0])
  {
    hide Word;
    forall q | InTree(s.per, q)
      ensures At(disk, ib[IND := 0], q) == if Stage(q) < 2 && !s.Spares(n, q) then 0 else s.Old(q)
    {
      assert At(disk, ib, q) == if Stage(q) < 1 && !s.Spares(n, q) then 0 else s.Old(q);
    }
  }

  /** Replacing the contents of one pointer block changes the pointers in it and below it only. */
  lemma OtherPointers(s: Snapshot, disk: seq<Block>, ib: seq<nat>, p: Path, buf: Block, q: Path)
    requires s.Ok() && |ib| == 15 && |disk| == |s.disk| && InTree(s.per, p) && InTree(s.per, q) && !IsData(p)
    requires s.Old(p) != 0
             && forall r :: InTree(s.per, r) && !IsData(r) ==> At(disk, ib, r) == 0 || At(disk, ib, r) == s.Old(r)
    requires !Under(p, q) || q == p
    ensures s.Old(p) < |disk| && At(disk[s.Old(p) := buf], ib, q) == At(disk, ib, q)
  {
    hide Word;
    assert q.DindSub? ==> InTree(s.per, DindEntry(q.i)) && At(disk, ib, DindEntry(q.i)) == WordAt(disk, ib[DIND], q.i);
    assert InTree(s.per, Ind) && InTree(s.per, Dind) && At(disk, ib, Ind) == ib[IND] && At(disk, ib, Dind) == ib[DIND];
  }

  /** A replaced pointer block of the tree is no block of another file. */
  lemma PointerBlockWritten(s: Snapshot, disk: seq<Block>, p: Path, buf: Block)
    requires s.Ok() && |disk| == |s.disk| && InTree(s.per, p) && !IsData(p) && s.Old(p) < |disk|
    requires OthersKept(s.disk, s.used, s.ib, s.per, disk)
    ensures OthersKept(s.disk, s.used, s.ib, s.per, disk[s.Old(p) := buf])
  {
    hide At;
  }

  lemma IndTail(s: Snapshot, n: nat, disk: seq<Block>, ib: seq<nat>, buf: Block)
    requires s.Ok() && s.per > 0 && n > NDIR && Cut(s, n, 1, disk, ib) && disk == s.disk
    requires s.ib[IND] != 0 && s.ib[IND] < |disk| && Cleared(s.per, s.disk[s.ib[IND]], buf, n - NDIR, s.per)
    ensures Cut(s, n, 2, disk[s.ib[IND] := buf], ib) && SameBelow(s, disk[s.ib[IND] := buf], Dind)
  {
    hide Word;
    var b := s.ib[IND];
    assert s.Old(Ind) == b && InTree(s.per, Ind) && ib[IND] == b by { CutRoots(s, n, 1, disk, ib); }
    forall q | InTree(s.per, q)
      ensures At(disk[b := buf], ib, q) == if Stage(q) < 2 && !s.Spares(n, q) then 0 else s.Old(q)
    {
      if q.IndEntry? {
        assert At(disk, ib, q) == s.Old(q) == Word(s.disk[b], q.i);
        assert At(disk[b := buf], ib, q) == Word(buf, q.i);
      } else {
        OtherPointers(s, disk, ib, Ind, buf, q);
      }
    }
    PointerBlockWritten(s, disk, Ind, buf);
  }

  lemma IndAbsent(s: Snapshot, n: nat, F: set<Path>, disk: seq<Block>, ib: seq<nat>)
    requires s.Ok() && s.per > 0 && n > NDIR && Cut(s, n, 1, disk, ib) && s.ib[IND] == 0 && disk == s.disk
    ensures Cut(s, n, 2, disk, ib) && AddsTail(s, F, F, Ind, n - NDIR, s.per) && SameBelow(s, disk, Dind)
  {
    hide Word;
    assert s.Old(Ind) == 0 && InTree(s.per, Ind);
    forall q | InTree(s.per, q) && q.IndEntry? ensures s.Old(q) == 0 { AbsentBelow(s, Ind, q); }
  }

  lemma FreedInd(s: Snapshot, n: nat, F: set<Path>, F': set<Path>)
    requires s.per > 0 && n <= NDIR && FreedTo(s, n, 1, F) && AddsUnder(s, F, F', Ind)
    ensures FreedTo(s, n, 2, F')
  {
    hide At;
  }

  lemma FreedIndTail(s: Snapshot, n: nat, F: set<Path>, F': set<Path>)
    requires s.per > 0 && n > NDIR && FreedTo(s, n, 1, F) && AddsTail(s, F, F', Ind, n - NDIR, s.per)
    ensures FreedTo(s, n, 2, F')
  {
    hide At;
  }

  /** The double indirect block: freed whole, or cut at the new end. */
  method CutDind(vol: Volume, ino: Inode, ghost s: Snapshot, n: nat, ghost F: set<Path>) returns (ghost F': set<Path>)
    requires Between(vol, ino, s, n, 2, F) && SameBelow(s, vol.disk, Dind)
    modifies vol, ino`iBlock, ino`iBlocks
    ensures Between(vol, ino, s, n, 3, F')
  {
    hide VolumeOk, At, Word, Tracks, TreeOk, Delta, OthersKept, WordAt, Cut, FreedTo;
    Shape(s);
    CutRoots(s, n, 2, vol.disk, ino.iBlock);
    FreedOutside(s, n, 2, F);
    F' := F;
    if n <= NDIR + vol.geo.perBlock {
      DindGone(s, n, vol.disk, ino.iBlock);
      if ino.iBlock[DIND] != 0 {
        F' := FreeInd(vol, ino, s, F, Dind, ino.iBlock[DIND], 2);
        ino.iBlock := ino.iBlock[DIND := 0];
      } else {
        NothingUnder(s, F, Dind);
        assert ino.iBlock[DIND := 0] == ino.iBlock;
      }
      FreedDind(s, n, F, F');
    } else {
      if ino.iBlock[DIND] != 0 {
        F' := CutDindTail(vol, ino, s, n, F);
      } else {
        DindAbsent(s, n, F, vol.disk, ino.iBlock);
      }
    }
  }

  lemma DindGone(s: Snapshot, n: nat, disk: seq<Block>, ib: seq<nat>)
    requires s.Ok() && s.per > 0 && n <= NDIR + s.per && Cut(s, n, 2, disk, ib)
    ensures Cut(s, n, 3, disk, ib[DIND := 0])
  {
    hide Word, Kept;
    forall q | InTree(s.per, q) ensures At(disk, ib[DIND := 0], q) == if !s.Spares(n, q) then 0 else s.Old(q) {
      assert At(disk, ib, q) == if Stage(q) < 2 && !s.Spares(n, q) then 0 else s.Old(q);
      if Stage(q) == 2 { NoneKept(s.per, n, q); }
    }
  }

  lemma DindAbsent(s: Snapshot, n: nat, F: set<Path>, disk: seq<Block>, ib: seq<nat>)
    requires s.Ok() && s.per > 0 && Cut(s, n, 2, disk, ib) && FreedTo(s, n, 2, F) && s.Old(Dind) == 0
    ensures Cut(s, n, 3, disk, ib) && FreedTo(s, n, 3, F)
  {
    hide Word;
    assert InTree(s.per, Dind);
    forall q | InTree(s.per, q) && Stage(q) == 2 ensures s.Old(q) == 0 { AbsentBelow(s, Dind, q); }
  }

  lemma NoneKept(per: nat, n: nat, q: Path)
    requires per > 0 && n <= NDIR + per && Stage(q) == 2
    ensures !Kept(per, n, q)
  {
    if q.DindSub? { assert q.i * per >= 0; }
  }

  lemma FreedDind(s: Snapshot, n: nat, F: set<Path>, F': set<Path>)
    requires s.per > 0 && n <= NDIR + s.per && FreedTo(s, n, 2, F) && AddsUnder(s, F, F', Dind)
    ensures FreedTo(s, n, 3, F')
  {
    hide At, Kept;
    forall q | Stage(q) == 2 ensures !Kept(s.per, n, q) { NoneKept(s.per, n, q); }
  }

  /** The places below the first i pointers of the double indirect block that do not survive. */
  ghost predicate FreedDindTo(s: Snapshot, n: nat, F: set<Path>, F': set<Path>, i: nat)
    requires s.per > 0
  {
    forall q :: q in F' <==> q in F || (InTree(s.per, q) && UnderFirst(Dind, i, q) && !Kept(s.per, n, q) && s.Old(q) != 0)
  }

  /** The disk while the double indirect block is being cut: only the boundary block differs from disk0. */
  ghost predicate BoundaryCut(s: Snapshot, disk0: seq<Block>, disk: seq<Block>, e: nat, start: nat, done: bool) {
    if done && e != 0 then e < |disk0| == |disk| && e < |s.disk| && disk == disk0[e := disk[e]] && Cleared(s.per, s.disk[e], disk[e], start, s.per)
    else disk == disk0
  }

  method CutDindTail(vol: Volume, ino: Inode, ghost s: Snapshot, n: nat, ghost F: set<Path>)
    returns (ghost F': set<Path>)
    requires Between(vol, ino, s, n, 2, F) && SameBelow(s, vol.disk, Dind) && n > NDIR + s.per && s.Old(Dind) != 0
    modifies vol, ino`iBlocks
    ensures Between(vol, ino, s, n, 3, F')
  {
    hide VolumeOk, At, Word, PutWord, Tracks, TreeOk, Delta, OthersKept, WordAt, Cut, FreedTo, Kept, CutEntry,
         CutRest, FreedDindTo, SameBelow;
    Shape(s);
    CutRoots(s, n, 2, vol.disk, ino.iBlock);
    FreedOutside(s, n, 2, F);
    ghost var disk0 := vol.disk;
    var per := vol.geo.perBlock;
    var first, rest := CutEntry(per, n), CutRest(per, n);
    var b := ino.iBlock[DIND];
    ChildPointer(s, Dind, 0);
    SameRoot(s, vol.disk, Dind);
    var buf := vol.disk[b];
    ghost var e := if first < per then s.Old(DindEntry(first)) else 0;
    F' := F;
    if first < per {
      FreedDindNone(s, n, F, first);
      for i := first to per
        invariant vol.Valid() && Tracks(s, F', vol.UsedBlocks(), vol.sbFree, ino.iBlocks)
        invariant Cleared(per, s.disk[b], buf, first + 1, i) && FreedDindTo(s, n, F, F', i)
        invariant BoundaryCut(s, disk0, vol.disk, e, rest, i > first)
      {
        ChildPointer(s, Dind, i);
        assert Word(buf, i) == s.Old(DindEntry(i));
        ghost var before := F';
        EntryReady(s, n, F, F', disk0, vol.disk, first, e, rest, i);
        if i == first {
          if Word(buf, i) != 0 {
            F' := FreeTail(vol, ino, s, F', DindEntry(i), Word(buf, i), rest);
          }
          BoundaryFreed(s, n, F, before, F', first, rest);
        } else {
          ClearOne(per, s.disk[b], buf, first + 1, i);
          if Word(buf, i) != 0 {
            F' := FreeInd(vol, ino, s, F', DindEntry(i), Word(buf, i), 1);
            buf := PutWord(buf, i, 0);
          } else {
            NothingUnder(s, F', DindEntry(i));
          }
          EntryFreed(s, n, F, before, F', i);
        }
      }
    }
    FreedDindAll(s, n, F, F', first);
    DindTail(s, n, disk0, vol.disk, ino.iBlock, first, rest, e, buf);
    DiskWrittenAt(vol.geo, vol.bitmaps, vol.freeCount, vol.sbFree, vol.disk, b, buf);
    vol.disk := vol.disk[b := buf];
  }

  lemma SameRoot(s: Snapshot, disk: seq<Block>, p: Path)
    requires SameBelow(s, disk, p) && InTree(s.per, p) && !IsData(p) && 0 < s.Old(p) < |s.disk|
    ensures |disk| == |s.disk| && disk[s.Old(p)] == s.disk[s.Old(p)]
  {
  }

  lemma FreedDindNone(s: Snapshot, n: nat, F: set<Path>, first: nat)
    requires s.per > 0 && n > NDIR + s.per && first == CutEntry(s.per, n)
    ensures FreedDindTo(s, n, F, F, first)
  {
    hide At;
    forall q | InTree(s.per, q) && UnderFirst(Dind, first, q) ensures Kept(s.per, n, q) {
      if q.DindSub? { KeptSub(s.per, n, q.i, q.j); }
    }
  }

  /** Before entry i is handled, nothing below it was freed and its pointer blocks are untouched. */
  lemma EntryReady(s: Snapshot, n: nat, F: set<Path>, G: set<Path>, disk0: seq<Block>, disk: seq<Block>, first: nat,
                   e: nat, start: nat, i: nat)
    requires s.Ok() && s.per > 0 && first <= i < s.per && e == s.Old(DindEntry(first)) && SameBelow(s, disk0, Dind)
    requires FreedDindTo(s, n, F, G, i) && (forall q :: q in F ==> Stage(q) < 2)
             && BoundaryCut(s, disk0, disk, e, start, i > first)
    ensures forall q :: q in G ==> !Under(DindEntry(i), q)
    ensures |disk| == |s.disk| && SameBelow(s, disk, DindEntry(i))
  {
    hide At, Kept;
    assert InTree(s.per, DindEntry(i)) && InTree(s.per, DindEntry(first));
  }

  lemma BoundaryFreed(s: Snapshot, n: nat, F: set<Path>, G: set<Path>, H: set<Path>, first: nat, rest: nat)
    requires s.Ok() && s.per > 0 && n > NDIR + s.per && first < s.per
    requires first == CutEntry(s.per, n) && rest == CutRest(s.per, n) && FreedDindTo(s, n, F, G, first)
    requires if s.Old(DindEntry(first)) != 0 then AddsTail(s, G, H, DindEntry(first), rest, s.per) else H == G
    ensures FreedDindTo(s, n, F, H, first + 1)
  {
    hide At, TreeOk;
    forall j: nat | j < s.per ensures Kept(s.per, n, DindSub(first, j)) <==> j < rest { KeptSub(s.per, n, first, j); }
    if s.Old(DindEntry(first)) == 0 {
      assert InTree(s.per, DindEntry(first));
      forall q | InTree(s.per, q) && Under(DindEntry(first), q)
        ensures s.Old(q) == 0 { AbsentBelow(s, DindEntry(first), q); }
    }
    hide Kept;
  }

  lemma EntryFreed(s: Snapshot, n: nat, F: set<Path>, G: set<Path>, H: set<Path>, i: nat)
    requires s.per > 0 && n > NDIR + s.per && i > CutEntry(s.per, n)
    requires FreedDindTo(s, n, F, G, i) && AddsUnder(s, G, H, DindEntry(i))
    ensures FreedDindTo(s, n, F, H, i + 1)
  {
    hide At;
    forall j: nat | j < s.per ensures !Kept(s.per, n, DindSub(i, j)) { KeptSub(s.per, n, i, j); }
  }

  lemma FreedDindAll(s: Snapshot, n: nat, F: set<Path>, F': set<Path>, first: nat)
    requires s.per > 0 && n > NDIR + s.per && first == CutEntry(s.per, n) && FreedTo(s, n, 2, F)
    requires if first < s.per then FreedDindTo(s, n, F, F', s.per) else F' == F
    ensures FreedTo(s, n, 3, F')
  {
    hide At;
    if first >= s.per {
      forall q | InTree(s.per, q) && Stage(q) == 2 ensures Kept(s.per, n, q) {
        if q.DindSub? { KeptSub(s.per, n, q.i, q.j); }
      }
    }
  }

  /** Writing back the double indirect block completes the last stage. */
  lemma DindTail(s: Snapshot, n: nat, disk0: seq<Block>, disk: seq<Block>, ib: seq<nat>, first: nat, rest: nat,
                 e: nat, buf: Block)
    requires s.Ok() && s.per > 0 && n > NDIR + s.per && Cut(s, n, 2, disk0, ib) && s.Old(Dind) != 0
             && SameBelow(s, disk0, Dind)
    requires first == CutEntry(s.per, n) && rest == CutRest(s.per, n)
    requires e == (if first < s.per then s.Old(DindEntry(first)) else 0)
             && BoundaryCut(s, disk0, disk, e, rest, first < s.per)
    requires 0 < s.Old(Dind) < |disk| && Cleared(s.per, s.disk[s.Old(Dind)], buf, first + 1, s.per)
    ensures Cut(s, n, 3, disk[s.Old(Dind) := buf], ib)
  {
    hide Word;
    var b := s.Old(Dind);
    var disk' := disk[b := buf];
    CutRoots(s, n, 2, disk0, ib);
    assert InTree(s.per, Dind) && InTree(s.per, Ind) && (first < s.per ==> InTree(s.per, DindEntry(first)));
    if e != 0 {
      PointerBlockWritten(s, disk0, DindEntry(first), disk[e]);
    }
    PointerBlockWritten(s, disk, Dind, buf);
    forall q | InTree(s.per, q) ensures At(disk', ib, q) == if !s.Spares(n, q) then 0 else s.Old(q) {
      assert At(disk0, ib, q) == if Stage(q) < 2 && !s.Spares(n, q) then 0 else s.Old(q);
      if q.IndEntry? {
        assert ib[IND] == 0 || ib[IND] == s.Old(Ind);
        assert ib[IND] != 0 ==> disk'[ib[IND]] == disk0[ib[IND]];
      } else if q.DindEntry? {
        assert s.Old(q) == Word(s.disk[b], q.i);
      } else if q.DindSub? {
        DindSubPointer(s, n, disk0, disk, ib, first, rest, e, buf, q.i, q.j);
      }
    }
  }

  lemma DindSubPointer(s: Snapshot, n: nat, disk0: seq<Block>, disk: seq<Block>, ib: seq<nat>, first: nat, rest: nat,
                       e: nat,
                       buf: Block, i: nat, j: nat)
    requires s.Ok() && s.per > 0 && n > NDIR + s.per && |ib| == 15 && ib[DIND] == s.Old(Dind) != 0
             && SameBelow(s, disk0, Dind)
    requires first == CutEntry(s.per, n) && rest == CutRest(s.per, n) && i < s.per && j < s.per
    requires e == (if first < s.per then s.Old(DindEntry(first)) else 0)
             && BoundaryCut(s, disk0, disk, e, rest, first < s.per)
    requires 0 < s.Old(Dind) < |disk| && Cleared(s.per, s.disk[s.Old(Dind)], buf, first + 1, s.per)
    ensures At(disk[s.Old(Dind) := buf], ib, DindSub(i, j)) == if !Kept(s.per, n, DindSub(i, j)) then 0 else s.Old(DindSub(i, j))
  {
    hide Word, Kept;
    var b := s.Old(Dind);
    var disk' := disk[b := buf];
    KeptSub(s.per, n, i, j);
    var c := s.Old(DindEntry(i));
    assert InTree(s.per, DindEntry(i)) && InTree(s.per, Dind) && (first < s.per ==> InTree(s.per, DindEntry(first)));
    assert c == Word(s.disk[b], i) && WordAt(disk', b, i) == Word(buf, i) == if i > first then 0 else c;
    if i <= first && c != 0 {
      assert c != b && disk'[c] == disk[c];
      assert s.Old(DindSub(i, j)) == Word(s.disk[c], j) && disk0[c] == s.disk[c];
      assert i != first ==> disk[c] == disk0[c];
    }
  }

  // ---- sizes as the code sees them ----

  /** Division of the source: toward zero. */
  function TruncDiv(x: int, d: nat): (q: int)
    requires d > 0
  {
    if x >= 0 then x / d else -((-x) / d)
  }

  /** The number of blocks a file of the given size has. */
  function BlocksFor(geo: Geometry, size: nat): (n: nat)
    requires geo.perBlock > 0
  {
    (size + geo.BlockSize() - 1) / geo.BlockSize()
  }

  /** new_blocks: signed arithmetic on the length, cut to 32 bits. */
  function NewBlocks(geo: Geometry, newSize: int): (n: nat)
    requires geo.perBlock > 0
    ensures n < TWO_32
    ensures newSize >= 0 ==> n == BlocksFor(geo, newSize) % TWO_32
  {
    TruncDiv(newSize + geo.BlockSize() - 1, geo.BlockSize()) % TWO_32
  }

  /** old_blocks: unsigned 64-bit arithmetic on the size, cut to 32 bits. */
  function OldBlocks(geo: Geometry, size: nat): (n: nat)
    requires geo.perBlock > 0
    ensures n < TWO_32
    ensures size + geo.BlockSize() <= TWO_64 ==> n == BlocksFor(geo, size) % TWO_32
  {
    (size + geo.BlockSize() - 1) % TWO_64 / geo.BlockSize() % TWO_32
  }

  /** The loop variable over the direct pointers is negative, and an entry before i_block is accessed. */
  predicate Faults(n: nat, o: nat) {
    TWO_31 <= n < o
  }

  /**
   ext2_truncate_blocks; the result of the whole call against the old tree. What survives depends on the two
   block counts as the code sees them. When it faults nothing is said of what follows.
   */
  method Truncate(vol: Volume, ino: Inode, newSize: int) returns (fault: bool, ghost dropped: set<nat>)
    requires FileOk(vol, ino) && newSize + TWO_63 >= 0 && newSize + vol.geo.BlockSize() <= TWO_63 && ino.size < TWO_64
    modifies vol, ino`iBlock, ino`iBlocks
    ensures vol.geo.perBlock > 0 && (fault <==> Faults(NewBlocks(vol.geo, newSize), OldBlocks(vol.geo, ino.size)))
    ensures !fault ==> FileOk(vol, ino)
    ensures !fault ==> forall p :: InTree(vol.geo.perBlock, p) ==>
              At(vol.disk, ino.iBlock, p) ==
              if Spared(vol.geo.perBlock, NewBlocks(vol.geo, newSize), OldBlocks(vol.geo, ino.size), p)
              then At(old(vol.disk), old(ino.iBlock), p) else 0
    ensures !fault ==>
              dropped == Blocks(old(vol.disk), old(ino.iBlock), vol.geo.perBlock) - Blocks(vol.disk, ino.iBlock, vol.geo.perBlock)
    ensures !fault ==> Blocks(vol.disk, ino.iBlock, vol.geo.perBlock) <= Blocks(old(vol.disk), old(ino.iBlock), vol.geo.perBlock)
    ensures !fault ==> vol.UsedBlocks() == old(vol.UsedBlocks()) - dropped && vol.sbFree == old(vol.sbFree) + |dropped|
    ensures !fault ==> ino.iBlocks == old(ino.iBlocks) - Delta(vol.geo) * |dropped|
    ensures !fault ==> InSectors(vol.geo, old(ino.iBlocks) - ino.iBlocks, vol.sbFree - old(vol.sbFree))
    ensures !fault ==> OthersKept(old(vol.disk), old(vol.UsedBlocks()), old(ino.iBlock), vol.geo.perBlock, vol.disk)
  {
    hide VolumeOk, At, Word, PutWord, Tracks, TreeOk, Delta, OthersKept, WordAt, FreedTo, Kept, Blocks, Between,
         BlocksFor, NewBlocks, OldBlocks, InSectors;
    PositivePer(vol.geo, vol.bitmaps, vol.freeCount, vol.sbFree, vol.disk);
    var n, o := NewBlocks(vol.geo, newSize), OldBlocks(vol.geo, ino.size);
    dropped := {};
    if TWO_31 <= n < o { return true, {}; }
    ghost var s := Snapshot(vol.disk, vol.UsedBlocks(), ino.iBlock, vol.geo.perBlock, vol.sbFree, ino.iBlocks,
                            Delta(vol.geo), o);
    StartCut(vol, ino, s, n);
    ghost var F := CutDirect(vol, ino, s, n, o);
    F := CutInd(vol, ino, s, n, F);
    F := CutDind(vol, ino, s, n, F);
    dropped := Finished(vol, ino, s, n, F);
    DeltaSectors(vol.geo, |dropped|);
    fault := false;
  }

  lemma StartCut(vol: Volume, ino: Inode, s: Snapshot, n: nat)
    requires FileOk(vol, ino) && s.per > 0
    requires s == Snapshot(vol.disk, vol.UsedBlocks(), ino.iBlock, vol.geo.perBlock, vol.sbFree, ino.iBlocks, Delta(vol.geo), s.end)
    ensures Between(vol, ino, s, n, 0, {})
  {
    hide At, Delta;
    assert Image(s, {}) == {};
  }

  /** When all stages are done: what left the tree is what was given back. */
  lemma Finished(vol: Volume, ino: Inode, s: Snapshot, n: nat, F: set<Path>) returns (dropped: set<nat>)
    requires Between(vol, ino, s, n, 3, F)
    ensures FileOk(vol, ino) && vol.geo.perBlock == s.per > 0 && s.delta == Delta(vol.geo)
    ensures forall p :: InTree(s.per, p) ==> At(vol.disk, ino.iBlock, p) == if s.Spares(n, p) then s.Old(p) else 0
    ensures dropped == Blocks(s.disk, s.ib, s.per) - Blocks(vol.disk, ino.iBlock, s.per)
    ensures Blocks(vol.disk, ino.iBlock, s.per) <= Blocks(s.disk, s.ib, s.per)
    ensures vol.UsedBlocks() == s.used - dropped && vol.sbFree == s.free + |dropped|
            && ino.iBlocks == s.units - s.delta * |dropped|
    ensures OthersKept(s.disk, s.used, s.ib, s.per, vol.disk)
  {
    hide At, Kept, VolumeOk, Delta;
    dropped := Image(s, F);
    ImageCount(s, F);
    DroppedBlocks(s, n, F, vol.disk, ino.iBlock);
  }

  lemma DroppedBlocks(s: Snapshot, n: nat, F: set<Path>, disk: seq<Block>, ib: seq<nat>)
    requires s.Ok() && s.per > 0 && FreedTo(s, n, 3, F) && Cut(s, n, 3, disk, ib)
    ensures Image(s, F) == Blocks(s.disk, s.ib, s.per) - Blocks(disk, ib, s.per)
    ensures Blocks(disk, ib, s.per) <= Blocks(s.disk, s.ib, s.per)
    ensures TreeOk(disk, s.used - Image(s, F), ib, s.per)
  {
    hide At, Kept;
    assert forall q :: InTree(s.per, q) ==> At(disk, ib, q) == if s.Spares(n, q) then s.Old(q) else 0;
    var B, B' := Blocks(s.disk, s.ib, s.per), Blocks(disk, ib, s.per);
    forall b | b in B' ensures b in B && b !in Image(s, F) {
      var q :| InTree(s.per, q) && At(disk, ib, q) == b;
      assert s.Old(q) == b;
    }
    forall b | b in B && b !in B' ensures b in Image(s, F) {
      var q :| InTree(s.per, q) && s.Old(q) == b;
      assert q in F;
    }
  }

  /** ext2_delete of an inode without links: every block of the tree is given back, the inode is cleared. */
  method Delete(vol: Volume, ino: Inode)
    requires FileOk(vol, ino)
    modifies vol, ino
    ensures vol.Valid() && ino.iBlock == seq(15, _ => 0) && ino.iBlocks == 0 && ino.size == 0
    ensures var gone := Blocks(old(vol.disk), old(ino.iBlock), vol.geo.perBlock);
            vol.UsedBlocks() == old(vol.UsedBlocks()) - gone && vol.sbFree == old(vol.sbFree) + |gone|
    ensures OthersKept(old(vol.disk), old(vol.UsedBlocks()), old(ino.iBlock), vol.geo.perBlock, vol.disk)
  {
    hide VolumeOk, At, Word, PutWord, Tracks, TreeOk, Delta, OthersKept, WordAt, FreedTo, Kept, Blocks, Between;
    ghost var s := Snapshot(vol.disk, vol.UsedBlocks(), ino.iBlock, vol.geo.perBlock, vol.sbFree, ino.iBlocks,
                            Delta(vol.geo), NDIR);
    PositivePer(vol.geo, vol.bitmaps, vol.freeCount, vol.sbFree, vol.disk);
    StartCut(vol, ino, s, 0);
    Shape(s);
    ghost var F := CutDirect(vol, ino, s, 0, NDIR);
    F := CutInd(vol, ino, s, 0, F);
    F := CutDind(vol, ino, s, 0, F);
    ghost var dropped := Finished(vol, ino, s, 0, F);
    EmptyTree(s, vol.disk, ino.iBlock);
    ino.iBlock, ino.iBlocks, ino.size := seq(15, _ => 0), 0, 0;
  }

  lemma EmptyTree(s: Snapshot, disk: seq<Block>, ib: seq<nat>)
    requires s.per > 0 && s.end == NDIR
             && forall p :: InTree(s.per, p) ==> At(disk, ib, p) == if s.Spares(0, p) then s.Old(p) else 0
    ensures Blocks(disk, ib, s.per) == {}
  {
    hide At;
    forall p | InTree(s.per, p) ensures At(disk, ib, p) == 0 {
      assert p.DindSub? ==> p.i * s.per >= 0;
    }
  }
}
