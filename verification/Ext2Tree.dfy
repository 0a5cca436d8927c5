/**
 The block tree of an ext2 inode (src/fs/ext2.c): twelve direct pointers, one indirect block and one
 double indirect block. ext2_bmap reads it and ext2_bmap_alloc grows it one pointer at a time.
 */
module Ext2Tree {
  import opened Common
  import opened Ext2Volume

  const NDIR: nat := 12
  const IND: nat := 12
  const DIND: nat := 13

  /** The places of the tree that hold a block number. */
  datatype Path = Direct(i: nat) | Ind | IndEntry(i: nat) | Dind | DindEntry(i: nat) | DindSub(i: nat, j: nat)

  predicate InTree(per: nat, p: Path) {
    match p
    case Direct(i) => i < NDIR
    case Ind | Dind => true
    case IndEntry(i) => i < per
    case DindEntry(i) => i < per
    case DindSub(i, j) => i < per && j < per
  }

  /** Paths that lead to file data, as opposed to blocks of pointers. */
  predicate IsData(p: Path) { p.Direct? || p.IndEntry? || p.DindSub? }

  /** Word i of block b, 0 where there is no such word. */
  function WordAt(disk: seq<Block>, b: nat, i: nat): (w: nat) {
    if b == 0 || b >= |disk| || 4 * i + 4 > |disk[b]| then 0 else Word(disk[b], i)
  }

  /** The block number stored at p; 0 is a hole. */
  function At(disk: seq<Block>, ib: seq<nat>, p: Path): (b: nat) {
    if |ib| != 15 then 0 else
    match p
    case Direct(i) => if i < NDIR then ib[i] else 0
    case Ind => ib[IND]
    case IndEntry(i) => WordAt(disk, ib[IND], i)
    case Dind => ib[DIND]
    case DindEntry(i) => WordAt(disk, ib[DIND], i)
    case DindSub(i, j) => WordAt(disk, WordAt(disk, ib[DIND], i), j)
  }

  /** The path of a logical block, as ext2_bmap divides the range. */
  function PathOf(per: nat, l: nat): (p: Option<Path>)
    requires per > 0
  {
    if l < NDIR then Some(Direct(l))
    else if l < NDIR + per then Some(IndEntry(l - NDIR))
    else if l < NDIR + per + per * per then
      Some(DindSub((l - NDIR - per) / per, (l - NDIR - per) % per))
    else None
  }

  /** The logical block of a data path: the inverse of PathOf. */
  function LogicalOf(per: nat, p: Path): (l: nat)
    requires IsData(p)
  {
    match p
    case Direct(i) => i
    case IndEntry(i) => NDIR + i
    case DindSub(i, j) => NDIR + per + i * per + j
  }

  /**
   The words that say where a logical block is: in the inode, in the block its word 12 names, or two levels
   below 13.
   */
  lemma WhereMapped(disk: seq<Block>, used: set<nat>, ib: seq<nat>, per: nat, i: nat, j: nat)
    requires TreeOk(disk, used, ib, per) && i < per && j < per
    ensures |ib| == 15
            && forall l: nat :: l < 12 ==> PathOf(per, l).Some? && At(disk, ib, PathOf(per, l).value) == ib[l]
    ensures PathOf(per, 12 + j).Some? && At(disk, ib, PathOf(per, 12 + j).value) == WordAt(disk, ib[12], j)
    ensures var l := 12 + per + i * per + j;
            PathOf(per, l).Some? && At(disk, ib, PathOf(per, l).value) == WordAt(disk, WordAt(disk, ib[13], i), j)
  {
    PathOfLogical(per, IndEntry(j));
    PathOfLogical(per, DindSub(i, j));
  }

  lemma PathOfLogical(per: nat, p: Path)
    requires per > 0 && InTree(per, p) && IsData(p)
    ensures PathOf(per, LogicalOf(per, p)) == Some(p)
  {
    if p.DindSub? {
      DivMod(p.i, p.j, per);
      MulStep(p.i, per, per);
    }
  }

  lemma LogicalOfPath(per: nat, l: nat)
    requires per > 0
    ensures PathOf(per, l).Some? ==>
              var p := PathOf(per, l).value; InTree(per, p) && IsData(p) && LogicalOf(per, p) == l
    ensures PathOf(per, l).None? <==> l >= NDIR + per + per * per
  {
    if NDIR + per <= l < NDIR + per + per * per {
      Quotient(l - NDIR - per, per, per);
    }
  }

  /** Every block of the tree is in use, and no block is in two places. */
  ghost predicate TreeOk(disk: seq<Block>, used: set<nat>, ib: seq<nat>, per: nat) {
    && |ib| == 15 && per > 0 && |disk| < TWO_32 && (forall b :: 0 <= b < |disk| ==> |disk[b]| == 4 * per)
    && (forall p :: InTree(per, p) && At(disk, ib, p) != 0 ==> At(disk, ib, p) < |disk| && At(disk, ib, p) in used)
    && (forall p, q :: InTree(per, p) && InTree(per, q) && At(disk, ib, p) != 0 && At(disk, ib, p) == At(disk, ib, q) ==> p == q)
  }

  /** The blocks of the tree, data and pointers. */
  ghost function Blocks(disk: seq<Block>, ib: seq<nat>, per: nat): set<nat> {
    set b: nat | 0 < b < |disk| && InBlocks(disk, ib, per, b)
  }

  ghost predicate InBlocks(disk: seq<Block>, ib: seq<nat>, per: nat, b: nat) {
    exists p :: InTree(per, p) && At(disk, ib, p) == b
  }

  /** A block of pointers of the tree. */
  ghost predicate IsPointerBlock(disk: seq<Block>, ib: seq<nat>, per: nat, b: nat) {
    exists p :: InTree(per, p) && !IsData(p) && At(disk, ib, p) == b
  }

  /** Blocks in use that are not pointer blocks of this tree keep their contents. */
  ghost predicate OthersKept(disk: seq<Block>, used: set<nat>, ib: seq<nat>, per: nat, disk': seq<Block>) {
    |disk'| == |disk|
    && forall b :: b in used && 0 < b < |disk| && !IsPointerBlock(disk, ib, per, b) ==> disk'[b] == disk[b]
  }

  lemma WordAtPut(disk: seq<Block>, x: nat, i: nat, v: nat, y: nat, j: nat)
    requires 0 < x < |disk| && 4 * i + 4 <= |disk[x]| && v < TWO_32
    ensures WordAt(disk[x := PutWord(disk[x], i, v)], y, j) == if y == x && j == i then v else WordAt(disk, y, j)
    ensures |PutWord(disk[x], i, v)| == |disk[x]|
  {
    if y == x && 4 * j + 4 <= |disk[x]| { WordOfPut(disk[x], i, v, j); }
  }

  /** The block and word that hold the pointer at p; block 0 stands for the inode itself. */
  function Slot(disk: seq<Block>, ib: seq<nat>, p: Path): (s: (nat, nat))
    requires |ib| == 15
  {
    match p
    case Direct(i) => (0, i)
    case Ind => (0, IND)
    case Dind => (0, DIND)
    case IndEntry(i) => (ib[IND], i)
    case DindEntry(i) => (ib[DIND], i)
    case DindSub(i, j) => (WordAt(disk, ib[DIND], i), j)
  }

  /** The block that holds the pointer at p exists. */
  predicate HasParent(disk: seq<Block>, ib: seq<nat>, p: Path)
    requires |ib| == 15
  {
    !(p.Direct? || p.Ind? || p.Dind?) ==> Slot(disk, ib, p).0 != 0
  }

  /** Writing the pointer at p: the inode and the disk afterwards. */
  function SetPointer(disk: seq<Block>, ib: seq<nat>, p: Path, v: nat): (r: (seq<Block>, seq<nat>))
    requires |ib| == 15 && v < TWO_32
  {
    var (b, i) := Slot(disk, ib, p);
    if b == 0 then (disk, if i < 15 then ib[i := v] else ib)
    else if b < |disk| && 4 * i + 4 <= |disk[b]| then (disk[b := PutWord(disk[b], i, v)], ib)
    else (disk, ib)
  }

  /** A fresh block linked at an empty place changes the tree at that place only. */
  lemma PointerSet(disk: seq<Block>, used: set<nat>, ib: seq<nat>, per: nat, p: Path, v: nat, q: Path)
    requires TreeOk(disk, used, ib, per) && InTree(per, p) && InTree(per, q) && HasParent(disk, ib, p)
    requires At(disk, ib, p) == 0 && v < TWO_32 && v !in used && 0 < v < |disk|
    requires !IsData(p) ==> forall j :: 0 <= j < per ==> WordAt(disk, v, j) == 0
    ensures var (disk', ib') := SetPointer(disk, ib, p, v);
            |ib'| == 15 && |disk'| == |disk| && At(disk', ib', q) == if q == p then v else At(disk, ib, q)
  {
    hide Word, PutWord;
    var (disk', ib') := SetPointer(disk, ib, p, v);
    var (x, i) := Slot(disk, ib, p);
    if x != 0 {
      assert At(disk, ib, Ind) == ib[IND] && At(disk, ib, Dind) == ib[DIND];
      assert p.DindSub? ==> At(disk, ib, DindEntry(p.i)) == x;
      assert InTree(per, Ind) && InTree(per, Dind) && (p.DindSub? ==> InTree(per, DindEntry(p.i)));
      forall y, j ensures WordAt(disk', y, j) == if y == x && j == i then v else WordAt(disk, y, j) {
        WordAtPut(disk, x, i, v, y, j);
      }
      assert q.DindSub? ==> At(disk, ib, DindEntry(q.i)) == WordAt(disk, ib[DIND], q.i);
      assert q.DindSub? ==> InTree(per, DindEntry(q.i));
    }
  }

  /** The tree after growing at p by block v: the same everywhere else, and still a tree. */
  ghost predicate Grown(disk: seq<Block>, used: set<nat>, ib: seq<nat>, disk': seq<Block>, used': set<nat>,
                        ib': seq<nat>,
                        per: nat, p: Path, v: nat) {
    && TreeOk(disk', used', ib', per) && v !in used && 0 < v < |disk| && used' == used + {v}
    && OthersKept(disk, used, ib, per, disk')
    && (forall q :: InTree(per, q) ==> At(disk', ib', q) == if q == p then v else At(disk, ib, q))
  }

  lemma GrownAt(disk: seq<Block>, used: set<nat>, ib: seq<nat>, per: nat, p: Path, v: nat)
    requires TreeOk(disk, used, ib, per) && InTree(per, p) && HasParent(disk, ib, p)
    requires At(disk, ib, p) == 0 && v < TWO_32 && v !in used && 0 < v < |disk|
    requires !IsData(p) ==> forall j :: 0 <= j < per ==> WordAt(disk, v, j) == 0
    ensures var (disk', ib') := SetPointer(disk, ib, p, v); Grown(disk, used, ib, disk', used + {v}, ib', per, p, v)
  {
    hide Word, PutWord, WordAt;
    var (disk', ib') := SetPointer(disk, ib, p, v);
    forall q | InTree(per, q) ensures At(disk', ib', q) == if q == p then v else At(disk, ib, q) {
      PointerSet(disk, used, ib, per, p, v, q);
    }
    assert |ib'| == 15;
    SlotIsPointer(disk, used, ib, per, p, v);
  }

  /** The only block a pointer write changes is a pointer block of the tree. */
  lemma SlotIsPointer(disk: seq<Block>, used: set<nat>, ib: seq<nat>, per: nat, p: Path, v: nat)
    requires TreeOk(disk, used, ib, per) && InTree(per, p) && v < TWO_32
    ensures var (disk', ib') := SetPointer(disk, ib, p, v);
            && OthersKept(disk, used, ib, per, disk') && |disk'| == |disk| && |ib'| == 15
            && (forall b :: 0 <= b < |disk| ==> |disk'[b]| == |disk[b]|)
  {
    hide Word;
    var (disk', ib') := SetPointer(disk, ib, p, v);
    var (x, i) := Slot(disk, ib, p);
    if x != 0 {
      var up := if p.IndEntry? then Ind else if p.DindEntry? then Dind else DindEntry(p.i);
      assert At(disk, ib, up) == x && InTree(per, up) && !IsData(up);
      WordAtPut(disk, x, i, v, x, i);
    }
  }

  lemma GrownBlocks(disk: seq<Block>, used: set<nat>, ib: seq<nat>, disk': seq<Block>, used': set<nat>, ib': seq<nat>,
                    per: nat, p: Path, v: nat)
    requires TreeOk(disk, used, ib, per) && InTree(per, p) && At(disk, ib, p) == 0
    requires Grown(disk, used, ib, disk', used', ib', per, p, v)
    ensures Blocks(disk', ib', per) == Blocks(disk, ib, per) + {v} && v !in Blocks(disk, ib, per)
    ensures |Blocks(disk', ib', per)| == |Blocks(disk, ib, per)| + 1
  {
    hide At;
    var B, B' := Blocks(disk, ib, per), Blocks(disk', ib', per);
    forall b | b in B ensures b in B' {
      var q :| InTree(per, q) && At(disk, ib, q) == b;
      assert At(disk', ib', q) == b;
    }
    forall b | b in B' && b != v ensures b in B {
      var q :| InTree(per, q) && At(disk', ib', q) == b;
      assert At(disk, ib, q) == b;
    }
    assert At(disk', ib', p) == v;
  }

  /** A block that is not in use takes no part in the tree. */
  lemma OutsideBlock(disk: seq<Block>, used: set<nat>, ib: seq<nat>, per: nat, v: nat, blk: Block)
    requires TreeOk(disk, used, ib, per) && 0 < v < |disk| && v !in used && |blk| == 4 * per
    ensures TreeOk(disk[v := blk], used, ib, per)
    ensures forall q :: InTree(per, q) ==> At(disk[v := blk], ib, q) == At(disk, ib, q)
  {
    hide Word;
    forall q | InTree(per, q) ensures At(disk[v := blk], ib, q) == At(disk, ib, q) {
      assert InTree(per, Ind) && InTree(per, Dind) && At(disk, ib, Ind) == ib[IND] && At(disk, ib, Dind) == ib[DIND];
      assert q.DindSub? ==> InTree(per, DindEntry(q.i)) && At(disk, ib, DindEntry(q.i)) == WordAt(disk, ib[DIND], q.i);
    }
  }

  /**
   The tree after ext2_bmap_alloc worked on data path t: nothing that was mapped moved, no other
   data path changed, and the new blocks of the tree are exactly the blocks newly in use.
   */
  ghost predicate Extended(disk: seq<Block>, used: set<nat>, ib: seq<nat>, disk': seq<Block>, used': set<nat>,
                           ib': seq<nat>,
                           per: nat, t: Path) {
    && TreeOk(disk', used', ib', per) && used <= used' && OthersKept(disk, used, ib, per, disk')
    && (forall q :: InTree(per, q) && At(disk, ib, q) != 0 ==> At(disk', ib', q) == At(disk, ib, q))
    && (forall q :: InTree(per, q) && IsData(q) && q != t ==> At(disk', ib', q) == At(disk, ib, q))
    && (forall b :: b in used && !IsPointerBlock(disk, ib, per, b) ==> !IsPointerBlock(disk', ib', per, b) || b == 0)
    && Blocks(disk', ib', per) == Blocks(disk, ib, per) + (used' - used)
  }

  lemma ExtendedSelf(disk: seq<Block>, used: set<nat>, ib: seq<nat>, per: nat, t: Path)
    requires TreeOk(disk, used, ib, per)
    ensures Extended(disk, used, ib, disk, used, ib, per, t)
  {
  }

  lemma ExtendedTransitive(d0: seq<Block>, u0: set<nat>, i0: seq<nat>, d1: seq<Block>, u1: set<nat>, i1: seq<nat>,
                           d2: seq<Block>, u2: set<nat>, i2: seq<nat>, per: nat, t: Path)
    requires Extended(d0, u0, i0, d1, u1, i1, per, t) && Extended(d1, u1, i1, d2, u2, i2, per, t)
    ensures Extended(d0, u0, i0, d2, u2, i2, per, t)
  {
    hide At, InTree, TreeOk, InBlocks;
    assert forall b :: b in u0 && 0 < b < |d0| && !IsPointerBlock(d0, i0, per, b) ==> d2[b] == d0[b];
  }

  lemma GrownExtends(disk: seq<Block>, used: set<nat>, ib: seq<nat>, disk': seq<Block>, used': set<nat>, ib': seq<nat>,
                     per: nat, p: Path, v: nat, t: Path)
    requires TreeOk(disk, used, ib, per) && InTree(per, p) && At(disk, ib, p) == 0 && (IsData(p) ==> p == t)
    requires Grown(disk, used, ib, disk', used', ib', per, p, v)
    ensures Extended(disk, used, ib, disk', used', ib', per, t)
  {
    hide At, InTree, TreeOk;
    GrownBlocks(disk, used, ib, disk', used', ib', per, p, v);
  }

  /** Linking block v at p: a new pointer block is zeroed, a new data block is left as it is. */
  function Linked(disk: seq<Block>, ib: seq<nat>, per: nat, p: Path, v: nat): (r: (seq<Block>, seq<nat>))
    requires |ib| == 15 && v < TWO_32 && v < |disk|
  {
    SetPointer(if IsData(p) then disk else disk[v := Zeros(4 * per)], ib, p, v)
  }

  lemma LinkBlock(disk: seq<Block>, used: set<nat>, ib: seq<nat>, per: nat, p: Path, v: nat, t: Path)
    requires TreeOk(disk, used, ib, per) && InTree(per, p) && HasParent(disk, ib, p) && (IsData(p) ==> p == t)
    requires At(disk, ib, p) == 0 && v < TWO_32 && v !in used && 0 < v < |disk|
    ensures var (disk', ib') := Linked(disk, ib, per, p, v);
            && Extended(disk, used, ib, disk', used + {v}, ib', per, t)
            && |disk'| == |disk| && (forall b :: 0 <= b < |disk| ==> |disk'[b]| == |disk[b]|)
            && |Blocks(disk', ib', per)| == |Blocks(disk, ib, per)| + 1
            && (forall q :: InTree(per, q) ==> At(disk', ib', q) == if q == p then v else At(disk, ib, q))
  {
    hide Word, PutWord, SetPointer, Blocks, Extended, At;
    var disk1 := if IsData(p) then disk else disk[v := Zeros(4 * per)];
    OutsideBlock(disk, used, ib, per, v, disk1[v]);
    assert disk1 == disk[v := disk1[v]];
    ParentKept(disk, disk1, used, ib, per, p, v);
    GrownAt(disk1, used, ib, per, p, v);
    SlotIsPointer(disk1, used, ib, per, p, v);
    var (disk', ib') := SetPointer(disk1, ib, p, v);
    assert Grown(disk, used, ib, disk', used + {v}, ib', per, p, v);
    GrownExtends(disk, used, ib, disk', used + {v}, ib', per, p, v, t);
    GrownBlocks(disk, used, ib, disk', used + {v}, ib', per, p, v);
  }

  lemma ParentKept(disk: seq<Block>, disk1: seq<Block>, used: set<nat>, ib: seq<nat>, per: nat, p: Path, v: nat)
    requires TreeOk(disk, used, ib, per) && InTree(per, p) && HasParent(disk, ib, p)
    requires 0 < v < |disk| == |disk1| && v !in used && disk1 == disk[v := disk1[v]]
    requires !IsData(p) ==> disk1[v] == Zeros(4 * per)
    ensures HasParent(disk1, ib, p)
    ensures !IsData(p) ==> forall j :: 0 <= j < per ==> WordAt(disk1, v, j) == 0
  {
    assert InTree(per, Dind) && At(disk, ib, Dind) == ib[DIND];
  }

  /** The in-memory inode: i_block, i_blocks (in 512-byte units) and the file size. */
  class Inode {
    var iBlock: seq<nat>
    var iBlocks: int
    var size: nat
    // what the inode's 32-bit i_size on disk holds
    var iSize: nat
  }

  /** i_blocks units per block: 2 << s_log_block_size. */
  function Delta(geo: Geometry): (d: nat) { geo.BlockSize() / 512 }

  /** i_blocks counts sectors of 512 bytes: so many of them are so many blocks. */
  predicate InSectors(geo: Geometry, sectors: int, blocks: int) {
    geo.BlockSize() % 512 == 0 ==> 512 * sectors == geo.BlockSize() * blocks
  }

  lemma DeltaSectors(geo: Geometry, n: int)
    ensures InSectors(geo, Delta(geo) * n, n)
  {
    if geo.BlockSize() % 512 == 0 {
      var d := Delta(geo);
      assert geo.BlockSize() == 512 * d;
      assert 512 * (d * n) == 512 * d * n;
    }
  }

  ghost predicate FileOk(vol: Volume, ino: Inode)
    reads vol, ino
  {
    vol.Valid() && TreeOk(vol.disk, vol.UsedBlocks(), ino.iBlock, vol.geo.perBlock)
  }

  /** ext2_bmap: the block a logical block is mapped to, 0 for a hole, None outside the range. */
  method Bmap(vol: Volume, ino: Inode, l: nat) returns (r: Option<nat>)
    requires FileOk(vol, ino)
    ensures r == match PathOf(vol.geo.perBlock, l)
                 case None => None
                 case Some(p) => Some(At(vol.disk, ino.iBlock, p))
  {
    var per := vol.geo.perBlock;
    if l < NDIR { return Some(ino.iBlock[l]); }
    if l < NDIR + per {
      if ino.iBlock[IND] == 0 { return Some(0); }
      assert At(vol.disk, ino.iBlock, Ind) == ino.iBlock[IND] && InTree(per, Ind);
      return Some(Word(vol.disk[ino.iBlock[IND]], l - NDIR));
    }
    if l < NDIR + per + per * per {
      LogicalOfPath(per, l);
      var offset := l - (NDIR + per);
      if ino.iBlock[DIND] == 0 { return Some(0); }
      assert At(vol.disk, ino.iBlock, Dind) == ino.iBlock[DIND] && InTree(per, Dind);
      var ind := Word(vol.disk[ino.iBlock[DIND]], offset / per);
      assert At(vol.disk, ino.iBlock, DindEntry(offset / per)) == ind && InTree(per, DindEntry(offset / per));
      if ind == 0 { return Some(0); }
      return Some(Word(vol.disk[ind], offset % per));
    }
    r := None;
  }

  /** The step ext2_bmap_alloc repeats: if the pointer at p is missing, allocate a block and link it. */
  method Fill(vol: Volume, ino: Inode, p: Path, ghost t: Path) returns (r: Option<nat>)
    requires FileOk(vol, ino) && InTree(vol.geo.perBlock, p) && HasParent(vol.disk, ino.iBlock, p)
             && (IsData(p) ==> p == t)
    modifies vol, ino`iBlock, ino`iBlocks
    ensures FileOk(vol, ino)
    ensures Extended(old(vol.disk), old(vol.UsedBlocks()), old(ino.iBlock), vol.disk, vol.UsedBlocks(), ino.iBlock,
                     vol.geo.perBlock, t)
    ensures var missing := At(old(vol.disk), old(ino.iBlock), p) == 0;
            && (r.None? <==> missing && old(vol.sbFree) == 0)
            && vol.sbFree == old(vol.sbFree) - (if missing && r.Some? then 1 else 0)
            && ino.iBlocks == old(ino.iBlocks) + (if missing then Delta(vol.geo) else 0)
            && (!missing || r.None? ==> vol.disk == old(vol.disk) && ino.iBlock == old(ino.iBlock) && vol.UsedBlocks() == old(vol.UsedBlocks()))
    ensures r.Some? ==> r.value == At(vol.disk, ino.iBlock, p) != 0
    ensures r.Some? ==> forall q :: InTree(vol.geo.perBlock, q) && q != p ==>
                          At(vol.disk, ino.iBlock, q) == At(old(vol.disk), old(ino.iBlock), q)
    ensures |Blocks(vol.disk, ino.iBlock, vol.geo.perBlock)| ==
            |Blocks(old(vol.disk), old(ino.iBlock), vol.geo.perBlock)| + old(vol.sbFree) - vol.sbFree
  {
    hide VolumeOk, At, Word, PutWord, Blocks, Extended, SetPointer, Linked;
    var per := vol.geo.perBlock;
    ghost var d0, u0, i0 := vol.disk, vol.UsedBlocks(), ino.iBlock;
    ExtendedSelf(d0, u0, i0, per, t);
    var b := At(vol.disk, ino.iBlock, p);
    if b != 0 { return Some(b); }
    var new_ := vol.AllocBlock();
    ino.iBlocks := ino.iBlocks + Delta(vol.geo);
    if new_.None? { return None; }
    LinkBlock(d0, u0, i0, per, p, new_.value, t);
    var (disk', iBlock') := Linked(vol.disk, ino.iBlock, per, p, new_.value);
    DiskWritten(vol.geo, vol.bitmaps, vol.freeCount, vol.sbFree, vol.disk, disk');
    vol.disk := disk';
    ino.iBlock := iBlock';
    ExtendedTree(d0, u0, i0, vol.disk, vol.UsedBlocks(), ino.iBlock, per, t);
    r := new_;
  }

  lemma ExtendedTree(disk: seq<Block>, used: set<nat>, ib: seq<nat>, disk': seq<Block>, used': set<nat>,
                     ib': seq<nat>, per: nat, t: Path)
    requires Extended(disk, used, ib, disk', used', ib', per, t)
    ensures TreeOk(disk', used', ib', per)
  {
  }

  /** How many blocks a data path still lacks. */
  function Lacking(disk: seq<Block>, ib: seq<nat>, p: Path): (n: nat) {
    match p
    case IndEntry(_) => if At(disk, ib, Ind) == 0 then 2 else if At(disk, ib, p) == 0 then 1 else 0
    case DindSub(i, _) =>
      if At(disk, ib, Dind) == 0 then 3 else if At(disk, ib, DindEntry(i)) == 0 then 2
      else if At(disk, ib, p) == 0 then 1 else 0
    case _ => if At(disk, ib, p) == 0 then 1 else 0
  }

  /** The outcome of ext2_bmap_alloc for data path p, in terms of the state before and after. */
  ghost predicate Allocated(d0: seq<Block>, u0: set<nat>, i0: seq<nat>, free0: nat, units0: int,
                            d: seq<Block>, u: set<nat>, i: seq<nat>, free: nat, units: int,
                            per: nat, delta: nat, p: Path, r: Option<nat>) {
    && Extended(d0, u0, i0, d, u, i, per, p) && free <= free0
    && (r.None? <==> free0 < Lacking(d0, i0, p))
    && (r.Some? ==> r.value == At(d, i, p) != 0 && free == free0 - Lacking(d0, i0, p))
    && (r.None? ==> At(d, i, p) == At(d0, i0, p) == 0 && free == 0)
    && |Blocks(d, i, per)| == |Blocks(d0, i0, per)| + free0 - free
    // a failed call has counted one block it did not get
    && units == units0 + delta * (free0 - free + if r.None? then 1 else 0)
    && (Lacking(d0, i0, p) == 0 ==> d == d0 && i == i0 && u == u0)
  }

  /** ext2_bmap_alloc within the range of the tree: fill the pointers on the way to data path p. */
  method FillPath(vol: Volume, ino: Inode, p: Path) returns (r: Option<nat>)
    requires FileOk(vol, ino) && InTree(vol.geo.perBlock, p) && IsData(p)
    modifies vol, ino`iBlock, ino`iBlocks
    ensures FileOk(vol, ino)
    ensures Allocated(old(vol.disk), old(vol.UsedBlocks()), old(ino.iBlock), old(vol.sbFree), old(ino.iBlocks),
                      vol.disk, vol.UsedBlocks(), ino.iBlock, vol.sbFree, ino.iBlocks,
                      vol.geo.perBlock, Delta(vol.geo), p, r)
  {
    hide VolumeOk, TreeOk, Allocated;
    if p.Direct? {
      r := FillDirect(vol, ino, p);
    } else if p.IndEntry? {
      r := FillInd(vol, ino, p);
    } else {
      r := FillDind(vol, ino, p);
    }
  }

  /** The direct case. */
  method FillDirect(vol: Volume, ino: Inode, p: Path) returns (r: Option<nat>)
    requires FileOk(vol, ino) && InTree(vol.geo.perBlock, p) && p.Direct?
    modifies vol, ino`iBlock, ino`iBlocks
    ensures FileOk(vol, ino)
    ensures Allocated(old(vol.disk), old(vol.UsedBlocks()), old(ino.iBlock), old(vol.sbFree), old(ino.iBlocks),
                      vol.disk, vol.UsedBlocks(), ino.iBlock, vol.sbFree, ino.iBlocks,
                      vol.geo.perBlock, Delta(vol.geo), p, r)
  {
    hide VolumeOk, Word, PutWord, Blocks, Extended, TreeOk, WordAt, At, Delta;
    TreeShape(vol.disk, vol.UsedBlocks(), ino.iBlock, vol.geo.perBlock);
    r := Fill(vol, ino, p, p);
  }

  /** The single indirect case. */
  method FillInd(vol: Volume, ino: Inode, p: Path) returns (r: Option<nat>)
    requires FileOk(vol, ino) && InTree(vol.geo.perBlock, p) && p.IndEntry?
    modifies vol, ino`iBlock, ino`iBlocks
    ensures FileOk(vol, ino)
    ensures Allocated(old(vol.disk), old(vol.UsedBlocks()), old(ino.iBlock), old(vol.sbFree), old(ino.iBlocks),
                      vol.disk, vol.UsedBlocks(), ino.iBlock, vol.sbFree, ino.iBlocks,
                      vol.geo.perBlock, Delta(vol.geo), p, r)
  {
    hide VolumeOk, Word, PutWord, Blocks, Extended, TreeOk, WordAt, At, Delta;
    ghost var per := vol.geo.perBlock;
    ghost var d0, u0, i0 := vol.disk, vol.UsedBlocks(), ino.iBlock;
    TreeShape(d0, u0, i0, per);
    r := Fill(vol, ino, Ind, p);
    if r.None? { return; }
    ghost var d1, u1, i1 := vol.disk, vol.UsedBlocks(), ino.iBlock;
    TreeShape(d1, u1, i1, per);
    r := Fill(vol, ino, p, p);
    ExtendedTransitive(d0, u0, i0, d1, u1, i1, vol.disk, vol.UsedBlocks(), ino.iBlock, per, p);
  }

  /** The double indirect case. */
  method FillDind(vol: Volume, ino: Inode, p: Path) returns (r: Option<nat>)
    requires FileOk(vol, ino) && InTree(vol.geo.perBlock, p) && p.DindSub?
    modifies vol, ino`iBlock, ino`iBlocks
    ensures FileOk(vol, ino)
    ensures Allocated(old(vol.disk), old(vol.UsedBlocks()), old(ino.iBlock), old(vol.sbFree), old(ino.iBlocks),
                      vol.disk, vol.UsedBlocks(), ino.iBlock, vol.sbFree, ino.iBlocks,
                      vol.geo.perBlock, Delta(vol.geo), p, r)
  {
    hide VolumeOk, Word, PutWord, Blocks, Extended, TreeOk, WordAt, At, Delta;
    ghost var per := vol.geo.perBlock;
    ghost var d0, u0, i0 := vol.disk, vol.UsedBlocks(), ino.iBlock;
    TreeShape(d0, u0, i0, per);
    r := Fill(vol, ino, Dind, p);
    if r.None? { return; }
    ghost var d1, u1, i1 := vol.disk, vol.UsedBlocks(), ino.iBlock;
    TreeShape(d1, u1, i1, per);
    r := Fill(vol, ino, DindEntry(p.i), p);
    ExtendedTransitive(d0, u0, i0, d1, u1, i1, vol.disk, vol.UsedBlocks(), ino.iBlock, per, p);
    if r.None? { return; }
    ghost var d2, u2, i2 := vol.disk, vol.UsedBlocks(), ino.iBlock;
    TreeShape(d2, u2, i2, per);
    r := Fill(vol, ino, p, p);
    ExtendedTransitive(d0, u0, i0, d2, u2, i2, vol.disk, vol.UsedBlocks(), ino.iBlock, per, p);
  }

  /** A pointer that is present has its parent present. */
  lemma TreeShape(disk: seq<Block>, used: set<nat>, ib: seq<nat>, per: nat)
    requires TreeOk(disk, used, ib, per)
    ensures |ib| == 15 && per > 0
    ensures At(disk, ib, Ind) == ib[IND] && At(disk, ib, Dind) == ib[DIND]
    ensures forall i :: At(disk, ib, Ind) == 0 ==> At(disk, ib, IndEntry(i)) == 0
    ensures forall i :: At(disk, ib, Dind) == 0 ==> At(disk, ib, DindEntry(i)) == 0
    ensures forall i, j :: At(disk, ib, DindEntry(i)) == 0 ==> At(disk, ib, DindSub(i, j)) == 0
    ensures forall i, j :: At(disk, ib, DindEntry(i)) == Slot(disk, ib, DindSub(i, j)).0
  {
  }

  /** ext2_bmap_alloc: the block for logical block l, allocated if need be; None outside the range or when full. */
  method BmapAlloc(vol: Volume, ino: Inode, l: nat) returns (r: Option<nat>, dirty: bool)
    requires FileOk(vol, ino)
    modifies vol, ino`iBlock, ino`iBlocks
    ensures FileOk(vol, ino)
    ensures match PathOf(vol.geo.perBlock, l)
            case None => r.None? && !dirty && ino.iBlocks == old(ino.iBlocks) && ino.iBlock == old(ino.iBlock)
                         && vol.disk == old(vol.disk) && vol.UsedBlocks() == old(vol.UsedBlocks())
                         && vol.sbFree == old(vol.sbFree)
            case Some(p) =>
              && dirty == (Lacking(old(vol.disk), old(ino.iBlock), p) > 0)
              && Allocated(old(vol.disk), old(vol.UsedBlocks()), old(ino.iBlock), old(vol.sbFree), old(ino.iBlocks),
                           vol.disk, vol.UsedBlocks(), ino.iBlock, vol.sbFree, ino.iBlocks,
                           vol.geo.perBlock, Delta(vol.geo), p, r)
    ensures r.Some? ==> InSectors(vol.geo, ino.iBlocks - old(ino.iBlocks), old(vol.sbFree) - vol.sbFree)
  {
    hide VolumeOk, TreeOk, Allocated, At, Delta, InSectors;
    PositivePer(vol.geo, vol.bitmaps, vol.freeCount, vol.sbFree, vol.disk);
    LogicalOfPath(vol.geo.perBlock, l);
    var p := PathOf(vol.geo.perBlock, l);
    if p.None? { return None, false; }
    dirty := Lacking(vol.disk, ino.iBlock, p.value) > 0;
    r := FillPath(vol, ino, p.value);
    if r.Some? {
      UnitsOf(old(vol.disk), old(vol.UsedBlocks()), old(ino.iBlock), old(vol.sbFree), old(ino.iBlocks), vol.disk,
              vol.UsedBlocks(), ino.iBlock, vol.sbFree, ino.iBlocks, vol.geo.perBlock, Delta(vol.geo), p.value, r);
      DeltaSectors(vol.geo, old(vol.sbFree) - vol.sbFree);
    }
  }

  lemma UnitsOf(d0: seq<Block>, u0: set<nat>, i0: seq<nat>, free0: nat, units0: int,
                d: seq<Block>, u: set<nat>, i: seq<nat>, free: nat, units: int,
                per: nat, delta: nat, p: Path, r: Option<nat>)
    requires r.Some? && Allocated(d0, u0, i0, free0, units0, d, u, i, free, units, per, delta, p, r)
    ensures units - units0 == delta * (free0 - free)
  {
    hide At, Extended, Blocks, Lacking;
  }

  /** After a successful call the logical block is mapped to the result and every other mapping is as before. */
  lemma MappingAfterAlloc(d0: seq<Block>, u0: set<nat>, i0: seq<nat>, free0: nat, units0: int,
                          d: seq<Block>, u: set<nat>, i: seq<nat>, free: nat, units: int,
                          per: nat, delta: nat, l: nat, r: Option<nat>, m: nat)
    requires per > 0 && PathOf(per, l).Some? && PathOf(per, m).Some? && r.Some?
    requires Allocated(d0, u0, i0, free0, units0, d, u, i, free, units, per, delta, PathOf(per, l).value, r)
    ensures At(d, i, PathOf(per, m).value) == if m == l then r.value else At(d0, i0, PathOf(per, m).value)
  {
    hide At;
    LogicalOfPath(per, l);
    LogicalOfPath(per, m);
  }

  lemma SmallPer(geo: Geometry, bitmaps: seq<seq<bool>>, freeCount: seq<nat>, sbFree: nat, disk: seq<Block>)
    requires VolumeOk(geo, bitmaps, freeCount, sbFree, disk)
    ensures 0 < geo.perBlock < 0x1_0000
  {
  }

  lemma PositivePer(geo: Geometry, bitmaps: seq<seq<bool>>, freeCount: seq<nat>, sbFree: nat, disk: seq<Block>)
    requires VolumeOk(geo, bitmaps, freeCount, sbFree, disk)
    ensures geo.perBlock > 0
  {
  }
}
