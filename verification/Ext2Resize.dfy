/**
 Setting the size of a file (src/fs/ext2.c): ext2_setattr, which cuts the file short or lets it grow by a hole.
 The block counts of the code are 32-bit numbers, so the promise of truncation holds for some sizes only; the
 exact condition is `Uncut`.
 */
module Ext2Resize {
  import opened Common
  import opened Ext2Volume
  import opened Ext2Tree
  import opened Ext2File
  import opened Ext2Truncate

  /** The number of logical blocks of the tree. */
  function Range(per: nat): (n: nat) { NDIR + per + per * per }

  /**
   The cut of the counts does no harm: with nb new and ob old blocks, either the new count is not cut, and if the
   old one is, the direct blocks to free are still seen; or everything that the cut new count would free is beyond
   the tree. And the loop over the direct pointers does not start below 0.
   */
  predicate Uncut(per: nat, nb: nat, ob: nat) {
    && (if nb < TWO_32 then ob < TWO_32 || nb >= NDIR || ob % TWO_32 >= NDIR else nb % TWO_32 >= Range(per))
    && !Faults(nb % TWO_32, ob % TWO_32)
  }

  /** The pointers that survive are those of the first nb blocks, for every pointer a file of ob blocks can have. */
  ghost predicate Precise(per: nat, nb: nat, ob: nat)
    requires per > 0
  {
    forall p :: InTree(per, p) && (p.Direct? ==> p.i < ob) ==> (Spared(per, nb % TWO_32, ob % TWO_32, p) <==> Kept(per, nb, p))
  }

  /** Truncation keeps its promise for every file of these sizes exactly when the counts are not cut. */
  lemma PreciseIff(per: nat, nb: nat, ob: nat)
    requires 0 < per < 0x1_0000 && nb <= ob
    ensures Uncut(per, nb, ob) <==> Precise(per, nb, ob) && !Faults(nb % TWO_32, ob % TWO_32)
  {
    hide Range, Kept;
    if nb < TWO_32 {
      SmallCount(per, nb, ob);
    } else {
      LargeCount(per, nb, ob);
    }
  }

  lemma SmallCount(per: nat, nb: nat, ob: nat)
    requires 0 < per < 0x1_0000 && nb <= ob && nb < TWO_32
    ensures Precise(per, nb, ob) <==> ob < TWO_32 || nb >= NDIR || ob % TWO_32 >= NDIR
  {
    hide Kept, Spared;
    var o := ob % TWO_32;
    assert nb % TWO_32 == nb && (ob < TWO_32 ==> o == ob);
    if ob < TWO_32 || nb >= NDIR || o >= NDIR {
      forall p | InTree(per, p) && (p.Direct? ==> p.i < ob) ensures Spared(per, nb, o, p) <==> Kept(per, nb, p) {
        SparedOrKept(per, nb, o, p);
      }
    } else {
      var p := Direct(NDIR - 1);
      SparedOrKept(per, nb, o, p);
      assert InTree(per, p) && !(Spared(per, nb, o, p) <==> Kept(per, nb, p));
    }
  }

  lemma SparedOrKept(per: nat, n: nat, o: nat, p: Path)
    requires per > 0
    ensures (Spared(per, n, o, p) <==> Kept(per, n, p)) <==> p.Direct? ==> p.i < n || p.i < o
  {
  }

  lemma LargeCount(per: nat, nb: nat, ob: nat)
    requires 0 < per < 0x1_0000 && nb <= ob && nb >= TWO_32
    ensures Precise(per, nb, ob) <==> nb % TWO_32 >= Range(per)
  {
    hide Kept;
    var n := nb % TWO_32;
    RangeInReach(per);
    forall p | InTree(per, p) ensures Kept(per, nb, p) { AllKept(per, nb, p); }
    if n >= Range(per) {
      forall p | InTree(per, p) ensures Spared(per, n, ob % TWO_32, p) {
        AllKept(per, n, p);
        if p.Direct? { DirectKept(per, n, p); }
      }
    } else {
      LastLost(per, n);
      assert InTree(per, DindSub(per - 1, per - 1));
    }
  }

  lemma AllKept(per: nat, n: nat, p: Path)
    requires per > 0 && InTree(per, p) && n >= Range(per)
    ensures Kept(per, n, p)
  {
    if p.DindSub? { SubBelow(per, p.i, p.j); }
    if p.DindEntry? { EntryBelow(per, n, p.i); }
  }

  lemma DirectKept(per: nat, n: nat, p: Path)
    requires per > 0 && InTree(per, p) && n >= Range(per) && p.Direct?
    ensures p.i < n
  {
  }

  lemma SubBelow(per: nat, i: nat, j: nat)
    requires i < per && j < per
    ensures i * per + j < per * per
  {
    MulStep(i, per, per);
  }

  lemma EntryBelow(per: nat, n: nat, i: nat)
    requires per > 0 && i < per && n >= Range(per)
    ensures n > NDIR + per && i <= CutEntry(per, n)
  {
    SquareQuotient(n - NDIR - per, per);
  }

  lemma SquareQuotient(x: nat, per: nat)
    requires per > 0 && x >= per * per
    ensures x / per >= per
  {
    assert x == x / per * per + x % per;
    MulStep(x / per, per, per);
  }

  lemma LastLost(per: nat, n: nat)
    requires per > 0 && n < Range(per)
    ensures !Kept(per, n, DindSub(per - 1, per - 1))
  {
    assert (per - 1) * per + (per - 1) == per * per - 1;
  }

  /** No direct pointer lies beyond the end of the file. */
  predicate DirectsBelow(ib: seq<nat>, n: nat)
    requires |ib| == 15
  {
    forall i :: n <= i < NDIR ==> ib[i] == 0
  }

  lemma DirectAt(disk: seq<Block>, ib: seq<nat>, per: nat, i: nat)
    requires i < NDIR && |ib| == 15
    ensures InTree(per, Direct(i)) && At(disk, ib, Direct(i)) == ib[i]
  {
  }

  /** What cutting the tree down to its first n blocks leaves. */
  ghost predicate CutTo(d0: seq<Block>, i0: seq<nat>, d: seq<Block>, i: seq<nat>, per: nat, n: nat)
    requires per > 0
  {
    forall p :: InTree(per, p) ==> At(d, i, p) == if Kept(per, n, p) then At(d0, i0, p) else 0
  }

  /** What the call leaves that sees the counts n and o. */
  ghost predicate SparedBy(d0: seq<Block>, i0: seq<nat>, d: seq<Block>, i: seq<nat>, per: nat, n: nat, o: nat)
    requires per > 0
  {
    forall p :: InTree(per, p) ==> At(d, i, p) == if Spared(per, n, o, p) then At(d0, i0, p) else 0
  }

  /** With uncut counts the call keeps the promise, and no direct pointer lies beyond the new end. */
  lemma UncutIsExact(d0: seq<Block>, i0: seq<nat>, d: seq<Block>, i: seq<nat>, per: nat, nb: nat, ob: nat)
    requires 0 < per < 0x1_0000 && nb <= ob && Uncut(per, nb, ob) && |i0| == 15 && |i| == 15
    requires SparedBy(d0, i0, d, i, per, nb % TWO_32, ob % TWO_32) && DirectsBelow(i0, ob)
    ensures CutTo(d0, i0, d, i, per, nb) && DirectsBelow(i, nb)
  {
    hide At, Kept, Spared, Uncut;
    PreciseIff(per, nb, ob);
    forall p | InTree(per, p) ensures At(d, i, p) == if Kept(per, nb, p) then At(d0, i0, p) else 0 {
      if p.Direct? { DirectAt(d0, i0, per, p.i); }
    }
    forall k | nb <= k < NDIR ensures i[k] == 0 {
      DirectAt(d, i, per, k);
      DirectNotKept(per, nb, k);
    }
  }

  lemma DirectNotKept(per: nat, n: nat, k: nat)
    requires per > 0 && n <= k
    ensures !Kept(per, n, Direct(k))
  {
  }

  /** Where the counts are cut, every file with a pointer at a place that is treated wrongly shows it. */
  lemma CutShows(d0: seq<Block>, i0: seq<nat>, d: seq<Block>, i: seq<nat>, per: nat, nb: nat, ob: nat, p: Path)
    requires per > 0 && InTree(per, p) && At(d0, i0, p) != 0 && SparedBy(d0, i0, d, i, per, nb % TWO_32, ob % TWO_32)
    requires Spared(per, nb % TWO_32, ob % TWO_32, p) != Kept(per, nb, p)
    ensures !CutTo(d0, i0, d, i, per, nb)
  {
    hide At, Kept, Spared;
  }

  /** No direct pointer lies beyond the end of a file of the given size. */
  predicate EndOk(geo: Geometry, ib: seq<nat>, size: nat) {
    geo.perBlock > 0 && |ib| == 15 && DirectsBelow(ib, BlocksFor(geo, size))
  }

  /** A file of the given size can be set to len bytes: it grows, or the counts are not cut. */
  predicate Resizes(geo: Geometry, size: nat, len: nat)
    requires geo.perBlock > 0
  {
    len >= size || Uncut(geo.perBlock, BlocksFor(geo, len), BlocksFor(geo, size))
  }

  /**
   ext2_setattr with a new size. What it leaves is stated for all sizes; where `Resizes` holds it is what truncation
   promises.
   */
  method SetSize(vol: Volume, ino: Inode, len: int) returns (fault: bool, ghost dropped: set<nat>)
    requires FileOk(vol, ino) && len + TWO_63 >= 0 && len + vol.geo.BlockSize() <= TWO_63 && ino.size < TWO_64
    modifies vol, ino
    ensures vol.geo.perBlock > 0
    ensures fault <==> len < Signed64(old(ino.size)) && Faults(NewBlocks(vol.geo, len), OldBlocks(vol.geo, old(ino.size)))
    ensures !fault ==> FileOk(vol, ino) && ino.size == len % TWO_64 && (len != Signed64(old(ino.size)) ==> ino.iSize == len % TWO_32)
    ensures !fault && len >= Signed64(old(ino.size)) ==>
              unchanged(vol) && ino.iBlock == old(ino.iBlock) && dropped == {}
    ensures !fault && len < Signed64(old(ino.size)) ==>
              SparedBy(old(vol.disk), old(ino.iBlock), vol.disk, ino.iBlock, vol.geo.perBlock,
                       NewBlocks(vol.geo, len), OldBlocks(vol.geo, old(ino.size)))
    ensures !fault ==>
              dropped == Blocks(old(vol.disk), old(ino.iBlock), vol.geo.perBlock) - Blocks(vol.disk, ino.iBlock, vol.geo.perBlock)
    ensures !fault ==> vol.UsedBlocks() == old(vol.UsedBlocks()) - dropped && vol.sbFree == old(vol.sbFree) + |dropped|
    ensures !fault ==> ino.iBlocks == old(ino.iBlocks) - Delta(vol.geo) * |dropped|
    ensures !fault ==> InSectors(vol.geo, old(ino.iBlocks) - ino.iBlocks, vol.sbFree - old(vol.sbFree))
    ensures !fault ==> OthersKept(old(vol.disk), old(vol.UsedBlocks()), old(ino.iBlock), vol.geo.perBlock, vol.disk)
    ensures 0 <= len && old(ino.size) < TWO_63 && Resizes(vol.geo, old(ino.size), len) ==> !fault
    ensures 0 <= len && old(ino.size) < TWO_63 && Resizes(vol.geo, old(ino.size), len) && EndOk(vol.geo, old(ino.iBlock), old(ino.size)) ==>
              && EndOk(vol.geo, ino.iBlock, len)
              && (len < old(ino.size) ==>
                    CutTo(old(vol.disk), old(ino.iBlock), vol.disk, ino.iBlock, vol.geo.perBlock, BlocksFor(vol.geo, len)))
  {
    hide VolumeOk, At, TreeOk, OthersKept, Spared, Blocks, NewBlocks, OldBlocks, Delta, Faults, SparedBy, CutTo,
         EndOk, Uncut, Resizes, Signed64, InSectors;
    DeltaSectors(vol.geo, 0);
    SignedBack(ino.size);
    PositivePer(vol.geo, vol.bitmaps, vol.freeCount, vol.sbFree, vol.disk);
    KeptSelf(vol.disk, vol.UsedBlocks(), ino.iBlock, vol.geo.perBlock);
    fault, dropped := false, {};
    SmallPer(vol.geo, vol.bitmaps, vol.freeCount, vol.sbFree, vol.disk);
    ghost var d0, i0, s0 := vol.disk, ino.iBlock, ino.size;
    if 0 <= len && s0 < TWO_63 {
      if Resizes(vol.geo, s0, len) && len < s0 { NoFault(vol.geo, len, s0); }
      if s0 <= len && EndOk(vol.geo, i0, s0) { EndGrows(vol.geo, i0, s0, len); }
    }
    if len == Signed64(ino.size) { return; }
    if len < Signed64(ino.size) {
      fault, dropped := Truncate(vol, ino, len);
      if fault { return; }
      SparedIs(d0, i0, vol.disk, ino.iBlock, vol.geo, len, s0);
      if 0 <= len && s0 < TWO_63 && Resizes(vol.geo, s0, len) && EndOk(vol.geo, i0, s0) {
        FifteenWords(vol.disk, vol.UsedBlocks(), ino.iBlock, vol.geo.perBlock);
        ResizeExact(d0, i0, vol.disk, ino.iBlock, vol.geo, len, s0);
      }
    }
    ino.size := len % TWO_64;
    ino.iSize := len % TWO_32;
  }

  lemma SignedBack(size: nat)
    requires size < TWO_64
    ensures Signed64(size) % TWO_64 == size && (size < TWO_63 ==> Signed64(size) == size)
  {
  }

  lemma KeptSelf(disk: seq<Block>, used: set<nat>, ib: seq<nat>, per: nat)
    ensures OthersKept(disk, used, ib, per, disk)
  {
  }

  lemma FifteenWords(disk: seq<Block>, used: set<nat>, ib: seq<nat>, per: nat)
    requires TreeOk(disk, used, ib, per)
    ensures |ib| == 15
  {
  }

  lemma SparedIs(d0: seq<Block>, i0: seq<nat>, d: seq<Block>, i: seq<nat>, geo: Geometry, len: int, size: nat)
    requires geo.perBlock > 0
    requires forall p :: InTree(geo.perBlock, p) ==>
               At(d, i, p) == if Spared(geo.perBlock, NewBlocks(geo, len), OldBlocks(geo, size), p) then At(d0, i0, p) else 0
    ensures SparedBy(d0, i0, d, i, geo.perBlock, NewBlocks(geo, len), OldBlocks(geo, size))
  {
    hide At, Spared, NewBlocks, OldBlocks;
  }

  lemma SmallSizes(geo: Geometry, len: nat, size: nat)
    requires 0 < geo.perBlock < 0x1_0000 && len <= size < TWO_63
    ensures NewBlocks(geo, len) == BlocksFor(geo, len) % TWO_32 && OldBlocks(geo, size) == BlocksFor(geo, size) % TWO_32
    ensures BlocksFor(geo, len) <= BlocksFor(geo, size)
  {
    hide BlocksFor, NewBlocks, OldBlocks;
    BlocksGrow(geo, len, size);
  }

  /** The blocks of a file hold all its bytes, and none of them is beyond its end. */
  lemma BlocksHold(geo: Geometry, size: nat)
    requires geo.perBlock > 0
    ensures size == 0 ==> BlocksFor(geo, size) == 0
    ensures size > 0 ==>
              (BlocksFor(geo, size) - 1) * geo.BlockSize() < size <= BlocksFor(geo, size) * geo.BlockSize()
  {
    RoundUp(size, geo.BlockSize());
  }

  lemma BlocksGrow(geo: Geometry, a: nat, b: nat)
    requires geo.perBlock > 0 && a <= b
    ensures BlocksFor(geo, a) <= BlocksFor(geo, b)
  {
    OrderedQuotients(geo.BlockSize(), a + geo.BlockSize() - 1, b + geo.BlockSize() - 1);
  }

  lemma NoFault(geo: Geometry, len: nat, size: nat)
    requires 0 < geo.perBlock < 0x1_0000 && len < size < TWO_63 && Resizes(geo, size, len)
    ensures !Faults(NewBlocks(geo, len), OldBlocks(geo, size))
  {
    hide BlocksFor, NewBlocks, OldBlocks;
    SmallSizes(geo, len, size);
  }

  lemma EndGrows(geo: Geometry, ib: seq<nat>, size: nat, len: nat)
    requires EndOk(geo, ib, size) && size <= len
    ensures EndOk(geo, ib, len)
  {
    hide BlocksFor;
    BlocksGrow(geo, size, len);
  }

  lemma ResizeExact(d0: seq<Block>, i0: seq<nat>, d: seq<Block>, i: seq<nat>, geo: Geometry, len: nat, size: nat)
    requires 0 < geo.perBlock < 0x1_0000 && len < size < TWO_63 && Resizes(geo, size, len) && EndOk(geo, i0, size)
             && |i| == 15
    requires SparedBy(d0, i0, d, i, geo.perBlock, NewBlocks(geo, len), OldBlocks(geo, size))
    ensures CutTo(d0, i0, d, i, geo.perBlock, BlocksFor(geo, len)) && EndOk(geo, i, len)
  {
    hide BlocksFor, NewBlocks, OldBlocks, SparedBy, CutTo, Uncut, DirectsBelow;
    SmallSizes(geo, len, size);
    UncutIsExact(d0, i0, d, i, geo.perBlock, BlocksFor(geo, len), BlocksFor(geo, size));
  }

  /** ext2_write leaves no direct pointer beyond the end either. */
  method WriteKeepsEnd(vol: Volume, ino: Inode, data: seq<Byte>, pos: nat) returns (ret: int)
    requires FileOk(vol, ino) && pos + |data| < TWO_63 && ino.size < TWO_63 && EndOk(vol.geo, ino.iBlock, ino.size)
    modifies vol, ino
    ensures FileOk(vol, ino) && ino.size < TWO_63 && EndOk(vol.geo, ino.iBlock, ino.size)
  {
    hide VolumeOk, At, TreeOk, Wrote, Blocks, ForeignKept, Delta, MaxSize, CutPos, BlocksFor;
    ghost var d0, i0, s0 := vol.disk, ino.iBlock, ino.size;
    var newPos;
    ghost var done;
    ret, newPos, done := Write(vol, ino, data, pos);
    FifteenWords(vol.disk, vol.UsedBlocks(), ino.iBlock, vol.geo.perBlock);
    if ino.iBlock == i0 {
      EndGrows(vol.geo, i0, s0, ino.size);
    } else {
      AddedBelow(d0, i0, vol.disk, ino.iBlock, vol.geo, pos, data, done, s0, ino.size);
    }
  }

  /** The direct blocks a write adds lie below the end it leaves. */
  lemma AddedBelow(d0: seq<Block>, i0: seq<nat>, d: seq<Block>, i: seq<nat>, geo: Geometry, pos: nat, data: seq<Byte>,
                   m: nat,
                   size: nat, size': nat)
    requires EndOk(geo, i0, size) && |i| == 15 && m <= |data| && size <= size' && pos + m <= size'
    requires Wrote(d0, i0, d, i, geo.perBlock, CutPos(geo.perBlock, pos), data, m)
    ensures EndOk(geo, i, size')
  {
    hide BlocksFor, BlockNo, Cell;
    var per := geo.perBlock;
    BlocksGrow(geo, size, size');
    forall k | BlocksFor(geo, size') <= k < NDIR ensures i[k] == 0 {
      DirectAt(d0, i0, per, k);
      DirectAt(d, i, per, k);
      assert BlockAt(d0, i0, per, k) == i0[k] && BlockAt(d, i, per, k) == i[k];
      if m > 0 {
        Ordered(per, CutPos(per, pos) + m - 1, pos + m - 1);
        LastBlockBelow(geo, pos + m, size');
      }
      assert !Touched(per, CutPos(per, pos), m, k);
    }
  }

  lemma LastBlockBelow(geo: Geometry, a: nat, size: nat)
    requires geo.perBlock > 0 && 0 < a <= size
    ensures BlockNo(geo.perBlock, a - 1) < BlocksFor(geo, size)
  {
    var bs := geo.BlockSize();
    OneBlockMore(a - 1, bs);
    OrderedQuotients(bs, a - 1 + bs, size + bs - 1);
  }

  lemma OneBlockMore(a: nat, bs: nat)
    requires bs > 0
    ensures (a + bs) / bs == a / bs + 1
  {
    assert a + bs == (a / bs + 1) * bs + a % bs;
    DivMod(a / bs + 1, a % bs, bs);
  }

  // ---- sizes for which the promise fails ----

  /** With 1 KiB blocks 2^42 bytes are 2^32 blocks, which the code sees as none, and 2^41 are 2^31, a negative index. */
  lemma CutCounts(geo: Geometry)
    requires geo.perBlock == 256
    ensures NewBlocks(geo, 0) == 0 && OldBlocks(geo, 0x400_0000_0000) == 0
    ensures NewBlocks(geo, 0x400_0000_0000) == 0 && OldBlocks(geo, 0x800_0000_0000) == 0
    ensures Faults(NewBlocks(geo, 0x200_0000_0000), OldBlocks(geo, 0x200_0000_0400))
  {
  }

  /** A file that was let grow to 2^42 bytes and is then emptied keeps all its direct blocks. */
  method HugeThenNothing(vol: Volume, ino: Inode) returns (fault: bool)
    requires FileOk(vol, ino) && vol.geo.perBlock == 256 && ino.size < 0x400_0000_0000
    modifies vol, ino
    ensures !fault && FileOk(vol, ino) && ino.size == 0 && |ino.iBlock| == |old(ino.iBlock)| == 15
    ensures forall i :: 0 <= i < NDIR ==> ino.iBlock[i] == old(ino.iBlock)[i]
  {
    hide VolumeOk, At, TreeOk, OthersKept, Blocks, NewBlocks, OldBlocks, Delta, CutTo, EndOk, Uncut;
    CutCounts(vol.geo);
    FifteenWords(vol.disk, vol.UsedBlocks(), ino.iBlock, vol.geo.perBlock);
    ghost var dropped;
    fault, dropped := SetSize(vol, ino, 0x400_0000_0000);
    ghost var d1, i1 := vol.disk, ino.iBlock;
    fault, dropped := SetSize(vol, ino, 0);
    FifteenWords(vol.disk, vol.UsedBlocks(), ino.iBlock, vol.geo.perBlock);
    forall i | 0 <= i < NDIR ensures ino.iBlock[i] == i1[i] {
      DirectAt(d1, i1, 256, i);
      DirectAt(vol.disk, ino.iBlock, 256, i);
    }
  }

  /**
   One that was let grow to 2^43 bytes and is set to 2^42 loses both indirect trees, though all its data lies
   below.
   */
  method HugeThenLess(vol: Volume, ino: Inode) returns (fault: bool)
    requires FileOk(vol, ino) && vol.geo.perBlock == 256 && ino.size < 0x400_0000_0000
    modifies vol, ino
    ensures !fault && FileOk(vol, ino) && ino.size == 0x400_0000_0000 && |ino.iBlock| == 15
    ensures ino.iBlock[IND] == 0 && ino.iBlock[DIND] == 0
  {
    hide VolumeOk, At, TreeOk, OthersKept, Blocks, NewBlocks, OldBlocks, Delta, CutTo, EndOk, Uncut;
    CutCounts(vol.geo);
    ghost var dropped;
    fault, dropped := SetSize(vol, ino, 0x800_0000_0000);
    fault, dropped := SetSize(vol, ino, 0x400_0000_0000);
    FifteenWords(vol.disk, vol.UsedBlocks(), ino.iBlock, vol.geo.perBlock);
    TreeShape(vol.disk, vol.UsedBlocks(), ino.iBlock, 256);
    assert InTree(256, Ind) && InTree(256, Dind) && !Spared(256, 0, 0, Ind) && !Spared(256, 0, 0, Dind);
  }

  // ---- shrinking and growing again ----

  /** The bytes after a precise cut: those of the blocks that stay are as before, all others are holes. */
  lemma BytesAfterCut(d0: seq<Block>, u0: set<nat>, i0: seq<nat>, d: seq<Block>, i: seq<nat>, per: nat, n: nat, k: nat)
    requires per > 0 && TreeOk(d0, u0, i0, per) && OthersKept(d0, u0, i0, per, d) && CutTo(d0, i0, d, i, per, n)
    ensures ByteAt(d, i, per, k) == if BlockNo(per, k) < n then ByteAt(d0, i0, per, k) else 0
  {
    hide At, PathOf, Kept, BlockNo, LogicalOf;
    var l := BlockNo(per, k);
    if PathOf(per, l).Some? {
      PathsDiffer(per, l, l);
      var p := PathOf(per, l).value;
      LogicalOfPath(per, l);
      KeptData(per, n, p);
      var b := At(d0, i0, p);
      if b != 0 && l < n { DataBlock(d0, u0, i0, per, p); }
    }
  }

  lemma DataBlock(disk: seq<Block>, used: set<nat>, ib: seq<nat>, per: nat, p: Path)
    requires TreeOk(disk, used, ib, per) && InTree(per, p) && IsData(p) && At(disk, ib, p) != 0
    ensures At(disk, ib, p) in used && At(disk, ib, p) < |disk| && !IsPointerBlock(disk, ib, per, At(disk, ib, p))
  {
    hide At;
  }

  /** All bytes from s on and below e are zero. */
  ghost predicate ZeroFrom(disk: seq<Block>, ib: seq<nat>, per: nat, s: nat, e: nat)
    requires per > 0
  {
    forall k :: s <= k < e ==> ByteAt(disk, ib, per, k) == 0
  }

  /** The end of the last block of a file of the given size. */
  function LastEnd(geo: Geometry, size: nat): (n: nat)
    requires geo.perBlock > 0
  {
    BlocksFor(geo, size) * geo.BlockSize()
  }

  lemma BelowLastEnd(geo: Geometry, size: nat, k: nat)
    requires geo.perBlock > 0
    ensures BlockNo(geo.perBlock, k) < BlocksFor(geo, size) <==> k < LastEnd(geo, size)
  {
    QuotientLess(k, BlocksFor(geo, size), geo.BlockSize());
  }

  lemma QuotientLess(k: nat, n: nat, size: nat)
    requires size > 0
    ensures k / size < n <==> k < n * size
  {
    assert k == k / size * size + k % size;
    MulStep(k / size, n, size);
    if n <= k / size { AtMost(n, k / size, size); }
  }

  /**
   A file is cut to `small` bytes and let grow to `large` again. The new part reads as zeros exactly if the rest of
   the last block that stayed was zero before: truncation does not clear it.
   */
  method ShrinkThenGrow(vol: Volume, ino: Inode, small: nat, large: nat) returns (fault: bool)
    requires FileOk(vol, ino) && small < ino.size < TWO_63 && small <= large && large + vol.geo.BlockSize() <= TWO_63
    requires vol.geo.perBlock > 0 && Resizes(vol.geo, ino.size, small) && EndOk(vol.geo, ino.iBlock, ino.size)
    modifies vol, ino
    ensures !fault && FileOk(vol, ino) && ino.size == large
    ensures var last := LastEnd(vol.geo, small);
            ZeroFrom(vol.disk, ino.iBlock, vol.geo.perBlock, small, large) <==>
            ZeroFrom(old(vol.disk), old(ino.iBlock), vol.geo.perBlock, small, if last < large then last else large)
  {
    hide VolumeOk, At, TreeOk, OthersKept, Blocks, NewBlocks, OldBlocks, Delta, CutTo, EndOk, Uncut, SparedBy,
         BlocksFor, ByteAt, LastEnd;
    ghost var d0, u0, i0, per, n := vol.disk, vol.UsedBlocks(), ino.iBlock, vol.geo.perBlock, BlocksFor(vol.geo, small);
    ghost var dropped;
    fault, dropped := SetSize(vol, ino, small);
    forall k: nat
      ensures ByteAt(vol.disk, ino.iBlock, per, k) == if k < LastEnd(vol.geo, small) then ByteAt(d0, i0, per, k) else 0
    {
      BytesAfterCut(d0, u0, i0, vol.disk, ino.iBlock, per, n, k);
      BelowLastEnd(vol.geo, small, k);
    }
    fault, dropped := SetSize(vol, ino, large);
  }

  /** A byte that is not zero at a cut inside a block is still there afterwards. */
  lemma StaleByte(geo: Geometry, d0: seq<Block>, u0: set<nat>, i0: seq<nat>, d: seq<Block>, i: seq<nat>, small: nat)
    requires geo.perBlock > 0 && TreeOk(d0, u0, i0, geo.perBlock) && OthersKept(d0, u0, i0, geo.perBlock, d)
    requires CutTo(d0, i0, d, i, geo.perBlock, BlocksFor(geo, small)) && small % geo.BlockSize() != 0
    ensures ByteAt(d, i, geo.perBlock, small) == ByteAt(d0, i0, geo.perBlock, small)
  {
    hide TreeOk, OthersKept, CutTo, ByteAt, BlocksFor, BlockNo;
    BytesAfterCut(d0, u0, i0, d, i, geo.perBlock, BlocksFor(geo, small), small);
    InsideBlock(geo, small);
  }

  lemma InsideBlock(geo: Geometry, size: nat)
    requires geo.perBlock > 0 && size % geo.BlockSize() != 0
    ensures BlockNo(geo.perBlock, size) < BlocksFor(geo, size)
  {
    RoundsUp(size, geo.BlockSize());
  }

  lemma RoundsUp(size: nat, bs: nat)
    requires bs > 0 && size % bs != 0
    ensures size / bs < (size + bs - 1) / bs
  {
    assert size + bs - 1 == (size / bs + 1) * bs + (size % bs - 1);
    DivMod(size / bs + 1, size % bs - 1, bs);
  }
}
