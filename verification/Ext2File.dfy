/**
 Byte-level file access (src/fs/ext2.c): ext2_read and ext2_write against the file as a function from
 byte positions to bytes, with holes reading as zero. Positions and sizes are 64-bit numbers, but the
 number of a logical block is cut to 32 bits, so that the code means `CutPos` of a position.
 */
module Ext2File {
  import opened Common
  import opened Ext2Volume
  import opened Ext2Tree

  /** The block number of logical block l, 0 for holes and beyond the range. */
  function BlockAt(disk: seq<Block>, ib: seq<nat>, per: nat, l: nat): (b: nat)
    requires per > 0
  {
    match PathOf(per, l)
    case None => 0
    case Some(p) => At(disk, ib, p)
  }

  /** The logical block of a byte position, and the offset in it. */
  function BlockNo(per: nat, k: nat): (l: nat)
    requires per > 0
  {
    Div(k, 4 * per)
  }

  function Offset(per: nat, k: nat): (o: nat)
    requires per > 0
  {
    Mod(k, 4 * per)
  }

  function Div(k: nat, size: nat): (q: nat)
    requires size > 0
  {
    k / size
  }

  function Mod(k: nat, size: nat): (r: nat)
    requires size > 0
    ensures r < size
    ensures k < size ==> r == k
  {
    k % size
  }

  /** A position is its block and the offset in it. */
  lemma PositionSplit(per: nat, k: nat)
    requires per > 0
    ensures k == BlockNo(per, k) * (4 * per) + Offset(per, k) && Offset(per, k) < 4 * per
  {
  }

  /** The bytes whose logical block has a 32-bit number. */
  function Reach(per: nat): (n: nat) { TWO_32 * (4 * per) }

  /** The position the code means by k: its block number loses what is above 32 bits. */
  function CutPos(per: nat, k: nat): (c: nat)
    requires per > 0
    ensures c < Reach(per)
    ensures k < Reach(per) ==> c == k
  {
    Mod(k, Reach(per))
  }

  /** Cutting the block number is cutting the position. */
  lemma CutBlock(per: nat, k: nat)
    requires per > 0
    ensures BlockNo(per, k) % TWO_32 == BlockNo(per, CutPos(per, k)) && Offset(per, k) == Offset(per, CutPos(per, k))
  {
    CutQuotient(k, TWO_32, 4 * per);
  }

  lemma CutQuotient(k: nat, n: nat, size: nat)
    requires n > 0 && size > 0
    ensures k / size % n == k % (n * size) / size && k % size == k % (n * size) % size
  {
    var w := n * size;
    var c, q := k % w, k / w;
    var l, o := c / size, c % size;
    SplitTwice(q, l, o, n, size);
    assert k == (q * n + l) * size + o;
    DivMod(q * n + l, o, size);
    QuotientBelow(c, n, size);
    DivMod(q, l, n);
  }

  lemma RoundUp(size: nat, d: nat)
    requires d > 0
    ensures size == 0 ==> (size + d - 1) / d == 0
    ensures size > 0 ==> ((size + d - 1) / d - 1) * d < size <= (size + d - 1) / d * d
  {
    var q := (size + d - 1) / d;
    assert size + d - 1 == q * d + (size + d - 1) % d;
    assert (q - 1) * d == q * d - d;
  }

  lemma SplitTwice(q: nat, l: nat, o: nat, n: nat, size: nat)
    ensures q * (n * size) + (l * size + o) == (q * n + l) * size + o
  {
    assert q * (n * size) == q * n * size;
  }

  lemma QuotientBelow(k: nat, n: nat, size: nat)
    requires size > 0 && k < n * size
    ensures k / size < n
  {
    assert k == k / size * size + k % size;
    MulStep(n, k / size, size);
  }

  /** Positions that stay below 2^32 blocks from a cut position on are cut together. */
  lemma CutTogether(per: nat, k: nat, m: nat)
    requires per > 0 && CutPos(per, k) + m < Reach(per)
    ensures CutPos(per, k + m) == CutPos(per, k) + m
  {
    SameQuotient(k, m, Reach(per));
  }

  lemma SameQuotient(k: nat, m: nat, size: nat)
    requires size > 0 && k % size + m < size
    ensures (k + m) % size == k % size + m
  {
    assert k + m == k / size * size + (k % size + m);
    DivMod(k / size, k % size + m, size);
  }

  /** The bytes the direct, indirect and double indirect blocks can hold. */
  function MaxSize(per: nat): (n: nat) {
    (NDIR + per + per * per) * (4 * per)
  }

  /** Up to the largest block size with 32-bit block arithmetic, the whole double indirect range is below it. */
  lemma RangeInReach(per: nat)
    requires 0 < per < 0x1_0000
    ensures NDIR + per + per * per < TWO_32 && MaxSize(per) < Reach(per)
  {
    hide Reach, MaxSize;
    MulStep(per, 0x1_0000, per);
    ReachHolds(per);
  }

  lemma ReachHolds(per: nat)
    requires per > 0 && NDIR + per + per * per < TWO_32
    ensures MaxSize(per) < Reach(per)
  {
    MulStep(NDIR + per + per * per, TWO_32, 4 * per);
  }

  lemma AtMost(a: nat, b: nat, size: nat)
    requires a <= b
    ensures a * size <= b * size
  {
  }

  /** A chunk of a block of the tree lies in the range of the tree. */
  lemma ChunkInRange(per: nat, a: nat, n: nat)
    requires per > 0 && BlockNo(per, a) < NDIR + per + per * per && Offset(per, a) + n <= 4 * per
    ensures a + n <= MaxSize(per)
  {
    var size, limit := 4 * per, NDIR + per + per * per;
    assert a == a / size * size + a % size;
    AtMost(a / size + 1, limit, size);
    assert (a / size + 1) * size == a / size * size + size;
  }

  /** Byte o of logical block l. */
  function Cell(disk: seq<Block>, ib: seq<nat>, per: nat, l: nat, o: nat): (x: Byte)
    requires per > 0
  {
    var b := BlockAt(disk, ib, per, l);
    if b == 0 || b >= |disk| || o >= |disk[b]| then 0 else disk[b][o]
  }

  /** The byte of the file at position k. */
  function ByteAt(disk: seq<Block>, ib: seq<nat>, per: nat, k: nat): (x: Byte)
    requires per > 0
  {
    Cell(disk, ib, per, BlockNo(per, k), Offset(per, k))
  }

  /** Position k of a chunk that stays inside the block of its first byte a. */
  lemma ChunkBlock(per: nat, a: nat, n: nat, k: nat)
    requires per > 0 && Offset(per, a) + n <= 4 * per
    ensures a <= k < a + n <==> BlockNo(per, k) == BlockNo(per, a) && Offset(per, a) <= Offset(per, k) < Offset(per, a) + n
    ensures a <= k < a + n ==> Offset(per, k) - Offset(per, a) == k - a
    ensures Offset(per, k) < 4 * per
  {
    ChunkDivision(4 * per, a, n, k);
  }

  lemma ChunkDivision(size: nat, a: nat, n: nat, k: nat)
    requires size > 0 && a % size + n <= size
    ensures a <= k < a + n <==> k / size == a / size && a % size <= k % size < a % size + n
    ensures a <= k < a + n ==> k % size - a % size == k - a
  {
    var l, o := a / size, a % size;
    assert a == l * size + o && k == k / size * size + k % size;
    MulStep(l, k / size, size);
    MulStep(k / size, l, size);
  }

  /** Writing a data block of the tree moves no pointer. */
  lemma DataBlockWritten(disk: seq<Block>, used: set<nat>, ib: seq<nat>, per: nat, p: Path, buf: Block)
    requires TreeOk(disk, used, ib, per) && InTree(per, p) && IsData(p) && At(disk, ib, p) != 0 && |buf| == 4 * per
    ensures At(disk, ib, p) < |disk|
    ensures TreeOk(disk[At(disk, ib, p) := buf], used, ib, per)
    ensures forall q :: InTree(per, q) ==> At(disk[At(disk, ib, p) := buf], ib, q) == At(disk, ib, q)
  {
    hide Word;
    var b := At(disk, ib, p);
    forall q | InTree(per, q) ensures At(disk[b := buf], ib, q) == At(disk, ib, q) {
      assert InTree(per, Ind) && InTree(per, Dind) && At(disk, ib, Ind) == ib[IND] && At(disk, ib, Dind) == ib[DIND];
      assert q.DindSub? ==> InTree(per, DindEntry(q.i)) && At(disk, ib, DindEntry(q.i)) == WordAt(disk, ib[DIND], q.i);
    }
  }

  /** Block l holds one of the m bytes from pos on. */
  predicate Touched(per: nat, pos: nat, m: nat, l: nat)
    requires per > 0
  {
    m > 0 && BlockNo(per, pos) <= l <= BlockNo(per, pos + m - 1)
  }

  /**
   The file after the first m bytes of data were written at pos: they read back, every other byte of a
   block that was mapped or not touched is as before, and no untouched hole was filled.
   */
  ghost predicate Wrote(d0: seq<Block>, i0: seq<nat>, d: seq<Block>, i: seq<nat>, per: nat, pos: nat, data: seq<Byte>,
                        m: nat)
    requires per > 0 && m <= |data|
  {
    && (forall k :: pos <= k < pos + m ==> ByteAt(d, i, per, k) == data[k - pos])
    && (forall k: nat :: !(pos <= k < pos + m) && (BlockAt(d0, i0, per, BlockNo(per, k)) != 0 || !Touched(per, pos, m, BlockNo(per, k)))
          ==> ByteAt(d, i, per, k) == ByteAt(d0, i0, per, k))
    && (forall l: nat :: BlockAt(d0, i0, per, l) != 0 || !Touched(per, pos, m, l) ==> BlockAt(d, i, per, l) == BlockAt(d0, i0, per, l))
  }

  lemma PathsDiffer(per: nat, l: nat, m: nat)
    requires per > 0 && PathOf(per, l).Some?
    ensures InTree(per, PathOf(per, l).value) && IsData(PathOf(per, l).value)
    ensures PathOf(per, m) == PathOf(per, l) ==> m == l
  {
    hide PathOf, LogicalOf;
    LogicalOfPath(per, l);
    LogicalOfPath(per, m);
  }

  /** Growing the tree at one data path leaves all other blocks, and blocks already mapped, alone. */
  lemma GrowKeepsBlock(d0: seq<Block>, u0: set<nat>, i0: seq<nat>, d: seq<Block>, u: set<nat>, i: seq<nat>, per: nat,
                       l: nat, m: nat)
    requires TreeOk(d0, u0, i0, per) && PathOf(per, l).Some? && Extended(d0, u0, i0, d, u, i, per, PathOf(per, l).value)
    requires m != l || BlockAt(d0, i0, per, l) != 0
    ensures BlockAt(d, i, per, m) == BlockAt(d0, i0, per, m) && |d| == |d0|
    ensures var b := BlockAt(d0, i0, per, m); b != 0 ==> b < |d0| && d[b] == d0[b]
  {
    hide At, PathOf;
    PathsDiffer(per, l, m);
    if PathOf(per, m).Some? {
      PathsDiffer(per, m, m);
      var q := PathOf(per, m).value;
      assert At(d0, i0, q) != 0 ==> !IsPointerBlock(d0, i0, per, At(d0, i0, q));
    }
  }

  /** Writing the block of logical block l leaves the pointers and every other data block alone. */
  lemma WriteKeepsBlock(disk: seq<Block>, used: set<nat>, ib: seq<nat>, per: nat, l: nat, buf: Block, m: nat)
    requires TreeOk(disk, used, ib, per) && PathOf(per, l).Some? && BlockAt(disk, ib, per, l) != 0 && |buf| == 4 * per
    ensures var b := BlockAt(disk, ib, per, l);
            && b < |disk| && TreeOk(disk[b := buf], used, ib, per)
            && BlockAt(disk[b := buf], ib, per, m) == BlockAt(disk, ib, per, m)
            && (m != l ==> BlockAt(disk, ib, per, m) != b)
  {
    hide At, PathOf;
    PathsDiffer(per, l, m);
    DataBlockWritten(disk, used, ib, per, PathOf(per, l).value, buf);
    if PathOf(per, m).Some? { PathsDiffer(per, m, m); }
  }

  /** Extending the range of touched blocks by one chunk. */
  lemma TouchedMore(per: nat, pos: nat, m: nat, n: nat, x: nat)
    requires per > 0 && n > 0 && Offset(per, pos + m) + n <= 4 * per
    ensures Touched(per, pos, m + n, x) <==> Touched(per, pos, m, x) || x == BlockNo(per, pos + m)
  {
    hide BlockNo, Offset;
    ChunkBlock(per, pos + m, n, pos + m + n - 1);
    if m > 0 {
      Consecutive(per, pos + m - 1);
      Ordered(per, pos, pos + m - 1);
    }
  }

  lemma Consecutive(per: nat, a: nat)
    requires per > 0
    ensures BlockNo(per, a) <= BlockNo(per, a + 1) <= BlockNo(per, a) + 1
  {
    NextQuotient(4 * per, a);
  }

  lemma NextQuotient(size: nat, a: nat)
    requires size > 0
    ensures a / size <= (a + 1) / size <= a / size + 1
  {
    var l, m := a / size, (a + 1) / size;
    assert a == l * size + a % size && a + 1 == m * size + (a + 1) % size;
    MulStep(m, l, size);
    MulStep(l + 1, m, size);
    assert (l + 1) * size == l * size + size;
  }

  lemma Ordered(per: nat, a: nat, b: nat)
    requires per > 0 && a <= b
    ensures BlockNo(per, a) <= BlockNo(per, b)
    ensures a < b && Offset(per, b) == 0 ==> BlockNo(per, a) < BlockNo(per, b)
  {
    OrderedQuotients(4 * per, a, b);
  }

  lemma OrderedQuotients(size: nat, a: nat, b: nat)
    requires size > 0 && a <= b
    ensures a / size <= b / size && (a < b && b % size == 0 ==> a / size < b / size)
  {
    var l, m := a / size, b / size;
    assert a == l * size + a % size && b == m * size + b % size;
    MulStep(m, l, size);
  }

  /** buf is the old contents of the block with the chunk copied over it at offset o. */
  predicate Patched(old_: Block, buf: Block, o: nat, chunk: seq<Byte>) {
    && |buf| == |old_| && o + |chunk| <= |buf|
    && forall x :: 0 <= x < |buf| ==> buf[x] == if o <= x < o + |chunk| then chunk[x - o] else old_[x]
  }

  /** One iteration of ext2_write: logical block l is mapped, then patched at offset o. */
  ghost predicate Step(d1: seq<Block>, u1: set<nat>, i1: seq<nat>, d2: seq<Block>, u2: set<nat>, i2: seq<nat>,
                       per: nat, l: nat, o: nat, chunk: seq<Byte>, buf: Block)
    requires per > 0
  {
    && TreeOk(d1, u1, i1, per) && PathOf(per, l).Some? && Extended(d1, u1, i1, d2, u2, i2, per, PathOf(per, l).value)
    && 0 < BlockAt(d2, i2, per, l) < |d2| && |chunk| > 0 && |buf| == 4 * per
    && Patched(d2[BlockAt(d2, i2, per, l)], buf, o, chunk)
  }

  /** The blocks and bytes after one step. */
  lemma StepCell(d1: seq<Block>, u1: set<nat>, i1: seq<nat>, d2: seq<Block>, u2: set<nat>, i2: seq<nat>,
                 per: nat, l: nat, o: nat, chunk: seq<Byte>, buf: Block, x: nat, y: nat)
    requires per > 0 && Step(d1, u1, i1, d2, u2, i2, per, l, o, chunk, buf) && y < 4 * per
    ensures var d3 := d2[BlockAt(d2, i2, per, l) := buf];
            var old_ := x != l || BlockAt(d1, i1, per, l) != 0;
            && TreeOk(d3, u2, i2, per)
            && (old_ ==> BlockAt(d3, i2, per, x) == BlockAt(d1, i1, per, x))
            && (x == l && o <= y < o + |chunk| ==> Cell(d3, i2, per, x, y) == chunk[y - o])
            && (old_ && !(x == l && o <= y < o + |chunk|) ==> Cell(d3, i2, per, x, y) == Cell(d1, i1, per, x, y))
  {
    hide At, PathOf, BlockAt;
    ExtendedTree(d1, u1, i1, d2, u2, i2, per, PathOf(per, l).value);
    WriteKeepsBlock(d2, u2, i2, per, l, buf, x);
    if x != l || BlockAt(d1, i1, per, l) != 0 {
      GrowKeepsBlock(d1, u1, i1, d2, u2, i2, per, l, x);
    }
  }

  /** One iteration extends what was written. */
  lemma WroteMore(d0: seq<Block>, i0: seq<nat>, d1: seq<Block>, u1: set<nat>, i1: seq<nat>, d2: seq<Block>,
                  u2: set<nat>, i2: seq<nat>,
                  per: nat, pos: nat, data: seq<Byte>, m: nat, n: nat, buf: Block)
    requires per > 0 && m + n <= |data| && Wrote(d0, i0, d1, i1, per, pos, data, m)
    requires Step(d1, u1, i1, d2, u2, i2, per, BlockNo(per, pos + m), Offset(per, pos + m), data[m..m + n], buf)
    requires m == 0 || Offset(per, pos + m) == 0
    ensures var d3 := d2[BlockAt(d2, i2, per, BlockNo(per, pos + m)) := buf];
            Wrote(d0, i0, d3, i2, per, pos, data, m + n) && TreeOk(d3, u2, i2, per)
  {
    hide At, PathOf, BlockAt, Cell, Extended, Touched, BlockNo, Offset, TreeOk;
    var a := pos + m;
    var l, o, chunk := BlockNo(per, a), Offset(per, a), data[m..m + n];
    var d3 := d2[BlockAt(d2, i2, per, l) := buf];
    forall k: nat
      ensures pos <= k < pos + m + n ==> ByteAt(d3, i2, per, k) == data[k - pos]
      ensures (!(pos <= k < pos + m + n) && (BlockAt(d0, i0, per, BlockNo(per, k)) != 0 || !Touched(per, pos, m + n, BlockNo(per, k))))
              ==> ByteAt(d3, i2, per, k) == ByteAt(d0, i0, per, k)
    {
      ChunkBlock(per, a, n, k);
      StepCell(d1, u1, i1, d2, u2, i2, per, l, o, chunk, buf, BlockNo(per, k), Offset(per, k));
      TouchedMore(per, pos, m, n, BlockNo(per, k));
      if m > 0 && k < a { Ordered(per, k, a); }
      assert pos <= k < a ==> ByteAt(d1, i1, per, k) == data[k - pos];
      if a <= k < a + n { assert chunk[k - a] == data[k - pos]; }
    }
    forall x: nat | BlockAt(d0, i0, per, x) != 0 || !Touched(per, pos, m + n, x)
      ensures BlockAt(d3, i2, per, x) == BlockAt(d0, i0, per, x)
    {
      TouchedMore(per, pos, m, n, x);
      StepCell(d1, u1, i1, d2, u2, i2, per, l, o, chunk, buf, x, 0);
    }
    StepCell(d1, u1, i1, d2, u2, i2, per, l, o, chunk, buf, l, 0);
  }

  /** Blocks of other files are neither changed nor taken into this file. */
  ghost predicate ForeignKept(d0: seq<Block>, u0: set<nat>, i0: seq<nat>, d: seq<Block>, u: set<nat>, i: seq<nat>,
                              per: nat) {
    |d| == |d0| && u0 <= u
    && forall b :: b in u0 && 0 < b < |d0| && b !in Blocks(d0, i0, per) ==> d[b] == d0[b] && b !in Blocks(d, i, per)
  }

  lemma ForeignStep(d0: seq<Block>, u0: set<nat>, i0: seq<nat>, d1: seq<Block>, u1: set<nat>, i1: seq<nat>,
                    d2: seq<Block>, u2: set<nat>, i2: seq<nat>, per: nat, t: Path)
    requires ForeignKept(d0, u0, i0, d1, u1, i1, per) && TreeOk(d1, u1, i1, per)
             && Extended(d1, u1, i1, d2, u2, i2, per, t)
    ensures ForeignKept(d0, u0, i0, d2, u2, i2, per)
  {
    hide At;
    forall b | b in u0 && 0 < b < |d0| && b !in Blocks(d0, i0, per)
      ensures d2[b] == d0[b] && b !in Blocks(d2, i2, per)
    {
      assert b !in Blocks(d1, i1, per);
    }
  }

  lemma ForeignWrite(d0: seq<Block>, u0: set<nat>, i0: seq<nat>, d2: seq<Block>, u2: set<nat>, i2: seq<nat>, per: nat,
                     p: Path, buf: Block)
    requires ForeignKept(d0, u0, i0, d2, u2, i2, per) && TreeOk(d2, u2, i2, per)
    requires InTree(per, p) && IsData(p) && At(d2, i2, p) != 0 && |buf| == 4 * per
    ensures At(d2, i2, p) < |d2|
    ensures ForeignKept(d0, u0, i0, d2[At(d2, i2, p) := buf], u2, i2, per)
    ensures Blocks(d2[At(d2, i2, p) := buf], i2, per) == Blocks(d2, i2, per)
  {
    hide At;
    DataBlockWritten(d2, u2, i2, per, p, buf);
    var d3 := d2[At(d2, i2, p) := buf];
    assert forall b :: InBlocks(d3, i2, per, b) <==> InBlocks(d2, i2, per, b);
    assert InBlocks(d2, i2, per, At(d2, i2, p));
  }

  /** A call that finds no block for p has changed no data mapping. */
  lemma WroteStill(d0: seq<Block>, i0: seq<nat>, d1: seq<Block>, u1: set<nat>, i1: seq<nat>, d2: seq<Block>,
                   u2: set<nat>, i2: seq<nat>,
                   per: nat, pos: nat, data: seq<Byte>, m: nat, l: nat)
    requires per > 0 && m <= |data| && Wrote(d0, i0, d1, i1, per, pos, data, m) && TreeOk(d1, u1, i1, per)
             && PathOf(per, l).Some?
    requires Extended(d1, u1, i1, d2, u2, i2, per, PathOf(per, l).value)
             && BlockAt(d2, i2, per, l) == BlockAt(d1, i1, per, l) == 0
    ensures Wrote(d0, i0, d2, i2, per, pos, data, m)
  {
    hide At, PathOf, BlockAt, Extended, Touched, BlockNo, Offset, TreeOk;
    forall x: nat
      ensures BlockAt(d2, i2, per, x) == BlockAt(d1, i1, per, x)
      ensures forall y: nat :: Cell(d2, i2, per, x, y) == Cell(d1, i1, per, x, y)
    {
      if x != l { GrowKeepsBlock(d1, u1, i1, d2, u2, i2, per, l, x); }
    }
    assert forall k: nat :: ByteAt(d2, i2, per, k) == ByteAt(d1, i1, per, k);
  }

  /** The state of a write of which m bytes are done. */
  ghost predicate Writing(vol: Volume, ino: Inode, d0: seq<Block>, u0: set<nat>, i0: seq<nat>, free0: nat, pos: nat,
                          data: seq<Byte>, m: nat)
    reads vol, ino
  {
    && FileOk(vol, ino) && vol.geo.perBlock > 0 && m <= |data|
    && Wrote(d0, i0, vol.disk, ino.iBlock, vol.geo.perBlock, pos, data, m)
    && ForeignKept(d0, u0, i0, vol.disk, vol.UsedBlocks(), ino.iBlock, vol.geo.perBlock)
    && vol.sbFree <= free0
    && |Blocks(vol.disk, ino.iBlock, vol.geo.perBlock)| == |Blocks(d0, i0, vol.geo.perBlock)| + free0 - vol.sbFree
  }

  /** One iteration of ext2_write: map the block, patch it, write it back. */
  method WriteChunk(vol: Volume, ino: Inode, ghost d0: seq<Block>, ghost u0: set<nat>, ghost i0: seq<nat>,
                    ghost free0: nat,
                    ghost at: nat, pos: nat, data: seq<Byte>, m: nat)
    returns (ok: bool, n: nat, grew: bool)
    requires Writing(vol, ino, d0, u0, i0, free0, at, data, m) && m < |data| && CutPos(vol.geo.perBlock, pos) == at
    requires (m > 0 ==> at + m <= MaxSize(vol.geo.perBlock)) && (m == 0 || Offset(vol.geo.perBlock, at + m) == 0)
    modifies vol, ino`iBlock, ino`iBlocks
    ensures Writing(vol, ino, d0, u0, i0, free0, at, data, if ok then m + n else m)
    ensures ok ==> 0 < n <= |data| - m && (m + n == |data| || Offset(vol.geo.perBlock, at + m + n) == 0)
    ensures ok ==> ino.iBlocks == old(ino.iBlocks) + Delta(vol.geo) * (old(vol.sbFree) - vol.sbFree)
    ensures ok <==> match PathOf(vol.geo.perBlock, BlockNo(vol.geo.perBlock, at + m))
                    case None => false
                    case Some(p) => old(vol.sbFree) >= Lacking(old(vol.disk), old(ino.iBlock), p)
    ensures ok ==> at + m + n <= MaxSize(vol.geo.perBlock)
    ensures !ok ==> vol.sbFree == 0 || at + m >= MaxSize(vol.geo.perBlock)
    ensures !grew ==> ino.iBlock == old(ino.iBlock)
  {
    hide VolumeOk, At, TreeOk, Wrote, Extended, Blocks, PathOf, Word, ForeignKept, Delta, Lacking, BlockNo, Div, Mod,
         MaxSize, Reach, CutPos, Step, Patched, InSectors, BlockAt;
    ghost var d1, u1, i1 := vol.disk, vol.UsedBlocks(), ino.iBlock;
    var per := vol.geo.perBlock;
    SmallPer(vol.geo, vol.bitmaps, vol.freeCount, vol.sbFree, vol.disk);
    ChunkPlace(per, at, pos, m);
    var l, o := BlockNo(per, pos + m) % TWO_32, Offset(per, pos + m);
    n := 4 * per - o;
    if n > |data| - m { n := |data| - m; }
    LogicalOfPath(per, l);
    var r;
    r, grew := BmapAlloc(vol, ino, l);
    if r.None? && l >= NDIR + per + per * per {
      OutOfRange(per, at + m);
      return false, n, grew;
    }
    ghost var p := PathOf(per, l).value;
    PathsDiffer(per, l, l);
    BlockIsAt(d1, i1, per, l);
    BlockIsAt(vol.disk, ino.iBlock, per, l);
    ForeignStep(d0, u0, i0, d1, u1, i1, vol.disk, vol.UsedBlocks(), ino.iBlock, per, p);
    if r.None? {
      WroteStill(d0, i0, d1, u1, i1, vol.disk, vol.UsedBlocks(), ino.iBlock, per, at, data, m, l);
      return false, n, grew;
    }
    var b := r.value;
    ChunkInRange(per, at + m, n);
    BlockBounds(vol.disk, vol.UsedBlocks(), ino.iBlock, per, p);
    // a block that is overwritten completely is not read first
    var old_ := if n != 4 * per then vol.disk[b] else Zeros(4 * per);
    var buf := old_[..o] + data[m..m + n] + old_[o + n..];
    ghost var d2 := vol.disk;
    StepDone(d1, u1, i1, d2, vol.UsedBlocks(), ino.iBlock, per, l, o, data[m..m + n], old_, buf);
    WroteMore(d0, i0, d1, u1, i1, d2, vol.UsedBlocks(), ino.iBlock, per, at, data, m, n, buf);
    ForeignWrite(d0, u0, i0, d2, vol.UsedBlocks(), ino.iBlock, per, p, buf);
    DiskWrittenAt(vol.geo, vol.bitmaps, vol.freeCount, vol.sbFree, vol.disk, b, buf);
    vol.disk := vol.disk[b := buf];
    NextChunk(per, at + m, n, |data| - m);
    ok := true;
  }

  lemma BlockIsAt(disk: seq<Block>, ib: seq<nat>, per: nat, l: nat)
    requires per > 0 && PathOf(per, l).Some?
    ensures BlockAt(disk, ib, per, l) == At(disk, ib, PathOf(per, l).value)
  {
  }

  lemma ChunkPlace(per: nat, at: nat, pos: nat, m: nat)
    requires 0 < per < 0x1_0000 && at == CutPos(per, pos) && (m > 0 ==> at + m <= MaxSize(per))
    ensures BlockNo(per, pos + m) % TWO_32 == BlockNo(per, at + m) && Offset(per, pos + m) == Offset(per, at + m)
  {
    hide MaxSize, Reach, BlockNo, Offset, CutPos;
    RangeInReach(per);
    CutTogether(per, pos, m);
    CutBlock(per, pos + m);
  }

  lemma StepDone(d1: seq<Block>, u1: set<nat>, i1: seq<nat>, d2: seq<Block>, u2: set<nat>, i2: seq<nat>,
                 per: nat, l: nat, o: nat, chunk: seq<Byte>, old_: Block, buf: Block)
    requires per > 0 && TreeOk(d1, u1, i1, per) && PathOf(per, l).Some?
             && Extended(d1, u1, i1, d2, u2, i2, per, PathOf(per, l).value)
    requires 0 < BlockAt(d2, i2, per, l) < |d2| && |d2[BlockAt(d2, i2, per, l)]| == |old_| == 4 * per
    requires |chunk| > 0 && o + |chunk| <= 4 * per && (old_ == d2[BlockAt(d2, i2, per, l)] || |chunk| == 4 * per)
    requires buf == old_[..o] + chunk + old_[o + |chunk|..]
    ensures Step(d1, u1, i1, d2, u2, i2, per, l, o, chunk, buf)
  {
    hide At, TreeOk, Extended, PathOf, BlockAt;
  }

  lemma BlockBounds(disk: seq<Block>, used: set<nat>, ib: seq<nat>, per: nat, p: Path)
    requires TreeOk(disk, used, ib, per) && InTree(per, p) && At(disk, ib, p) != 0
    ensures At(disk, ib, p) < |disk| && |disk[At(disk, ib, p)]| == 4 * per
  {
  }

  /** Unless it is the last one, a chunk ends at a block boundary. */
  lemma NextChunk(per: nat, a: nat, n: nat, left: nat)
    requires per > 0 && n == if 4 * per - Offset(per, a) > left then left else 4 * per - Offset(per, a)
    ensures n == left || Offset(per, a + n) == 0
  {
    if n != left { NextMultiple(4 * per, a); }
  }

  lemma NextMultiple(size: nat, a: nat)
    requires size > 0
    ensures (a + (size - a % size)) % size == 0
  {
    var l := a / size;
    assert a == l * size + a % size;
    assert a + (size - a % size) == (l + 1) * size + 0;
    DivMod(l + 1, 0, size);
  }

  /**
   ext2_write: the number of bytes written, or -1; the position moves on only after a success. The bytes go to
   the cut position, which is pos itself below 2^32 blocks.
   */
  method Write(vol: Volume, ino: Inode, data: seq<Byte>, pos: nat) returns (ret: int, newPos: nat, ghost done: nat)
    requires FileOk(vol, ino) && pos + |data| < TWO_63 && ino.size < TWO_64
    modifies vol, ino
    ensures FileOk(vol, ino) && vol.geo.perBlock > 0 && done <= |data| && ino.size < TWO_64
    ensures var at := CutPos(vol.geo.perBlock, pos);
            && Wrote(old(vol.disk), old(ino.iBlock), vol.disk, ino.iBlock, vol.geo.perBlock, at, data, done)
            // a write beyond the double indirect range fails; one inside it fails only when the volume runs full
            && (ret > 0 ==> at + |data| <= MaxSize(vol.geo.perBlock))
            && (ret < 0 ==> vol.sbFree == 0 || at + |data| > MaxSize(vol.geo.perBlock))
    ensures ForeignKept(old(vol.disk), old(vol.UsedBlocks()), old(ino.iBlock), vol.disk, vol.UsedBlocks(), ino.iBlock,
                        vol.geo.perBlock)
    ensures if done == |data| then ret == |data| else ret == -1
    ensures newPos == if ret > 0 then pos + done else pos
    ensures ret >= 0 ==> ino.size == if |data| > 0 && pos + |data| > Signed64(old(ino.size)) then pos + |data| else old(ino.size)
    ensures ino.size == old(ino.size) || ino.size == pos + done > Signed64(old(ino.size))
    ensures ret > 0 || ino.size != old(ino.size) ==> ino.iSize == ino.size % TWO_32
    // if the size is not looked at, no block was added
    ensures ino.iBlock == old(ino.iBlock) || ino.size == if pos + done > Signed64(old(ino.size)) then pos + done else old(ino.size)
    ensures |Blocks(vol.disk, ino.iBlock, vol.geo.perBlock)| ==
            |Blocks(old(vol.disk), old(ino.iBlock), vol.geo.perBlock)| + old(vol.sbFree) - vol.sbFree
    ensures ret >= 0 ==> ino.iBlocks == old(ino.iBlocks) + Delta(vol.geo) * (old(vol.sbFree) - vol.sbFree)
    ensures ret >= 0 ==> InSectors(vol.geo, ino.iBlocks - old(ino.iBlocks), old(vol.sbFree) - vol.sbFree)
  {
    hide VolumeOk, At, TreeOk, Wrote, Extended, Blocks, PathOf, Word, ForeignKept, Delta, Lacking, MaxSize, Reach,
         CutPos, Signed64, InSectors;
    ghost var d0, u0, i0, free0 := vol.disk, vol.UsedBlocks(), ino.iBlock, vol.sbFree;
    PositivePer(vol.geo, vol.bitmaps, vol.freeCount, vol.sbFree, vol.disk);
    ghost var at := CutPos(vol.geo.perBlock, pos);
    WroteNothing(d0, u0, i0, vol.geo.perBlock, at, data);
    var m, dirty := 0, false;
    ret := 0;
    while m < |data|
      invariant Writing(vol, ino, d0, u0, i0, free0, at, data, m)
      invariant m == |data| || m == 0 || Offset(vol.geo.perBlock, at + m) == 0
      invariant ret == m && ino.size == old(ino.size) && (m == 0 ==> !dirty) && (!dirty ==> ino.iBlock == i0)
      invariant m > 0 ==> at + m <= MaxSize(vol.geo.perBlock)
      invariant ino.iBlocks == old(ino.iBlocks) + Delta(vol.geo) * (free0 - vol.sbFree)
      decreases |data| - m
    {
      ghost var free1 := vol.sbFree;
      var ok, n, grew := WriteChunk(vol, ino, d0, u0, i0, free0, at, pos, data, m);
      dirty := dirty || grew;
      if !ok {
        ret := -1;
        break;
      }
      Distribute(Delta(vol.geo), free0 - free1, free1 - vol.sbFree);
      m := m + n;
      ret := ret + n;
    }
    done := m;
    if ret > 0 || dirty {
      if pos + m > Signed64(ino.size) { ino.size := pos + m; }
      ino.iSize := ino.size % TWO_32;
    }
    newPos := if ret > 0 then pos + m else pos;
    DeltaSectors(vol.geo, free0 - vol.sbFree);
  }

  lemma Distribute(d: nat, a: int, b: int)
    ensures d * a + d * b == d * (a + b)
  {
  }

  lemma WroteNothing(disk: seq<Block>, used: set<nat>, ib: seq<nat>, per: nat, pos: nat, data: seq<Byte>)
    requires per > 0
    ensures Wrote(disk, ib, disk, ib, per, pos, data, 0) && ForeignKept(disk, used, ib, disk, used, ib, per)
  {
    hide At, Blocks;
  }

  /** How many bytes ext2_read is to return: the sum of position and length wraps at 64 bits. */
  function ReadCount(size: nat, pos: nat, len: nat): (n: nat)
    requires pos <= size
    ensures pos + len < TWO_64 ==> n == if pos + len > size then size - pos else len
  {
    if (pos + len) % TWO_64 > size then size - pos else len
  }

  /** Byte k of a read has a place in the tree. */
  predicate Readable(per: nat, pos: nat, k: nat)
    requires per > 0
  {
    CutPos(per, pos + k) < MaxSize(per)
  }

  /** ext2_read: the bytes from pos on, as far as the file goes; -1 exactly when one of them is beyond the tree. */
  method Read(vol: Volume, ino: Inode, pos: nat, len: nat) returns (ret: int, buf: seq<Byte>, newPos: nat)
    requires FileOk(vol, ino) && pos < TWO_63 && ino.size < TWO_64
    ensures pos >= Signed64(ino.size) ==> ret == 0 && buf == []
    ensures vol.geo.perBlock > 0 && forall k :: 0 <= k < |buf| ==>
              buf[k] == ByteAt(vol.disk, ino.iBlock, vol.geo.perBlock, CutPos(vol.geo.perBlock, pos + k))
    ensures newPos == pos + |buf|
    ensures pos < Signed64(ino.size) ==>
              var count := ReadCount(ino.size, pos, len);
              if ret >= 0 then ret == |buf| == count && forall k :: 0 <= k < count ==> Readable(vol.geo.perBlock, pos, k)
              else ret == -1 && |buf| < count && !Readable(vol.geo.perBlock, pos, |buf|)
  {
    hide VolumeOk, At, TreeOk, PathOf, Word, ByteAt, BlockNo, MaxSize, Reach, CutPos, Div, Mod, ReadCount;
    PositivePer(vol.geo, vol.bitmaps, vol.freeCount, vol.sbFree, vol.disk);
    buf := [];
    ret := 0;
    if pos >= Signed64(ino.size) { return 0, [], pos; }
    var count := ReadCount(ino.size, pos, len);
    var per := vol.geo.perBlock;
    while |buf| < count
      invariant |buf| <= count && ret == |buf|
      invariant forall k :: 0 <= k < |buf| ==> buf[k] == ByteAt(vol.disk, ino.iBlock, per, CutPos(per, pos + k))
      invariant forall k :: 0 <= k < |buf| ==> Readable(per, pos, k)
      decreases count - |buf|
    {
      var a := pos + |buf|;
      ghost var c := CutPos(per, a);
      CutBlock(per, a);
      var l, o := BlockNo(per, a) % TWO_32, Offset(per, a);
      var n := 4 * per - o;
      if n > count - |buf| { n := count - |buf|; }
      var r := Bmap(vol, ino, l);
      if r.None? {
        LogicalOfPath(per, l);
        OutOfRange(per, c);
        return -1, buf, a;
      }
      LogicalOfPath(per, l);
      ChunkInRange(per, c, n);
      SmallPer(vol.geo, vol.bitmaps, vol.freeCount, vol.sbFree, vol.disk);
      RangeInReach(per);
      MappedBlock(vol.disk, vol.UsedBlocks(), ino.iBlock, per, l);
      var block := if r.value == 0 then Zeros(4 * per) else vol.disk[r.value];
      ChunkBytes(vol.disk, ino.iBlock, per, c, n, block);
      ghost var was := buf;
      buf := buf + block[o..o + n];
      ret := ret + n;
      forall k | |was| <= k < |buf|
        ensures buf[k] == ByteAt(vol.disk, ino.iBlock, per, CutPos(per, pos + k)) && Readable(per, pos, k)
      {
        CutTogether(per, a, pos + k - a);
        assert buf[k] == block[o + (pos + k - a)];
      }
    }
    newPos := pos + |buf|;
  }

  /** The bytes of a chunk that stays inside one block are bytes of that block. */
  lemma ChunkBytes(disk: seq<Block>, ib: seq<nat>, per: nat, a: nat, n: nat, block: Block)
    requires per > 0 && Offset(per, a) + n <= 4 * per && |block| == 4 * per
    requires var b := BlockAt(disk, ib, per, BlockNo(per, a)); if b == 0 then block == Zeros(4 * per) else b < |disk| && disk[b] == block
    ensures forall k :: a <= k < a + n ==> ByteAt(disk, ib, per, k) == block[Offset(per, a) + (k - a)]
  {
    hide BlockAt, BlockNo, Offset;
    forall k | a <= k < a + n ensures ByteAt(disk, ib, per, k) == block[Offset(per, a) + (k - a)] {
      ChunkBlock(per, a, n, k);
    }
  }

  lemma MappedBlock(disk: seq<Block>, used: set<nat>, ib: seq<nat>, per: nat, l: nat)
    requires TreeOk(disk, used, ib, per) && per > 0
    ensures BlockAt(disk, ib, per, l) != 0 ==>
              BlockAt(disk, ib, per, l) < |disk| && |disk[BlockAt(disk, ib, per, l)]| == 4 * per
  {
    hide At, PathOf;
    if PathOf(per, l).Some? { PathsDiffer(per, l, l); }
  }

  lemma OutOfRange(per: nat, a: nat)
    requires per > 0 && BlockNo(per, a) >= NDIR + per + per * per
    ensures a >= MaxSize(per)
  {
    var size, limit := 4 * per, NDIR + per + per * per;
    assert a == a / size * size + a % size;
    MulStep(limit, a / size, size);
  }

  /** What was written at a position is what a read at that position returns, even where both are cut. */
  method WriteThenRead(vol: Volume, ino: Inode, data: seq<Byte>, pos: nat)
    returns (written: int, ret: int, buf: seq<Byte>)
    requires FileOk(vol, ino) && pos + |data| < TWO_63 && ino.size < TWO_64
    modifies vol, ino
    ensures written == |data| ==> ret == |data| && buf == data
  {
    hide VolumeOk, TreeOk, ByteAt, BlockAt, ForeignKept, Blocks, Wrote, Reach, MaxSize, Delta, CutPos, Readable,
         InSectors, ReadCount, Signed64;
    var newPos;
    ghost var done;
    written, newPos, done := Write(vol, ino, data, pos);
    ret, buf, newPos := Read(vol, ino, pos, |data|);
    if written == |data| && |data| > 0 {
      ghost var per, at := vol.geo.perBlock, CutPos(vol.geo.perBlock, pos);
      SmallPer(vol.geo, vol.bitmaps, vol.freeCount, vol.sbFree, vol.disk);
      RangeInReach(per);
      SizeReached(old(ino.size), ino.size, pos + |data|);
      WholeCount(ino.size, pos, |data|);
      AllReadable(per, pos, |data|);
      assert ret == |buf| == |data|;
      SameBytes(old(vol.disk), old(ino.iBlock), vol.disk, ino.iBlock, per, pos, data, buf);
    }
  }

  /** After a write the size reaches its end. */
  lemma SizeReached(before: nat, size: nat, end: nat)
    requires end < TWO_63 && size == if end > Signed64(before) then end else before
    ensures end <= Signed64(size)
  {
  }

  /** The bytes of a read that is not cut short by the size. */
  lemma WholeCount(size: nat, pos: nat, n: nat)
    requires size < TWO_64 && pos + n < TWO_63 && pos + n <= Signed64(size) && n > 0
    ensures ReadCount(size, pos, n) == n && pos < Signed64(size)
  {
  }

  lemma AllReadable(per: nat, pos: nat, n: nat)
    requires 0 < per < 0x1_0000 && CutPos(per, pos) + n <= MaxSize(per)
    ensures forall k: nat :: k < n ==> Readable(per, pos, k)
  {
    hide CutPos, MaxSize, Readable, Reach;
    RangeInReach(per);
    forall k: nat | k < n ensures Readable(per, pos, k) {
      CutTogether(per, pos, k);
      ReadableIf(per, pos, k);
    }
  }

  lemma SameBytes(d0: seq<Block>, i0: seq<nat>, d: seq<Block>, i: seq<nat>, per: nat, pos: nat, data: seq<Byte>,
                  buf: seq<Byte>)
    requires 0 < per < 0x1_0000 && CutPos(per, pos) + |data| <= MaxSize(per) && |buf| == |data|
    requires Wrote(d0, i0, d, i, per, CutPos(per, pos), data, |data|)
    requires forall k :: 0 <= k < |buf| ==> buf[k] == ByteAt(d, i, per, CutPos(per, pos + k))
    ensures buf == data
  {
    hide CutPos, MaxSize, Reach, ByteAt, Wrote;
    RangeInReach(per);
    ReadsBack(d0, i0, d, i, per, CutPos(per, pos), data);
    forall k: nat | k < |data| ensures buf[k] == data[k] {
      CutTogether(per, pos, k);
    }
  }

  lemma ReadableIf(per: nat, pos: nat, k: nat)
    requires per > 0
    ensures Readable(per, pos, k) <==> CutPos(per, pos + k) < MaxSize(per)
  {
  }

  // ---- what the cut does ----

  /**
   Whatever was on the volume and in the file: if the first byte written differs from the byte at the cut
   position, a write leaves all bytes outside its range alone exactly when it starts below 2^32 blocks.
   */
  lemma WroteInPlaceIff(d0: seq<Block>, i0: seq<nat>, d: seq<Block>, i: seq<nat>, per: nat, pos: nat, data: seq<Byte>,
                        m: nat)
    requires per > 0 && 0 < m <= |data| && Wrote(d0, i0, d, i, per, CutPos(per, pos), data, m)
    requires data[0] != ByteAt(d0, i0, per, CutPos(per, pos))
    ensures Wrote(d0, i0, d, i, per, pos, data, m) <==> pos < Reach(per)
  {
    hide ByteAt, BlockAt, BlockNo;
    var c := CutPos(per, pos);
    assert ByteAt(d, i, per, c) == data[0];
    if pos >= Reach(per) && Wrote(d0, i0, d, i, per, pos, data, m) { KeptBelow(d0, i0, d, i, per, pos, data, m, c); }
  }

  lemma KeptBelow(d0: seq<Block>, i0: seq<nat>, d: seq<Block>, i: seq<nat>, per: nat, pos: nat, data: seq<Byte>,
                  m: nat, c: nat)
    requires per > 0 && m <= |data| && Wrote(d0, i0, d, i, per, pos, data, m) && c < Reach(per) <= pos
    ensures ByteAt(d, i, per, c) == ByteAt(d0, i0, per, c)
  {
    hide ByteAt, BlockAt, BlockNo, Touched;
    NotTouched(per, c, pos, m);
  }

  lemma NotTouched(per: nat, c: nat, pos: nat, m: nat)
    requires per > 0 && c < Reach(per) <= pos
    ensures !Touched(per, pos, m, BlockNo(per, c)) && !(pos <= c < pos + m)
  {
    hide BlockNo, Offset, Reach;
    ReachBlock(per);
    Ordered(per, c, Reach(per));
    Ordered(per, Reach(per), pos);
  }

  lemma ReachBlock(per: nat)
    requires per > 0
    ensures BlockNo(per, Reach(per)) == TWO_32 && Offset(per, Reach(per)) == 0
  {
    DivMod(TWO_32, 0, 4 * per);
  }

  /** A write of one byte at 2^32 blocks goes to byte 0 of the file. */
  lemma WriteAtReach(d0: seq<Block>, i0: seq<nat>, d: seq<Block>, i: seq<nat>, per: nat, x: Byte)
    requires per > 0 && Wrote(d0, i0, d, i, per, CutPos(per, Reach(per)), [x], 1)
    ensures ByteAt(d, i, per, 0) == x
  {
    hide ByteAt, BlockAt;
    assert CutPos(per, Reach(per)) == 0;
  }

  lemma ReadsBack(d0: seq<Block>, i0: seq<nat>, d: seq<Block>, i: seq<nat>, per: nat, pos: nat, data: seq<Byte>)
    requires per > 0 && Wrote(d0, i0, d, i, per, pos, data, |data|)
    ensures forall k :: 0 <= k < |data| ==> ByteAt(d, i, per, pos + k) == data[k]
  {
    hide ByteAt, BlockAt, Touched;
  }
}
