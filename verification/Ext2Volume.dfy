/**
 Blocks and block bitmaps of an ext2 volume (src/fs/ext2.c). A bitmap is a sequence of bits, one per
 block of its group; a block is a sequence of bytes read as little-endian 32-bit words where it holds
 block pointers. Layout: "The Second Extended File System, Internal Layout", sections on the block
 bitmap and the inode table.
 */
module Ext2Volume {
  import opened Common

  type Byte = b: nat | b < 256
  type Block = seq<Byte>

  const TWO_31: nat := 0x8000_0000
  const TWO_32: nat := 0x1_0000_0000
  const TWO_63: nat := 0x8000_0000_0000_0000
  const TWO_64: nat := 0x1_0000_0000_0000_0000

  /** A number as a signed 64-bit variable holds it. */
  function Signed64(x: nat): (v: int) {
    var y := x % TWO_64;
    if y < TWO_63 then y else y - TWO_64
  }

  /** Words per block, s_blocks_per_group, s_first_data_block and the number of groups. */
  datatype Geometry = Geometry(perBlock: nat, bpg: nat, first: nat, groups: nat) {
    function BlockSize(): nat { 4 * perBlock }

    /** One past the last block number a bitmap can name. */
    function Limit(): nat { first + groups * bpg }

    /** The square of perBlock is a 32-bit number, and no block has the number that stands for failure. */
    predicate Ok() {
      0 < perBlock < 0x1_0000 && 0 < bpg <= 8 * BlockSize() && Limit() < TWO_32
    }

    /** The block that bit i of group g stands for. */
    function BlockOf(g: nat, i: nat): nat { g * bpg + i + first }

    function GroupOf(b: nat): nat
      requires first <= b && bpg > 0
    {
      (b - first) / bpg
    }

    function IndexOf(b: nat): nat
      requires first <= b && bpg > 0
    {
      (b - first) % bpg
    }
  }

  // ---- words ----

  function Word(b: Block, i: nat): (w: nat)
    requires 4 * i + 4 <= |b|
    ensures w < TWO_32
  {
    b[4 * i] as int + 256 * b[4 * i + 1] as int + 65536 * b[4 * i + 2] as int + 16777216 * b[4 * i + 3] as int
  }

  function PutWord(b: Block, i: nat, w: nat): (r: Block)
    requires 4 * i + 4 <= |b| && w < TWO_32
  {
    b[4 * i := w % 256][4 * i + 1 := w / 256 % 256][4 * i + 2 := w / 65536 % 256][4 * i + 3 := w / 16777216]
  }

  /** Words are little-endian: the first byte is the lowest. */
  lemma LittleEndian(b: Block, i: nat)
    requires 4 * i + 4 <= |b|
    ensures b[4 * i..4 * i + 4] == [1, 0, 0, 0] ==> Word(b, i) == 1
    ensures b[4 * i..4 * i + 4] == [0, 1, 0, 0] ==> Word(b, i) == 256
    ensures b[4 * i..4 * i + 4] == [0, 0, 1, 0] ==> Word(b, i) == 65536
    ensures b[4 * i..4 * i + 4] == [0, 0, 0, 1] ==> Word(b, i) == 16777216
    ensures PutWord(b, i, 1)[4 * i..4 * i + 4] == [1, 0, 0, 0]
  {
    var w := b[4 * i..4 * i + 4];
    assert w[0] == b[4 * i] && w[1] == b[4 * i + 1] && w[2] == b[4 * i + 2] && w[3] == b[4 * i + 3];
  }

  lemma WordOfPut(b: Block, i: nat, w: nat, j: nat)
    requires 4 * i + 4 <= |b| && 4 * j + 4 <= |b| && w < TWO_32
    ensures |PutWord(b, i, w)| == |b| && Word(PutWord(b, i, w), j) == if j == i then w else Word(b, j)
  {
    FourBytes(w);
    var r := PutWord(b, i, w);
    assert j != i ==> r[4 * j] == b[4 * j] && r[4 * j + 1] == b[4 * j + 1] && r[4 * j + 2] == b[4 * j + 2] && r[4 * j + 3] == b[4 * j + 3];
  }

  lemma FourBytes(w: nat)
    ensures w % 256 + 256 * (w / 256 % 256) + 65536 * (w / 65536 % 256) + 16777216 * (w / 16777216) == w
  {
    assert w / 65536 == w / 256 / 256 && w / 16777216 == w / 65536 / 256;
  }

  function Zeros(n: nat): (b: Block)
    ensures |b| == n && forall k :: 0 <= k < n ==> b[k] == 0
  {
    seq(n, _ => 0)
  }

  // ---- bitmaps ----

  /** The number of clear bits among the first n. */
  ghost function ClearIn(bits: seq<bool>, n: nat): nat
    requires n <= |bits|
  {
    if n == 0 then 0 else ClearIn(bits, n - 1) + if bits[n - 1] then 0 else 1
  }

  lemma {:induction false} ClearInSet(bits: seq<bool>, n: nat, i: nat, v: bool)
    requires i < n <= |bits| && bits[i] != v
    ensures ClearIn(bits[i := v], n) == ClearIn(bits, n) + if v then -1 else 1
  {
    if i < n - 1 {
      ClearInSet(bits, n - 1, i, v);
    } else {
      ClearInSame(bits, bits[i := v], n - 1);
    }
  }

  lemma {:induction false} ClearInSame(a: seq<bool>, b: seq<bool>, n: nat)
    requires n <= |a| && n <= |b| && forall k :: 0 <= k < n ==> a[k] == b[k]
    ensures ClearIn(a, n) == ClearIn(b, n)
  {
    if n > 0 { ClearInSame(a, b, n - 1); }
  }

  lemma {:induction false} ClearInZero(bits: seq<bool>, n: nat)
    requires n <= |bits|
    ensures ClearIn(bits, n) == 0 <==> forall k :: 0 <= k < n ==> bits[k]
  {
    if n > 0 { ClearInZero(bits, n - 1); }
  }

  ghost function Sum(s: seq<nat>): nat {
    if s == [] then 0 else Sum(s[..|s| - 1]) + s[|s| - 1]
  }

  lemma {:induction false} SumUpdate(s: seq<nat>, i: nat, v: nat)
    requires i < |s|
    ensures Sum(s[i := v]) == Sum(s) - s[i] + v
  {
    var n := |s| - 1;
    if i < n {
      SumUpdate(s[..n], i, v);
      assert s[i := v][..n] == s[..n][i := v];
    } else {
      assert s[i := v][..n] == s[..n];
    }
  }

  lemma {:induction false} SumZero(s: seq<nat>)
    ensures Sum(s) == 0 <==> forall i :: 0 <= i < |s| ==> s[i] == 0
  {
    if s != [] { SumZero(s[..|s| - 1]); }
  }

  /** The bit of a block is set. */
  predicate IsUsed(geo: Geometry, bitmaps: seq<seq<bool>>, b: nat) {
    && geo.bpg > 0 && geo.first <= b && geo.GroupOf(b) < |bitmaps| && geo.IndexOf(b) < |bitmaps[geo.GroupOf(b)]|
    && bitmaps[geo.GroupOf(b)][geo.IndexOf(b)]
  }

  /** The blocks whose bit is set. */
  ghost function Used(geo: Geometry, bitmaps: seq<seq<bool>>): set<nat> {
    set b: nat | b < geo.Limit() && IsUsed(geo, bitmaps, b)
  }

  /** The bits of the bitmaps name the blocks from s_first_data_block on, one after the other. */
  lemma BlocksInOrder(geo: Geometry, g: nat, i: nat)
    requires geo.bpg > 0
    ensures geo.BlockOf(0, 0) == geo.first && geo.BlockOf(g, i + 1) == geo.BlockOf(g, i) + 1
    ensures geo.BlockOf(g + 1, 0) == geo.BlockOf(g, geo.bpg - 1) + 1
  {
    assert (g + 1) * geo.bpg == g * geo.bpg + geo.bpg;
  }

  /** BlockOf and GroupOf / IndexOf are inverse to each other. */
  lemma Located(geo: Geometry, g: nat, i: nat)
    requires geo.Ok() && g < geo.groups && i < geo.bpg
    ensures var b := geo.BlockOf(g, i);
            geo.first <= b < geo.Limit() && geo.GroupOf(b) == g && geo.IndexOf(b) == i
  {
    MulStep(g, geo.groups, geo.bpg);
    DivMod(g, i, geo.bpg);
    assert geo.BlockOf(g, i) - geo.first == g * geo.bpg + i;
  }

  lemma {:induction false} MulStep(a: nat, b: nat, n: nat)
    ensures a < b ==> a * n + n <= b * n
    decreases b
  {
    if a + 1 < b {
      MulStep(a, b - 1, n);
      assert b * n == (b - 1) * n + n;
    } else {
      assert (a + 1) * n == a * n + n;
    }
  }

  lemma DivMod(g: nat, i: nat, n: nat)
    requires i < n
    ensures (g * n + i) / n == g && (g * n + i) % n == i
  {
    var k := g * n + i;
    assert k == k / n * n + k % n;
    MulStep(k / n, g, n);
    MulStep(g, k / n, n);
  }

  lemma Relocated(geo: Geometry, b: nat)
    requires geo.Ok() && geo.first <= b < geo.Limit()
    ensures geo.GroupOf(b) < geo.groups && geo.IndexOf(b) < geo.bpg && geo.BlockOf(geo.GroupOf(b), geo.IndexOf(b)) == b
  {
    Quotient(b - geo.first, geo.bpg, geo.groups);
  }

  lemma Quotient(k: nat, n: nat, m: nat)
    requires n > 0 && k < m * n
    ensures k / n < m && k % n < n && k / n * n + k % n == k
  {
    MulStep(m, k / n, n);
  }

  ghost predicate BitmapsOk(geo: Geometry, bitmaps: seq<seq<bool>>, blocks: nat) {
    && geo.Ok() && |bitmaps| == geo.groups && blocks <= geo.Limit()
    && (forall g :: 0 <= g < geo.groups ==> |bitmaps[g]| == 8 * geo.BlockSize())
    // bits that stand for no block of the group, or for no block of the volume, are set
    && (forall g, i :: 0 <= g < geo.groups && geo.bpg <= i < |bitmaps[g]| ==> bitmaps[g][i])
    && (forall b :: blocks <= b < geo.Limit() && geo.first <= b ==> b in Used(geo, bitmaps))
    // block 0 is never a data block
    && (geo.first == 0 && blocks > 0 ==> 0 in Used(geo, bitmaps))
  }

  /** What every volume operation keeps: the free counts agree with the bitmaps. */
  ghost predicate VolumeOk(geo: Geometry, bitmaps: seq<seq<bool>>, freeCount: seq<nat>, sbFree: nat, disk: seq<Block>) {
    && BitmapsOk(geo, bitmaps, |disk|) && |freeCount| == geo.groups
    && (forall g :: 0 <= g < geo.groups ==> freeCount[g] == ClearIn(bitmaps[g], geo.bpg))
    && sbFree == Sum(freeCount)
    && (forall b :: 0 <= b < |disk| ==> |disk[b]| == geo.BlockSize())
  }

  /** Changing one bit changes the set of used blocks by one block, and the counts by one. */
  lemma FlipBit(geo: Geometry, bitmaps: seq<seq<bool>>, freeCount: seq<nat>, sbFree: nat, disk: seq<Block>, g: nat,
                i: nat, v: bool)
    requires VolumeOk(geo, bitmaps, freeCount, sbFree, disk) && g < geo.groups && i < geo.bpg && bitmaps[g][i] != v
    requires v || 0 < geo.BlockOf(g, i) < |disk|
    ensures var b := geo.BlockOf(g, i);
            var bitmaps' := bitmaps[g := bitmaps[g][i := v]];
            var d: int := if v then -1 else 1;
            && b < geo.Limit() && freeCount[g] + d >= 0 && sbFree + d >= 0
            && Used(geo, bitmaps') == (if v then Used(geo, bitmaps) + {b} else Used(geo, bitmaps) - {b})
            && (b in Used(geo, bitmaps) <==> !v)
            && VolumeOk(geo, bitmaps', freeCount[g := freeCount[g] + d], sbFree + d, disk)
  {
    var b := geo.BlockOf(g, i);
    var bitmaps' := bitmaps[g := bitmaps[g][i := v]];
    Located(geo, g, i);
    ClearInSet(bitmaps[g], geo.bpg, i, v);
    SumUpdate(freeCount, g, freeCount[g] + if v then -1 else 1);
    forall x: nat | geo.first <= x < geo.Limit()
      ensures IsUsed(geo, bitmaps', x) <==> if x == b then v else IsUsed(geo, bitmaps, x)
    {
      Relocated(geo, x);
    }
    assert forall x: nat :: x < geo.first ==> !IsUsed(geo, bitmaps, x) && !IsUsed(geo, bitmaps', x);
  }

  /** The bookkeeping does not depend on what the blocks hold. */
  lemma DiskWritten(geo: Geometry, bitmaps: seq<seq<bool>>, freeCount: seq<nat>, sbFree: nat, disk: seq<Block>,
                    disk': seq<Block>)
    requires VolumeOk(geo, bitmaps, freeCount, sbFree, disk) && |disk'| == |disk|
    requires forall b :: 0 <= b < |disk| ==> |disk'[b]| == |disk[b]|
    ensures VolumeOk(geo, bitmaps, freeCount, sbFree, disk')
  {
  }

  lemma DiskWrittenAt(geo: Geometry, bitmaps: seq<seq<bool>>, freeCount: seq<nat>, sbFree: nat, disk: seq<Block>,
                      b: nat, buf: Block)
    requires VolumeOk(geo, bitmaps, freeCount, sbFree, disk) && b < |disk| && |buf| == 4 * geo.perBlock
    ensures VolumeOk(geo, bitmaps, freeCount, sbFree, disk[b := buf])
  {
    DiskWritten(geo, bitmaps, freeCount, sbFree, disk, disk[b := buf]);
  }

  /** Bit i of group g is the first clear one of the first group that has any. */
  ghost predicate FirstClear(bitmaps: seq<seq<bool>>, freeCount: seq<nat>, g: int, i: int) {
    && 0 <= g < |bitmaps| == |freeCount| && 0 <= i < |bitmaps[g]| && !bitmaps[g][i]
    && (forall h :: 0 <= h < g ==> freeCount[h] == 0) && (forall k :: 0 <= k < i ==> bitmaps[g][k])
  }

  /** A clear bit names a block of the volume that can hold data. */
  lemma ClearBit(geo: Geometry, bitmaps: seq<seq<bool>>, blocks: nat, g: nat, i: nat)
    requires BitmapsOk(geo, bitmaps, blocks) && g < geo.groups && i < |bitmaps[g]| && !bitmaps[g][i]
    ensures i < geo.bpg && 0 < geo.BlockOf(g, i) < blocks
  {
    Located(geo, g, i);
    assert geo.BlockOf(g, i) !in Used(geo, bitmaps);
  }

  lemma GroupSound(geo: Geometry, bitmaps: seq<seq<bool>>, freeCount: seq<nat>, sbFree: nat, disk: seq<Block>, g: nat)
    requires VolumeOk(geo, bitmaps, freeCount, sbFree, disk) && g < geo.groups
    ensures geo.Ok() && g < |bitmaps| == |freeCount| && |bitmaps[g]| == 8 * geo.BlockSize() && geo.bpg <= |bitmaps[g]|
    ensures freeCount[g] != 0 ==> exists i :: 0 <= i < |bitmaps[g]| && !bitmaps[g][i]
    ensures forall i :: 0 <= i < |bitmaps[g]| && !bitmaps[g][i] ==> i < geo.bpg && 0 < geo.BlockOf(g, i) < |disk|
  {
    ClearInZero(bitmaps[g], geo.bpg);
    forall i | 0 <= i < |bitmaps[g]| && !bitmaps[g][i] ensures i < geo.bpg && 0 < geo.BlockOf(g, i) < |disk| {
      ClearBit(geo, bitmaps, |disk|, g, i);
    }
  }

  /** Block b was the first free one, and its group's count went down by one. */
  ghost predicate FirstFit(geo: Geometry, bitmaps: seq<seq<bool>>, freeCount: seq<nat>, freeCount': seq<nat>, b: nat) {
    exists g: nat, i: nat :: FirstClear(bitmaps, freeCount, g, i) && b == geo.BlockOf(g, i)
                   && freeCount[g] > 0 && freeCount' == freeCount[g := freeCount[g] - 1]
  }

  class Volume {
    const geo: Geometry
    var disk: seq<Block>
    /** The block bitmap of each group, bg_free_blocks_count of each, and s_free_blocks_count. */
    var bitmaps: seq<seq<bool>>
    var freeCount: seq<nat>
    var sbFree: nat

    ghost predicate Valid()
      reads this
    {
      VolumeOk(geo, bitmaps, freeCount, sbFree, disk)
    }

    ghost function UsedBlocks(): set<nat>
      reads this
    {
      Used(geo, bitmaps)
    }

    /** ext2_alloc_block: the first clear bit of the first group with a free block. */
    method AllocBlock() returns (r: Option<nat>)
      requires Valid()
      modifies this`bitmaps, this`freeCount, this`sbFree
      ensures Valid()
      ensures r.None? <==> old(sbFree) == 0
      ensures r.None? ==> bitmaps == old(bitmaps) && freeCount == old(freeCount) && sbFree == old(sbFree)
      ensures r.Some? ==>
                && 0 < r.value < |disk| && r.value !in old(UsedBlocks())
                && UsedBlocks() == old(UsedBlocks()) + {r.value} && sbFree == old(sbFree) - 1
                && FirstFit(geo, old(bitmaps), old(freeCount), freeCount, r.value)
    {
      hide BitmapsOk, Used, FirstFit;
      SumZero(freeCount);
      for g := 0 to geo.groups
        invariant bitmaps == old(bitmaps) && freeCount == old(freeCount) && sbFree == old(sbFree)
        invariant forall h :: 0 <= h < g ==> freeCount[h] == 0
      {
        if freeCount[g] != 0 {
          var r := TakeFrom(g);
          return Some(r);
        }
      }
      r := None;
    }

    /** The scan of one group's bitmap by ext2_alloc_block. */
    method TakeFrom(g: nat) returns (b: nat)
      requires Valid() && g < geo.groups && freeCount[g] != 0 && forall h :: 0 <= h < g ==> freeCount[h] == 0
      modifies this`bitmaps, this`freeCount, this`sbFree
      ensures Valid() && 0 < b < |disk| && b !in old(UsedBlocks())
      ensures UsedBlocks() == old(UsedBlocks()) + {b} && sbFree == old(sbFree) - 1
      ensures FirstFit(geo, old(bitmaps), old(freeCount), freeCount, b)
    {
      hide VolumeOk, Used;
      GroupSound(geo, bitmaps, freeCount, sbFree, disk, g);
      for i := 0 to 8 * geo.BlockSize()
        invariant bitmaps == old(bitmaps) && freeCount == old(freeCount) && sbFree == old(sbFree)
        invariant forall k :: 0 <= k < i ==> bitmaps[g][k]
      {
        if !bitmaps[g][i] {
          FlipBit(geo, bitmaps, freeCount, sbFree, disk, g, i, true);
          assert FirstClear(old(bitmaps), old(freeCount), g, i);
          bitmaps := bitmaps[g := bitmaps[g][i := true]];
          freeCount := freeCount[g := freeCount[g] - 1];
          sbFree := sbFree - 1;
          return geo.BlockOf(g, i);
        }
      }
      // A positive count means the scan finds a clear bit.
      assert false;
    }

    /** ext2_free_block: clears the bit of a block in use; anything else is ignored. */
    method FreeBlock(b: nat)
      requires Valid() && b < TWO_32
      // blocks that are not data blocks of the volume are never given back
      requires b in UsedBlocks() ==> 0 < b < |disk|
      modifies this`bitmaps, this`freeCount, this`sbFree
      ensures Valid() && UsedBlocks() == old(UsedBlocks()) - {b}
      ensures sbFree == old(sbFree) + if b in old(UsedBlocks()) then 1 else 0
      ensures b !in old(UsedBlocks()) ==> freeCount == old(freeCount)
      ensures b in old(UsedBlocks()) ==>
                freeCount == old(freeCount)[geo.GroupOf(b) := old(freeCount)[geo.GroupOf(b)] + 1]
    {
      // block - s_first_data_block in unsigned 32-bit arithmetic
      var rel := if b >= geo.first then b - geo.first else b + TWO_32 - geo.first;
      var g := rel / geo.bpg;
      RelativeGroup(geo, b);
      if g >= geo.groups { return; }
      var i := b - (g * geo.bpg + geo.first);
      if bitmaps[g][i] {
        FlipBit(geo, bitmaps, freeCount, sbFree, disk, g, i, false);
        bitmaps := bitmaps[g := bitmaps[g][i := false]];
        freeCount := freeCount[g := freeCount[g] + 1];
        sbFree := sbFree + 1;
      }
    }
  }

  /** The group computed by ext2_free_block is out of range exactly for blocks outside the bitmaps. */
  lemma RelativeGroup(geo: Geometry, b: nat)
    requires geo.Ok() && b < TWO_32
    ensures var rel := if b >= geo.first then b - geo.first else b + TWO_32 - geo.first;
            && rel >= 0 && (rel / geo.bpg < geo.groups <==> geo.first <= b < geo.Limit())
            && (geo.first <= b < geo.Limit() ==>
                  && geo.GroupOf(b) == rel / geo.bpg && geo.IndexOf(b) == b - (geo.GroupOf(b) * geo.bpg + geo.first)
                  && geo.IndexOf(b) < geo.bpg && geo.BlockOf(geo.GroupOf(b), geo.IndexOf(b)) == b)
  {
    var rel := if b >= geo.first then b - geo.first else b + TWO_32 - geo.first;
    if geo.first <= b < geo.Limit() {
      Relocated(geo, b);
    } else {
      Below(rel, geo.bpg, geo.groups);
    }
  }

  lemma Below(k: nat, n: nat, m: nat)
    requires n > 0 && k >= m * n
    ensures k / n >= m
  {
    assert k / n * n + k % n == k;
    MulStep(k / n, m, n);
  }
}
