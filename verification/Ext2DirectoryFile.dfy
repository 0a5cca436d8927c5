/**
 Directories as files of the volume (src/fs/ext2.c): the blocks of `Ext2Directory` are found through the
 block tree of the directory's inode, and a directory that is full grows by ext2_bmap_alloc.
 */
module Ext2DirectoryFile {
  import opened Common
  import opened Ext2Volume
  import opened Ext2Tree
  import opened Ext2File
  import opened Ext2Directory

  /** The first n blocks of a file; None for holes. */
  function DirBlocks(disk: seq<Block>, ib: seq<nat>, per: nat, n: nat): (r: seq<Option<Block>>)
    requires per > 0
    ensures |r| == n
  {
    seq(n, (k: int) requires 0 <= k < n => BlockOf(disk, BlockAt(disk, ib, per, k)))
  }

  function BlockOf(disk: seq<Block>, b: nat): (r: Option<Block>) {
    if 0 < b < |disk| then Some(disk[b]) else None
  }

  /** The number of blocks of a file of the given size. */
  function Count(per: nat, size: nat): (n: nat)
    requires per > 0
  {
    Div(size + 4 * per - 1, 4 * per)
  }

  /** The blocks of a file hold all its bytes, and none of them is beyond its end. */
  lemma CountHolds(per: nat, size: nat)
    requires per > 0
    ensures size == 0 ==> Count(per, size) == 0
    ensures size > 0 ==> (Count(per, size) - 1) * (4 * per) < size <= Count(per, size) * (4 * per)
  {
    RoundUp(size, 4 * per);
  }

  /** Block k of a directory is the bytes of the file from k blocks on; a hole reads as zeros. */
  lemma BlockBytes(disk: seq<Block>, used: set<nat>, ib: seq<nat>, per: nat, n: nat, k: nat, o: nat)
    requires TreeOk(disk, used, ib, per) && per > 0 && k < n && o < 4 * per
    ensures match DirBlocks(disk, ib, per, n)[k]
            case Some(b) => o < |b| && ByteAt(disk, ib, per, k * (4 * per) + o) == b[o]
            case None => ByteAt(disk, ib, per, k * (4 * per) + o) == 0
  {
    hide BlockAt;
    DivMod(k, o, 4 * per);
    MappedBlock(disk, used, ib, per, k);
  }

  /** A block more is one block more. */
  lemma CountGrows(per: nat, size: nat)
    requires per > 0
    ensures Count(per, size + 4 * per) == Count(per, size) + 1
  {
    OneMore(size + 4 * per - 1, 4 * per);
  }

  lemma OneMore(a: nat, d: nat)
    requires d > 0
    ensures (a + d) / d == a / d + 1
  {
    var q, q' := a / d, (a + d) / d;
    assert a == q * d + a % d && a + d == q' * d + (a + d) % d;
    assert (q + 1) * d == q * d + d;
    MulStep(q', q + 1, d);
    MulStep(q + 1, q', d);
  }

  /** Logical block k is in the tree, and found in the list of blocks. */
  lemma BlockInRange(disk: seq<Block>, used: set<nat>, ib: seq<nat>, per: nat, n: nat, k: nat)
    requires TreeOk(disk, used, ib, per) && k < n <= NDIR + per + per * per
    ensures PathOf(per, k).Some? && per > 0
    ensures At(disk, ib, PathOf(per, k).value) == BlockAt(disk, ib, per, k)
    ensures DirBlocks(disk, ib, per, n)[k] == BlockOf(disk, BlockAt(disk, ib, per, k))
    ensures BlockAt(disk, ib, per, k) != 0 ==> BlockAt(disk, ib, per, k) < |disk|
  {
    hide At, PathOf;
    TreeShape(disk, used, ib, per);
    LogicalOfPath(per, k);
    MappedBlock(disk, used, ib, per, k);
  }

  /** Writing one block of a directory replaces it in the list. */
  lemma BlockReplaced(disk: seq<Block>, used: set<nat>, ib: seq<nat>, per: nat, n: nat, k: nat, buf: Block)
    requires TreeOk(disk, used, ib, per) && k < n && PathOf(per, k).Some? && BlockAt(disk, ib, per, k) != 0
             && |buf| == 4 * per > 0
    ensures var p := BlockAt(disk, ib, per, k);
            && p < |disk| && TreeOk(disk[p := buf], used, ib, per)
            && DirBlocks(disk[p := buf], ib, per, n) == DirBlocks(disk, ib, per, n)[k := Some(buf)]
  {
    hide TreeOk, PathOf, BlockAt;
    var p := BlockAt(disk, ib, per, k);
    WriteKeepsBlock(disk, used, ib, per, k, buf, k);
    var d' := disk[p := buf];
    forall m | 0 <= m < n
      ensures BlockOf(d', BlockAt(d', ib, per, m)) == DirBlocks(disk, ib, per, n)[k := Some(buf)][m]
    {
      WriteKeepsBlock(disk, used, ib, per, k, buf, m);
    }
    assert DirBlocks(d', ib, per, n) == DirBlocks(disk, ib, per, n)[k := Some(buf)];
  }

  /** Growing the tree at block n leaves the blocks before it alone. */
  lemma BlocksKept(d0: seq<Block>, u0: set<nat>, i0: seq<nat>, d: seq<Block>, u: set<nat>, i: seq<nat>, per: nat,
                   n: nat)
    requires TreeOk(d0, u0, i0, per) && per > 0 && PathOf(per, n).Some?
             && Extended(d0, u0, i0, d, u, i, per, PathOf(per, n).value)
    ensures DirBlocks(d, i, per, n) == DirBlocks(d0, i0, per, n)
  {
    hide TreeOk, PathOf, BlockAt, Extended;
    forall m | 0 <= m < n ensures BlockOf(d, BlockAt(d, i, per, m)) == BlockOf(d0, BlockAt(d0, i0, per, m)) {
      GrowKeepsBlock(d0, u0, i0, d, u, i, per, n, m);
    }
  }

  lemma LastBlock(disk: seq<Block>, ib: seq<nat>, per: nat, n: nat)
    requires per > 0
    ensures DirBlocks(disk, ib, per, n + 1) == DirBlocks(disk, ib, per, n) + [BlockOf(disk, BlockAt(disk, ib, per, n))]
  {
    hide BlockAt, BlockOf;
  }

  /** The directory's tree reaches all its blocks. */
  ghost predicate Mapped(vol: Volume, dir: Inode)
    reads vol, dir
  {
    var per := vol.geo.perBlock;
    FileOk(vol, dir) && per > 0 && Count(per, dir.size) <= NDIR + per + per * per
  }

  /** The directory's blocks in logical order. */
  ghost function BlocksOf(vol: Volume, dir: Inode): (r: seq<Option<Block>>)
    reads vol, dir
    requires vol.geo.perBlock > 0
  {
    DirBlocks(vol.disk, dir.iBlock, vol.geo.perBlock, Count(vol.geo.perBlock, dir.size))
  }

  ghost predicate DirOk(vol: Volume, dir: Inode)
    reads vol, dir
  {
    Mapped(vol, dir) && BlocksOk(BlocksOf(vol, dir), 4 * vol.geo.perBlock)
  }

  /** The live entries of a directory, in order. */
  ghost function LiveOf(vol: Volume, dir: Inode): (s: seq<Entry>)
    reads vol, dir
    requires DirOk(vol, dir)
  {
    Live(BlocksOf(vol, dir), 4 * vol.geo.perBlock)
  }

  method ReadBlock(vol: Volume, dir: Inode, k: nat) returns (b: Option<Block>)
    requires Mapped(vol, dir) && k < Count(vol.geo.perBlock, dir.size)
    ensures b == BlocksOf(vol, dir)[k]
  {
    hide TreeOk, At, PathOf, VolumeOk, BlockAt, Count;
    BlockInRange(vol.disk, vol.UsedBlocks(), dir.iBlock, vol.geo.perBlock, Count(vol.geo.perBlock, dir.size), k);
    var p := Bmap(vol, dir, k);
    b := if p.value == 0 then None else Some(vol.disk[p.value]);
  }

  method WriteBlock(vol: Volume, dir: Inode, k: nat, buf: Block)
    requires Mapped(vol, dir) && k < Count(vol.geo.perBlock, dir.size) && BlocksOf(vol, dir)[k].Some?
             && |buf| == 4 * vol.geo.perBlock
    modifies vol`disk
    ensures Mapped(vol, dir) && BlocksOf(vol, dir) == old(BlocksOf(vol, dir))[k := Some(buf)]
    ensures ForeignKept(old(vol.disk), old(vol.UsedBlocks()), dir.iBlock, vol.disk, vol.UsedBlocks(), dir.iBlock,
                        vol.geo.perBlock)
  {
    hide TreeOk, At, PathOf, VolumeOk, BlockAt, ForeignKept, Blocks, Wrote, Count;
    ghost var d0, u0, per := vol.disk, vol.UsedBlocks(), vol.geo.perBlock;
    BlockInRange(d0, u0, dir.iBlock, per, Count(per, dir.size), k);
    BlockReplaced(d0, u0, dir.iBlock, per, Count(per, dir.size), k, buf);
    PathsDiffer(per, k, k);
    WroteNothing(d0, u0, dir.iBlock, per, 0, []);
    ForeignWrite(d0, u0, dir.iBlock, d0, u0, dir.iBlock, per, PathOf(per, k).value, buf);
    var p := Bmap(vol, dir, k);
    DiskWrittenAt(vol.geo, vol.bitmaps, vol.freeCount, vol.sbFree, vol.disk, p.value, buf);
    vol.disk := vol.disk[p.value := buf];
  }

  /** Whether the tree can be extended by logical block l. */
  predicate CanMap(disk: seq<Block>, ib: seq<nat>, per: nat, free: nat, l: nat)
    requires per > 0
  {
    match PathOf(per, l)
    case None => false
    case Some(p) => free >= Lacking(disk, ib, p)
  }

  /** The end of ext2_dir_add_entry: a further block for the directory, if the volume has one. */
  method Grow(vol: Volume, dir: Inode, buf: Block) returns (ok: bool)
    requires Mapped(vol, dir) && |buf| == 4 * vol.geo.perBlock
    modifies vol, dir
    ensures Mapped(vol, dir)
    ensures ok <==> CanMap(old(vol.disk), old(dir.iBlock), vol.geo.perBlock, old(vol.sbFree), Count(vol.geo.perBlock, old(dir.size)))
    ensures BlocksOf(vol, dir) == if ok then old(BlocksOf(vol, dir)) + [Some(buf)] else old(BlocksOf(vol, dir))
    ensures ok ==> dir.size == old(dir.size) + 4 * vol.geo.perBlock && dir.iSize == dir.size % TWO_32
    ensures !ok ==> dir.size == old(dir.size)
    // the new block is the part of the file from the old end on
    ensures ok && old(dir.size) % (4 * vol.geo.perBlock) == 0 ==>
              forall k :: 0 <= k < 4 * vol.geo.perBlock ==>
                ByteAt(vol.disk, dir.iBlock, vol.geo.perBlock, old(dir.size) + k) == buf[k]
    ensures ForeignKept(old(vol.disk), old(vol.UsedBlocks()), old(dir.iBlock), vol.disk, vol.UsedBlocks(), dir.iBlock,
                        vol.geo.perBlock)
  {
    hide TreeOk, At, PathOf, VolumeOk, BlockAt, ForeignKept, Blocks, Wrote, Count, Extended, Lacking, DirBlocks, Delta;
    var per := vol.geo.perBlock;
    var n := Count(per, dir.size);
    ghost var d0, u0, i0 := vol.disk, vol.UsedBlocks(), dir.iBlock;
    LogicalOfPath(per, n);
    WroteNothing(d0, u0, i0, per, 0, []);
    var p, dirty := BmapAlloc(vol, dir, n);
    if PathOf(per, n).None? { return false; }
    ghost var t := PathOf(per, n).value;
    BlocksKept(d0, u0, i0, vol.disk, vol.UsedBlocks(), dir.iBlock, per, n);
    ForeignStep(d0, u0, i0, d0, u0, i0, vol.disk, vol.UsedBlocks(), dir.iBlock, per, t);
    if p.None? { return false; }
    CountGrows(per, dir.size);
    PathsDiffer(per, n, n);
    BlockBounds(vol.disk, vol.UsedBlocks(), dir.iBlock, per, t);
    BlockIsAt(vol.disk, dir.iBlock, per, n);
    BlockReplaced(vol.disk, vol.UsedBlocks(), dir.iBlock, per, n + 1, n, buf);
    LastBlock(vol.disk, dir.iBlock, per, n);
    ForeignWrite(d0, u0, i0, vol.disk, vol.UsedBlocks(), dir.iBlock, per, t, buf);
    DiskWrittenAt(vol.geo, vol.bitmaps, vol.freeCount, vol.sbFree, vol.disk, p.value, buf);
    vol.disk := vol.disk[p.value := buf];
    NewBytes(vol.disk, vol.UsedBlocks(), dir.iBlock, per, dir.size, buf);
    dir.size := dir.size + 4 * per;
    dir.iSize := dir.size % TWO_32;
    ok := true;
  }

  lemma NewBytes(disk: seq<Block>, used: set<nat>, ib: seq<nat>, per: nat, size: nat, buf: Block)
    requires TreeOk(disk, used, ib, per) && per > 0 && |buf| == 4 * per
    requires DirBlocks(disk, ib, per, Count(per, size) + 1)[Count(per, size)] == Some(buf)
    ensures size % (4 * per) == 0 ==> forall k :: 0 <= k < 4 * per ==> ByteAt(disk, ib, per, size + k) == buf[k]
  {
    hide TreeOk, ByteAt, DirBlocks, Count;
    var n := Count(per, size);
    if size % (4 * per) == 0 {
      WholeBlocks(per, size);
      forall k | 0 <= k < 4 * per ensures ByteAt(disk, ib, per, size + k) == buf[k] {
        BlockBytes(disk, used, ib, per, n + 1, n, k);
      }
    }
  }

  lemma WholeBlocks(per: nat, size: nat)
    requires per > 0 && size % (4 * per) == 0
    ensures Count(per, size) * (4 * per) == size
  {
    hide Count;
    CountHolds(per, size);
    var n, q, d := Count(per, size), size / (4 * per), 4 * per;
    assert size == q * d;
    if size > 0 {
      assert (n - 1) * d == n * d - d;
      if n < q { MulStep(n, q, d); }
      if q < n { MulStep(q, n, d); }
    }
  }

  /** Some block has a record with room. */
  ghost predicate RoomIn(blocks: seq<Option<Block>>, size: nat, need: nat)
    requires BlocksOk(blocks, size)
  {
    exists k :: 0 <= k < |blocks| && RoomInBlock(blocks[k], size, need)
  }

  predicate RoomInBlock(b: Option<Block>, size: nat, need: nat) {
    b.Some? && BlockOk(b.value, size) && HasRoom(b.value, 0, size, need)
  }

  /**
   ext2_dir_add_entry: exactly one live entry more. It fails exactly when no record has room and the volume has
   no room for a further block; then the entries are as before. Other files keep their blocks.
   */
  method Add(vol: Volume, dir: Inode, e: Entry) returns (ok: bool)
    requires DirOk(vol, dir) && 0 < e.ino < TWO_32 && |e.name| < 256
    modifies vol, dir
    ensures DirOk(vol, dir)
    ensures ok <==> RoomIn(old(BlocksOf(vol, dir)), 4 * vol.geo.perBlock, Needed(|e.name|))
                    || CanMap(old(vol.disk), old(dir.iBlock), vol.geo.perBlock, old(vol.sbFree), Count(vol.geo.perBlock, old(dir.size)))
    ensures if ok then Inserted(old(LiveOf(vol, dir)), LiveOf(vol, dir), e) else BlocksOf(vol, dir) == old(BlocksOf(vol, dir))
    // with room in a record the entry goes there, and the directory takes no block
    ensures RoomIn(old(BlocksOf(vol, dir)), 4 * vol.geo.perBlock, Needed(|e.name|)) ==>
              vol.sbFree == old(vol.sbFree) && dir.size == old(dir.size) && dir.iBlock == old(dir.iBlock)
    ensures ForeignKept(old(vol.disk), old(vol.UsedBlocks()), old(dir.iBlock), vol.disk, vol.UsedBlocks(), dir.iBlock,
                        vol.geo.perBlock)
  {
    hide Chain, Entries, HasRoom, Inserted, Live, ForeignKept, FileOk, DirBlocks, Count, CanMap, Occupy, SetRecLen;
    var size := 4 * vol.geo.perBlock;
    ghost var blocks := BlocksOf(vol, dir);
    BlocksSound(blocks, size);
    var n := Count(vol.geo.perBlock, dir.size);
    for k := 0 to n
      invariant unchanged(vol) && unchanged(dir)
      invariant forall j :: 0 <= j < k ==> !RoomInBlock(blocks[j], size, Needed(|e.name|))
    {
      var b := ReadBlock(vol, dir, k);
      if b.Some? {
        var done, buf := AddInBlock(b.value, e);
        if done {
          assert RoomInBlock(blocks[k], size, Needed(|e.name|));
          LiveReplaced(blocks, size, k, buf);
          InsertedInside(Live(blocks[..k], size), Entries(b.value, 0, size), Entries(buf, 0, size),
                         Live(blocks[k + 1..], size), e);
          WriteBlock(vol, dir, k, buf);
          return true;
        }
      }
    }
    assert !RoomIn(blocks, size, Needed(|e.name|));
    var fresh_ := Occupy(SetRecLen(Zeros(size), 0, size), 0, e);
    FreshBlock(size, e);
    LiveAppended(blocks, size, fresh_, e);
    ok := Grow(vol, dir, fresh_);
  }

  /** ext2_dir_remove_entry: the first live entry with the given inode goes; other files keep their blocks. */
  method Remove(vol: Volume, dir: Inode, ino: nat) returns (ok: bool)
    requires DirOk(vol, dir) && ino > 0
    modifies vol`disk
    ensures DirOk(vol, dir)
    ensures ok <==> !Absent(old(LiveOf(vol, dir)), ino)
    ensures if ok then Removed(old(LiveOf(vol, dir)), LiveOf(vol, dir), ino) else vol.disk == old(vol.disk)
    ensures ok ==> RoomIn(BlocksOf(vol, dir), 4 * vol.geo.perBlock, Needed(|NameWith(old(LiveOf(vol, dir)), ino)|))
    ensures ForeignKept(old(vol.disk), old(vol.UsedBlocks()), dir.iBlock, vol.disk, vol.UsedBlocks(), dir.iBlock,
                        vol.geo.perBlock)
  {
    hide Chain, Entries, Removed, Live, BlocksOk, ForeignKept, FileOk, DirBlocks, Count, Wrote, NameWith, HasRoom;
    var size := 4 * vol.geo.perBlock;
    ghost var blocks := BlocksOf(vol, dir);
    BlocksSound(blocks, size);
    WroteNothing(vol.disk, vol.UsedBlocks(), dir.iBlock, vol.geo.perBlock, 0, []);
    assert blocks[..0] == [];
    LiveNone(size);
    var n := Count(vol.geo.perBlock, dir.size);
    for k := 0 to n
      invariant BlocksOk(blocks[..k], size) && Absent(Live(blocks[..k], size), ino) && vol.disk == old(vol.disk)
    {
      LiveSplit(blocks, size, k);
      LiveGrows(blocks, size, k);
      var b := ReadBlock(vol, dir, k);
      if b.Some? {
        var done, buf := RemoveInBlock(b.value, ino);
        if done {
          LiveReplaced(blocks, size, k, buf);
          RemovedInside(Live(blocks[..k], size), Entries(b.value, 0, size), Entries(buf, 0, size),
                        Live(blocks[k + 1..], size), ino);
          NameInside(Live(blocks[..k], size), Entries(b.value, 0, size), Live(blocks[k + 1..], size), ino);
          WriteBlock(vol, dir, k, buf);
          assert RoomInBlock(BlocksOf(vol, dir)[k], size, Needed(|NameWith(Entries(b.value, 0, size), ino)|));
          return true;
        }
      }
    }
    assert blocks[..|blocks|] == blocks;
    ok := false;
  }

  /** The first entry for an inode is the first in the part that has one. */
  lemma NameInside(pre: seq<Entry>, s: seq<Entry>, post: seq<Entry>, ino: nat)
    requires Absent(pre, ino) && !Absent(s, ino)
    ensures NameWith(pre + s + post, ino) == NameWith(s, ino)
  {
    hide NameWith;
    var a, e, b := FirstWith(s, ino);
    NameWithAt(a, e, b);
    NameWithAt(pre + a, e, b + post);
    assert pre + s + post == pre + a + [e] + (b + post);
  }

  lemma {:induction false} FirstWith(s: seq<Entry>, ino: nat) returns (a: seq<Entry>, e: Entry, b: seq<Entry>)
    requires !Absent(s, ino)
    ensures s == a + [e] + b && Absent(a, ino) && e.ino == ino
  {
    if s[0].ino == ino {
      a, e, b := [], s[0], s[1..];
    } else {
      assert s == [s[0]] + s[1..];
      a, e, b := FirstWith(s[1..], ino);
      a := [s[0]] + a;
    }
  }

  /** An entry takes the place of a removed one whose name was at least as long: the directory takes no block. */
  method RemoveThenAdd(vol: Volume, dir: Inode, ino: nat, e: Entry) returns (ok: bool)
    requires DirOk(vol, dir) && ino > 0 && !Absent(LiveOf(vol, dir), ino)
    requires 0 < e.ino < TWO_32 && |e.name| < 256 && |e.name| <= |NameWith(LiveOf(vol, dir), ino)|
    modifies vol, dir
    ensures ok && DirOk(vol, dir)
    ensures vol.sbFree == old(vol.sbFree) && dir.size == old(dir.size) && dir.iBlock == old(dir.iBlock)
  {
    hide Live, BlocksOk, Inserted, Removed, ForeignKept, FileOk, DirBlocks, Count, CanMap, NameWith, HasRoom, Chain;
    ghost var n := |NameWith(LiveOf(vol, dir), ino)|;
    var gone := Remove(vol, dir, ino);
    SmallerRoom(BlocksOf(vol, dir), 4 * vol.geo.perBlock, n, |e.name|);
    ok := Add(vol, dir, e);
  }

  lemma SmallerRoom(blocks: seq<Option<Block>>, size: nat, n: nat, less: nat)
    requires BlocksOk(blocks, size) && RoomIn(blocks, size, Needed(n)) && less <= n
    ensures RoomIn(blocks, size, Needed(less))
  {
    hide HasRoom, Chain;
    var k :| 0 <= k < |blocks| && RoomInBlock(blocks[k], size, Needed(n));
    RoomForLess(blocks[k].value, 0, size, Needed(n), Needed(less));
    assert RoomInBlock(blocks[k], size, Needed(less));
  }

  /** ext2_lookup: the inode of the first live entry with the given name. */
  method Lookup(vol: Volume, dir: Inode, name: seq<Byte>) returns (r: Option<nat>)
    requires DirOk(vol, dir)
    ensures r == FirstNamed(LiveOf(vol, dir), name)
  {
    hide Chain, Entries, Live, BlocksOk, FirstNamed, FileOk, DirBlocks, Count;
    var size := 4 * vol.geo.perBlock;
    ghost var blocks := BlocksOf(vol, dir);
    BlocksSound(blocks, size);
    assert blocks[..0] == [];
    LiveNone(size);
    NamedNone(name);
    var n := Count(vol.geo.perBlock, dir.size);
    for k := 0 to n
      invariant BlocksOk(blocks[..k], size) && FirstNamed(Live(blocks[..k], size), name).None?
    {
      LiveSplit(blocks, size, k);
      LiveGrows(blocks, size, k);
      NamedConcat(Live(blocks[..k], size), LiveIn(blocks[k], size), name);
      NamedConcat(Live(blocks[..k], size) + LiveIn(blocks[k], size), Live(blocks[k + 1..], size), name);
      var b := ReadBlock(vol, dir, k);
      if b.Some? {
        r := LookupInBlock(b.value, name);
        if r.Some? { return; }
      } else {
        NamedNone(name);
      }
    }
    assert blocks[..|blocks|] == blocks;
    r := None;
  }

  /** ext2_readdir: the entry with number pos; a caller's buffer of `count` bytes may be too small for it. */
  method Readdir(vol: Volume, dir: Inode, pos: nat, count: nat) returns (r: Option<Entry>, newPos: nat)
    requires DirOk(vol, dir)
    ensures r.Some? <==> pos < |LiveOf(vol, dir)| && DIRENT + |LiveOf(vol, dir)[pos].name| + 1 <= count
    ensures r.Some? ==> r.value == LiveOf(vol, dir)[pos] && newPos == pos + 1
    ensures r.None? ==> newPos == pos
  {
    hide Chain, Entries, Live, BlocksOk, FileOk, DirBlocks, Count;
    var size := 4 * vol.geo.perBlock;
    ghost var blocks := BlocksOf(vol, dir);
    BlocksSound(blocks, size);
    assert blocks[..0] == [];
    LiveNone(size);
    var cur := 0;
    var n := Count(vol.geo.perBlock, dir.size);
    for k := 0 to n
      invariant BlocksOk(blocks[..k], size) && cur == |Live(blocks[..k], size)| <= pos
    {
      LiveSplit(blocks, size, k);
      LiveGrows(blocks, size, k);
      var b := ReadBlock(vol, dir, k);
      if b.Some? {
        var e, m := EntryInBlock(b.value, pos - cur);
        if e.Some? {
          assert Live(blocks, size)[pos] == Entries(b.value, 0, size)[pos - cur];
          if DIRENT + |e.value.name| + 1 > count { return None, pos; }
          return e, pos + 1;
        }
        cur := cur + m;
      }
    }
    assert blocks[..|blocks|] == blocks;
    return None, pos;
  }

  lemma {:induction false} ShortInBlock(b: Block, start: nat, end: nat)
    requires Chain(b, start, end) && end <= |b|
    ensures forall k :: 0 <= k < |Entries(b, start, end)| ==> |Entries(b, start, end)[k].name| <= 255
    decreases end - start
  {
    if start < end { ShortInBlock(b, start + RecLen(b, start), end); }
  }

  /** A name fits a length byte. */
  lemma {:induction false} ShortNames(blocks: seq<Option<Block>>, size: nat)
    requires BlocksOk(blocks, size)
    ensures forall k :: 0 <= k < |Live(blocks, size)| ==> |Live(blocks, size)[k].name| <= 255
  {
    hide Entries, Chain;
    if blocks != [] {
      var n := |blocks| - 1;
      ShortNames(blocks[..n], size);
      if blocks[n].Some? { ShortInBlock(blocks[n].value, 0, size); }
    }
  }

  /** Repeated calls of readdir from the start, until one fails, with a buffer that holds any name. */
  method ReadAll(vol: Volume, dir: Inode, count: nat) returns (all: seq<Entry>)
    requires DirOk(vol, dir) && count >= DIRENT + 255 + 1
    ensures all == LiveOf(vol, dir)
  {
    hide FileOk, BlocksOf, BlocksOk, Live;
    ShortNames(BlocksOf(vol, dir), 4 * vol.geo.perBlock);
    ghost var live := LiveOf(vol, dir);
    var pos := 0;
    all := [];
    while true
      invariant pos == |all| <= |live| && all == live[..pos]
      decreases |live| - pos
    {
      var e, next := Readdir(vol, dir, pos, count);
      if e.None? { break; }
      all, pos := all + [e.value], next;
    }
  }
}
