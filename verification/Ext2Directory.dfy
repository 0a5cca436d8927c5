/**
 Directory blocks of ext2 (src/fs/ext2.c): variable-length records chained by rec_len, updated in
 place by ext2_dir_add_entry and ext2_dir_remove_entry and scanned by ext2_lookup and ext2_readdir.
 A directory is proved to behave as the list of its live entries. Record layout: "The Second Extended
 File System, Internal Layout", section on the linked directory entry structure.
 */
module Ext2Directory {
  import opened Common
  import opened Ext2Volume

  /** A live directory entry. */
  datatype Entry = Entry(ino: nat, kind: Byte, name: seq<Byte>)

  // ---- fields of the record at offset o ----

  function U16(b: Block, o: nat): (v: nat)
    requires o + 2 <= |b|
    ensures v < 65536
  {
    b[o] as int + 256 * b[o + 1] as int
  }

  function U32(b: Block, o: nat): (v: nat)
    requires o + 4 <= |b|
    ensures v < TWO_32
  {
    U16(b, o) + 65536 * U16(b, o + 2)
  }

  /** Numbers are little-endian: the first byte is the lowest. */
  lemma LittleEndian(b: Block, o: nat)
    requires o + 4 <= |b|
    ensures b[o..o + 2] == [1, 0] ==> U16(b, o) == 1
    ensures b[o..o + 4] == [1, 0, 0, 0] ==> U32(b, o) == 1
    ensures b[o..o + 4] == [0, 1, 0, 0] ==> U32(b, o) == 256
    ensures b[o..o + 4] == [0, 0, 1, 0] ==> U32(b, o) == 65536
    ensures b[o..o + 4] == [0, 0, 0, 1] ==> U32(b, o) == 16777216
    ensures LE16(1) == [1, 0]
  {
    assert b[o..o + 2][0] == b[o] && b[o..o + 2][1] == b[o + 1];
    var w := b[o..o + 4];
    assert w[0] == b[o] && w[1] == b[o + 1] && w[2] == b[o + 2] && w[3] == b[o + 3];
  }

  function Ino(b: Block, o: nat): (v: nat) requires o + 8 <= |b| { U32(b, o) }

  function RecLen(b: Block, o: nat): (v: nat) requires o + 8 <= |b| { U16(b, o + 4) }

  function NameLen(b: Block, o: nat): (v: nat) requires o + 8 <= |b| { b[o + 6] }

  /** EXT2_DIR_REC_LEN: header and name, rounded up to four bytes. */
  function Needed(nameLen: nat): (n: nat)
    ensures 8 + nameLen <= n < 8 + nameLen + 4 && n % 4 == 0
  {
    (8 + nameLen + 3) / 4 * 4
  }

  /** A record that holds its name and ends at or before `end`. */
  predicate RecordOk(b: Block, o: nat, end: nat) {
    && o + 8 <= end <= |b|
    && Needed(NameLen(b, o)) <= RecLen(b, o) && o + RecLen(b, o) <= end
  }

  function EntryAt(b: Block, o: nat): (e: Entry)
    requires RecordOk(b, o, |b|)
  {
    Entry(Ino(b, o), b[o + 7], b[o + 8..o + 8 + NameLen(b, o)])
  }

  // ---- chains of records ----

  /** Following rec_len from `start` reaches `end` exactly, through sound records. */
  predicate Chain(b: Block, start: nat, end: nat)
    decreases if start <= end then end - start else 0
  {
    start == end || (start < end && RecordOk(b, start, end) && Chain(b, start + RecLen(b, start), end))
  }

  /** The live entries of a chain, in order. */
  function Entries(b: Block, start: nat, end: nat): (s: seq<Entry>)
    requires Chain(b, start, end)
    decreases end - start
  {
    if start == end then []
    else (if Ino(b, start) != 0 then [EntryAt(b, start)] else []) + Entries(b, start + RecLen(b, start), end)
  }

  /** The record fields and the chain only depend on the bytes they cover. */
  lemma {:induction false} ChainFrame(b: Block, b': Block, start: nat, end: nat)
    requires Chain(b, start, end) && end <= |b| == |b'| && forall k :: start <= k < end ==> b'[k] == b[k]
    ensures Chain(b', start, end) && Entries(b', start, end) == Entries(b, start, end)
    decreases end - start
  {
    if start < end {
      RecordFrame(b, b', start, end);
      ChainFrame(b, b', start + RecLen(b, start), end);
    }
  }

  lemma RecordFrame(b: Block, b': Block, o: nat, end: nat)
    requires RecordOk(b, o, end) && |b| == |b'|
    requires forall k :: o <= k < o + 8 + NameLen(b, o) ==> b'[k] == b[k]
    ensures RecordOk(b', o, end) && RecLen(b', o) == RecLen(b, o) && Ino(b', o) == Ino(b, o)
    ensures EntryAt(b', o) == EntryAt(b, o)
  {
    assert b'[o + 8..o + 8 + NameLen(b, o)] == b[o + 8..o + 8 + NameLen(b, o)];
  }

  lemma {:induction false} ChainSplit(b: Block, start: nat, mid: nat, end: nat)
    requires end <= |b| && Chain(b, start, mid) && Chain(b, mid, end) && start <= mid <= end
    ensures Chain(b, start, end) && Entries(b, start, end) == Entries(b, start, mid) + Entries(b, mid, end)
    decreases mid - start
  {
    hide Chain, Entries, RecordOk, RecLen, Ino, NameLen, EntryAt, LiveAt;
    if start < mid {
      FirstRecord(b, start, mid);
      RecordFits(b, start, mid);
      ChainSplit(b, start + RecLen(b, start), mid, end);
      RecordWider(b, start, mid, end);
      ChainCons(b, start, end);
    } else {
      NoEntries(b, start);
    }
  }

  lemma NoEntries(b: Block, o: nat)
    ensures Chain(b, o, o) && Entries(b, o, o) == []
  {
  }

  lemma RecordWider(b: Block, o: nat, mid: nat, end: nat)
    requires RecordOk(b, o, mid) && mid <= end <= |b|
    ensures RecordOk(b, o, end) && RecordOk(b, o, |b|)
  {
    hide U16, U32;
  }

  /** A record in front of a chain makes a chain. */
  lemma ChainCons(b: Block, o: nat, end: nat)
    requires o < end <= |b| && RecordOk(b, o, end) && RecordOk(b, o, |b|) && Chain(b, o + RecLen(b, o), end)
    ensures Chain(b, o, end) && Entries(b, o, end) == LiveAt(b, o) + Entries(b, o + RecLen(b, o), end)
  {
    hide U16, U32, EntryAt;
  }

  /** The live entry of one record, if any. */
  function LiveAt(b: Block, o: nat): (s: seq<Entry>)
    requires RecordOk(b, o, |b|)
  {
    if Ino(b, o) != 0 then [EntryAt(b, o)] else []
  }

  lemma OneRecord(b: Block, o: nat, end: nat)
    requires RecordOk(b, o, |b|) && o + RecLen(b, o) == end
    ensures Chain(b, o, end) && Entries(b, o, end) == LiveAt(b, o)
  {
    assert Chain(b, end, end);
  }

  /** Rewriting the records between two boundaries of a chain leaves the entries around them. */
  lemma ChainPatched(b: Block, r: Block, o: nat, next: nat)
    requires o <= next <= |b| == |r| && Chain(b, 0, o) && Chain(b, next, |b|) && Chain(r, o, next)
    requires forall k :: 0 <= k < |b| && !(o <= k < next) ==> r[k] == b[k]
    ensures Chain(r, 0, |b|) && Entries(r, 0, |b|) == Entries(b, 0, o) + Entries(r, o, next) + Entries(b, next, |b|)
  {
    hide Entries;
    ChainFrame(b, r, 0, o);
    ChainFrame(b, r, next, |b|);
    ChainSplit(r, 0, o, next);
    ChainSplit(r, 0, next, |b|);
  }

  /** A chain read one record further. */
  lemma ChainStep(b: Block, start: nat, mid: nat, end: nat)
    requires end <= |b| && Chain(b, start, mid) && start <= mid < end && Chain(b, mid, end)
    ensures RecordOk(b, mid, end)
    ensures var next := mid + RecLen(b, mid);
            && mid < next <= end && Chain(b, start, next) && Chain(b, next, end)
            && Entries(b, start, next) == Entries(b, start, mid) + LiveAt(b, mid)
            && Entries(b, mid, end) == LiveAt(b, mid) + Entries(b, next, end)
  {
    hide Chain, Entries, RecordOk, EntryAt, RecLen, Ino, NameLen;
    FirstRecord(b, mid, end);
    RecordFits(b, mid, end);
    OneRecord(b, mid, mid + RecLen(b, mid));
    ChainSplit(b, start, mid, mid + RecLen(b, mid));
  }

  /** A nonempty chain starts with a record. */
  lemma FirstRecord(b: Block, o: nat, end: nat)
    requires o < end <= |b| && Chain(b, o, end)
    ensures RecordOk(b, o, end) && RecordOk(b, o, |b|) && Chain(b, o + RecLen(b, o), end)
    ensures Entries(b, o, end) == LiveAt(b, o) + Entries(b, o + RecLen(b, o), end)
  {
    hide U16, U32;
  }

  // ---- writing fields in place ----

  function LE16(v: nat): (s: seq<Byte>)
    requires v < 65536
  {
    [v % 256, v / 256]
  }

  /** Copying bytes over the block at offset o. */
  function Put(b: Block, o: nat, s: seq<Byte>): (r: Block)
    requires o + |s| <= |b|
    ensures |r| == |b| && r[o..o + |s|] == s
    ensures forall k :: 0 <= k < |b| && !(o <= k < o + |s|) ==> r[k] == b[k]
    ensures forall k :: o <= k < o + |s| ==> r[k] == s[k - o]
  {
    b[..o] + s + b[o + |s|..]
  }

  function SetIno(b: Block, o: nat, v: nat): (r: Block)
    requires o + 8 <= |b| && v < TWO_32
    ensures |r| == |b| && Ino(r, o) == v && forall k :: 0 <= k < |b| && !(o <= k < o + 4) ==> r[k] == b[k]
  {
    Put(b, o, LE16(v % 65536) + LE16(v / 65536))
  }

  function SetRecLen(b: Block, o: nat, v: nat): (r: Block)
    requires o + 8 <= |b| && v < 65536
    ensures |r| == |b| && RecLen(r, o) == v && forall k :: 0 <= k < |b| && !(o + 4 <= k < o + 6) ==> r[k] == b[k]
  {
    Put(b, o + 4, LE16(v))
  }

  /** Filling a record with an entry; its rec_len stays. */
  function Occupy(b: Block, o: nat, e: Entry): (r: Block)
    requires o + 8 + |e.name| <= |b| && e.ino < TWO_32 && |e.name| < 256
  {
    Put(SetIno(b, o, e.ino), o + 6, [|e.name|, e.kind] + e.name)
  }

  lemma Occupied(b: Block, o: nat, e: Entry, end: nat)
    requires o + 8 <= end <= |b| && e.ino < TWO_32 && |e.name| < 256
    requires Needed(|e.name|) <= RecLen(b, o) && o + RecLen(b, o) <= end
    ensures var r := Occupy(b, o, e);
            && |r| == |b| && RecordOk(r, o, end) && RecLen(r, o) == RecLen(b, o) && EntryAt(r, o) == e
            && Ino(r, o) == e.ino
            && forall k :: 0 <= k < |b| && !(o <= k < o + 8 + |e.name|) ==> r[k] == b[k]
  {
    var r := Occupy(b, o, e);
    assert r[o + 6] == |e.name| && r[o + 7] == e.kind;
    assert r[o + 8..o + 8 + |e.name|] == e.name;
    var t := SetIno(b, o, e.ino);
    assert r[o] == t[o] && r[o + 1] == t[o + 1] && r[o + 2] == t[o + 2] && r[o + 3] == t[o + 3];
    assert r[o + 4] == b[o + 4] && r[o + 5] == b[o + 5];
  }

  /** s' is s with e inserted somewhere. */
  ghost predicate Inserted(s: seq<Entry>, s': seq<Entry>, e: Entry) {
    exists k :: 0 <= k <= |s| && s' == s[..k] + [e] + s[k..]
  }

  lemma InsertedAt(pre: seq<Entry>, post: seq<Entry>, e: Entry)
    ensures Inserted(pre + post, pre + [e] + post, e)
  {
    var s := pre + post;
    assert s[..|pre|] == pre && s[|pre|..] == post;
    assert pre + [e] + post == s[..|pre|] + [e] + s[|pre|..];
  }

  /** A deleted record is reused for a new entry. */
  lemma Reused(b: Block, o: nat, e: Entry)
    requires o < |b| && Chain(b, 0, o) && Chain(b, o, |b|) && Ino(b, o) == 0 && 0 < e.ino < TWO_32 && |e.name| < 256
    requires Needed(|e.name|) <= RecLen(b, o)
    ensures var r := Occupy(b, o, e);
            |r| == |b| && Chain(r, 0, |b|) && Chain(b, 0, |b|) && Inserted(Entries(b, 0, |b|), Entries(r, 0, |b|), e)
  {
    hide Occupy, Chain, Entries, RecordOk, EntryAt;
    var n := |b|;
    ChainStep(b, 0, o, n);
    RecordFits(b, o, n);
    var r := Occupy(b, o, e);
    Occupied(b, o, e, n);
    var next := o + RecLen(b, o);
    OneRecord(b, o, next);
    OneRecord(r, o, next);
    ChainPatched(b, b, o, next);
    ChainPatched(b, r, o, next);
    InsertedAt(Entries(b, 0, o), Entries(b, next, n), e);
    assert Entries(b, 0, o) + [] == Entries(b, 0, o);
  }

  lemma RecordFits(b: Block, o: nat, end: nat)
    requires RecordOk(b, o, end)
    ensures o + 8 <= end <= |b| && RecordOk(b, o, |b|) && o + RecLen(b, o) <= end
            && 8 <= Needed(NameLen(b, o)) <= RecLen(b, o)
    ensures RecordOk(b, o, o + RecLen(b, o))
  {
  }

  /** A live record is cut down to what it needs and a new entry takes the rest. */
  function Divide(b: Block, o: nat, e: Entry): (r: Block)
    requires RecordOk(b, o, |b|) && Needed(NameLen(b, o)) + Needed(|e.name|) <= RecLen(b, o) && e.ino < TWO_32
             && |e.name| < 256
  {
    var min := Needed(NameLen(b, o));
    SetRecLen(Occupy(SetRecLen(b, o + min, RecLen(b, o) - min), o + min, e), o, min)
  }

  lemma Divided(b: Block, o: nat, e: Entry)
    requires RecordOk(b, o, |b|) && Needed(NameLen(b, o)) + Needed(|e.name|) <= RecLen(b, o) && e.ino < TWO_32
             && |e.name| < 256
    ensures var r, min, next := Divide(b, o, e), Needed(NameLen(b, o)), o + RecLen(b, o);
            && |r| == |b| && RecordOk(r, o, |b|) && RecLen(r, o) == min && EntryAt(r, o) == EntryAt(b, o)
            && Ino(r, o) == Ino(b, o)
            && RecordOk(r, o + min, |b|) && o + min + RecLen(r, o + min) == next && EntryAt(r, o + min) == e
            && Ino(r, o + min) == e.ino
            && forall k :: 0 <= k < |b| && !(o <= k < next) ==> r[k] == b[k]
  {
    hide Occupy, RecordOk, EntryAt, NameLen, Ino, Needed, U16, U32;
    RecordFits(b, o, |b|);
    var min := Needed(NameLen(b, o));
    var u := TailFilled(b, o, min, e);
    Relengthed(b, u, o, min);
    Untouched(u, o, o + min, min);
  }

  /** The new record behind the first min bytes of the old one. */
  lemma TailFilled(b: Block, o: nat, min: nat, e: Entry) returns (u: Block)
    requires RecordOk(b, o, |b|) && 8 <= min && min + Needed(|e.name|) <= RecLen(b, o) && e.ino < TWO_32
             && |e.name| < 256
    ensures u == Occupy(SetRecLen(b, o + min, RecLen(b, o) - min), o + min, e) && |u| == |b|
    ensures RecordOk(u, o + min, |b|) && RecLen(u, o + min) == RecLen(b, o) - min && EntryAt(u, o + min) == e
            && Ino(u, o + min) == e.ino
    ensures forall k :: 0 <= k < |b| && !(o + min <= k < o + RecLen(b, o)) ==> u[k] == b[k]
  {
    hide Occupy, EntryAt, U16, U32, NameLen;
    var t := SetRecLen(b, o + min, RecLen(b, o) - min);
    Occupied(t, o + min, e, |b|);
    u := Occupy(t, o + min, e);
  }

  /** Changing rec_len of the record at o, whose other bytes are those of b, keeps its entry. */
  lemma Relengthed(b: Block, u: Block, o: nat, len: nat)
    requires RecordOk(b, o, |b|) && |u| == |b| && Needed(NameLen(b, o)) <= len < 65536 && o + len <= |b|
    requires forall k :: o <= k < o + 8 + NameLen(b, o) ==> u[k] == b[k]
    ensures var r := SetRecLen(u, o, len);
            |r| == |b| && RecordOk(r, o, |b|) && RecLen(r, o) == len && EntryAt(r, o) == EntryAt(b, o)
            && Ino(r, o) == Ino(b, o)
  {
    var r := SetRecLen(u, o, len);
    assert r[o + 6] == b[o + 6] && r[o + 7] == b[o + 7];
    assert r[o] == b[o] && r[o + 1] == b[o + 1] && r[o + 2] == b[o + 2] && r[o + 3] == b[o + 3];
    assert r[o + 8..o + 8 + NameLen(b, o)] == b[o + 8..o + 8 + NameLen(b, o)];
  }

  lemma Untouched(u: Block, o: nat, o2: nat, v: nat)
    requires o + 8 <= o2 && RecordOk(u, o2, |u|) && v < 65536
    ensures var r := SetRecLen(u, o, v);
            && |r| == |u| && RecordOk(r, o2, |u|) && RecLen(r, o2) == RecLen(u, o2)
            && EntryAt(r, o2) == EntryAt(u, o2) && Ino(r, o2) == Ino(u, o2)
  {
    RecordFrame(u, SetRecLen(u, o, v), o2, |u|);
  }

  lemma DividedChain(b: Block, o: nat, e: Entry)
    requires o < |b| && Chain(b, 0, o) && Chain(b, o, |b|) && Ino(b, o) != 0 && 0 < e.ino < TWO_32 && |e.name| < 256
    requires Needed(NameLen(b, o)) + Needed(|e.name|) <= RecLen(b, o)
    ensures var r := Divide(b, o, e);
            |r| == |b| && Chain(r, 0, |b|) && Chain(b, 0, |b|) && Inserted(Entries(b, 0, |b|), Entries(r, 0, |b|), e)
  {
    hide Divide, Chain, Entries, RecordOk, EntryAt;
    var n := |b|;
    ChainStep(b, 0, o, n);
    RecordFits(b, o, n);
    var r, min := Divide(b, o, e), Needed(NameLen(b, o));
    Divided(b, o, e);
    var next := o + RecLen(b, o);
    OneRecord(b, o, next);
    OneRecord(r, o, o + min);
    OneRecord(r, o + min, next);
    ChainSplit(r, o, o + min, next);
    ChainPatched(b, b, o, next);
    ChainPatched(b, r, o, next);
    var pre := Entries(b, 0, o) + LiveAt(b, o);
    InsertedAt(pre, Entries(b, next, n), e);
    assert Entries(b, 0, o) + (LiveAt(b, o) + [e]) == pre + [e];
  }

  // ---- removing ----

  /** Marking a record deleted: inode and name length 0. */
  function Erase(b: Block, o: nat): (r: Block)
    requires o + 8 <= |b|
    ensures |r| == |b| && Ino(r, o) == 0 && NameLen(r, o) == 0 && RecLen(r, o) == RecLen(b, o)
    ensures forall k :: 0 <= k < |b| && !(o <= k < o + 4 || k == o + 6) ==> r[k] == b[k]
  {
    SetIno(b, o, 0)[o + 6 := 0]
  }

  /** The end of the record at o, or of a deleted record right behind it. */
  function MergedEnd(b: Block, o: nat): (m: nat)
    requires o + 8 <= |b|
  {
    var next := o + RecLen(b, o);
    if next + 8 <= |b| && Ino(b, next) == 0 then next + RecLen(b, next) else next
  }

  /** The block after the record at o was removed; prev is the record before it, if there is one. */
  function Removal(b: Block, prev: Option<nat>, o: nat): (r: Block)
    requires o + 8 <= |b| <= 32768 && MergedEnd(b, o) <= |b|
             && (prev.Some? ==> prev.value < o && prev.value + RecLen(b, prev.value) == o)
  {
    match prev
    case Some(p) => SetRecLen(Erase(b, o), p, MergedEnd(b, o) - p)
    case None => SetRecLen(Erase(b, o), o, MergedEnd(b, o) - o)
  }

  /** s' is s without its first entry for inode ino. */
  ghost predicate Removed(s: seq<Entry>, s': seq<Entry>, ino: nat) {
    exists k :: 0 <= k < |s| && s[k].ino == ino && (forall j :: 0 <= j < k ==> s[j].ino != ino) && s' == s[..k] + s[k + 1..]
  }

  predicate Absent(s: seq<Entry>, ino: nat) {
    forall k :: 0 <= k < |s| ==> s[k].ino != ino
  }

  lemma RemovedAt(pre: seq<Entry>, e: Entry, post: seq<Entry>)
    requires Absent(pre, e.ino)
    ensures Removed(pre + [e] + post, pre + post, e.ino)
  {
    var s := pre + [e] + post;
    assert s[..|pre|] == pre && s[|pre| + 1..] == post && s[|pre|] == e;
    assert forall j :: 0 <= j < |pre| ==> s[j] == pre[j];
  }

  /** The merged end is a record boundary, and nothing live lies between the record and it. */
  lemma MergedChain(b: Block, o: nat)
    requires o < |b| && Chain(b, o, |b|)
    ensures RecordOk(b, o, |b|) && o + 8 <= MergedEnd(b, o) <= |b| && Chain(b, MergedEnd(b, o), |b|)
    ensures Chain(b, o, MergedEnd(b, o)) && Entries(b, o, MergedEnd(b, o)) == LiveAt(b, o)
  {
    hide Chain, Entries, EntryAt, RecordOk, RecLen, NameLen, Ino;
    FirstRecord(b, o, |b|);
    RecordFits(b, o, |b|);
    var n, next := |b|, o + RecLen(b, o);
    OneRecord(b, o, next);
    if next < n {
      FirstRecord(b, next, n);
      RecordFits(b, next, n);
      ChainStep(b, o, next, n);
    }
  }

  lemma RemovalFirst(b: Block, o: nat)
    requires o < |b| <= 32768 && Chain(b, o, |b|) && Ino(b, o) != 0
    ensures o + 8 <= |b| && MergedEnd(b, o) <= |b|
    ensures var r := Removal(b, None, o);
            && |r| == |b| && Chain(r, o, MergedEnd(b, o)) && Entries(r, o, MergedEnd(b, o)) == []
            && forall k :: 0 <= k < |b| && !(o <= k < MergedEnd(b, o)) ==> r[k] == b[k]
  {
    MergedChain(b, o);
    var r := Removal(b, None, o);
    var t := Erase(b, o);
    assert r[o] == t[o] && r[o + 1] == t[o + 1] && r[o + 2] == t[o + 2] && r[o + 3] == t[o + 3] && r[o + 6] == 0;
    OneRecord(r, o, MergedEnd(b, o));
  }

  lemma RemovalMerged(b: Block, p: nat, o: nat)
    requires RecordOk(b, p, |b|) && p + RecLen(b, p) == o < |b| <= 32768 && Chain(b, o, |b|) && Ino(b, o) != 0
    ensures o + 8 <= |b| && MergedEnd(b, o) <= |b|
    ensures var r := Removal(b, Some(p), o);
            && |r| == |b| && Chain(r, p, MergedEnd(b, o)) && Entries(r, p, MergedEnd(b, o)) == LiveAt(b, p)
            && forall k :: 0 <= k < |b| && !(p <= k < MergedEnd(b, o)) ==> r[k] == b[k]
  {
    hide Chain, Entries, RecordOk, EntryAt, MergedEnd, U16, U32;
    MergedChain(b, o);
    RecordFits(b, p, |b|);
    RecordFits(b, o, |b|);
    var len := MergedEnd(b, o) - p;
    Relengthed(b, Erase(b, o), p, len);
    OneRecord(Removal(b, Some(p), o), p, MergedEnd(b, o));
  }

  /** Removing the first record of inode ino from a block removes exactly its first entry. */
  lemma RemovalChain(b: Block, prev: Option<nat>, o: nat)
    requires o < |b| <= 32768 && Chain(b, 0, o) && Chain(b, o, |b|) && Ino(b, o) != 0
             && Absent(Entries(b, 0, o), Ino(b, o))
    requires if o == 0 then prev.None? else prev.Some? && prev.value < o && Chain(b, 0, prev.value)
                                            && RecordOk(b, prev.value, o) && prev.value + RecLen(b, prev.value) == o
    ensures o + 8 <= |b| && MergedEnd(b, o) <= |b|
    ensures var r := Removal(b, prev, o);
            && |r| == |b| && Chain(r, 0, |b|) && Chain(b, 0, |b|)
            && Removed(Entries(b, 0, |b|), Entries(r, 0, |b|), Ino(b, o))
  {
    hide Chain, Entries, RecordOk, EntryAt, Removal, Removed, MergedEnd;
    MergedChain(b, o);
    var n, end, e := |b|, MergedEnd(b, o), LiveAt(b, o)[0];
    LiveIno(b, o);
    ChainPatched(b, b, o, end);
    RemovedAt(Entries(b, 0, o), e, Entries(b, end, n));
    match prev
    case None =>
      RemovalFirst(b, o);
      ChainPatched(b, Removal(b, prev, o), o, end);
      assert Entries(b, 0, o) + [] == Entries(b, 0, o);
    case Some(p) =>
      RecordFits(b, p, o);
      RemovalMerged(b, p, o);
      OneRecord(b, p, o);
      ChainSplit(b, 0, p, o);
      ChainPatched(b, Removal(b, prev, o), p, end);
  }

  lemma LiveIno(b: Block, o: nat)
    requires RecordOk(b, o, |b|) && Ino(b, o) != 0
    ensures LiveAt(b, o) == [EntryAt(b, o)] && EntryAt(b, o).ino == Ino(b, o)
  {
  }

  // ---- whole directories ----

  /** A well-formed directory block. */
  predicate BlockOk(b: Block, size: nat) {
    |b| == size && Chain(b, 0, |b|)
  }

  /** The live entries of a directory: holes (None) have none. */
  function Live(blocks: seq<Option<Block>>, size: nat): (s: seq<Entry>)
    requires forall k :: 0 <= k < |blocks| && blocks[k].Some? ==> BlockOk(blocks[k].value, size)
  {
    if blocks == [] then []
    else Live(blocks[..|blocks| - 1], size) + LiveIn(blocks[|blocks| - 1], size)
  }

  function LiveIn(b: Option<Block>, size: nat): (s: seq<Entry>)
    requires b.Some? ==> BlockOk(b.value, size)
  {
    if b.Some? then Entries(b.value, 0, size) else []
  }

  ghost predicate BlocksOk(blocks: seq<Option<Block>>, size: nat) {
    && 1024 <= size <= 32768
    && forall k :: 0 <= k < |blocks| && blocks[k].Some? ==> BlockOk(blocks[k].value, size)
  }

  /** Splitting the entries around block k. */
  lemma {:induction false} LiveSplit(blocks: seq<Option<Block>>, size: nat, k: nat)
    requires BlocksOk(blocks, size) && k < |blocks|
    ensures BlocksOk(blocks[..k], size) && BlocksOk(blocks[k + 1..], size)
    ensures Live(blocks, size) == Live(blocks[..k], size) + LiveIn(blocks[k], size) + Live(blocks[k + 1..], size)
    decreases |blocks|
  {
    hide BlockOk, LiveIn;
    var n := |blocks| - 1;
    if k == n {
      assert blocks[k + 1..] == [];
    } else {
      LiveSplit(blocks[..n], size, k);
      assert blocks[..n][..k] == blocks[..k];
      assert blocks[k + 1..][..n - k - 1] == blocks[..n][k + 1..];
    }
  }

  /** Replacing block k replaces its entries. */
  lemma LiveReplaced(blocks: seq<Option<Block>>, size: nat, k: nat, b: Block)
    requires BlocksOk(blocks, size) && k < |blocks| && BlockOk(b, size)
    ensures BlocksOk(blocks[k := Some(b)], size) && BlocksOk(blocks[..k], size) && BlocksOk(blocks[k + 1..], size)
    ensures Live(blocks[k := Some(b)],
                 size) == Live(blocks[..k], size) + Entries(b, 0, size) + Live(blocks[k + 1..], size)
    ensures Live(blocks, size) == Live(blocks[..k], size) + LiveIn(blocks[k], size) + Live(blocks[k + 1..], size)
  {
    hide BlockOk, Live, Entries;
    LiveSplit(blocks, size, k);
    var after := blocks[k := Some(b)];
    LiveSplit(after, size, k);
    assert after[..k] == blocks[..k] && after[k + 1..] == blocks[k + 1..];
  }

  /** Whether some record of the chain has room for a record of the given length. */
  predicate HasRoom(b: Block, start: nat, end: nat, need: nat)
    requires Chain(b, start, end)
    decreases if start <= end then end - start else 0
  {
    start < end &&
    (RoomAt(b, start, need) || HasRoom(b, start + RecLen(b, start), end, need))
  }

  /** A deleted record that is long enough, or a live one with enough slack. */
  predicate RoomAt(b: Block, o: nat, need: nat)
    requires o + 8 <= |b|
  {
    if Ino(b, o) == 0 then RecLen(b, o) >= need else RecLen(b, o) - Needed(NameLen(b, o)) >= need
  }

  /** A value as the source's int16_t holds it. */
  function Int16(x: int): (y: int) {
    (x + 32768) % 65536 - 32768
  }

  /** The slack computed in int16_t arithmetic is the true slack for blocks of at most 32 KiB. */
  lemma SlackExact(recLen: nat, min: nat)
    requires 8 <= min <= recLen <= 32768
    ensures Int16(Int16(recLen) - min) == recLen - min
  {
  }

  lemma SmallExact(x: nat)
    requires x < 32768
    ensures Int16(x) == x
  {
  }

  /** The inner loop of ext2_dir_add_entry: put the entry into the first record with room. */
  method AddInBlock(b: Block, e: Entry) returns (ok: bool, r: Block)
    requires |b| <= 32768 && Chain(b, 0, |b|) && 0 < e.ino < TWO_32 && |e.name| < 256
    ensures ok <==> HasRoom(b, 0, |b|, Needed(|e.name|))
    ensures |r| == |b| && Chain(r, 0, |b|)
    ensures if ok then Inserted(Entries(b, 0, |b|), Entries(r, 0, |b|), e) else r == b
  {
    hide Chain, Entries, EntryAt, Occupy, Divide, Inserted, RecordOk, RecLen, NameLen, Ino, Int16;
    var need := Needed(|e.name|);
    var o := 0;
    NoEntries(b, 0);
    while o < |b|
      invariant o <= |b| && Chain(b, 0, o) && Chain(b, o, |b|)
      invariant HasRoom(b, 0, |b|, need) <==> HasRoom(b, o, |b|, need)
      decreases |b| - o
    {
      ChainStep(b, 0, o, |b|);
      RecordFits(b, o, |b|);
      var min := Needed(NameLen(b, o));
      var slack := Int16(Int16(RecLen(b, o)) - min);
      SlackExact(RecLen(b, o), min);
      SmallExact(need);
      if Ino(b, o) == 0 {
        if RecLen(b, o) >= need {
          Reused(b, o, e);
          return true, Occupy(b, o, e);
        }
      } else if slack >= Int16(need) {
        DividedChain(b, o, e);
        return true, Divide(b, o, e);
      }
      o := o + RecLen(b, o);
    }
    return false, b;
  }

  lemma InsertedInside(pre: seq<Entry>, s: seq<Entry>, s': seq<Entry>, post: seq<Entry>, e: Entry)
    requires Inserted(s, s', e)
    ensures Inserted(pre + s + post, pre + s' + post, e)
  {
    hide Inserted;
    var p, q := SplitInserted(s, s', e);
    InsertedAt(pre + p, q + post, e);
    assert pre + s + post == pre + p + (q + post);
    assert pre + s' + post == pre + p + [e] + (q + post);
  }

  /** A new block holds one record that spans it. */
  lemma FreshBlock(size: nat, e: Entry)
    requires 1024 <= size <= 32768 && 0 < e.ino < TWO_32 && |e.name| < 256
    ensures var b := Occupy(SetRecLen(Zeros(size), 0, size), 0, e); BlockOk(b, size) && Entries(b, 0, size) == [e]
  {
    hide Occupy;
    Occupied(SetRecLen(Zeros(size), 0, size), 0, e, size);
    OneRecord(Occupy(SetRecLen(Zeros(size), 0, size), 0, e), 0, size);
  }

  lemma LiveAppended(blocks: seq<Option<Block>>, size: nat, b: Block, e: Entry)
    requires BlocksOk(blocks, size) && BlockOk(b, size) && Entries(b, 0, size) == [e]
    ensures BlocksOk(blocks + [Some(b)], size) && Inserted(Live(blocks, size), Live(blocks + [Some(b)], size), e)
  {
    hide BlockOk, Entries;
    var after := blocks + [Some(b)];
    assert after[..|blocks|] == blocks;
    InsertedAt(Live(blocks, size), [], e);
    assert Live(blocks, size) + [] == Live(blocks, size) && Live(blocks, size) + [e] + [] == Live(after, size);
  }

  /** sizeof(struct dirent) */
  const DIRENT: nat := 16

  lemma BlocksSound(blocks: seq<Option<Block>>, size: nat)
    requires BlocksOk(blocks, size)
    ensures 1024 <= size <= 32768
    ensures forall k :: 0 <= k < |blocks| && blocks[k].Some? ==> |blocks[k].value| == size && Chain(blocks[k].value, 0, size)
  {
    hide Chain;
  }

  lemma LiveNone(size: nat)
    ensures 1024 <= size <= 32768 ==> BlocksOk([], size)
    ensures Live([], size) == []
  {
  }

  /** The entries up to and including block k. */
  lemma LiveGrows(blocks: seq<Option<Block>>, size: nat, k: nat)
    requires BlocksOk(blocks, size) && k < |blocks|
    ensures BlocksOk(blocks[..k], size) && BlocksOk(blocks[..k + 1], size)
    ensures Live(blocks[..k + 1], size) == Live(blocks[..k], size) + LiveIn(blocks[k], size)
  {
    hide BlockOk, LiveIn;
    assert blocks[..k + 1][..k] == blocks[..k];
  }

  lemma RemovedInside(pre: seq<Entry>, s: seq<Entry>, s': seq<Entry>, post: seq<Entry>, ino: nat)
    requires Removed(s, s', ino) && Absent(pre, ino)
    ensures Removed(pre + s + post, pre + s' + post, ino) && !Absent(pre + s + post, ino)
  {
    hide Removed;
    var p, e, q := SplitRemoved(s, s', ino);
    RemovedAt(pre + p, e, q + post);
    assert pre + s + post == pre + p + [e] + (q + post);
    assert pre + s' + post == pre + p + (q + post);
    assert (pre + s + post)[|pre + p|] == e;
  }

  lemma SplitRemoved(s: seq<Entry>, s': seq<Entry>, ino: nat) returns (p: seq<Entry>, e: Entry, q: seq<Entry>)
    requires Removed(s, s', ino)
    ensures s == p + [e] + q && s' == p + q && e.ino == ino && Absent(p, ino)
  {
    var k :| 0 <= k < |s| && s[k].ino == ino && (forall j :: 0 <= j < k ==> s[j].ino != ino) && s' == s[..k] + s[k + 1..];
    p, e, q := s[..k], s[k], s[k + 1..];
  }

  /** The name of the first entry for an inode. */
  function NameWith(s: seq<Entry>, ino: nat): (n: seq<Byte>) {
    if s == [] then [] else if s[0].ino == ino then s[0].name else NameWith(s[1..], ino)
  }

  lemma {:induction false} NameWithAt(pre: seq<Entry>, e: Entry, post: seq<Entry>)
    requires Absent(pre, e.ino)
    ensures NameWith(pre + [e] + post, e.ino) == e.name
  {
    var s := pre + [e] + post;
    if pre == [] {
      assert s[0] == e;
    } else {
      assert s[0] == pre[0] && s[1..] == pre[1..] + [e] + post;
      NameWithAt(pre[1..], e, post);
    }
  }

  /** Room at a record is room in the chain. */
  lemma {:induction false} RoomThere(b: Block, start: nat, q: nat, need: nat)
    requires start <= q < |b| && Chain(b, start, q) && Chain(b, q, |b|) && q + 8 <= |b| && RoomAt(b, q, need)
    ensures Chain(b, start, |b|) && HasRoom(b, start, |b|, need)
    decreases q - start
  {
    hide RoomAt, RecordOk, Entries, EntryAt, RecLen, Ino, NameLen;
    if start < q {
      FirstRecord(b, start, q);
      RecordFits(b, start, q);
      RoomThere(b, start + RecLen(b, start), q, need);
    }
    ChainSplit(b, start, q, |b|);
  }

  lemma {:induction false} RoomForLess(b: Block, start: nat, end: nat, need: nat, less: nat)
    requires Chain(b, start, end) && HasRoom(b, start, end, need) && less <= need
    ensures HasRoom(b, start, end, less)
    decreases if start <= end then end - start else 0
  {
    hide RecLen, Ino, NameLen;
    if !RoomAt(b, start, need) { RoomForLess(b, start + RecLen(b, start), end, need, less); }
  }

  /** Where a record was removed there is room for another of its length. */
  lemma RemovalRoom(b: Block, prev: Option<nat>, o: nat)
    requires o < |b| <= 32768 && Chain(b, 0, o) && Chain(b, o, |b|) && Ino(b, o) != 0
             && Absent(Entries(b, 0, o), Ino(b, o))
    requires if o == 0 then prev.None? else prev.Some? && prev.value < o && Chain(b, 0, prev.value)
                                            && RecordOk(b, prev.value, o) && prev.value + RecLen(b, prev.value) == o
    ensures o + 8 <= |b| && MergedEnd(b, o) <= |b|
    ensures Chain(Removal(b, prev, o), 0, |b|) && Chain(b, 0, |b|)
    ensures HasRoom(Removal(b, prev, o), 0, |b|, Needed(|NameWith(Entries(b, 0, |b|), Ino(b, o))|))
  {
    hide Chain, Entries, RecordOk, EntryAt, Removal, MergedEnd, HasRoom, RoomAt;
    MergedChain(b, o);
    RecordFits(b, o, |b|);
    var n, end, r := |b|, MergedEnd(b, o), Removal(b, prev, o);
    LiveIno(b, o);
    ChainPatched(b, b, o, end);
    NameWithAt(Entries(b, 0, o), EntryAt(b, o), Entries(b, end, n));
    NameIs(b, o);
    var need := Needed(NameLen(b, o));
    match prev
    case None =>
      RemovalFirst(b, o);
      ChainPatched(b, r, o, end);
      FirstRoom(b, o);
      NoEntries(r, 0);
      RoomThere(r, 0, 0, need);
    case Some(p) =>
      RecordFits(b, p, o);
      RemovalMerged(b, p, o);
      OneRecord(b, p, o);
      ChainFrame(b, r, 0, p);
      ChainFrame(b, r, end, n);
      ChainSplit(r, p, end, n);
      MergedRoom(b, p, o);
      RoomThere(r, 0, p, need);
  }

  lemma NameIs(b: Block, o: nat)
    requires RecordOk(b, o, |b|)
    ensures |EntryAt(b, o).name| == NameLen(b, o) && Needed(NameLen(b, o)) <= RecLen(b, o)
  {
  }

  lemma FirstRoom(b: Block, o: nat)
    requires o < |b| <= 32768 && RecordOk(b, o, |b|) && MergedEnd(b, o) <= |b|
    ensures RoomAt(Removal(b, None, o), o, Needed(NameLen(b, o)))
  {
    var t, r := Erase(b, o), Removal(b, None, o);
    assert r[o] == t[o] && r[o + 1] == t[o + 1] && r[o + 2] == t[o + 2] && r[o + 3] == t[o + 3];
    assert Ino(r, o) == Ino(t, o) == 0 && RecLen(r, o) == MergedEnd(b, o) - o >= RecLen(b, o);
  }

  lemma MergedRoom(b: Block, p: nat, o: nat)
    requires RecordOk(b, p, |b|) && RecordOk(b, o, |b|) && p + RecLen(b, p) == o < |b| <= 32768
    requires MergedEnd(b, o) <= |b| && p + 8 <= o
    ensures RoomAt(Removal(b, Some(p), o), p, Needed(NameLen(b, o)))
  {
    hide U16, U32;
    var t, r := Erase(b, o), Removal(b, Some(p), o);
    assert MergedEnd(b, o) >= o + RecLen(b, o);
    SameHeader(b, t, p);
    SameHeader(t, r, p);
  }

  lemma SameHeader(b: Block, r: Block, p: nat)
    requires p + 8 <= |b| == |r|
    requires forall k :: p <= k < p + 8 && !(p + 4 <= k < p + 6) ==> r[k] == b[k]
    ensures Ino(r, p) == Ino(b, p) && NameLen(r, p) == NameLen(b, p)
  {
  }

  /** The inner loop of ext2_dir_remove_entry. */
  method RemoveInBlock(b: Block, ino: nat) returns (ok: bool, r: Block)
    requires |b| <= 32768 && Chain(b, 0, |b|) && ino > 0
    ensures ok <==> !Absent(Entries(b, 0, |b|), ino)
    ensures |r| == |b| && Chain(r, 0, |b|)
    ensures if ok then Removed(Entries(b, 0, |b|), Entries(r, 0, |b|), ino) else r == b
    // an entry with a name that is no longer fits where the removed one was
    ensures ok ==> HasRoom(r, 0, |b|, Needed(|NameWith(Entries(b, 0, |b|), ino)|))
  {
    hide Chain, Entries, EntryAt, RecordOk, Removed, Removal, MergedEnd, HasRoom, NameWith;
    var o := 0;
    var prev: Option<nat> := None;
    NoEntries(b, 0);
    while o < |b|
      invariant o <= |b| && Chain(b, 0, o) && Chain(b, o, |b|) && Absent(Entries(b, 0, o), ino)
      invariant if o == 0 then prev.None? else prev.Some? && prev.value + 8 <= o && Chain(b, 0, prev.value)
                                               && RecordOk(b, prev.value, o) && prev.value + RecLen(b, prev.value) == o
      decreases |b| - o
    {
      ChainStep(b, 0, o, |b|);
      RecordFits(b, o, |b|);
      if Ino(b, o) == ino {
        RemovalChain(b, prev, o);
        RemovalRoom(b, prev, o);
        RemovedPresent(Entries(b, 0, |b|), Entries(Removal(b, prev, o), 0, |b|), ino);
        return true, Removal(b, prev, o);
      }
      if Ino(b, o) != 0 { LiveIno(b, o); }
      prev := Some(o);
      o := o + RecLen(b, o);
    }
    return false, b;
  }

  lemma RemovedPresent(s: seq<Entry>, s': seq<Entry>, ino: nat)
    requires Removed(s, s', ino)
    ensures !Absent(s, ino) && |s'| == |s| - 1
  {
  }

  /** The inode of the first entry with a name. */
  function FirstNamed(s: seq<Entry>, name: seq<Byte>): (r: Option<nat>) {
    if s == [] then None else if s[0].name == name then Some(s[0].ino) else FirstNamed(s[1..], name)
  }

  lemma NamedNone(name: seq<Byte>)
    ensures FirstNamed([], name).None?
  {
  }

  lemma {:induction false} NamedConcat(s: seq<Entry>, t: seq<Entry>, name: seq<Byte>)
    ensures FirstNamed(s + t, name) == if FirstNamed(s, name).Some? then FirstNamed(s, name) else FirstNamed(t, name)
  {
    if s == [] {
      assert s + t == t;
    } else {
      assert (s + t)[1..] == s[1..] + t;
      NamedConcat(s[1..], t, name);
    }
  }

  /** The inner loop of ext2_lookup. */
  method LookupInBlock(b: Block, name: seq<Byte>) returns (r: Option<nat>)
    requires Chain(b, 0, |b|)
    ensures r == FirstNamed(Entries(b, 0, |b|), name)
  {
    hide Chain, Entries, RecordOk, FirstNamed;
    var o := 0;
    NoEntries(b, 0);
    NamedNone(name);
    while o < |b|
      invariant o <= |b| && Chain(b, 0, o) && Chain(b, o, |b|) && FirstNamed(Entries(b, 0, o), name).None?
      decreases |b| - o
    {
      ChainStep(b, 0, o, |b|);
      RecordFits(b, o, |b|);
      ChainSplit(b, 0, o, |b|);
      if Ino(b, o) != 0 {
        LiveIno(b, o);
        NamedOne(EntryAt(b, o), name);
        NamedConcat(Entries(b, 0, o), LiveAt(b, o), name);
        NamedConcat(Entries(b, 0, o) + LiveAt(b, o), Entries(b, o + RecLen(b, o), |b|), name);
        assert Entries(b, 0, |b|) == Entries(b, 0, o) + LiveAt(b, o) + Entries(b, o + RecLen(b, o), |b|);
        if NameLen(b, o) == |name| && b[o + 8..o + 8 + NameLen(b, o)] == name {
          return Some(Ino(b, o));
        }
      } else {
        assert Entries(b, 0, o) + [] == Entries(b, 0, o);
      }
      o := o + RecLen(b, o);
    }
    r := None;
  }

  lemma NamedOne(e: Entry, name: seq<Byte>)
    ensures FirstNamed([e], name) == if e.name == name then Some(e.ino) else None
  {
    assert [e][1..] == [];
  }

  /** The inner loop of ext2_readdir: live entry number i of the block, or how many there are. */
  method EntryInBlock(b: Block, i: nat) returns (r: Option<Entry>, n: nat)
    requires Chain(b, 0, |b|)
    ensures r.Some? <==> i < |Entries(b, 0, |b|)|
    ensures if r.Some? then r.value == Entries(b, 0, |b|)[i] else n == |Entries(b, 0, |b|)|
  {
    hide Chain, Entries, RecordOk;
    var o := 0;
    n := 0;
    NoEntries(b, 0);
    while o < |b|
      invariant o <= |b| && Chain(b, 0, o) && Chain(b, o, |b|) && n == |Entries(b, 0, o)| <= i
      decreases |b| - o
    {
      ChainStep(b, 0, o, |b|);
      RecordFits(b, o, |b|);
      ChainSplit(b, 0, o, |b|);
      if Ino(b, o) != 0 {
        if n == i { return Some(EntryAt(b, o)), n; }
        n := n + 1;
      }
      o := o + RecLen(b, o);
    }
    r := None;
  }

  /** A name that was free resolves to the new inode after an insertion; other names resolve as before. */
  lemma LookupAfterAdd(s: seq<Entry>, s': seq<Entry>, e: Entry, name: seq<Byte>)
    requires Inserted(s, s', e)
    ensures name != e.name ==> FirstNamed(s', name) == FirstNamed(s, name)
    ensures FirstNamed(s, e.name).None? ==> FirstNamed(s', e.name) == Some(e.ino)
    ensures FirstNamed(s', e.name).Some?
  {
    var k :| 0 <= k <= |s| && s' == s[..k] + [e] + s[k..];
    assert s == s[..k] + s[k..];
    forall m: seq<Byte> ensures FirstNamed(s', m) ==
        if FirstNamed(s[..k], m).Some? then FirstNamed(s[..k], m) else if m == e.name then Some(e.ino) else FirstNamed(s[k..], m) {
      NamedOne(e, m);
      NamedConcat(s[..k], [e], m);
      NamedConcat(s[..k] + [e], s[k..], m);
    }
    NamedConcat(s[..k], s[k..], name);
    NamedConcat(s[..k], s[k..], e.name);
  }

  /** The first entry with an inode is in one place only. */
  lemma SamePlace(pre: seq<Entry>, e: Entry, post: seq<Entry>, p: seq<Entry>, x: Entry, q: seq<Entry>)
    requires pre + [e] + post == p + [x] + q && x.ino == e.ino && Absent(p, e.ino) && Absent(pre + post, e.ino)
    ensures |p| == |pre|
  {
    var s := pre + [e] + post;
    assert s[|pre|] == e && s[|p|] == x;
    assert forall i :: 0 <= i < |p| ==> s[i] == p[i];
    assert forall i :: 0 <= i < |pre| ==> s[i] == (pre + post)[i];
    FirstIsUnique(s, |pre|, |p|, e.ino);
  }

  lemma FirstIsUnique(s: seq<Entry>, i: nat, j: nat, ino: nat)
    requires i < |s| && j < |s| && s[i].ino == ino && s[j].ino == ino
    requires (forall k :: 0 <= k < i ==> s[k].ino != ino) && (forall k :: 0 <= k < j ==> s[k].ino != ino)
    ensures i == j
  {
  }

  /** Adding an entry and removing it by its inode restores the list, when the inode was not there before. */
  lemma RemoveUndoesAdd(s: seq<Entry>, s': seq<Entry>, t: seq<Entry>, e: Entry)
    requires Inserted(s, s', e) && Absent(s, e.ino) && Removed(s', t, e.ino)
    ensures t == s
  {
    hide Inserted, Removed;
    var pre, post := SplitInserted(s, s', e);
    var p, x, q := SplitRemoved(s', t, e.ino);
    SamePlace(pre, e, post, p, x, q);
    assert (pre + [e] + post)[|pre| + 1..] == post && (p + [x] + q)[|p| + 1..] == q;
    assert (pre + [e] + post)[..|pre|] == pre && (p + [x] + q)[..|p|] == p;
  }

  lemma SplitInserted(s: seq<Entry>, s': seq<Entry>, e: Entry) returns (pre: seq<Entry>, post: seq<Entry>)
    requires Inserted(s, s', e)
    ensures s == pre + post && s' == pre + [e] + post
  {
    var k :| 0 <= k <= |s| && s' == s[..k] + [e] + s[k..];
    pre, post := s[..k], s[k..];
  }
}
