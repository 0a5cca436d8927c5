/**
 Four-level page tables (src/mm/mm.c), read the way section 4.5 of volume 3A of the Intel SDM walks
 them. The operations are proved to act on the partial map from virtual pages to entries: mapping
 adds exactly one binding and unmapping removes exactly one, whatever intermediate tables are made.
 */
module PageTables {
  import opened Common
  import opened PageFrames

  const VIRTUAL_0: nat := 0xffff_8000_0000_0000
  const TWO_64: nat := 0x1_0000_0000_0000_0000

  // Entry types of include/mm/page_pool.h: PRESENT 1, WRITABLE 2, USER 4, WRITE_THROUGH 8,
  // CACHE_DISABLE 16, BIG 128, GLOBAL 256.
  const KERNEL_4K: nat := 1 + 2 + 256
  const USER_4K: nat := 1 + 2 + 4
  const USER_COPY_ON_WRITE: nat := 1 + 4
  const DEVICE_4K: nat := 1 + 8 + 16 + 256

  predicate Present(w: Word) { w.flags % 2 == 1 }

  predicate Big(w: Word) { w.flags / 128 % 2 == 1 }

  predicate Canonical(v: nat) {
    v < 0x8000_0000_0000 || VIRTUAL_0 <= v < TWO_64
  }

  /** The four table indices of a virtual address. */
  function Layers(v: nat): (idx: seq<nat>)
    ensures Canonical(v) ==> Index(idx)
  {
    [ if v >= VIRTUAL_0 then (v - VIRTUAL_0) / 0x80_0000_0000 + 256 else v / 0x80_0000_0000,
      v / 0x4000_0000 % 512, v / 0x20_0000 % 512, v / 0x1000 % 512 ]
  }

  predicate Index(idx: seq<nat>) {
    |idx| == 4 && forall k :: 0 <= k < 4 ==> idx[k] < 512
  }

  /** The page address with the given indices: the inverse of Layers on canonical page addresses. */
  function Address(idx: seq<nat>): (v: nat)
    requires Index(idx)
  {
    (if idx[0] < 256 then idx[0] * 0x80_0000_0000 else VIRTUAL_0 + (idx[0] - 256) * 0x80_0000_0000)
    + idx[1] * 0x4000_0000 + idx[2] * 0x20_0000 + idx[3] * 0x1000
  }

  lemma Peel(q: nat, r: nat)
    requires r < 512
    ensures (q * 512 + r) / 512 == q && (q * 512 + r) % 512 == r
  {
  }

  lemma Nested(v: nat)
    ensures v / 0x20_0000 == v / 0x1000 / 512 && v / 0x4000_0000 == v / 0x20_0000 / 512
            && v / 0x80_0000_0000 == v / 0x4000_0000 / 512
  {
  }

  lemma RadixSteps(a: nat, b: nat, c: nat, d: nat)
    requires b < 512 && c < 512 && d < 512
    ensures var v := a * 0x80_0000_0000 + b * 0x4000_0000 + c * 0x20_0000 + d * 0x1000;
            && v % 4096 == 0 && v / 0x1000 % 512 == d && v / 0x20_0000 % 512 == c
            && v / 0x4000_0000 % 512 == b && v / 0x80_0000_0000 == a
  {
    var v := a * 0x80_0000_0000 + b * 0x4000_0000 + c * 0x20_0000 + d * 0x1000;
    var v3 := a * 512 + b;
    var v2 := v3 * 512 + c;
    var v1 := v2 * 512 + d;
    assert v == v1 * 0x1000;
    assert v / 0x1000 == v1;
    Peel(v2, d);
    Peel(v3, c);
    Peel(a, b);
    Nested(v);
  }

  lemma LayersOfAddress(idx: seq<nat>)
    requires Index(idx)
    ensures Canonical(Address(idx)) && Address(idx) % 4096 == 0 && Layers(Address(idx)) == idx
  {
    var a := if idx[0] < 256 then idx[0] else idx[0] - 256 + 0x1ff_ff00;
    var (b, c, d) := (idx[1], idx[2], idx[3]);
    var v := Address(idx);
    assert v == a * 0x80_0000_0000 + b * 0x4000_0000 + c * 0x20_0000 + d * 0x1000;
    RadixSteps(a, b, c, d);
    assert VIRTUAL_0 == 0x1ff_ff00 * 0x80_0000_0000;
    if idx[0] < 256 {
      assert v < 0x8000_0000_0000;
    } else {
      assert VIRTUAL_0 <= v < TWO_64;
      RadixSteps(idx[0] - 256, b, c, d);
    }
  }

  /** The indices are injective on canonical page addresses. */
  lemma AddressOfLayers(v: nat)
    requires Canonical(v) && v % 4096 == 0
    ensures Index(Layers(v)) && Address(Layers(v)) == v
  {
    var idx := Layers(v);
    assert v / 0x20_0000 == v / 0x1000 / 512;
    assert v / 0x4000_0000 == v / 0x20_0000 / 512;
    if v >= VIRTUAL_0 {
      assert (v - VIRTUAL_0) / 0x80_0000_0000 == v / 0x4000_0000 / 512 - VIRTUAL_0 / 0x80_0000_0000;
    } else {
      assert v / 0x80_0000_0000 == v / 0x4000_0000 / 512;
    }
  }

  /** The next page has the next entry of the last-level table; after the last entry the tables above count on. */
  lemma NextPage(v: nat)
    requires Canonical(v) && v % 4096 == 0
    ensures var i := Layers(v);
            && (i[3] < 511 ==> Layers(v + 4096) == [i[0], i[1], i[2], i[3] + 1])
            && (i[3] == 511 && i[2] < 511 ==> Layers(v + 4096) == [i[0], i[1], i[2] + 1, 0])
            && (i[3] == 511 && i[2] == 511 && i[1] < 511 ==> Layers(v + 4096) == [i[0], i[1] + 1, 0, 0])
  {
    hide Layers;
    AddressOfLayers(v);
    var i := Layers(v);
    if i[3] < 511 {
      LayersOfAddress([i[0], i[1], i[2], i[3] + 1]);
    } else if i[2] < 511 {
      LayersOfAddress([i[0], i[1], i[2] + 1, 0]);
    } else if i[1] < 511 {
      LayersOfAddress([i[0], i[1] + 1, 0, 0]);
    }
  }

  // ---- walking ----

  /** What the hardware finds for a page: nothing, a large page, or the entry of a 4 KiB page. */
  datatype Slot = Absent | Large(w: Word) | Small(w: Word)

  function WalkFrom(mem: seq<Page>, t: nat, idx: seq<nat>, k: nat): (s: Slot)
    requires Index(idx) && k < 4
    decreases 4 - k
  {
    if t >= |mem| then Absent else
    var w := mem[t][idx[k]];
    if !Present(w) then Absent
    else if k == 3 then Small(w)
    else if Big(w) then Large(w)
    else WalkFrom(mem, w.frame, idx, k + 1)
  }

  /** The mapping of one page under a root table. */
  function Walk(mem: seq<Page>, root: nat, idx: seq<nat>): (s: Slot)
    requires Index(idx)
  {
    WalkFrom(mem, root, idx, 0)
  }

  /** The physical address a virtual address translates to through a 4 KiB mapping. */
  function Translate(mem: seq<Page>, root: nat, v: nat): (r: Option<nat>)
    requires Canonical(v)
  {
    AddressOfLayers(v - v % 4096);
    match Walk(mem, root, Layers(v - v % 4096))
    case Small(w) => Some(w.frame * 4096 + v % 4096)
    case _ => None
  }

  ghost predicate Prefix(p: seq<nat>) {
    |p| <= 3 && forall k :: 0 <= k < |p| ==> p[k] < 512
  }

  /** The frame of the table reached along p. */
  ghost function Table(mem: seq<Page>, root: nat, p: seq<nat>): Option<nat>
    requires Prefix(p)
    decreases |p|
  {
    if p == [] then Some(root) else
    var up := Table(mem, root, p[..|p| - 1]);
    if up.None? || up.value >= |mem| then None else
    var w := mem[up.value][p[|p| - 1]];
    if Present(w) && !Big(w) then Some(w.frame) else None
  }

  ghost predicate HasTable(mem: seq<Page>, root: nat, p: seq<nat>) {
    Prefix(p) && Table(mem, root, p).Some?
  }

  /** The tables of mem' are those of mem and those on the first k levels towards idx. */
  ghost predicate TablesAdded(mem: seq<Page>, mem': seq<Page>, root: nat, idx: seq<nat>, k: nat) {
    forall q :: Prefix(q) ==> (HasTable(mem', root, q) <==> HasTable(mem, root, q) || (q <= idx && |q| <= k))
  }

  /** A table that was not there before is a frame that was free. */
  ghost predicate FreshTables(mem: seq<Page>, mrt: seq<Count>, mem': seq<Page>, root: nat) {
    forall f: nat :: IsTable(mem', root, f) && !IsTable(mem, root, f) ==> f < |mrt| && mrt[f] == 0
  }

  ghost predicate SameTables(mem: seq<Page>, mem': seq<Page>, root: nat) {
    forall q :: Prefix(q) ==> Table(mem', root, q) == Table(mem, root, q)
  }

  /** Every reachable table is an allocated frame, and no table is reachable twice. */
  ghost predicate TreeOk(mem: seq<Page>, mrt: seq<Count>, root: nat) {
    && |mem| == |mrt|
    && (forall p :: Prefix(p) && Table(mem, root, p).Some? ==>
          Table(mem, root, p).value < |mem| && mrt[Table(mem, root, p).value] != 0)
    && (forall p, q :: (Prefix(p) && Prefix(q) && Table(mem, root, p).Some?
                       && Table(mem, root, p) == Table(mem, root, q)) ==> p == q)
  }

  ghost predicate IsTable(mem: seq<Page>, root: nat, f: nat) {
    exists p :: Prefix(p) && Table(mem, root, p) == Some(f)
  }

  /** The same pages are mapped to the same entries. */
  ghost predicate SameWalk(mem: seq<Page>, mem': seq<Page>, root: nat) {
    forall idx :: Index(idx) ==> Walk(mem', root, idx) == Walk(mem, root, idx)
  }

  /** The mapping differs in one page only, which is now s. */
  ghost predicate WalkUpdated(mem: seq<Page>, mem': seq<Page>, root: nat, at: seq<nat>, s: Slot) {
    forall idx :: Index(idx) ==> Walk(mem', root, idx) == if idx == at then s else Walk(mem, root, idx)
  }

  /** Frames that were in use and are not tables of this tree keep their contents. */
  ghost predicate OthersKept(mem: seq<Page>, mrt: seq<Count>, mem': seq<Page>, root: nat) {
    |mem'| == |mem| == |mrt|
    && forall f :: 0 <= f < |mem| && mrt[f] != 0 && !IsTable(mem, root, f) ==> mem'[f] == mem[f]
  }

  // ---- the entries of the tables and the rights they give ----

  /** Entry i of the table at p; an entry that is not present where there is no table. */
  ghost function EntryAt(mem: seq<Page>, root: nat, p: seq<nat>, i: nat): (w: Word)
    requires Prefix(p) && i < 512
  {
    var t := Table(mem, root, p);
    if t.None? || t.value >= |mem| then Word(0, 0) else mem[t.value][i]
  }

  /** Every entry that was present is as before, in every table. */
  ghost predicate EntriesKept(mem: seq<Page>, mem': seq<Page>, root: nat) {
    forall p, i :: Prefix(p) && 0 <= i < 512 && Present(EntryAt(mem, root, p, i)) ==>
                     EntryAt(mem', root, p, i) == EntryAt(mem, root, p, i)
  }

  /** The entries made for new tables have the given flags. */
  ghost predicate LinksMade(mem: seq<Page>, mem': seq<Page>, root: nat, flags: nat) {
    forall p, i :: Prefix(p) && |p| < 3 && 0 <= i < 512 && !Present(EntryAt(mem, root, p, i)) ==>
                     Present(EntryAt(mem', root, p, i)) ==> EntryAt(mem', root, p, i).flags == flags
  }

  predicate UserBit(w: Word) { w.flags / 4 % 2 == 1 }

  predicate WriteBit(w: Word) { w.flags / 2 % 2 == 1 }

  /** What user code and writes are allowed to do in a page: every entry of its walk has a say. */
  datatype Rights = Rights(user: bool, write: bool)

  function RightsFrom(mem: seq<Page>, t: nat, idx: seq<nat>, k: nat): (r: Option<Rights>)
    requires Index(idx) && k < 4
    decreases 4 - k
  {
    if t >= |mem| then None else
    var w := mem[t][idx[k]];
    if !Present(w) then None
    else if k == 3 || Big(w) then Some(Rights(UserBit(w), WriteBit(w)))
    else
      match RightsFrom(mem, w.frame, idx, k + 1)
      case None => None
      case Some(r) => Some(Rights(UserBit(w) && r.user, WriteBit(w) && r.write))
  }

  /** The rights of a page under a root table, if it is mapped. */
  function RightsOf(mem: seq<Page>, root: nat, idx: seq<nat>): (r: Option<Rights>)
    requires Index(idx)
  {
    RightsFrom(mem, root, idx, 0)
  }

  lemma {:induction false} MappedHasRights(mem: seq<Page>, t: nat, idx: seq<nat>, k: nat)
    requires Index(idx) && k < 4
    ensures RightsFrom(mem, t, idx, k).None? <==> WalkFrom(mem, t, idx, k) == Absent
    decreases 4 - k
  {
    if t < |mem| && k < 3 && Present(mem[t][idx[k]]) && !Big(mem[t][idx[k]]) {
      MappedHasRights(mem, mem[t][idx[k]].frame, idx, k + 1);
    }
  }

  /** A mapped page keeps its rights where entries are only added. */
  lemma {:induction false} RightsStay(mem: seq<Page>, mem': seq<Page>, root: nat, idx: seq<nat>, k: nat, t: nat)
    requires EntriesKept(mem, mem', root) && Index(idx) && k < 4 && WalkFrom(mem, t, idx, k) != Absent
    requires Table(mem, root, idx[..k]) == Some(t) && Table(mem', root, idx[..k]) == Some(t)
    ensures RightsFrom(mem', t, idx, k) == RightsFrom(mem, t, idx, k)
    decreases 4 - k
  {
    var w := EntryAt(mem, root, idx[..k], idx[k]);
    assert EntryAt(mem', root, idx[..k], idx[k]) == w;
    NotPresent();
    if k < 3 && !Big(w) {
      assert idx[..k + 1][..k] == idx[..k];
      RightsStay(mem, mem', root, idx, k + 1, w.frame);
    }
  }

  lemma NotPresent()
    ensures !Present(Word(0, 0))
  {
  }

  /** Entry j of the walk towards a page. */
  ghost function Link(mem: seq<Page>, root: nat, idx: seq<nat>, j: nat): (w: Word)
    requires Index(idx) && j < 4
  {
    EntryAt(mem, root, idx[..j], idx[j])
  }

  lemma LinkAt(mem: seq<Page>, root: nat, idx: seq<nat>, k: nat, t: nat)
    requires Index(idx) && k < 4 && Table(mem, root, idx[..k]) == Some(t) && t < |mem|
    ensures Link(mem, root, idx, k) == mem[t][idx[k]]
    ensures k < 3 && Present(mem[t][idx[k]]) && !Big(mem[t][idx[k]]) ==>
              Table(mem, root, idx[..k + 1]) == Some(mem[t][idx[k]].frame)
  {
    assert k < 3 ==> idx[..k + 1][..k] == idx[..k];
  }

  /** The rights of a 4 KiB page are those that all entries of its walk from level k on give. */
  lemma {:induction false} RightsOfSmall(mem: seq<Page>, root: nat, idx: seq<nat>, k: nat, t: nat)
    requires Index(idx) && k < 4 && Table(mem, root, idx[..k]) == Some(t) && WalkFrom(mem, t, idx, k).Small?
    ensures forall j :: k <= j < 4 ==> Present(Link(mem, root, idx, j))
    ensures RightsFrom(mem, t, idx, k) == Some(Rights(forall j :: k <= j < 4 ==> UserBit(Link(mem, root, idx, j)),
                                                      forall j :: k <= j < 4 ==> WriteBit(Link(mem, root, idx, j))))
    decreases 4 - k
  {
    hide Link, Table, Present, Big, UserBit, WriteBit;
    LinkAt(mem, root, idx, k, t);
    if k < 3 { RightsOfSmall(mem, root, idx, k + 1, mem[t][idx[k]].frame); }
  }

  // ---- lemmas about editing one entry ----

  lemma {:induction false} WalkPrefix(mem: seq<Page>, root: nat, idx: seq<nat>, k: nat, t: nat)
    requires Index(idx) && k < 4 && Table(mem, root, idx[..k]) == Some(t)
    ensures Walk(mem, root, idx) == WalkFrom(mem, t, idx, k)
  {
    if k > 0 {
      assert idx[..k][..k - 1] == idx[..k - 1];
      var up := Table(mem, root, idx[..k - 1]);
      WalkPrefix(mem, root, idx, k - 1, up.value);
    }
  }

  /** mem' is mem with entry i of the table at p replaced. */
  ghost predicate Edit(mem: seq<Page>, mem': seq<Page>, root: nat, p: seq<nat>, i: nat, t: nat) {
    && Prefix(p) && i < 512 && Table(mem, root, p) == Some(t) && t < |mem| == |mem'|
    && mem' == mem[t := mem[t][i := mem'[t][i]]]
  }

  lemma {:induction false} EditTable(mem: seq<Page>, mem': seq<Page>, mrt: seq<Count>, root: nat, p: seq<nat>, i: nat,
                                     t: nat, q: seq<nat>)
    requires TreeOk(mem, mrt, root) && Edit(mem, mem', root, p, i, t)
    requires Prefix(q) && !(p + [i] <= q)
    ensures Table(mem', root, q) == Table(mem, root, q)
    decreases |q|
  {
    if q != [] {
      var q0 := q[..|q| - 1];
      EditTable(mem, mem', mrt, root, p, i, t, q0);
      assert q == q0 + [q[|q| - 1]];
      assert Table(mem, root, q0) == Some(t) ==> q0 == p;
    }
  }

  lemma {:induction false} EditWalk(mem: seq<Page>, mem': seq<Page>, mrt: seq<Count>, root: nat, p: seq<nat>, i: nat,
                                    t: nat,
                                    idx: seq<nat>, k: nat, tk: nat)
    requires TreeOk(mem, mrt, root) && Edit(mem, mem', root, p, i, t)
    requires Index(idx) && !(p + [i] <= idx) && k < 4 && Table(mem, root, idx[..k]) == Some(tk)
    ensures WalkFrom(mem', tk, idx, k) == WalkFrom(mem, tk, idx, k)
    decreases 4 - k
  {
    assert Prefix(idx[..k]);
    assert tk == t ==> idx[..k] == p;
    assert idx[..k + 1] == idx[..k] + [idx[k]];
    if k < 3 && Present(mem[tk][idx[k]]) && !Big(mem[tk][idx[k]]) {
      assert idx[..k + 1][..k] == idx[..k];
      EditWalk(mem, mem', mrt, root, p, i, t, idx, k + 1, mem[tk][idx[k]].frame);
    }
  }

  lemma {:induction false} BelowAbsent(mem: seq<Page>, root: nat, p: seq<nat>, i: nat, t: nat, q: seq<nat>)
    requires Prefix(p) && i < 512 && Table(mem, root, p) == Some(t)
    requires t >= |mem| || !Present(mem[t][i])
    requires Prefix(q) && p + [i] <= q
    ensures Table(mem, root, q).None?
    decreases |q|
  {
    var q0 := q[..|q| - 1];
    if |q| == |p| + 1 {
      assert q == p + [i] && q0 == p;
    } else {
      assert p + [i] <= q0;
      BelowAbsent(mem, root, p, i, t, q0);
    }
  }

  /** Entry i of the level-3 table p[..3] is rewritten: exactly one page changes its mapping. */
  lemma LeafEdit(mem: seq<Page>, mem': seq<Page>, mrt: seq<Count>, root: nat, at: seq<nat>, t: nat)
    requires TreeOk(mem, mrt, root) && Index(at) && Edit(mem, mem', root, at[..3], at[3], t)
    ensures TreeOk(mem', mrt, root) && SameTables(mem, mem', root)
    ensures WalkUpdated(mem, mem', root, at, if Present(mem'[t][at[3]]) then Small(mem'[t][at[3]]) else Absent)
  {
    assert at == at[..3] + [at[3]];
    forall q | Prefix(q) ensures Table(mem', root, q) == Table(mem, root, q) {
      EditTable(mem, mem', mrt, root, at[..3], at[3], t, q);
    }
    forall idx | Index(idx)
      ensures Walk(mem', root, idx) == if idx != at then Walk(mem, root, idx) else
                if Present(mem'[t][at[3]]) then Small(mem'[t][at[3]]) else Absent
    {
      if idx != at {
        EditWalk(mem, mem', mrt, root, at[..3], at[3], t, idx, 0, root);
      } else {
        WalkPrefix(mem', root, at, 3, t);
      }
    }
  }

  /** Frames that are not tables do not take part in any walk. */
  lemma {:induction false} OutsideTable(mem: seq<Page>, root: nat, n: nat, page: Page, q: seq<nat>)
    requires n < |mem| && !IsTable(mem, root, n) && Prefix(q)
    ensures Table(mem[n := page], root, q) == Table(mem, root, q)
    decreases |q|
  {
    if q != [] {
      var q0 := q[..|q| - 1];
      OutsideTable(mem, root, n, page, q0);
      assert Table(mem, root, q0) != Some(n);
    }
  }

  lemma {:induction false} OutsideWalk(mem: seq<Page>, root: nat, n: nat, page: Page, idx: seq<nat>, k: nat, t: nat)
    requires n < |mem| && !IsTable(mem, root, n) && Index(idx) && k < 4
    requires Table(mem, root, idx[..k]) == Some(t)
    ensures WalkFrom(mem[n := page], t, idx, k) == WalkFrom(mem, t, idx, k)
    decreases 4 - k
  {
    assert Prefix(idx[..k]) && t != n;
    if t < |mem| && k < 3 && Present(mem[t][idx[k]]) && !Big(mem[t][idx[k]]) {
      assert idx[..k + 1][..k] == idx[..k];
      OutsideWalk(mem, root, n, page, idx, k + 1, mem[t][idx[k]].frame);
    }
  }

  /** A zeroed frame that is not a table is filled: nothing changes for this tree. */
  lemma OutsideKept(mem: seq<Page>, mrt: seq<Count>, root: nat, n: nat, page: Page)
    requires TreeOk(mem, mrt, root) && n < |mem| && !IsTable(mem, root, n)
    ensures TreeOk(mem[n := page], mrt, root) && SameWalk(mem, mem[n := page], root)
    ensures forall q :: Prefix(q) ==> Table(mem[n := page], root, q) == Table(mem, root, q)
  {
    forall q | Prefix(q) ensures Table(mem[n := page], root, q) == Table(mem, root, q) {
      OutsideTable(mem, root, n, page, q);
    }
    forall idx | Index(idx) ensures Walk(mem[n := page], root, idx) == Walk(mem, root, idx) {
      OutsideWalk(mem, root, n, page, idx, 0, root);
    }
  }

  /** Linking an empty table into an absent directory entry maps nothing and keeps the tree a tree. */
  lemma LinkEdit(mem: seq<Page>, mem': seq<Page>, mrt: seq<Count>, root: nat, p: seq<nat>, i: nat, t: nat, n: nat)
    requires TreeOk(mem, mrt, root) && |p| < 3 && Edit(mem, mem', root, p, i, t)
    requires !Present(mem[t][i]) && Present(mem'[t][i]) && !Big(mem'[t][i]) && mem'[t][i].frame == n
    requires n < |mem| && !IsTable(mem, root, n) && mem[n] == ZERO_PAGE && mrt[n] != 0
    ensures TreeOk(mem', mrt, root) && SameWalk(mem, mem', root)
    ensures Table(mem', root, p + [i]) == Some(n)
    ensures forall q :: Prefix(q) && q != p + [i] ==> Table(mem', root, q) == Table(mem, root, q)
  {
    var pi := p + [i];
    assert n != t && mem'[n] == ZERO_PAGE;
    EditTable(mem, mem', mrt, root, p, i, t, p);
    assert pi[..|pi| - 1] == p;
    forall q | Prefix(q) && q != pi ensures Table(mem', root, q) == Table(mem, root, q) {
      if pi <= q {
        BelowAbsent(mem, root, p, i, t, q);
        assert pi + [q[|pi|]] <= q;
        BelowAbsent(mem', root, pi, q[|pi|], n, q);
      } else {
        EditTable(mem, mem', mrt, root, p, i, t, q);
      }
    }
    BelowAbsent(mem, root, p, i, t, pi);
    forall idx | Index(idx) ensures Walk(mem', root, idx) == Walk(mem, root, idx) {
      if pi <= idx {
        var k := |p|;
        assert idx[..k] == p && idx[k] == i;
        WalkPrefix(mem, root, idx, k, t);
        WalkPrefix(mem', root, idx, k, t);
        assert WalkFrom(mem', n, idx, k + 1) == Absent;
      } else {
        EditWalk(mem, mem', mrt, root, p, i, t, idx, 0, root);
      }
    }
  }

  // ---- the operations ----

  /** How many tables a walk towards idx still lacks below table t of level k. */
  ghost function Missing(mem: seq<Page>, t: nat, idx: seq<nat>, k: nat): nat
    requires Index(idx) && k < 4
    decreases 4 - k
  {
    if k == 3 || t >= |mem| then 0 else
    var w := mem[t][idx[k]];
    if !Present(w) then 3 - k else if Big(w) then 0 else Missing(mem, w.frame, idx, k + 1)
  }

  function ItemFlags(ty: nat, user: nat): (f: nat) {
    if ty == 0 then KERNEL_4K else if ty == 1 then USER_4K else if ty == 2 then USER_COPY_ON_WRITE else user
  }

  function DirFlags(ty: nat): (f: nat) {
    if ty == 1 || ty == 2 then USER_4K else KERNEL_4K
  }

  function SlotOf(w: Word): (s: Slot) {
    if Present(w) then Small(w) else Absent
  }

  /** Frames in use stay in use with the same count; only free frames may have been taken. */
  ghost predicate OnlyTakes(mrt: seq<Count>, mrt': seq<Count>) {
    |mrt'| == |mrt| && forall f :: 0 <= f < |mrt| && mrt[f] != 0 ==> mrt'[f] == mrt[f]
  }

  /** More tables may have been made, out of free frames, without changing any mapping. */
  ghost predicate Extends(mem: seq<Page>, mrt: seq<Count>, mem': seq<Page>, mrt': seq<Count>, root: nat) {
    && |mem| == |mrt| && SameWalk(mem, mem', root) && OnlyTakes(mrt, mrt') && OthersKept(mem, mrt, mem', root)
    && forall f :: 0 <= f < |mem| && IsTable(mem', root, f) && !IsTable(mem, root, f) ==> mrt[f] == 0
  }

  lemma ExtendsReflexive(mem: seq<Page>, mrt: seq<Count>, root: nat)
    requires |mem| == |mrt|
    ensures Extends(mem, mrt, mem, mrt, root)
  {
  }

  lemma ExtendsWalk(mem: seq<Page>, mrt: seq<Count>, mem': seq<Page>, mrt': seq<Count>, root: nat, idx: seq<nat>)
    requires Extends(mem, mrt, mem', mrt', root) && Index(idx)
    ensures Walk(mem', root, idx) == Walk(mem, root, idx)
  {
  }

  lemma ExtendsTransitive(m0: seq<Page>, c0: seq<Count>, m1: seq<Page>, c1: seq<Count>, m2: seq<Page>, c2: seq<Count>,
                          root: nat)
    requires Extends(m0, c0, m1, c1, root) && Extends(m1, c1, m2, c2, root)
    ensures Extends(m0, c0, m2, c2, root)
  {
  }

  /** The effect of making the table n for entry i of the table at p, as values. */
  lemma NewTable(mem: seq<Page>, mrt: seq<Count>, root: nat, p: seq<nat>, i: nat, t: nat, n: nat, dir: nat)
    requires TreeOk(mem, mrt, root) && Prefix(p) && |p| < 3 && i < 512 && Table(mem, root, p) == Some(t)
    requires !Present(mem[t][i]) && dir in {KERNEL_4K, USER_4K} && n < |mem| && mrt[n] == 0
    ensures var mem' := mem[t := mem[t][i := Word(n, dir)]][n := ZERO_PAGE];
            && TreeOk(mem', mrt[n := 1], root) && Extends(mem, mrt, mem', mrt[n := 1], root)
            && Table(mem', root, p + [i]) == Some(n)
            && forall q :: Prefix(q) && q != p + [i] ==> Table(mem', root, q) == Table(mem, root, q)
  {
    var mem' := mem[t := mem[t][i := Word(n, dir)]][n := ZERO_PAGE];
    var m1 := mem[n := ZERO_PAGE];
    var c := mrt[n := 1];
    assert !IsTable(mem, root, n) && IsTable(mem, root, t);
    assert TreeOk(mem, c, root);
    OutsideKept(mem, c, root, n, ZERO_PAGE);
    assert mem' == m1[t := m1[t][i := Word(n, dir)]];
    assert !IsTable(m1, root, n);
    LinkEdit(m1, mem', c, root, p, i, t, n);
    forall f | 0 <= f < |mem| && IsTable(mem', root, f) && f != n ensures IsTable(mem, root, f) {
      var q :| Prefix(q) && Table(mem', root, q) == Some(f);
      assert Table(mem, root, q) == Some(f);
    }
  }

  /** A new table adds one entry to the table above it. */
  lemma NewEntry(mem: seq<Page>, mem': seq<Page>, mrt: seq<Count>, root: nat, p: seq<nat>, i: nat, t: nat, n: nat,
                 dir: nat)
    requires TreeOk(mem, mrt, root) && Prefix(p) && |p| < 3 && i < 512 && Table(mem, root, p) == Some(t)
    requires t < |mem| && !Present(mem[t][i]) && n < |mem| && mrt[n] == 0
    requires mem' == mem[t := mem[t][i := Word(n, dir)]][n := ZERO_PAGE] && Table(mem', root, p + [i]) == Some(n)
    requires forall q :: Prefix(q) && q != p + [i] ==> Table(mem', root, q) == Table(mem, root, q)
    ensures EntriesKept(mem, mem', root) && LinksMade(mem, mem', root, dir)
  {
    var pi := p + [i];
    assert pi[..|p|] == p && Table(mem, root, pi).None?;
    NotPresent();
    forall q, j | Prefix(q) && 0 <= j < 512
      ensures EntryAt(mem', root, q, j) == EntryAt(mem, root, q, j)
              || (!Present(EntryAt(mem, root, q, j)) && (|q| < 3 && Present(EntryAt(mem', root, q, j)) ==>
                    EntryAt(mem', root, q, j).flags == dir))
    {
      if q != pi { assert Table(mem, root, q) == Some(t) ==> q == p; }
    }
  }

  lemma NoEntries(mem: seq<Page>, root: nat, dir: nat)
    ensures EntriesKept(mem, mem, root) && LinksMade(mem, mem, root, dir)
  {
  }

  lemma MoreEntries(m0: seq<Page>, m1: seq<Page>, m2: seq<Page>, root: nat, dir: nat)
    requires EntriesKept(m0, m1, root) && EntriesKept(m1, m2, root) && LinksMade(m0, m1, root, dir)
    requires LinksMade(m1, m2, root, dir)
    ensures EntriesKept(m0, m2, root) && LinksMade(m0, m2, root, dir)
  {
    hide EntryAt, Present;
  }

  /** Filling a last-level entry that was not present adds that entry only. */
  lemma LeafEntry(mem: seq<Page>, mem': seq<Page>, mrt: seq<Count>, root: nat, at: seq<nat>, t: nat, w: Word, dir: nat)
    requires TreeOk(mem, mrt, root) && Index(at) && Table(mem, root, at[..3]) == Some(t) && t < |mem|
    requires mem' == mem[t := mem[t][at[3] := w]] && SameTables(mem, mem', root) && !Present(mem[t][at[3]])
    ensures EntriesKept(mem, mem', root) && LinksMade(mem, mem', root, dir)
  {
    forall q, j | Prefix(q) && 0 <= j < 512
      ensures EntryAt(mem', root, q, j) == EntryAt(mem, root, q, j)
              || (|q| == 3 && !Present(EntryAt(mem, root, q, j)))
    {
      assert Table(mem, root, q) == Some(t) ==> q == at[..3];
    }
  }

  /** The tables there are towards a page let user code through, or writes; all three are there. */
  ghost predicate UserWay(mem: seq<Page>, root: nat, idx: seq<nat>)
    requires Index(idx)
  {
    forall k :: 0 <= k < 3 && Present(Link(mem, root, idx, k)) ==> UserBit(Link(mem, root, idx, k))
  }

  ghost predicate WriteWay(mem: seq<Page>, root: nat, idx: seq<nat>)
    requires Index(idx)
  {
    forall k :: 0 <= k < 3 && Present(Link(mem, root, idx, k)) ==> WriteBit(Link(mem, root, idx, k))
  }

  ghost predicate WholeWay(mem: seq<Page>, root: nat, idx: seq<nat>)
    requires Index(idx)
  {
    forall k :: 0 <= k < 3 ==> Present(Link(mem, root, idx, k))
  }

  /** Where nothing is there yet, nothing is in the way. */
  lemma NewWay(mem: seq<Page>, root: nat, idx: seq<nat>)
    requires Index(idx) && !Present(EntryAt(mem, root, [], idx[0]))
    ensures UserWay(mem, root, idx) && WriteWay(mem, root, idx) && !WholeWay(mem, root, idx)
  {
    hide Present, UserBit, WriteBit;
    NotPresent();
    assert idx[..0] == [];
    NoTable(mem, root, idx);
    assert !Present(Link(mem, root, idx, 0)) && !Present(Link(mem, root, idx, 1)) && !Present(Link(mem, root, idx, 2));
  }

  lemma NoTable(mem: seq<Page>, root: nat, idx: seq<nat>)
    requires Index(idx) && !Present(EntryAt(mem, root, [], idx[0]))
    ensures Table(mem, root, idx[..1]).None? && Table(mem, root, idx[..2]).None?
  {
    assert idx[..1][..0] == [] && idx[..2][..1] == idx[..1];
  }

  /**
   Who may use the page that was put: user code, if the page is a user page (types 1 and 2, or the caller's flags)
   and so is every table towards it, where the tables made for types 1 and 2 are; writes likewise, but for the
   read-only pages of type 2.
   */
  ghost predicate RightsPut(m0: seq<Page>, mem: seq<Page>, root: nat, at: seq<nat>, ty: nat, user: nat)
    requires Index(at)
  {
    && (forall idx :: Index(idx) && idx != at ==> RightsOf(mem, root, idx) == RightsOf(m0, root, idx))
    && if ty >= 3 && user % 2 == 0 then RightsOf(mem, root, at) == None else
       RightsOf(mem, root, at) == Some(Rights(
         (ty == 1 || ty == 2 || (ty >= 3 && user / 4 % 2 == 1)) && UserWay(m0, root, at)
           && (ty == 1 || ty == 2 || WholeWay(m0, root, at)),
         (ty == 0 || ty == 1 || (ty >= 3 && user / 2 % 2 == 1)) && WriteWay(m0, root, at)))
  }

  /** A user page in a part of the address space that had no tables can be used and written by user code. */
  lemma FirstUserPage(m0: seq<Page>, mem: seq<Page>, root: nat, at: seq<nat>, user: nat)
    requires Index(at) && !Present(EntryAt(m0, root, [], at[0]))
    ensures RightsPut(m0, mem, root, at, 1, user) ==> RightsOf(mem, root, at) == Some(Rights(true, true))
    ensures RightsPut(m0, mem, root, at, 2, user) ==> RightsOf(mem, root, at) == Some(Rights(true, false))
    ensures RightsPut(m0, mem, root, at, 0, user) ==> RightsOf(mem, root, at) == Some(Rights(false, true))
  {
    hide RightsOf, UserWay, WriteWay, WholeWay;
    NewWay(m0, root, at);
  }

  lemma PutRights(m0: seq<Page>, mem: seq<Page>, root: nat, at: seq<nat>, ty: nat, user: nat, phy: nat, t: nat)
    requires Index(at) && EntriesKept(m0, mem, root) && Walk(m0, root, at) == Absent
    requires LinksMade(m0, mem, root, if ty == 1 || ty == 2 then 7 else 0x103)
    requires WalkUpdated(m0, mem, root, at, SlotOf(Word(phy, ItemFlags(ty, user))))
    requires Table(mem, root, at[..3]) == Some(t) && t < |mem| && mem[t][at[3]] == Word(phy, ItemFlags(ty, user))
    ensures RightsPut(m0, mem, root, at, ty, user)
  {
    hide EntryAt, EntriesKept, LinksMade;
    forall idx | Index(idx) && idx != at ensures RightsOf(mem, root, idx) == RightsOf(m0, root, idx) {
      OtherRights(m0, mem, root, idx);
    }
    MappedHasRights(mem, root, at, 0);
    if !(ty >= 3 && user % 2 == 0) {
      assert Walk(mem, root, at).Small?;
      TableAtRoot(mem, root, at);
      RightsOfSmall(mem, root, at, 0, root);
      PutWay(m0, mem, root, at, ty, user, phy, t);
    }
  }

  lemma TableAtRoot(mem: seq<Page>, root: nat, idx: seq<nat>)
    requires Index(idx)
    ensures Table(mem, root, idx[..0]) == Some(root)
  {
  }

  lemma OtherRights(m0: seq<Page>, mem: seq<Page>, root: nat, idx: seq<nat>)
    requires Index(idx) && EntriesKept(m0, mem, root) && Walk(mem, root, idx) == Walk(m0, root, idx)
    ensures RightsOf(mem, root, idx) == RightsOf(m0, root, idx)
  {
    hide EntriesKept;
    MappedHasRights(m0, root, idx, 0);
    MappedHasRights(mem, root, idx, 0);
    if Walk(m0, root, idx) != Absent { RightsStay(m0, mem, root, idx, 0, root); }
  }

  /** The bits of the four entries after the page was put. */
  lemma PutWay(m0: seq<Page>, mem: seq<Page>, root: nat, at: seq<nat>, ty: nat, user: nat, phy: nat, t: nat)
    requires Index(at) && EntriesKept(m0, mem, root) && forall k :: 0 <= k < 4 ==> Present(Link(mem, root, at, k))
    requires LinksMade(m0, mem, root, if ty == 1 || ty == 2 then 7 else 0x103)
    requires Table(mem, root, at[..3]) == Some(t) && t < |mem| && mem[t][at[3]] == Word(phy, ItemFlags(ty, user))
    ensures (forall k :: 0 <= k < 4 ==> UserBit(Link(mem, root, at, k))) <==>
              (ty == 1 || ty == 2 || (ty >= 3 && user / 4 % 2 == 1)) && UserWay(m0, root, at)
              && (ty == 1 || ty == 2 || WholeWay(m0, root, at))
    ensures (forall k :: 0 <= k < 4 ==> WriteBit(Link(mem, root, at, k))) <==>
              (ty == 0 || ty == 1 || (ty >= 3 && user / 2 % 2 == 1)) && WriteWay(m0, root, at)
  {
    hide Link, EntryAt, Present, UserBit, WriteBit, EntriesKept, LinksMade, ItemFlags;
    var item := Word(phy, ItemFlags(ty, user));
    var dir := if ty == 1 || ty == 2 then 7 else 0x103;
    LinkAt(mem, root, at, 3, t);
    ItemBits(phy, ty, user);
    forall k | 0 <= k < 3
      ensures var w, w' := Link(m0, root, at, k), Link(mem, root, at, k);
              if Present(w) then w' == w else UserBit(w') == (ty == 1 || ty == 2) && WriteBit(w')
    {
      LinkIs(m0, mem, root, at, k, dir);
      LinkBits(Link(mem, root, at, k));
    }
    var u := forall k :: 0 <= k < 3 ==> UserBit(Link(mem, root, at, k));
    assert u <==> UserWay(m0, root, at) && (ty == 1 || ty == 2 || WholeWay(m0, root, at));
    assert (forall k :: 0 <= k < 4 ==> UserBit(Link(mem, root, at, k))) <==> u && UserBit(item);
    var v := forall k :: 0 <= k < 3 ==> WriteBit(Link(mem, root, at, k));
    assert v <==> WriteWay(m0, root, at);
    assert (forall k :: 0 <= k < 4 ==> WriteBit(Link(mem, root, at, k))) <==> v && WriteBit(item);
  }

  lemma LinkIs(m0: seq<Page>, mem: seq<Page>, root: nat, at: seq<nat>, k: nat, dir: nat)
    requires Index(at) && k < 3 && EntriesKept(m0, mem, root) && LinksMade(m0, mem, root, dir)
    requires Present(Link(mem, root, at, k))
    ensures var w, w' := Link(m0, root, at, k), Link(mem, root, at, k);
            if Present(w) then w' == w else w'.flags == dir
  {
    hide EntryAt, Present;
  }

  lemma LinkBits(w: Word)
    ensures w.flags == 7 ==> UserBit(w) && WriteBit(w)
    ensures w.flags == 0x103 ==> !UserBit(w) && WriteBit(w)
  {
  }

  lemma ItemBits(phy: nat, ty: nat, user: nat)
    ensures UserBit(Word(phy, ItemFlags(ty, user))) <==> ty == 1 || ty == 2 || (ty >= 3 && user / 4 % 2 == 1)
    ensures WriteBit(Word(phy, ItemFlags(ty, user))) <==> ty == 0 || ty == 1 || (ty >= 3 && user / 2 % 2 == 1)
  {
  }

  /** The effect of writing the last-level entry after the descent, as values. */
  lemma LeafWritten(m0: seq<Page>, c0: seq<Count>, mem: seq<Page>, mrt: seq<Count>, root: nat, at: seq<nat>, t: nat,
                    w: Word)
    requires Extends(m0, c0, mem, mrt, root) && TreeOk(mem, mrt, root)
    requires Index(at) && Table(mem, root, at[..3]) == Some(t)
    ensures t < |mem|
    ensures var mem' := mem[t := mem[t][at[3] := w]];
            && TreeOk(mem', mrt, root) && WalkUpdated(m0, mem', root, at, SlotOf(w)) && OthersKept(m0, c0, mem', root)
            && SameTables(mem, mem', root)
  {
    var mem' := mem[t := mem[t][at[3] := w]];
    LeafEdit(mem, mem', mrt, root, at, t);
    assert IsTable(mem, root, t);
  }

  /** One level of the descent in __put_page_4k_locked: follow the entry, or make an empty table. */
  method Descend(pm: PhysicalMemory, ghost root: nat, ghost p: seq<nat>, t: nat, i: nat, dir: nat)
    returns (next: Option<nat>)
    requires pm.Valid() && TreeOk(pm.mem, pm.mrt[..], root)
    requires Prefix(p) && |p| < 3 && i < 512 && Table(pm.mem, root, p) == Some(t) && dir in {KERNEL_4K, USER_4K}
    modifies pm`areas, pm`mem, pm.mrt
    ensures t < |old(pm.mem)|
    ensures next.None? <==> var w := old(pm.mem)[t][i]; if Present(w) then Big(w) else FreeTotal(old(pm.areas)) == 0
    ensures next.Some? ==>
              && pm.Valid() && SameBounds(pm.areas, old(pm.areas)) && TreeOk(pm.mem, pm.mrt[..], root)
              && Extends(old(pm.mem), old(pm.mrt[..]), pm.mem, pm.mrt[..], root)
              && Table(pm.mem, root, p + [i]) == next
              && forall q :: Prefix(q) && q != p + [i] ==> Table(pm.mem, root, q) == Table(old(pm.mem), root, q)
    ensures next.Some? ==>
              if Present(old(pm.mem)[t][i])
              then pm.mem == old(pm.mem) && pm.areas == old(pm.areas) && next.value == pm.mem[t][i].frame
              else && FreeTotal(pm.areas) == FreeTotal(old(pm.areas)) - 1
                   && next.value < |pm.mem| && pm.mem[next.value] == ZERO_PAGE
    ensures next.Some? ==> EntriesKept(old(pm.mem), pm.mem, root) && LinksMade(old(pm.mem), pm.mem, root, dir)
  {
    hide EntriesKept, LinksMade;
    assert (p + [i])[..|p|] == p;
    NoEntries(pm.mem, root, dir);
    ghost var m0, c0 := pm.mem, pm.mrt[..];
    var w := pm.mem[t][i];
    if Present(w) {
      if Big(w) { return None; }
      next := Some(w.frame);
    } else {
      next := pm.AllocPage();
      if next.None? { return; }
      var n := next.value;
      NewTable(m0, c0, root, p, i, t, n, dir);
      pm.mem := pm.mem[t := pm.mem[t][i := Word(n, dir)]];
      pm.mem := pm.mem[n := ZERO_PAGE];
      NewEntry(m0, pm.mem, c0, root, p, i, t, n, dir);
    }
  }

  /** The descent of __put_page_4k_locked to the last-level table, making tables as needed. */
  method ReachLeaf(pm: PhysicalMemory, root: nat, layer: seq<nat>, dir: nat) returns (r: Option<nat>)
    requires pm.Valid() && TreeOk(pm.mem, pm.mrt[..], root) && Index(layer) && dir in {KERNEL_4K, USER_4K}
    modifies pm`areas, pm`mem, pm.mrt
    ensures r.None? <==> || Walk(old(pm.mem), root, layer).Large?
                         || FreeTotal(old(pm.areas)) < Missing(old(pm.mem), root, layer, 0)
    ensures r.Some? ==>
              && pm.Valid() && SameBounds(pm.areas, old(pm.areas)) && TreeOk(pm.mem, pm.mrt[..], root)
              && Extends(old(pm.mem), old(pm.mrt[..]), pm.mem, pm.mrt[..], root)
              && Table(pm.mem, root, layer[..3]) == r && TablesAdded(old(pm.mem), pm.mem, root, layer, 3)
              && FreeTotal(pm.areas) == FreeTotal(old(pm.areas)) - Missing(old(pm.mem), root, layer, 0)
    ensures r.Some? ==> EntriesKept(old(pm.mem), pm.mem, root) && LinksMade(old(pm.mem), pm.mem, root, dir)
  {
    hide Extends, TreeOk, FramesOk, HasTable, EntriesKept, LinksMade;
    NoEntries(pm.mem, root, dir);
    ghost var m0, c0, need := pm.mem, pm.mrt[..], Missing(pm.mem, root, layer, 0) - FreeTotal(pm.areas);
    ExtendsReflexive(m0, c0, root);
    NoTablesAdded(m0, root, layer);
    var t := root;
    for i := 0 to 3
      invariant pm.Valid() && SameBounds(pm.areas, old(pm.areas)) && TreeOk(pm.mem, pm.mrt[..], root)
      invariant Table(pm.mem, root, layer[..i]) == Some(t)
      invariant Extends(m0, c0, pm.mem, pm.mrt[..], root) && TablesAdded(m0, pm.mem, root, layer, i)
      invariant Missing(pm.mem, t, layer, i) - FreeTotal(pm.areas) == need
      invariant EntriesKept(m0, pm.mem, root) && LinksMade(m0, pm.mem, root, dir)
    {
      assert layer[..i + 1] == layer[..i] + [layer[i]];
      ghost var m, c := pm.mem, pm.mrt[..];
      var next := Descend(pm, root, layer[..i], t, layer[i], dir);
      if next.None? {
        WalkPrefix(m, root, layer, i, t);
        ExtendsWalk(m0, c0, m, c, root, layer);
        return None;
      }
      MissingStep(m, t, pm.mem, next.value, layer, i);
      ExtendsTransitive(m0, c0, m, c, pm.mem, pm.mrt[..], root);
      OneTableAdded(m0, m, pm.mem, root, layer, i);
      MoreEntries(m0, m, pm.mem, root, dir);
      t := next.value;
    }
    WalkPrefix(pm.mem, root, layer, 3, t);
    ExtendsWalk(m0, c0, pm.mem, pm.mrt[..], root, layer);
    r := Some(t);
  }

  lemma NoTablesAdded(mem: seq<Page>, root: nat, idx: seq<nat>)
    ensures TablesAdded(mem, mem, root, idx, 0)
  {
  }

  lemma OneTableAdded(m0: seq<Page>, m: seq<Page>, m': seq<Page>, root: nat, idx: seq<nat>, i: nat)
    requires Index(idx) && i < 3 && TablesAdded(m0, m, root, idx, i) && Table(m', root, idx[..i] + [idx[i]]).Some?
    requires forall q :: Prefix(q) && q != idx[..i] + [idx[i]] ==> Table(m', root, q) == Table(m, root, q)
    ensures TablesAdded(m0, m', root, idx, i + 1)
  {
    var p := idx[..i] + [idx[i]];
    assert p == idx[..i + 1] && Prefix(p);
    forall q | Prefix(q) ensures HasTable(m', root, q) <==> HasTable(m0, root, q) || (q <= idx && |q| <= i + 1) {
      if q <= idx && |q| == i + 1 { assert q == p; }
    }
  }

  /** Following an entry leaves the number of missing tables; making one lowers it by one. */
  lemma MissingStep(mem: seq<Page>, t: nat, mem': seq<Page>, next: nat, idx: seq<nat>, k: nat)
    requires Index(idx) && k < 3 && t < |mem| && !(Present(mem[t][idx[k]]) && Big(mem[t][idx[k]]))
    requires if Present(mem[t][idx[k]]) then mem' == mem && next == mem[t][idx[k]].frame
             else next < |mem'| && mem'[next] == ZERO_PAGE
    ensures Missing(mem', next, idx, k + 1) == Missing(mem, t, idx, k) - if Present(mem[t][idx[k]]) then 0 else 1
  {
  }

  /** __put_page_4k_locked: map one page; the result tells whether it halted. */
  method PutPage(pm: PhysicalMemory, phy: nat, vir: nat, root: nat, ty: nat, user: nat) returns (halted: bool)
    requires pm.Valid() && TreeOk(pm.mem, pm.mrt[..], root) && Canonical(vir) && user < 4096
    modifies pm`areas, pm`mem, pm.mrt
    ensures halted <==> vir % 4096 != 0 || PutHalts(old(pm.mem), FreeTotal(old(pm.areas)), root, vir)
    ensures !halted ==>
              && pm.Valid() && SameBounds(pm.areas, old(pm.areas)) && TreeOk(pm.mem, pm.mrt[..], root)
              && WalkUpdated(old(pm.mem), pm.mem, root, Layers(vir), SlotOf(Word(phy, ItemFlags(ty, user))))
              && OnlyTakes(old(pm.mrt[..]), pm.mrt[..])
              && OthersKept(old(pm.mem), old(pm.mrt[..]), pm.mem, root)
              && TablesAdded(old(pm.mem), pm.mem, root, Layers(vir), 3)
              && FreshTables(old(pm.mem), old(pm.mrt[..]), pm.mem, root)
              && FreeTotal(pm.areas) == FreeTotal(old(pm.areas)) - Missing(old(pm.mem), root, Layers(vir), 0)
    // entries are only added; those for new tables are user entries exactly for types 1 and 2
    ensures !halted ==>
              && EntriesKept(old(pm.mem), pm.mem, root)
              && LinksMade(old(pm.mem), pm.mem, root, if ty == 1 || ty == 2 then 7 else 0x103)
              && RightsPut(old(pm.mem), pm.mem, root, Layers(vir), ty, user)
    ensures !halted && ty < 3 ==> Walk(pm.mem, root, Layers(vir)) == Small(Word(phy, [0x103, 7, 5][ty]))
  {
    hide TreeOk, FramesOk, OthersKept, WalkUpdated, TablesAdded, SameTables, FreshTables, EntriesKept, LinksMade,
         RightsPut, ItemFlags, SlotOf, DirFlags, RightsOf;
    DirIs(ty);
    if vir % 4096 != 0 { return true; }
    AddressOfLayers(vir);
    var layer := Layers(vir);
    ghost var m0, c0 := pm.mem, pm.mrt[..];
    var r := ReachLeaf(pm, root, layer, DirFlags(ty));
    if r.None? { return true; }
    var t := r.value;
    WalkPrefix(pm.mem, root, layer, 3, t);
    assert Walk(pm.mem, root, layer) == Walk(m0, root, layer);
    LeafWritten(m0, c0, pm.mem, pm.mrt[..], root, layer, t, Word(phy, ItemFlags(ty, user)));
    if Present(pm.mem[t][layer[3]]) { return true; }
    ghost var m := pm.mem;
    pm.mem := pm.mem[t := pm.mem[t][layer[3] := Word(phy, ItemFlags(ty, user))]];
    SameTablesAdded(m0, m, pm.mem, root, layer);
    TablesFresh(m0, c0, m, pm.mrt[..], pm.mem, root);
    LeafEntry(m, pm.mem, pm.mrt[..], root, layer, t, Word(phy, ItemFlags(ty, user)), DirFlags(ty));
    MoreEntries(m0, m, pm.mem, root, DirFlags(ty));
    TableKept(m, pm.mem, root, layer);
    PutRights(m0, pm.mem, root, layer, ty, user, phy, t);
    if ty < 3 { PutItem(m0, pm.mem, root, layer, phy, ty, user); }
    halted := false;
  }

  lemma PutItem(m: seq<Page>, m': seq<Page>, root: nat, at: seq<nat>, phy: nat, ty: nat, user: nat)
    requires Index(at) && ty < 3 && WalkUpdated(m, m', root, at, SlotOf(Word(phy, ItemFlags(ty, user))))
    ensures Walk(m', root, at) == Small(Word(phy, [0x103, 7, 5][ty]))
  {
    hide Walk;
  }

  lemma DirIs(ty: nat)
    ensures DirFlags(ty) == if ty == 1 || ty == 2 then 7 else 0x103
  {
  }

  lemma TableKept(m: seq<Page>, m': seq<Page>, root: nat, idx: seq<nat>)
    requires SameTables(m, m', root) && Index(idx)
    ensures Table(m', root, idx[..3]) == Table(m, root, idx[..3])
  {
  }

  lemma SameTablesAdded(m0: seq<Page>, m: seq<Page>, m': seq<Page>, root: nat, idx: seq<nat>)
    requires TablesAdded(m0, m, root, idx, 3) && SameTables(m, m', root)
    ensures TablesAdded(m0, m', root, idx, 3)
  {
  }

  lemma TablesFresh(m0: seq<Page>, c0: seq<Count>, m: seq<Page>, c: seq<Count>, m': seq<Page>, root: nat)
    requires Extends(m0, c0, m, c, root) && TreeOk(m, c, root) && |m| == |m0| && SameTables(m, m', root)
    ensures FreshTables(m0, c0, m', root)
  {
    forall f: nat | IsTable(m', root, f) && !IsTable(m0, root, f) ensures f < |c0| && c0[f] == 0 {
      var p :| Prefix(p) && Table(m', root, p) == Some(f);
      assert Table(m, root, p) == Some(f);
      assert IsTable(m, root, f);
    }
  }

  /** Mapping a page halts on anything already mapped there and when the tables cannot be paid for. */
  ghost predicate PutHalts(mem: seq<Page>, free: nat, root: nat, vir: nat)
    requires Canonical(vir) && vir % 4096 == 0
  {
    AddressOfLayers(vir);
    Walk(mem, root, Layers(vir)) != Absent || free < Missing(mem, root, Layers(vir), 0)
  }

  /** exist_page_4k: whether anything is mapped at a page; halts on an unaligned address. */
  method ExistPage(pm: PhysicalMemory, vir: nat, root: nat) returns (r: Option<bool>)
    requires pm.Valid() && TreeOk(pm.mem, pm.mrt[..], root) && Canonical(vir)
    ensures r.None? <==> vir % 4096 != 0
    ensures vir % 4096 == 0 ==> Index(Layers(vir)) && r == Some(Walk(pm.mem, root, Layers(vir)) != Absent)
  {
    if vir % 4096 != 0 { return None; }
    AddressOfLayers(vir);
    var layer := Layers(vir);
    var t := root;
    for i := 0 to 4
      invariant i < 4 ==> Table(pm.mem, root, layer[..i]) == Some(t)
      invariant i < 4 ==> WalkFrom(pm.mem, t, layer, i) == Walk(pm.mem, root, layer)
      invariant i == 4 ==> Walk(pm.mem, root, layer) != Absent
    {
      if !Present(pm.mem[t][layer[i]]) { return Some(false); }
      if i < 3 && Big(pm.mem[t][layer[i]]) { return Some(true); }
      assert i < 3 ==> layer[..i + 1][..i] == layer[..i];
      t := pm.mem[t][layer[i]].frame;
    }
    r := Some(true);
  }

  /** rm_page_4k: unmap one page; halts unless a 4 KiB page is mapped there. */
  method RmPage(pm: PhysicalMemory, vir: nat, root: nat) returns (halted: bool)
    requires pm.Valid() && TreeOk(pm.mem, pm.mrt[..], root) && Canonical(vir)
    modifies pm`mem
    ensures halted <==> vir % 4096 != 0 || !(Index(Layers(vir)) && Walk(old(pm.mem), root, Layers(vir)).Small?)
    ensures halted ==> pm.mem == old(pm.mem)
    ensures !halted ==>
              && pm.Valid() && TreeOk(pm.mem, pm.mrt[..], root)
              && WalkUpdated(old(pm.mem), pm.mem, root, Layers(vir), Absent)
              && OthersKept(old(pm.mem), pm.mrt[..], pm.mem, root)
  {
    if vir % 4096 != 0 { return true; }
    AddressOfLayers(vir);
    var layer := Layers(vir);
    var t := root;
    for i := 0 to 3
      invariant Table(pm.mem, root, layer[..i]) == Some(t)
      invariant WalkFrom(pm.mem, t, layer, i) == Walk(pm.mem, root, layer)
    {
      var w := pm.mem[t][layer[i]];
      if !(Present(w) && !Big(w)) { return true; }
      assert layer[..i + 1][..i] == layer[..i];
      t := w.frame;
    }
    if !Present(pm.mem[t][layer[3]]) { return true; }
    ExtendsReflexive(pm.mem, pm.mrt[..], root);
    LeafWritten(pm.mem, pm.mrt[..], pm.mem, pm.mrt[..], root, layer, t, Word(0, 0));
    pm.mem := pm.mem[t := pm.mem[t][layer[3] := Word(0, 0)]];
    halted := false;
  }

  // ---- the tables a mapping needs ----

  /** The tables on the way to one page that are not there. */
  ghost function Lacks(mem: seq<Page>, root: nat, idx: seq<nat>): (r: set<seq<nat>>)
    requires Index(idx)
  {
    set k | 1 <= k <= 3 && !HasTable(mem, root, idx[..k]) :: idx[..k]
  }

  /** A table below a missing one is missing. */
  lemma LacksBelow(mem: seq<Page>, root: nat, idx: seq<nat>, k: nat)
    requires Index(idx) && 1 <= k < 3 && !HasTable(mem, root, idx[..k])
    ensures !HasTable(mem, root, idx[..k + 1])
  {
    assert idx[..k + 1][..k] == idx[..k];
  }

  lemma LacksIs(mem: seq<Page>, root: nat, idx: seq<nat>)
    requires Index(idx)
    ensures Lacks(mem, root, idx) == (if !HasTable(mem, root, idx[..1]) then {idx[..1]} else {})
                                   + (if !HasTable(mem, root, idx[..2]) then {idx[..2]} else {})
                                   + (if !HasTable(mem, root, idx[..3]) then {idx[..3]} else {})
  {
    hide HasTable;
  }

  /** For a page that is not mapped, the missing tables are as many as the mapping makes. */
  lemma MissingIsLacks(mem: seq<Page>, mrt: seq<Count>, root: nat, idx: seq<nat>)
    requires TreeOk(mem, mrt, root) && Index(idx) && Walk(mem, root, idx) == Absent
    ensures Missing(mem, root, idx, 0) == |Lacks(mem, root, idx)|
  {
    hide TreeOk, Lacks, HasTable, Missing;
    LacksIs(mem, root, idx);
    assert idx[..1] != idx[..2] && idx[..1] != idx[..3] && idx[..2] != idx[..3];
    var k := Depth(mem, mrt, root, idx);
    if k < 1 { LacksBelow(mem, root, idx, 1); }
    if k < 2 { LacksBelow(mem, root, idx, 2); }
  }

  /** How far the tables towards an unmapped page go. */
  lemma Depth(mem: seq<Page>, mrt: seq<Count>, root: nat, idx: seq<nat>) returns (k: nat)
    requires TreeOk(mem, mrt, root) && Index(idx) && Walk(mem, root, idx) == Absent
    ensures k <= 3 && Missing(mem, root, idx, 0) == 3 - k
    ensures (forall i :: 1 <= i <= k ==> HasTable(mem, root, idx[..i]))
            && (k < 3 ==> !HasTable(mem, root, idx[..k + 1]))
  {
    hide TreeOk, FramesOk;
    var t := root;
    k := 0;
    while k < 3
      invariant k <= 3 && Table(mem, root, idx[..k]) == Some(t) && WalkFrom(mem, t, idx, k) == Absent
      invariant Missing(mem, root, idx, 0) == Missing(mem, t, idx, k)
      invariant forall i :: 1 <= i <= k ==> HasTable(mem, root, idx[..i])
      decreases 3 - k
    {
      assert idx[..k + 1][..k] == idx[..k];
      TableInside(mem, mrt, root, idx[..k]);
      if !Present(mem[t][idx[k]]) { return; }
      t := mem[t][idx[k]].frame;
      k := k + 1;
    }
  }

  lemma TableInside(mem: seq<Page>, mrt: seq<Count>, root: nat, p: seq<nat>)
    requires TreeOk(mem, mrt, root) && Prefix(p) && Table(mem, root, p).Some?
    ensures Table(mem, root, p).value < |mem|
  {
  }

  lemma SubsetCount<T>(a: set<T>, b: set<T>)
    requires a <= b
    ensures |a| <= |b|
  {
    assert b == a + (b - a);
  }

  /** After some pages were mapped: the tables are those of m0 and the ones these pages needed. */
  ghost predicate TablesPaid(m0: seq<Page>, mem: seq<Page>, root: nat, made: set<seq<nat>>) {
    forall q :: Prefix(q) ==> (HasTable(mem, root, q) <==> HasTable(m0, root, q) || q in made)
  }

  /** The tables one more page lacks are those it needs beyond the ones made already. */
  lemma LacksNow(m0: seq<Page>, m1: seq<Page>, root: nat, made: set<seq<nat>>, idx: seq<nat>)
    requires Index(idx) && TablesPaid(m0, m1, root, made)
    ensures Lacks(m1, root, idx) == Lacks(m0, root, idx) - made
    ensures |made + Lacks(m0, root, idx)| == |made| + |Lacks(m1, root, idx)|
  {
    hide HasTable;
    forall k | 1 <= k <= 3 ensures Prefix(idx[..k]) {}
    assert made + Lacks(m0, root, idx) == made + Lacks(m1, root, idx);
  }

  lemma PaidMore(m0: seq<Page>, m1: seq<Page>, m2: seq<Page>, root: nat, made: set<seq<nat>>, idx: seq<nat>)
    requires Index(idx) && TablesPaid(m0, m1, root, made) && TablesAdded(m1, m2, root, idx, 3)
    ensures TablesPaid(m0, m2, root, made + Lacks(m0, root, idx))
  {
    forall q | Prefix(q) ensures HasTable(m2, root, q) <==> HasTable(m0, root, q) || q in made + Lacks(m0, root, idx) {
      if q <= idx {
        assert q == idx[..|q|];
        if q == [] { assert HasTable(m0, root, q); }
      }
    }
  }
}
