/**
 One size class of the slab allocator of src/mm/slab.c. A slab is a bitmap of objects with a count
 of the clear bits (`totalfree`) and a hint to the lowest of them (`nextfree`); `nf` is the number
 of the lowest slab with room. In the five small classes object 0 of a slab holds its header, so bit
 0 is always set; the two middle classes keep their headers elsewhere.
 */
module Slabs {
  import opened Common

  datatype Slab = Slab(nextfree: nat, totalfree: nat, bitmap: seq<bool>)

  function Clear(b: seq<bool>): (n: nat) {
    if b == [] then 0 else Clear(b[..|b| - 1]) + if b[|b| - 1] then 0 else 1
  }

  predicate Lowest(b: seq<bool>, k: int) {
    0 <= k < |b| && !b[k] && forall j :: 0 <= j < k ==> b[j]
  }

  /** Both hints are exact. */
  predicate SlabOk(s: Slab, bits: nat) {
    && |s.bitmap| == bits && s.totalfree == Clear(s.bitmap)
    && (if s.totalfree == 0 then s.nextfree == 0 else Lowest(s.bitmap, s.nextfree))
  }

  lemma {:induction false} ClearUpdate(b: seq<bool>, k: nat)
    requires k < |b|
    ensures Clear(b[k := true]) == if b[k] then Clear(b) else Clear(b) - 1
    ensures Clear(b[k := false]) == if b[k] then Clear(b) + 1 else Clear(b)
  {
    var n := |b| - 1;
    if k == n {
      assert b[k := true][..n] == b[..n] && b[k := false][..n] == b[..n];
    } else {
      ClearUpdate(b[..n], k);
      assert b[k := true][..n] == b[..n][k := true] && b[k := false][..n] == b[..n][k := false];
    }
  }

  lemma {:induction false} ClearNone(b: seq<bool>)
    ensures Clear(b) == 0 <==> forall k :: 0 <= k < |b| ==> b[k]
  {
    if b != [] {
      var b' := b[..|b| - 1];
      ClearNone(b');
      assert forall k :: 0 <= k < |b'| ==> b[k] == b'[k];
    }
  }

  /** The search for the next clear bit, from a bit below which all are set; it always succeeds. */
  method NextClear(b: seq<bool>, start: nat) returns (k: nat)
    requires start <= |b| && Clear(b) > 0 && forall j :: 0 <= j < start ==> b[j]
    ensures Lowest(b, k)
  {
    hide Clear;
    ClearNone(b);
    k := start;
    while b[k]
      invariant k < |b| && forall j :: 0 <= j < k ==> b[j]
      decreases |b| - k
    {
      k := k + 1;
    }
  }

  function Bitmaps(slabs: seq<Slab>): (m: seq<seq<bool>>)
    ensures |m| == |slabs| && forall j :: 0 <= j < |m| ==> m[j] == slabs[j].bitmap
  {
    seq(|slabs|, j requires 0 <= j < |slabs| => slabs[j].bitmap)
  }

  /** Every slab is consistent and nf is the lowest slab with room. */
  predicate ClassOk(slabs: seq<Slab>, nf: nat, bits: nat, head: bool) {
    && bits > 1 && nf < |slabs| && slabs[nf].totalfree > 0
    && (forall j :: 0 <= j < |slabs| ==> SlabOk(slabs[j], bits) && (head ==> slabs[j].bitmap[0]))
    && (forall j :: 0 <= j < nf ==> slabs[j].totalfree == 0)
  }

  function Empty(bits: nat, head: bool): (b: seq<bool>)
    requires bits > 0
    ensures |b| == bits && b[0] == head && forall k :: 0 < k < bits ==> !b[k]
  {
    seq(bits, k => head && k == 0)
  }

  /** Object (j, k) is the first free one. */
  predicate FirstFree(m: seq<seq<bool>>, j: int, k: int) {
    0 <= j < |m| && Lowest(m[j], k) && forall i, o :: 0 <= i < j && 0 <= o < |m[i]| ==> m[i][o]
  }

  predicate NoneFree(m: seq<seq<bool>>) {
    forall j, k :: 0 <= j < |m| && 0 <= k < |m[j]| ==> m[j][k]
  }

  /** The bitmaps after object (j, k) is handed out; a new slab follows when the last object is gone. */
  ghost function Granted(m: seq<seq<bool>>, j: nat, k: nat, bits: nat, head: bool): (r: seq<seq<bool>>)
    requires j < |m| && k < |m[j]| && bits > 0
  {
    var m' := m[j := m[j][k := true]];
    if NoneFree(m') then m' + [Empty(bits, head)] else m'
  }

  lemma EmptySlab(bits: nat, head: bool)
    requires bits > 1
    ensures Clear(Empty(bits, head)) == if head then bits - 1 else bits
    ensures SlabOk(Slab(if head then 1 else 0, if head then bits - 1 else bits, Empty(bits, head)), bits)
  {
    ClearEmpty(bits, head);
  }

  lemma {:induction false} ClearEmpty(bits: nat, head: bool)
    requires bits > 0
    ensures Clear(Empty(bits, head)) == if head then bits - 1 else bits
  {
    var b := Empty(bits, head);
    if bits == 1 {
      assert b[..0] == [];
    } else {
      ClearEmpty(bits - 1, head);
      assert b[..bits - 1] == Empty(bits - 1, head);
    }
  }

  /** The lowest slab with room has the first free object. */
  lemma HintIsFirst(slabs: seq<Slab>, nf: nat, bits: nat, head: bool)
    requires ClassOk(slabs, nf, bits, head)
    ensures FirstFree(Bitmaps(slabs), nf, slabs[nf].nextfree)
    ensures head ==> slabs[nf].nextfree > 0
  {
    hide Clear, Bitmaps;
    forall i, o | 0 <= i < nf && 0 <= o < |slabs[i].bitmap| ensures slabs[i].bitmap[o] {
      assert SlabOk(slabs[i], bits);
      ClearNone(slabs[i].bitmap);
    }
    assert SlabOk(slabs[nf], bits);
  }

  lemma FullClass(slabs: seq<Slab>, bits: nat)
    requires forall j :: 0 <= j < |slabs| ==> SlabOk(slabs[j], bits)
    ensures NoneFree(Bitmaps(slabs)) <==> forall j :: 0 <= j < |slabs| ==> slabs[j].totalfree == 0
  {
    hide Clear, Bitmaps;
    forall j | 0 <= j < |slabs| ensures slabs[j].totalfree == 0 <==> forall k :: 0 <= k < bits ==> slabs[j].bitmap[k] {
      assert SlabOk(slabs[j], bits);
      ClearNone(slabs[j].bitmap);
    }
  }

  /** Freeing the object just handed out restores every slab that was there before. */
  lemma FreeUndoesAlloc(m: seq<seq<bool>>, j: nat, k: nat, bits: nat, head: bool)
    requires FirstFree(m, j, k) && bits > 0
    ensures var r := Granted(m, j, k, bits, head);
            |m| <= |r| <= |m| + 1 && r[j := r[j][k := false]][..|m|] == m
  {
    var r := Granted(m, j, k, bits, head);
    assert m[j][k := true][k := false] == m[j];
    assert forall i :: 0 <= i < |m| && i != j ==> r[i] == m[i];
  }

  /** One class: slabei is the index of the last slab, nf the number nfslabi or mnfslab names. */
  datatype SizeClass = SizeClass(slabs: seq<Slab>, nf: nat)

  predicate Good(c: SizeClass, bits: nat, head: bool, limit: nat) {
    ClassOk(c.slabs, c.nf, bits, head) && |c.slabs| <= limit
  }

  /** init_slab for one class. */
  method NewClass(bits: nat, head: bool, limit: nat) returns (c: SizeClass)
    requires bits > 1 && limit > 0
    ensures Good(c, bits, head, limit) && Bitmaps(c.slabs) == [Empty(bits, head)]
  {
    c := SizeClass([Slab(if head then 1 else 0, if head then bits - 1 else bits, Empty(bits, head))], 0);
    EmptySlab(bits, head);
  }

  /** Mark the first free object; the slab's hints stay exact. */
  method Mark(c: SizeClass, bits: nat, head: bool) returns (k: nat, slabs: seq<Slab>)
    requires ClassOk(c.slabs, c.nf, bits, head)
    ensures k == c.slabs[c.nf].nextfree && |slabs| == |c.slabs|
    ensures Bitmaps(slabs) == Bitmaps(c.slabs)[c.nf := c.slabs[c.nf].bitmap[k := true]]
    ensures forall j :: 0 <= j < |slabs| ==> SlabOk(slabs[j], bits) && (head ==> slabs[j].bitmap[0])
    ensures forall j :: 0 <= j < |slabs| && j != c.nf ==> slabs[j] == c.slabs[j]
  {
    hide Clear;
    var s := c.slabs[c.nf];
    k := s.nextfree;
    assert SlabOk(s, bits);
    ClearUpdate(s.bitmap, k);
    s := s.(bitmap := s.bitmap[k := true]);
    s := s.(totalfree := s.totalfree - 1);
    if s.totalfree != 0 {
      var n := NextClear(s.bitmap, k + 1);
      s := s.(nextfree := n);
    } else {
      s := s.(nextfree := 0);
    }
    slabs := c.slabs[c.nf := s];
  }

  /** The object the next allocation will hand out. */
  method Peek(c: SizeClass, bits: nat, head: bool, limit: nat) returns (j: nat, k: nat)
    requires Good(c, bits, head, limit)
    ensures FirstFree(Bitmaps(c.slabs), j, k) && j < limit && k < bits && (head ==> k > 0)
  {
    hide Clear, Bitmaps;
    HintIsFirst(c.slabs, c.nf, bits, head);
    j, k := c.nf, c.slabs[c.nf].nextfree;
    assert SlabOk(c.slabs[c.nf], bits);
  }

  /** slab_alloc in one class: the object handed out, or None when a slab is needed and cannot be added. */
  method Alloc(c: SizeClass, bits: nat, head: bool, limit: nat, room: bool)
    returns (r: Option<(nat, nat)>, c': SizeClass)
    requires Good(c, bits, head, limit)
    ensures var m := Bitmaps(c.slabs);
            exists j, k :: FirstFree(m, j, k)
              && (r.None? <==> NoneFree(m[j := m[j][k := true]]) && (|m| == limit || !room))
              && (r.Some? ==> r.value == (j, k) && Bitmaps(c'.slabs) == Granted(m, j, k, bits, head))
    ensures r.Some? ==> Good(c', bits, head, limit) && (head ==> r.value.1 > 0)
  {
    hide Clear, Bitmaps, NoneFree, FirstFree;
    HintIsFirst(c.slabs, c.nf, bits, head);
    var nf := c.nf;
    var k, slabs := Mark(c, bits, head);
    c' := SizeClass(slabs, nf);
    r := Some((nf, k));
    FullClass(slabs, bits);
    ghost var marked := Bitmaps(slabs);
    if slabs[nf].totalfree != 0 { return; }
    // The small classes search upwards from nf; the middle ones from the start of their list.
    var i := if head then nf + 1 else 0;
    while i < |slabs| && slabs[i].totalfree == 0
      invariant i <= |slabs| && forall o :: 0 <= o < i ==> slabs[o].totalfree == 0
    {
      i := i + 1;
    }
    if i < |slabs| {
      c' := SizeClass(slabs, i);
      return;
    }
    if |slabs| == limit || !room { return None, c'; }
    EmptySlab(bits, head);
    slabs := slabs + [Slab(if head then 1 else 0, if head then bits - 1 else bits, Empty(bits, head))];
    assert Bitmaps(slabs) == marked + [Empty(bits, head)];
    c' := SizeClass(slabs, |slabs| - 1);
  }

  /** slab_free in one class: refused for a slab or object that is not handed out. */
  method Free(c: SizeClass, bits: nat, head: bool, limit: nat, j: nat, k: nat) returns (ok: bool, c': SizeClass)
    requires Good(c, bits, head, limit) && k < bits
    requires !head && j < |c.slabs| ==> c.slabs[j].bitmap[k]
    ensures ok <==> j < |c.slabs| && (head ==> k > 0) && c.slabs[j].bitmap[k]
    ensures ok ==> Good(c', bits, head, limit) && Bitmaps(c'.slabs) == Bitmaps(c.slabs)[j := c.slabs[j].bitmap[k := false]]
    ensures !ok ==> c' == c
  {
    hide Clear, Bitmaps;
    if j >= |c.slabs| { return false, c; }
    var s := c.slabs[j];
    assert SlabOk(s, bits);
    // The middle classes do not look at the bit: their callers must pass a live object.
    if head && (k == 0 || !s.bitmap[k]) { return false, c; }
    ClearUpdate(s.bitmap, k);
    ClearNone(s.bitmap);
    s := s.(bitmap := s.bitmap[k := false]);
    if s.totalfree == 0 || s.nextfree > k {
      s := s.(nextfree := k);
    }
    s := s.(totalfree := s.totalfree + 1);
    c' := SizeClass(c.slabs[j := s], if j < c.nf then j else c.nf);
    assert SlabOk(s, bits);
    ok := true;
  }
}
