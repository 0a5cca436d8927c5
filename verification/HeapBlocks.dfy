/**
 The abstract state of the kernel heap of src/mm/heap.c: the blocks of the heap window in address
 order. Allocation cuts or takes one block; freeing joins a block with its free neighbours.
 */
module HeapBlocks {
  import AddressMap

  const PAGE := 4096
  const WORD32 := 0x1_0000_0000
  const HEAP_START := AddressMap.HEAP_START
  const HEAP_END := AddressMap.HEAP_END

  datatype Block = Block(start: nat, size: nat, used: bool)

  function End(b: Block): (e: nat) { b.start + b.size }

  /** The request rounded up to pages, in 32-bit arithmetic. */
  function Aligned(size: nat): (n: nat) {
    var s := (size + 0xfff) % WORD32;
    s - s % PAGE
  }

  /** The rounded size holds the request exactly when the sum does not wrap. */
  lemma AlignedHolds(size: nat)
    requires size < WORD32
    ensures Aligned(size) >= size <==> size <= 0xffff_f000
    ensures OnPage(Aligned(size)) && (size <= 0xffff_f000 ==> Aligned(size) < size + PAGE)
    ensures 0 < size <= 0xffff_f000 ==> Aligned(size) > 0
    ensures size > 0xffff_f000 ==> Aligned(size) == 0
  {
    var s := (size + 0xfff) % WORD32;
    assert s - s % PAGE == PAGE * (s / PAGE);
    if size > 0xffff_f000 {
      assert s == size + 0xfff - WORD32;
    }
  }

  /** The blocks partition the heap window: no gap, no overlap, no empty block. */
  predicate Tiles(bs: seq<Block>) {
    && |bs| > 0 && bs[0].start == HEAP_START && End(bs[|bs| - 1]) == HEAP_END
    && (forall i :: 0 <= i < |bs| ==> bs[i].size > 0 && OnPage(bs[i].start))
    && (forall i :: 0 < i < |bs| ==> Meets(bs, i))
  }

  predicate OnPage(a: nat) { a % PAGE == 0 }

  lemma OnPageSum(a: nat, b: nat)
    requires OnPage(a) && OnPage(b)
    ensures OnPage(a + b)
  {
  }

  predicate Meets(bs: seq<Block>, i: nat)
    requires 0 < i < |bs|
  {
    End(bs[i - 1]) == bs[i].start
  }

  predicate Coalesced(bs: seq<Block>) {
    forall i :: 0 < i < |bs| ==> Guarded(bs, i)
  }

  predicate Guarded(bs: seq<Block>, i: nat)
    requires 0 < i < |bs|
  {
    bs[i - 1].used || bs[i].used
  }

  /** Used blocks lie below the high-water mark. */
  predicate Below(bs: seq<Block>, he: nat) {
    HEAP_START <= he <= HEAP_END && forall i :: 0 <= i < |bs| && bs[i].used ==> End(bs[i]) <= he
  }

  predicate SomeFree(bs: seq<Block>) {
    exists i :: 0 <= i < |bs| && !bs[i].used
  }

  /** What every heap operation keeps. */
  predicate HeapOk(bs: seq<Block>, he: nat) {
    Tiles(bs) && Coalesced(bs) && Below(bs, he) && SomeFree(bs)
  }

  predicate Fits(b: Block, n: nat) {
    !b.used && b.size >= n
  }

  predicate NoneFits(bs: seq<Block>, n: nat) {
    forall i :: 0 <= i < |bs| ==> !Fits(bs[i], n)
  }

  predicate FirstFit(bs: seq<Block>, k: int, n: nat) {
    0 <= k < |bs| && Fits(bs[k], n) && forall i :: 0 <= i < k ==> !Fits(bs[i], n)
  }

  lemma SomeFits(bs: seq<Block>, k: int, n: nat)
    requires FirstFit(bs, k, n)
    ensures !NoneFits(bs, n)
  {
  }

  predicate NoneAt(bs: seq<Block>, addr: nat) {
    forall i :: 0 <= i < |bs| ==> !(bs[i].used && bs[i].start == addr)
  }

  /** The only free block fits exactly: taking it would leave the free list empty. */
  predicate LastOne(bs: seq<Block>, k: int, n: nat) {
    0 <= k < |bs| && bs[k].size == n && forall i :: 0 <= i < |bs| && i != k ==> bs[i].used
  }

  /** The heap after n bytes are taken from the low end of block k. */
  function Taken(bs: seq<Block>, k: nat, n: nat): (r: seq<Block>)
    requires k < |bs| && Fits(bs[k], n)
  {
    if bs[k].size == n then bs[k := bs[k].(used := true)]
    else bs[..k] + [Block(bs[k].start, n, true), Block(bs[k].start + n, bs[k].size - n, false)] + bs[k + 1..]
  }

  /** The heap after block k is given back: it forms one free block with its free neighbours. */
  function GivenBack(bs: seq<Block>, k: nat): (r: seq<Block>)
    requires k < |bs|
  {
    var lo, hi := Low(bs, k), High(bs, k);
    bs[..lo] + [Block(bs[lo].start, Joined(bs, k), false)] + bs[hi..]
  }

  /** The bytes of block k and of its free neighbours. */
  function Joined(bs: seq<Block>, k: nat): (n: nat)
    requires k < |bs|
  {
    (if Low(bs, k) < k then bs[k - 1].size else 0) + bs[k].size + (if High(bs, k) > k + 1 then bs[k + 1].size else 0)
  }

  function Low(bs: seq<Block>, k: nat): (i: nat)
    requires k < |bs|
    ensures i <= k
  {
    if k > 0 && !bs[k - 1].used then k - 1 else k
  }

  function High(bs: seq<Block>, k: nat): (i: nat)
    requires k < |bs|
    ensures k < i <= |bs|
  {
    if k + 1 < |bs| && !bs[k + 1].used then k + 2 else k + 1
  }

  /** Blocks earlier in the list end before later ones start. */
  lemma {:induction false} Apart(bs: seq<Block>, i: nat, j: nat)
    requires Tiles(bs) && i < j < |bs|
    ensures End(bs[i]) <= bs[j].start
    ensures bs[i].start < bs[j].start
    decreases j - i
  {
    assert Meets(bs, j);
    if i + 1 < j {
      Apart(bs, i, j - 1);
    }
  }

  /** Allocation keeps the heap well formed once the mark covers the new block. */
  lemma TakenOk(bs: seq<Block>, he: nat, k: nat, n: nat, he': nat)
    requires HeapOk(bs, he) && k < |bs| && Fits(bs[k], n) && 0 < n && OnPage(n) && !LastOne(bs, k, n)
    requires he <= he' <= HEAP_END && bs[k].start + n <= he'
    ensures HeapOk(Taken(bs, k, n), he')
  {
    if bs[k].size == n { WholeTakenOk(bs, he, k, he'); } else { SplitOk(bs, he, k, n, he'); }
  }

  lemma WholeTakenOk(bs: seq<Block>, he: nat, k: nat, he': nat)
    requires HeapOk(bs, he) && k < |bs| && Fits(bs[k], bs[k].size) && !LastOne(bs, k, bs[k].size)
    requires he <= he' <= HEAP_END && End(bs[k]) <= he'
    ensures HeapOk(Taken(bs, k, bs[k].size), he')
  {
    hide OnPage;
    var r := Taken(bs, k, bs[k].size);
    var i :| 0 <= i < |bs| && i != k && !bs[i].used;
    assert !r[i].used;
    forall i | 0 < i < |r| ensures Meets(r, i) && Guarded(r, i) {
      assert Meets(bs, i) && Guarded(bs, i);
    }
  }

  lemma SplitOk(bs: seq<Block>, he: nat, k: nat, n: nat, he': nat)
    requires HeapOk(bs, he) && k < |bs| && Fits(bs[k], n) && 0 < n && OnPage(n) && bs[k].size != n
    requires he <= he' <= HEAP_END && bs[k].start + n <= he'
    ensures HeapOk(Taken(bs, k, n), he')
  {
    hide OnPage, Tiles, Coalesced, Taken;
    SplitBlocks(bs, k, n);
    assert !Taken(bs, k, n)[k + 1].used;
    SplitTiles(bs, k, n);
    SplitCoalesced(bs, k, n);
  }

  lemma SplitTiles(bs: seq<Block>, k: nat, n: nat)
    requires Tiles(bs) && k < |bs| && Fits(bs[k], n) && 0 < n && OnPage(n) && bs[k].size != n
    ensures Tiles(Taken(bs, k, n))
  {
    hide OnPage, Taken;
    SplitBlocks(bs, k, n);
    OnPageSum(bs[k].start, n);
    var r := Taken(bs, k, n);
    forall i | 0 < i < |r| ensures Meets(r, i) {
      if i <= k { assert Meets(bs, i); }
      if i >= k + 2 { assert Meets(bs, i - 1); }
    }
  }

  lemma SplitCoalesced(bs: seq<Block>, k: nat, n: nat)
    requires Coalesced(bs) && k < |bs| && Fits(bs[k], n) && bs[k].size != n
    ensures Coalesced(Taken(bs, k, n))
  {
    hide Taken;
    SplitBlocks(bs, k, n);
    var r := Taken(bs, k, n);
    forall i | 0 < i < |r| ensures Guarded(r, i) {
      if i < k { assert Guarded(bs, i); }
      if i >= k + 2 { assert Guarded(bs, i - 1); }
    }
  }

  lemma TakenAt(bs: seq<Block>, k: nat, n: nat)
    requires k < |bs| && Fits(bs[k], n)
    ensures k < |Taken(bs, k, n)| && Taken(bs, k, n)[k] == Block(bs[k].start, n, true)
  {
  }

  lemma SplitBlocks(bs: seq<Block>, k: nat, n: nat)
    requires k < |bs| && Fits(bs[k], n) && bs[k].size != n
    ensures var r := Taken(bs, k, n);
            && |r| == |bs| + 1 && r[k] == Block(bs[k].start, n, true)
            && r[k + 1] == Block(bs[k].start + n, bs[k].size - n, false)
            && (forall i :: 0 <= i < k ==> r[i] == bs[i])
            && (forall i :: k + 2 <= i < |r| ==> r[i] == bs[i - 1])
  {
  }

  lemma JoinedBlocks(bs: seq<Block>, k: nat)
    requires k < |bs|
    ensures var r, lo, hi := GivenBack(bs, k), Low(bs, k), High(bs, k);
            && |r| == |bs| + 1 - (hi - lo)
            && r[lo] == Block(bs[lo].start, Joined(bs, k), false)
            && (forall i :: 0 <= i < lo ==> r[i] == bs[i])
            && (forall i :: lo < i < |r| ==> r[i] == bs[i + (hi - lo) - 1])
  {
  }

  /** Freeing keeps the heap well formed. */
  lemma GivenBackOk(bs: seq<Block>, he: nat, k: nat)
    requires HeapOk(bs, he) && k < |bs| && bs[k].used
    ensures HeapOk(GivenBack(bs, k), he)
  {
    hide OnPage, Tiles, Coalesced, GivenBack;
    JoinedBlocks(bs, k);
    assert !GivenBack(bs, k)[Low(bs, k)].used;
    JoinedTiles(bs, k);
    JoinedCoalesced(bs, k);
  }

  lemma JoinedTiles(bs: seq<Block>, k: nat)
    requires Tiles(bs) && k < |bs|
    ensures Tiles(GivenBack(bs, k))
  {
    hide OnPage, GivenBack;
    var r, lo, hi := GivenBack(bs, k), Low(bs, k), High(bs, k);
    JoinedBlocks(bs, k);
    JoinedEnd(bs, k);
    forall i | 0 < i < |r| ensures Meets(r, i) {
      if i <= lo { assert Meets(bs, i); }
      if i > lo { assert Meets(bs, i + (hi - lo) - 1); }
    }
  }

  lemma JoinedCoalesced(bs: seq<Block>, k: nat)
    requires Coalesced(bs) && k < |bs| && bs[k].used
    ensures Coalesced(GivenBack(bs, k))
  {
    hide GivenBack, Joined;
    var r, lo, hi := GivenBack(bs, k), Low(bs, k), High(bs, k);
    JoinedBlocks(bs, k);
    forall i | 0 < i < |r| ensures Guarded(r, i) {
      if i <= lo { assert Guarded(bs, i); }
      if i > lo { assert Guarded(bs, i + (hi - lo) - 1); }
    }
  }

  lemma JoinedEnd(bs: seq<Block>, k: nat)
    requires Tiles(bs) && k < |bs|
    ensures bs[Low(bs, k)].start + Joined(bs, k) == End(bs[High(bs, k) - 1])
  {
    if Low(bs, k) < k { assert Meets(bs, k); }
    if High(bs, k) > k + 1 { assert Meets(bs, k + 1); }
  }

  /** A request whose rounded size wrapped to 0 would put an empty block on the list. */
  lemma WrappedRequestBreaksTiling(bs: seq<Block>, k: nat, size: nat)
    requires Tiles(bs) && k < |bs| && !bs[k].used && size < WORD32
    ensures size > 0xffff_f000 ==> !Tiles(Taken(bs, k, Aligned(size)))
  {
    AlignedHolds(size);
    if size > 0xffff_f000 {
      TakenAt(bs, k, 0);
    }
  }

  /** Freeing what was just allocated gives the old heap back. */
  lemma GiveBackUndoesTake(bs: seq<Block>, he: nat, k: nat, n: nat)
    requires HeapOk(bs, he) && k < |bs| && Fits(bs[k], n)
    ensures GivenBack(Taken(bs, k, n), k) == bs
  {
    hide Tiles, Below;
    if k > 0 { assert Guarded(bs, k); }
    if k + 1 < |bs| { assert Guarded(bs, k + 1); }
    if bs[k].size == n {
      assert GivenBack(Taken(bs, k, n), k) == bs;
    } else {
      SplitThenJoin(bs, k, n);
    }
  }

  lemma SplitThenJoin(bs: seq<Block>, k: nat, n: nat)
    requires k < |bs| && Fits(bs[k], n) && bs[k].size != n && (k > 0 ==> bs[k - 1].used)
    ensures GivenBack(Taken(bs, k, n), k) == bs
  {
    hide Taken, GivenBack;
    SplitBlocks(bs, k, n);
    JoinedBlocks(Taken(bs, k, n), k);
    assert GivenBack(Taken(bs, k, n), k)[k] == bs[k];
  }

  /** Two live blocks share no byte, and a live block is found by its start address. */
  lemma LiveBlocksDisjoint(bs: seq<Block>, he: nat, i: nat, j: nat)
    requires HeapOk(bs, he) && i < |bs| && j < |bs| && i != j
    ensures End(bs[i]) <= bs[j].start || End(bs[j]) <= bs[i].start
    ensures bs[i].start != bs[j].start
  {
    if i < j { Apart(bs, i, j); } else { Apart(bs, j, i); }
  }

  /** Allocation adds exactly one used block, and it is new. */
  lemma TakenUsed(bs: seq<Block>, he: nat, k: nat, n: nat)
    requires HeapOk(bs, he) && k < |bs| && Fits(bs[k], n)
    ensures forall b: Block :: b.used ==> (b in Taken(bs, k, n) <==> b in bs || b == Block(bs[k].start, n, true))
    ensures Block(bs[k].start, n, true) !in bs
  {
    hide Tiles, Coalesced, Below, SomeFree;
    assert bs == bs[..k] + [bs[k]] + bs[k + 1..];
    assert bs[k := bs[k].(used := true)] == bs[..k] + [bs[k].(used := true)] + bs[k + 1..];
    forall i | 0 <= i < |bs| ensures bs[i] != Block(bs[k].start, n, true) {
      if i != k { LiveBlocksDisjoint(bs, he, i, k); }
    }
  }

  /** Freeing removes exactly one used block. */
  lemma GivenBackUsed(bs: seq<Block>, he: nat, k: nat)
    requires HeapOk(bs, he) && k < |bs| && bs[k].used
    ensures forall b: Block :: b.used ==> (b in GivenBack(bs, k) <==> b in bs && b != bs[k])
  {
    hide Tiles, Coalesced, Below, SomeFree;
    var lo, hi := Low(bs, k), High(bs, k);
    assert bs == bs[..lo] + bs[lo..hi] + bs[hi..];
    assert forall i :: lo <= i < hi && i != k ==> !bs[i].used;
    assert forall b :: b in bs[lo..hi] && b.used ==> b == bs[k];
    forall i | 0 <= i < |bs| && i != k ensures bs[i] != bs[k] { LiveBlocksDisjoint(bs, he, i, k); }
    assert bs[k] !in bs[..lo] && bs[k] !in bs[hi..];
  }
}
