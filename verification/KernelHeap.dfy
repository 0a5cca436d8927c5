/**
 The kernel heap of src/mm/heap.c: nodes on a doubly linked list in address order, the unused ones
 also on a doubly linked free list, and a mark `he` up to which the window has been mapped.

 Each field of HEAP is a map from node addresses to values. The address of a node obtained from the
 slab allocator is a parameter; mapping a page at an address appends it to `mapped`. `halt()` is
 modelled by returning `None` or false.
 */
module KernelHeap {
  import opened Common
  import opened LinkedList
  import opened HeapBlocks

  predicate Has<T>(m: map<nat, T>, ns: seq<nat>) {
    forall i :: 0 <= i < |ns| ==> ns[i] in m
  }

  function View(start: map<nat, nat>, size: map<nat, nat>, used: map<nat, bool>, ns: seq<nat>): (bs: seq<Block>)
    requires Has(start, ns) && Has(size, ns) && Has(used, ns)
    ensures |bs| == |ns|
    ensures forall i :: 0 <= i < |ns| ==> bs[i] == Block(start[ns[i]], size[ns[i]], used[ns[i]])
  {
    seq(|ns|, i requires 0 <= i < |ns| => Block(start[ns[i]], size[ns[i]], used[ns[i]]))
  }

  /** The unused nodes of ns, in list order. */
  function Unused(ns: seq<nat>, used: map<nat, bool>): (fs: seq<nat>)
    requires Has(used, ns)
    ensures forall i :: 0 <= i < |fs| ==> fs[i] in ns && fs[i] in used && !used[fs[i]]
  {
    if ns == [] then []
    else Unused(ns[..|ns| - 1], used) + if used[ns[|ns| - 1]] then [] else [ns[|ns| - 1]]
  }

  lemma {:induction false} UnusedConcat(a: seq<nat>, b: seq<nat>, used: map<nat, bool>)
    requires Has(used, a) && Has(used, b)
    ensures Has(used, a + b) && Unused(a + b, used) == Unused(a, used) + Unused(b, used)
  {
    if b == [] {
      assert a + b == a;
    } else {
      var b' := b[..|b| - 1];
      UnusedConcat(a, b', used);
      assert (a + b)[..|a + b| - 1] == a + b';
    }
  }

  lemma {:induction false} UnusedFrame(ns: seq<nat>, used: map<nat, bool>, used': map<nat, bool>)
    requires Has(used, ns) && Has(used', ns) && forall i :: 0 <= i < |ns| ==> used[ns[i]] == used'[ns[i]]
    ensures Unused(ns, used) == Unused(ns, used')
  {
    if ns != [] {
      UnusedFrame(ns[..|ns| - 1], used, used');
    }
  }

  /** The free list before, at and after node k. */
  lemma UnusedSplit(ns: seq<nat>, used: map<nat, bool>, k: nat)
    requires Has(used, ns) && k < |ns|
    ensures Unused(ns,
                   used) == Unused(ns[..k], used) + (if used[ns[k]] then [] else [ns[k]]) + Unused(ns[k + 1..], used)
  {
    hide Unused;
    UnusedConcat(ns[..k + 1], ns[k + 1..], used);
    assert ns[..k + 1] + ns[k + 1..] == ns;
    UnusedLast(ns[..k + 1], used);
    assert ns[..k + 1][..k] == ns[..k];
  }

  lemma NothingUnused(used: map<nat, bool>)
    ensures Unused([], used) == []
  {
  }

  lemma UnusedLast(ns: seq<nat>, used: map<nat, bool>)
    requires Has(used, ns) && ns != []
    ensures Unused(ns, used) == Unused(ns[..|ns| - 1], used) + if used[ns[|ns| - 1]] then [] else [ns[|ns| - 1]]
  {
  }

  /** Every place of the free list is an unused node. */
  lemma {:induction false} UnusedAt(ns: seq<nat>, used: map<nat, bool>, j: nat) returns (k: nat)
    requires Has(used, ns) && j < |Unused(ns, used)|
    ensures k < |ns| && !used[ns[k]] && ns[k] == Unused(ns, used)[j] && |Unused(ns[..k], used)| == j
  {
    var ns' := ns[..|ns| - 1];
    if j < |Unused(ns', used)| {
      k := UnusedAt(ns', used, j);
      assert ns'[..k] == ns[..k];
    } else {
      k := |ns| - 1;
    }
  }

  lemma ViewFits(start: map<nat, nat>, size: map<nat, nat>, used: map<nat, bool>, ns: seq<nat>, k: nat, n: nat)
    requires Has(start, ns) && Has(size, ns) && Has(used, ns) && k < |ns|
    ensures Fits(View(start, size, used, ns)[k], n) <==> !used[ns[k]] && size[ns[k]] >= n
  {
  }

  lemma ViewSplit(start: map<nat, nat>, size: map<nat, nat>, used: map<nat, bool>, ns: seq<nat>, k: nat, n: nat, p: nat)
    requires Has(start, ns) && Has(size, ns) && Has(used, ns) && Distinct(ns) && p !in ns
    requires k < |ns| && Fits(View(start, size, used, ns)[k], n) && n < size[ns[k]]
    ensures var h, ns' := ns[k], Inserted(ns, k, p);
            var start', size', used' := start[h := start[h] + n][p := start[h]], size[h := size[h] - n][p := n], used[p := true];
            && Has(start', ns') && Has(size', ns') && Has(used', ns')
            && View(start', size', used', ns') == Taken(View(start, size, used, ns), k, n)
  {
    hide Taken, Inserted, View;
    SplitBlocks(View(start, size, used, ns), k, n);
  }

  lemma UnusedInserted(ns: seq<nat>, used: map<nat, bool>, k: nat, p: nat)
    requires Has(used, ns) && p !in ns && k <= |ns|
    ensures Has(used[p := true], Inserted(ns, k, p)) && Unused(Inserted(ns, k, p), used[p := true]) == Unused(ns, used)
  {
    hide Unused, Inserted;
    var ns', used' := Inserted(ns, k, p), used[p := true];
    UnusedSplit(ns', used', k);
    assert ns'[..k] == ns[..k] && ns'[k + 1..] == ns[k..] && ns[..k] + ns[k..] == ns;
    UnusedConcat(ns[..k], ns[k..], used);
    UnusedFrame(ns[..k], used, used');
    UnusedFrame(ns[k..], used, used');
  }

  /** The free list has one entry exactly when all other nodes are used. */
  lemma SoleFree(start: map<nat, nat>, size: map<nat, nat>, used: map<nat, bool>, ns: seq<nat>, k: nat)
    requires Has(start, ns) && Has(size, ns) && Has(used, ns) && k < |ns| && !used[ns[k]]
    ensures |Unused(ns, used)| == 1 <==> LastOne(View(start, size, used, ns), k, size[ns[k]])
  {
    hide View, Unused;
    UnusedSplit(ns, used, k);
    NoneUnused(ns[..k], used);
    NoneUnused(ns[k + 1..], used);
    var bs := View(start, size, used, ns);
    assert forall i :: 0 <= i < k ==> ns[..k][i] == ns[i];
    assert forall i :: k < i < |ns| ==> ns[k + 1..][i - k - 1] == ns[i];
  }

  lemma {:induction false} NoneUnused(ns: seq<nat>, used: map<nat, bool>)
    requires Has(used, ns)
    ensures Unused(ns, used) == [] <==> forall i :: 0 <= i < |ns| ==> used[ns[i]]
  {
    hide Unused;
    if ns == [] {
      NothingUnused(used);
    } else {
      var ns' := ns[..|ns| - 1];
      NoneUnused(ns', used);
      UnusedLast(ns, used);
      assert forall i :: 0 <= i < |ns| ==> ns[i] == if i < |ns'| then ns'[i] else ns[|ns| - 1];
    }
  }

  lemma ViewWhole(start: map<nat, nat>, size: map<nat, nat>, used: map<nat, bool>, ns: seq<nat>, k: nat)
    requires Has(start, ns) && Has(size, ns) && Has(used, ns) && Distinct(ns)
    requires k < |ns| && !used[ns[k]]
    ensures var used' := used[ns[k] := true];
            && Has(used', ns) && View(start, size, used', ns) == Taken(View(start, size, used, ns), k, size[ns[k]])
            && |Unused(ns[..k], used)| < |Unused(ns, used)| && Unused(ns, used)[|Unused(ns[..k], used)|] == ns[k]
            && Unused(ns, used') == Without(Unused(ns, used), |Unused(ns[..k], used)|, |Unused(ns[..k], used)| + 1)
  {
    hide View, Unused;
    var used' := used[ns[k] := true];
    UnusedSplit(ns, used, k);
    UnusedSplit(ns, used', k);
    UnusedFrame(ns[..k], used, used');
    UnusedFrame(ns[k + 1..], used, used');
  }

  /** The nodes `freed` have left the list ns, which is now ns'. */
  ghost predicate Dropped(ns: seq<nat>, ns': seq<nat>, freed: seq<nat>) {
    && (forall q :: q in ns <==> q in ns' || q in freed)
    && (forall q :: !(q in ns' && q in freed))
    && Distinct(freed)
  }

  lemma DroppedTwo(ns: seq<nat>, k: nat)
    requires Distinct(ns) && k + 2 <= |ns|
    ensures Dropped(ns, Without(ns, k, k + 2), [ns[k + 1], ns[k]])
  {
    WithoutMembers(ns, k, k + 2);
    assert ns[k..k + 2] == [ns[k], ns[k + 1]];
  }

  lemma DroppedOne(ns: seq<nat>, k: nat)
    requires Distinct(ns) && k < |ns|
    ensures Dropped(ns, Without(ns, k, k + 1), [ns[k]])
  {
    WithoutMembers(ns, k, k + 1);
    assert ns[k..k + 1] == [ns[k]];
  }

  /** The pages below the mark, each once, in order. */
  predicate PagesMapped(mapped: seq<nat>, he: nat) {
    && he == HEAP_START + PAGE * |mapped|
    && forall i :: 0 <= i < |mapped| ==> mapped[i] == HEAP_START + PAGE * i
  }

  /** A list whose place lo stands for the joined block k, and whose other places are unchanged. */
  lemma ViewJoined(start: map<nat, nat>, size: map<nat, nat>, used: map<nat, bool>, ns: seq<nat>, k: nat,
                   start': map<nat, nat>, size': map<nat, nat>, used': map<nat, bool>, ns': seq<nat>)
    requires Has(start, ns) && Has(size, ns) && Has(used, ns) && Has(start', ns') && Has(size', ns') && Has(used', ns')
    requires k < |ns|
    requires var bs := View(start, size, used, ns);
             var lo, d := Low(bs, k), High(bs, k) - Low(bs, k) - 1;
             && |ns'| == |ns| - d
             && start'[ns'[lo]] == start[ns[lo]] && size'[ns'[lo]] == Joined(bs, k) && !used'[ns'[lo]]
             && (forall i :: 0 <= i < |ns'| && i != lo ==> Same(start, size, used, start', size', used', ns'[i]))
             && (forall i :: 0 <= i < lo ==> ns'[i] == ns[i])
             && (forall i :: lo < i < |ns'| ==> ns'[i] == ns[i + d])
    ensures View(start', size', used', ns') == GivenBack(View(start, size, used, ns), k)
  {
    hide View, GivenBack, Joined, Low, High;
    JoinedBlocks(View(start, size, used, ns), k);
  }

  predicate Same(start: map<nat, nat>, size: map<nat, nat>, used: map<nat, bool>,
                 start': map<nat, nat>, size': map<nat, nat>, used': map<nat, bool>, p: nat)
  {
    && p in start && p in size && p in used && p in start' && p in size' && p in used'
    && start[p] == start'[p] && size[p] == size'[p] && used[p] == used'[p]
  }

  lemma ViewBoth(start: map<nat, nat>, size: map<nat, nat>, used: map<nat, bool>, ns: seq<nat>, k: nat)
    requires Has(start, ns) && Has(size, ns) && Has(used, ns) && Distinct(ns)
    requires 0 < k && k + 1 < |ns| && used[ns[k]] && !used[ns[k - 1]] && !used[ns[k + 1]]
    ensures var l, ns', used' := ns[k - 1], Without(ns, k, k + 2), used[ns[k] := false];
            var size' := size[l := size[l] + (size[ns[k]] + size[ns[k + 1]])];
            && Has(start, ns') && Has(size', ns') && Has(used', ns')
            && View(start, size', used', ns') == GivenBack(View(start, size, used, ns), k)
  {
    hide View, GivenBack, Without;
    var l, ns', used' := ns[k - 1], Without(ns, k, k + 2), used[ns[k] := false];
    var size' := size[l := size[l] + (size[ns[k]] + size[ns[k + 1]])];
    ViewJoined(start, size, used, ns, k, start, size', used', ns');
  }

  /** Around a used node between two unused ones, the free list holds these two next to each other. */
  lemma UnusedAround(ns: seq<nat>, used: map<nat, bool>, k: nat)
    requires Has(used, ns) && 0 < k && k + 1 < |ns| && used[ns[k]] && !used[ns[k - 1]] && !used[ns[k + 1]]
    ensures Unused(ns, used) == Unused(ns[..k - 1], used) + [ns[k - 1], ns[k + 1]] + Unused(ns[k + 2..], used)
    ensures Unused(ns[..k], used) == Unused(ns[..k - 1], used) + [ns[k - 1]]
  {
    hide Unused;
    UnusedSplit(ns, used, k);
    UnusedLast(ns[..k], used);
    var post := ns[k + 1..];
    UnusedSplit(post, used, 0);
    assert post[..0] == [] && post[1..] == ns[k + 2..] && ns[..k][..k - 1] == ns[..k - 1];
    NothingUnused(used);
  }

  lemma UnusedBoth(ns: seq<nat>, used: map<nat, bool>, k: nat)
    requires Has(used, ns) && 0 < k && k + 1 < |ns| && used[ns[k]] && !used[ns[k - 1]] && !used[ns[k + 1]]
             && Distinct(ns)
    ensures var ns', used', j := Without(ns, k, k + 2), used[ns[k] := false], |Unused(ns[..k], used)|;
            && Has(used', ns') && 0 < j < |Unused(ns, used)|
            && Unused(ns, used)[j - 1] == ns[k - 1] && Unused(ns, used)[j] == ns[k + 1]
            && Unused(ns', used') == Without(Unused(ns, used), j, j + 1)
  {
    hide Unused;
    UnusedAround(ns, used, k);
    UnusedConcat(ns[..k], ns[k + 2..], used);
    UnusedFrame(Without(ns, k, k + 2), used, used[ns[k] := false]);
  }

  /** Merge a used node with one unused neighbour: the free list keeps its nodes. */
  lemma UnusedOne(ns: seq<nat>, used: map<nat, bool>, k: nat)
    requires Has(used, ns) && k < |ns| && used[ns[k]] && Distinct(ns)
    ensures var ns', used' := Without(ns, k, k + 1), used[ns[k] := false];
            Has(used', ns') && Unused(ns', used') == Unused(ns, used)
  {
    hide Unused;
    UnusedSplit(ns, used, k);
    UnusedConcat(ns[..k], ns[k + 1..], used);
    UnusedFrame(Without(ns, k, k + 1), used, used[ns[k] := false]);
  }

  lemma ViewLeft(start: map<nat, nat>, size: map<nat, nat>, used: map<nat, bool>, ns: seq<nat>, k: nat)
    requires Has(start, ns) && Has(size, ns) && Has(used, ns) && Distinct(ns)
    requires 0 < k < |ns| && used[ns[k]] && !used[ns[k - 1]] && (k + 1 < |ns| ==> used[ns[k + 1]])
    ensures var l, ns', used' := ns[k - 1], Without(ns, k, k + 1), used[ns[k] := false];
            var size' := size[l := size[l] + size[ns[k]]];
            && Has(start, ns') && Has(size', ns') && Has(used', ns')
            && View(start, size', used', ns') == GivenBack(View(start, size, used, ns), k)
  {
    hide View, GivenBack, Without;
    var l, ns', used' := ns[k - 1], Without(ns, k, k + 1), used[ns[k] := false];
    var size' := size[l := size[l] + size[ns[k]]];
    ViewJoined(start, size, used, ns, k, start, size', used', ns');
  }

  lemma ViewRight(start: map<nat, nat>, size: map<nat, nat>, used: map<nat, bool>, ns: seq<nat>, k: nat)
    requires Has(start, ns) && Has(size, ns) && Has(used, ns) && Distinct(ns) && Tiles(View(start, size, used, ns))
    requires k + 1 < |ns| && used[ns[k]] && !used[ns[k + 1]] && (k > 0 ==> used[ns[k - 1]])
    ensures var h, r, ns', used' := ns[k], ns[k + 1], Without(ns, k, k + 1), used[ns[k] := false];
            var size' := size[r := size[r] + size[h]];
            && start[r] >= size[h]
            && var start' := start[r := start[r] - size[h]];
            && Has(start', ns') && Has(size', ns') && Has(used', ns')
            && View(start', size', used', ns') == GivenBack(View(start, size, used, ns), k)
  {
    hide View, GivenBack, Without;
    var h, r, ns', used' := ns[k], ns[k + 1], Without(ns, k, k + 1), used[ns[k] := false];
    assert Meets(View(start, size, used, ns), k + 1);
    var size', start' := size[r := size[r] + size[h]], start[r := start[r] - size[h]];
    ViewJoined(start, size, used, ns, k, start', size', used', ns');
  }

  lemma ViewAlone(start: map<nat, nat>, size: map<nat, nat>, used: map<nat, bool>, ns: seq<nat>, k: nat)
    requires Has(start, ns) && Has(size, ns) && Has(used, ns) && Distinct(ns) && k < |ns|
    requires (k > 0 ==> used[ns[k - 1]]) && (k + 1 < |ns| ==> used[ns[k + 1]])
    ensures View(start, size, used[ns[k] := false], ns) == GivenBack(View(start, size, used, ns), k)
  {
    hide View, GivenBack;
    ViewJoined(start, size, used, ns, k, start, size, used[ns[k] := false], ns);
  }

  lemma UnusedAlone(ns: seq<nat>, used: map<nat, bool>, k: nat)
    requires Has(used, ns) && k < |ns| && used[ns[k]] && Distinct(ns)
    ensures |Unused(ns[..k], used)| <= |Unused(ns, used)|
    ensures Unused(ns, used[ns[k] := false]) == Inserted(Unused(ns, used), |Unused(ns[..k], used)|, ns[k])
  {
    hide Unused;
    var used' := used[ns[k] := false];
    UnusedSplit(ns, used, k);
    UnusedSplit(ns, used', k);
    UnusedFrame(ns[..k], used, used');
    UnusedFrame(ns[k + 1..], used, used');
  }

  /** The free list's entries before the place of node k start below it, the others above. */
  lemma FreeOrder(start: map<nat, nat>, size: map<nat, nat>, used: map<nat, bool>, ns: seq<nat>, k: nat, i: nat)
    requires Has(start, ns) && Has(size, ns) && Has(used, ns) && Tiles(View(start, size, used, ns))
    requires k < |ns| && used[ns[k]] && i < |Unused(ns, used)|
    ensures Unused(ns, used)[i] in start
    ensures if i < |Unused(ns[..k], used)| then start[Unused(ns, used)[i]] < start[ns[k]] else start[Unused(ns, used)[i]] > start[ns[k]]
  {
    hide View, Unused, Tiles;
    UnusedSplit(ns, used, k);
    var m := UnusedAt(ns, used, i);
    var bs := View(start, size, used, ns);
    if m < k {
      Apart(bs, m, k);
      UnusedSplit(ns[..k], used, m);
      assert ns[..k][..m] == ns[..m];
    } else {
      assert m != k;
      Apart(bs, k, m);
      UnusedSplit(ns[..m], used, k);
      assert ns[..m][..k] == ns[..k];
    }
  }

  lemma HeapParts(bs: seq<Block>, he: nat)
    requires HeapOk(bs, he)
    ensures Tiles(bs) && SomeFree(bs)
  {
  }

  lemma SomeUnused(start: map<nat, nat>, size: map<nat, nat>, used: map<nat, bool>, ns: seq<nat>)
    requires Has(start, ns) && Has(size, ns) && Has(used, ns) && SomeFree(View(start, size, used, ns))
    ensures Unused(ns, used) != []
  {
    hide View, Unused;
    var bs := View(start, size, used, ns);
    var i :| 0 <= i < |bs| && !bs[i].used;
    UnusedHas(ns, used, i);
  }

  lemma PageStep(addr: nat, end: nat, m: nat)
    requires addr < end && OnPage(end) && addr == HEAP_START + PAGE * m
    ensures addr + PAGE <= end
  {
  }

  /** The first fitting entry of the free list is the first fitting block of the heap. */
  lemma FirstInList(start: map<nat, nat>, size: map<nat, nat>, used: map<nat, bool>, ns: seq<nat>, k: nat, n: nat)
    requires Has(start, ns) && Has(size, ns) && Has(used, ns) && k < |ns| && !used[ns[k]] && size[ns[k]] >= n
    requires |Unused(ns[..k], used)| <= |Unused(ns, used)|
    requires forall i :: 0 <= i < |Unused(ns[..k], used)| ==> Unused(ns, used)[i] in size && size[Unused(ns, used)[i]] < n
    ensures FirstFit(View(start, size, used, ns), k, n)
  {
    hide View, Unused;
    UnusedSplit(ns, used, k);
    forall i | 0 <= i < k ensures !Fits(View(start, size, used, ns)[i], n) {
      if !used[ns[i]] {
        UnusedHas(ns[..k], used, i);
        var j := |Unused(ns[..k][..i], used)|;
        assert Unused(ns, used)[j] == ns[i];
      }
    }
  }

  lemma NoneInList(start: map<nat, nat>, size: map<nat, nat>, used: map<nat, bool>, ns: seq<nat>, n: nat)
    requires Has(start, ns) && Has(size, ns) && Has(used, ns)
    requires forall i :: 0 <= i < |Unused(ns, used)| ==> Unused(ns, used)[i] in size && size[Unused(ns, used)[i]] < n
    ensures NoneFits(View(start, size, used, ns), n)
  {
    hide View, Unused;
    forall i | 0 <= i < |ns| ensures !Fits(View(start, size, used, ns)[i], n) {
      if !used[ns[i]] {
        UnusedHas(ns, used, i);
      }
    }
  }

  /** Every unused node has its place on the free list. */
  lemma UnusedHas(ns: seq<nat>, used: map<nat, bool>, k: nat)
    requires Has(used, ns) && k < |ns| && !used[ns[k]]
    ensures var j := |Unused(ns[..k], used)|; j < |Unused(ns, used)| && Unused(ns, used)[j] == ns[k]
  {
    UnusedSplit(ns, used, k);
  }

  lemma StartOnPage(bs: seq<Block>, he: nat, k: nat, n: nat)
    requires HeapOk(bs, he) && k < |bs| && OnPage(n) && n <= bs[k].size
    ensures OnPage(bs[k].start + n) && bs[k].start + n <= HEAP_END && he <= HEAP_END
  {
    OnPageSum(bs[k].start, n);
    if k < |bs| - 1 { Apart(bs, k, |bs| - 1); }
  }

  lemma NotLast(bs: seq<Block>, k: nat, n: nat)
    requires k < |bs| && bs[k].size != n
    ensures !LastOne(bs, k, n)
  {
  }

  class Heap {
    var shp: nat
    var nfhp: nat
    var he: nat
    var next: map<nat, nat>
    var last: map<nat, nat>
    var nextf: map<nat, nat>
    var lastf: map<nat, nat>
    var start: map<nat, nat>
    var size: map<nat, nat>
    var used: map<nat, bool>
    var mapped: seq<nat>
    ghost var nodes: seq<nat>

    ghost predicate Lists()
      reads this
    {
      && Has(start, nodes) && Has(size, nodes) && Has(used, nodes)
      && ListOk(next, last, nodes, shp)
      && ListOk(nextf, lastf, Unused(nodes, used), nfhp)
    }

    ghost function Blocks(): (bs: seq<Block>)
      requires Lists()
      reads this
    {
      View(start, size, used, nodes)
    }

    ghost predicate Valid()
      reads this
    {
      Lists() && HeapOk(Blocks(), he) && PagesMapped(mapped, he)
    }

    /** init_heap, with the node at address p. */
    constructor (p: nat)
      requires p != 0
      ensures Valid() && nodes == [p]
      ensures Blocks() == [Block(HEAP_START, HEAP_END - HEAP_START, false)] && mapped == [] && he == HEAP_START
    {
      shp, nfhp, he, mapped := p, p, HEAP_START, [];
      next, last, nextf, lastf := map[p := 0], map[p := 0], map[p := 0], map[p := 0];
      start, size, used := map[p := HEAP_START], map[p := HEAP_END - HEAP_START], map[p := false];
      nodes := [p];
      new;
      UnusedLast([p], used);
      assert [p][..0] == [];
      assert !Blocks()[0].used;
    }

    /** Link the new node p into the address list, before node k. */
    method LinkBefore(heap: nat, p: nat, ghost k: nat)
      requires ListOk(next, last, nodes, shp) && k < |nodes| && nodes[k] == heap && p != 0 && p !in nodes
      modifies this`shp, this`nodes, this`next, this`last
      ensures ListOk(next, last, nodes, shp) && nodes == Inserted(old(nodes), k, p)
    {
      hide ListOk, Inserted;
      Neighbours(next, last, nodes, shp, k);
      InsertOk(next, last, nodes, shp, k, p);
      next := next[p := heap];
      if last[heap] != 0 {
        next := next[last[heap] := p];
        last := last[p := last[heap]];
        last := last[heap := p];
      } else {
        last := last[heap := p];
        last := last[p := 0];
        shp := p;
      }
      assert next == Put(old(next), At(nodes, k - 1), p)[p := heap];
      assert last == Put(old(last), heap, p)[p := At(nodes, k - 1)];
      nodes := Inserted(nodes, k, p);
    }

    /** Cut n bytes off the low end of a larger free node: a new used node goes in front of it. */
    method Split(heap: nat, n: nat, p: nat, ghost k: nat)
      requires Lists() && k < |nodes| && nodes[k] == heap && Fits(Blocks()[k], n) && n < size[heap]
      requires p != 0 && p !in nodes
      modifies this`shp, this`nodes, this`next, this`last, this`nextf, this`lastf, this`start, this`size, this`used
      ensures Lists() && Blocks() == Taken(old(Blocks()), k, n)
      ensures nodes == Inserted(old(nodes), k, p)
    {
      hide View, Unused, Taken, ListOk, Inserted, Fits;
      ViewFits(start, size, used, nodes, k, n);
      OutsideOk(nextf, lastf, Unused(nodes, used), nfhp, p, 0);
      Spread(next, last, nodes, shp);
      ViewSplit(start, size, used, nodes, k, n, p);
      UnusedInserted(nodes, used, k, p);
      var ret := start[heap];
      size := size[heap := size[heap] - n];
      start := start[heap := start[heap] + n];
      used := used[p := true];
      size := size[p := n];
      start := start[p := ret];
      lastf, nextf := lastf[p := 0], nextf[p := 0];
      LinkBefore(heap, p, k);
    }

    /** Take a node off the free list; refused when it is the only one. */
    method UnlinkFree(heap: nat, ghost fs: seq<nat>, ghost j: nat) returns (ok: bool)
      requires ListOk(nextf, lastf, fs, nfhp) && j < |fs| && fs[j] == heap
      modifies this`nextf, this`lastf, this`nfhp
      ensures ok <==> |fs| > 1
      ensures ok ==> ListOk(nextf, lastf, Without(fs, j, j + 1), nfhp)
    {
      hide ListOk, Without;
      Neighbours(nextf, lastf, fs, nfhp, j);
      RemoveOk(nextf, lastf, fs, nfhp, j, j + 1);
      if lastf[heap] != 0 {
        nextf := nextf[lastf[heap] := nextf[heap]];
        if nextf[heap] != 0 {
          lastf := lastf[nextf[heap] := lastf[heap]];
        }
      } else {
        if nextf[heap] != 0 {
          lastf := lastf[nextf[heap] := 0];
          nfhp := nextf[heap];
        } else {
          return false;
        }
      }
      ok := true;
    }

    /** Take a whole free node; refused when it is the last free one. */
    method Whole(heap: nat, ghost k: nat) returns (ok: bool)
      requires Lists() && k < |nodes| && nodes[k] == heap && !used[heap]
      modifies this`nextf, this`lastf, this`nfhp, this`used
      ensures ok <==> !LastOne(old(Blocks()), k, size[heap])
      ensures ok ==> Lists() && Blocks() == Taken(old(Blocks()), k, size[heap])
    {
      hide View, Unused, Taken, ListOk, Without;
      Spread(next, last, nodes, shp);
      ViewWhole(start, size, used, nodes, k);
      ghost var fs := Unused(nodes, used);
      SoleFree(start, size, used, nodes, k);
      used := used[heap := true];
      ok := UnlinkFree(heap, fs, |Unused(nodes[..k], old(used))|);
    }

    /** Map the pages between the mark and end. */
    method MapUpTo(end: nat)
      requires PagesMapped(mapped, he) && OnPage(end)
      modifies this`mapped, this`he
      ensures he == (if end > old(he) then end else old(he)) && PagesMapped(mapped, he)
      ensures old(mapped) <= mapped
    {
      if end > he {
        var addr := he;
        while addr < end
          invariant PagesMapped(mapped, addr) && addr <= end && old(mapped) <= mapped
        {
          PageStep(addr, end, |mapped|);
          mapped := mapped + [addr];
          addr := addr + PAGE;
        }
        he := end;
      }
    }

    /** The first node of the free list with room for n bytes, or 0. */
    method FindFit(n: nat) returns (heap: nat, ghost k: int)
      requires Lists()
      ensures heap == 0 ==> NoneFits(Blocks(), n)
      ensures heap != 0 ==> FirstFit(Blocks(), k, n) && nodes[k] == heap
    {
      hide View, Unused, ListOk;
      ghost var fs := Unused(nodes, used);
      heap, k := nfhp, -1;
      ghost var j := 0;
      ListHead(nextf, lastf, fs, nfhp);
      while heap != 0
        invariant 0 <= j <= |fs| && heap == At(fs, j) && (heap == 0 <==> j == |fs|)
        invariant forall i :: 0 <= i < j ==> fs[i] in size && size[fs[i]] < n
        decreases |fs| - j
      {
        Neighbours(nextf, lastf, fs, nfhp, j);
        k := UnusedAt(nodes, used, j);
        if size[heap] >= n {
          FirstInList(start, size, used, nodes, k, n);
          return;
        }
        heap := nextf[heap];
        j := j + 1;
      }
      NoneInList(start, size, used, nodes, n);
    }

    /** heap_alloc: first fit in the free list. The node address p is used when the block is cut. */
    method Alloc(request: nat, p: nat) returns (r: Option<nat>, cut: bool, ghost k: int)
      requires Valid() && 0 < request <= 0xffff_f000 && p != 0 && p !in nodes
      modifies this
      ensures var bs, n := old(Blocks()), Aligned(request);
              && n >= request
              && (r.None? <==> NoneFits(bs, n) || (FirstFit(bs, k, n) && LastOne(bs, k, n)))
              && (r.Some? ==> Valid() && FirstFit(bs, k, n) && r.value == bs[k].start && Blocks() == Taken(bs, k, n))
      ensures r.Some? ==> he == (if r.value + Aligned(request) > old(he) then r.value + Aligned(request) else old(he))
      ensures r.Some? ==> (cut <==> old(Blocks())[k].size != Aligned(request))
      ensures r.Some? ==> forall q :: q in nodes <==> q in old(nodes) || (cut && q == p)
    {
      hide View, Unused, Taken, ListOk, HeapOk, Aligned, PagesMapped, OnPage, LastOne, NoneFits;
      AlignedHolds(request);
      ghost var bs, he0 := Blocks(), he;
      var n := Aligned(request);
      var heap;
      heap, k := FindFit(n);
      if heap == 0 { return None, false, k; }
      SomeFits(bs, k, n);
      StartOnPage(bs, he, k, n);
      var ret := start[heap];
      if size[heap] - n != 0 {
        NotLast(bs, k, n);
        InsertedMembers(nodes, k, p);
        Split(heap, n, p, k);
        cut := true;
      } else {
        var ok := Whole(heap, k);
        cut := false;
        if !ok { return None, false, k; }
      }
      MapUpTo(ret + n);
      TakenOk(bs, he0, k, n, he);
      r := Some(ret);
    }

    /** Link the node before k to the node after k + 1. */
    method SkipTwo(left: nat, right: nat, ghost k: nat)
      requires ListOk(next, last, nodes, shp) && 0 < k && k + 1 < |nodes| && nodes[k - 1] == left
               && nodes[k + 1] == right
      modifies this`nodes, this`next, this`last
      ensures ListOk(next, last, nodes, shp) && nodes == Without(old(nodes), k, k + 2)
    {
      hide ListOk, Without;
      Neighbours(next, last, nodes, shp, k - 1);
      Neighbours(next, last, nodes, shp, k + 1);
      RemoveOk(next, last, nodes, shp, k, k + 2);
      next := next[left := next[right]];
      if next[left] != 0 {
        last := last[next[left] := left];
      }
      nodes := Without(nodes, k, k + 2);
    }

    /** Link the free node before place j to the one after it. */
    method SkipFree(left: nat, right: nat, ghost fs: seq<nat>, ghost j: nat)
      requires ListOk(nextf, lastf, fs, nfhp) && 0 < j < |fs| && fs[j - 1] == left && fs[j] == right
      modifies this`nextf, this`lastf
      ensures ListOk(nextf, lastf, Without(fs, j, j + 1), nfhp)
    {
      hide ListOk, Without;
      Neighbours(nextf, lastf, fs, nfhp, j - 1);
      Neighbours(nextf, lastf, fs, nfhp, j);
      RemoveOk(nextf, lastf, fs, nfhp, j, j + 1);
      nextf := nextf[left := nextf[right]];
      if nextf[left] != 0 {
        lastf := lastf[nextf[left] := left];
      }
    }

    /** Merge node k with the free nodes on both sides. */
    method MergeBoth(heap: nat, ghost k: nat) returns (freed: seq<nat>)
      requires Lists() && 0 < k && k + 1 < |nodes| && nodes[k] == heap && used[heap]
      requires !used[nodes[k - 1]] && !used[nodes[k + 1]]
      modifies this`nodes, this`next, this`last, this`nextf, this`lastf, this`size, this`used
      ensures Lists() && Blocks() == GivenBack(old(Blocks()), k) && Dropped(old(nodes), nodes, freed)
    {
      hide View, Unused, ListOk, Without, GivenBack, Dropped;
      ghost var fs, j := Unused(nodes, used), |Unused(nodes[..k], used)|;
      Spread(next, last, nodes, shp);
      ViewBoth(start, size, used, nodes, k);
      UnusedBoth(nodes, used, k);
      Neighbours(next, last, nodes, shp, k);
      DroppedTwo(nodes, k);
      used := used[heap := false];
      var left, right := last[heap], next[heap];
      size := size[left := size[left] + (size[heap] + size[right])];
      SkipFree(left, right, fs, j);
      SkipTwo(left, right, k);
      freed := [right, heap];
    }

    /** Merge node k into the free node before it. */
    method MergeLeft(heap: nat, ghost k: nat) returns (freed: seq<nat>)
      requires Lists() && 0 < k < |nodes| && nodes[k] == heap && used[heap]
      requires !used[nodes[k - 1]] && (k + 1 < |nodes| ==> used[nodes[k + 1]])
      modifies this`nodes, this`next, this`last, this`size, this`used
      ensures Lists() && Blocks() == GivenBack(old(Blocks()), k) && Dropped(old(nodes), nodes, freed)
    {
      hide View, Unused, ListOk, Without, GivenBack, Dropped;
      Spread(next, last, nodes, shp);
      ViewLeft(start, size, used, nodes, k);
      UnusedOne(nodes, used, k);
      Neighbours(next, last, nodes, shp, k);
      RemoveOk(next, last, nodes, shp, k, k + 1);
      used := used[heap := false];
      var left := last[heap];
      size := size[left := size[left] + size[heap]];
      next := next[left := next[heap]];
      if next[left] != 0 {
        last := last[next[left] := left];
      }
      DroppedOne(nodes, k);
      nodes := Without(nodes, k, k + 1);
      freed := [heap];
    }

    /** Link the node before k, or the head of the list, to the node after k. */
    method SkipOne(heap: nat, right: nat, ghost k: nat)
      requires ListOk(next, last, nodes, shp) && k + 1 < |nodes| && nodes[k] == heap && nodes[k + 1] == right
      modifies this`nodes, this`next, this`last, this`shp
      ensures ListOk(next, last, nodes, shp) && nodes == Without(old(nodes), k, k + 1)
    {
      hide ListOk, Without;
      Neighbours(next, last, nodes, shp, k);
      Neighbours(next, last, nodes, shp, k + 1);
      RemoveOk(next, last, nodes, shp, k, k + 1);
      last := last[right := last[heap]];
      if last[right] != 0 {
        next := next[last[heap] := right];
      } else {
        shp := right;
      }
      nodes := Without(nodes, k, k + 1);
    }

    /** Merge node k into the free node after it. */
    method MergeRight(heap: nat, ghost k: nat) returns (freed: seq<nat>)
      requires Lists() && Tiles(Blocks()) && k + 1 < |nodes| && nodes[k] == heap && used[heap]
      requires !used[nodes[k + 1]] && (k > 0 ==> used[nodes[k - 1]])
      modifies this`nodes, this`next, this`last, this`size, this`start, this`used, this`shp
      ensures Lists() && Blocks() == GivenBack(old(Blocks()), k) && Dropped(old(nodes), nodes, freed)
    {
      hide View, Unused, ListOk, Without, GivenBack, Dropped, Tiles;
      Spread(next, last, nodes, shp);
      ViewRight(start, size, used, nodes, k);
      UnusedOne(nodes, used, k);
      Neighbours(next, last, nodes, shp, k);
      used := used[heap := false];
      var right := next[heap];
      size := size[right := size[right] + size[heap]];
      start := start[right := start[right] - size[heap]];
      DroppedOne(nodes, k);
      SkipOne(heap, right, k);
      freed := [heap];
    }

    /** Put node k back on the free list at its address. */
    method Relist(heap: nat, ghost k: nat)
      requires Lists() && Tiles(Blocks()) && k < |nodes| && nodes[k] == heap && used[heap] && nfhp != 0
      requires (k > 0 ==> used[nodes[k - 1]]) && (k + 1 < |nodes| ==> used[nodes[k + 1]])
      modifies this`nextf, this`lastf, this`used, this`nfhp
      ensures Lists() && Blocks() == GivenBack(old(Blocks()), k)
    {
      hide View, Unused, ListOk, Inserted, GivenBack, Tiles;
      Spread(next, last, nodes, shp);
      ViewAlone(start, size, used, nodes, k);
      UnusedAlone(nodes, used, k);
      ghost var fs, j := Unused(nodes, used), |Unused(nodes[..k], used)|;
      assert heap !in fs;
      var before, after := FindPlace(heap, k);
      used := used[heap := false];
      LinkFree(heap, before, after, fs, j);
    }

    /** Link a node into the free list between two others; 0 stands for an end of the list. */
    method LinkFree(heap: nat, before: nat, after: nat, ghost fs: seq<nat>, ghost j: nat)
      requires ListOk(nextf, lastf, fs, nfhp) && heap != 0 && heap !in fs && fs != [] && j <= |fs|
      requires before == At(fs, j - 1) && after == At(fs, j) && (before == 0 <==> j == 0) && (after == 0 <==> j == |fs|)
      modifies this`nextf, this`lastf, this`nfhp
      ensures ListOk(nextf, lastf, Inserted(fs, j, heap), nfhp)
    {
      hide ListOk, Inserted;
      InsertOk(nextf, lastf, fs, nfhp, j, heap);
      if before == 0 {
        lastf := lastf[after := heap];
        nextf := nextf[heap := after];
        lastf := lastf[heap := 0];
        nfhp := heap;
      } else if after != 0 {
        nextf := nextf[before := heap];
        lastf := lastf[after := heap];
        lastf := lastf[heap := before];
        nextf := nextf[heap := after];
      } else {
        nextf := nextf[before := heap];
        lastf := lastf[heap := before];
        nextf := nextf[heap := 0];
      }
    }

    /** The free nodes around node k, by walking the free list; 0 where there is none. */
    method FindPlace(heap: nat, ghost k: nat) returns (before: nat, after: nat)
      requires Lists() && Tiles(Blocks()) && k < |nodes| && nodes[k] == heap && used[heap] && nfhp != 0
      ensures before == At(Unused(nodes, used), |Unused(nodes[..k], used)| - 1)
      ensures after == At(Unused(nodes, used), |Unused(nodes[..k], used)|)
      ensures before != 0 || after != 0
      ensures before == 0 <==> |Unused(nodes[..k], used)| == 0
      ensures after == 0 <==> |Unused(nodes[..k], used)| == |Unused(nodes, used)|
    {
      hide View, Unused, ListOk, Tiles;
      ghost var fs, j := Unused(nodes, used), |Unused(nodes[..k], used)|;
      UnusedSplit(nodes, used, k);
      ListHead(nextf, lastf, fs, nfhp);
      var tem := nfhp;
      Neighbours(nextf, lastf, fs, nfhp, 0);
      FreeOrder(start, size, used, nodes, k, 0);
      before := tem;
      if start[tem] > start[heap] {
        return 0, tem;
      }
      ghost var i := 0;
      while tem != 0
        invariant 0 <= i <= |fs| && tem == At(fs, i) && (tem == 0 <==> i == |fs|) && i <= j
        invariant before == fs[if i == 0 then 0 else i - 1] && before != 0
        decreases |fs| - i
      {
        Neighbours(nextf, lastf, fs, nfhp, i);
        FreeOrder(start, size, used, nodes, k, i);
        FreeOrder(start, size, used, nodes, k, if i == 0 then 0 else i - 1);
        if start[before] < start[heap] && start[tem] > start[heap] {
          return before, tem;
        }
        before := tem;
        tem := nextf[tem];
        i := i + 1;
      }
      after := 0;
    }

    /** The node of the used block at addr, or 0. */
    method FindUsed(addr: nat) returns (heap: nat, ghost k: int)
      requires Lists()
      ensures heap == 0 ==> NoneAt(Blocks(), addr)
      ensures heap != 0 ==> 0 <= k < |nodes| && nodes[k] == heap && used[heap] && start[heap] == addr
    {
      hide View, Unused, ListOk;
      ListHead(next, last, nodes, shp);
      heap, k := shp, 0;
      while heap != 0
        invariant 0 <= k <= |nodes| && heap == At(nodes, k) && (heap == 0 <==> k == |nodes|)
        invariant forall i :: 0 <= i < k ==> !(used[nodes[i]] && start[nodes[i]] == addr)
        decreases |nodes| - k
      {
        Neighbours(next, last, nodes, shp, k);
        if used[heap] && start[heap] == addr { return; }
        heap := next[heap];
        k := k + 1;
      }
    }

    /** heap_free: refused unless a used block starts at addr. */
    method Free(addr: nat) returns (ok: bool, freed: seq<nat>, ghost k: int)
      requires Valid()
      modifies this
      ensures Valid() && he == old(he) && mapped == old(mapped)
      ensures !ok <==> NoneAt(old(Blocks()), addr)
      ensures if ok then 0 <= k < |old(Blocks())| && old(Blocks())[k].used && old(Blocks())[k].start == addr
                         && Blocks() == GivenBack(old(Blocks()), k)
              else Blocks() == old(Blocks())
      ensures Dropped(old(nodes), nodes, freed)
    {
      hide View, Unused, ListOk, GivenBack, HeapOk, PagesMapped;
      ghost var bs := Blocks();
      HeapParts(bs, he);
      SomeUnused(start, size, used, nodes);
      ListHead(nextf, lastf, Unused(nodes, used), nfhp);
      var heap;
      heap, k := FindUsed(addr);
      if heap == 0 { return false, [], k; }
      GivenBackOk(bs, he, k);
      assert bs[k].used && bs[k].start == addr;
      freed := GiveBack(heap, k);
      ok := true;
    }

    /** Join the used node k with whichever neighbours are free. */
    method GiveBack(heap: nat, ghost k: nat) returns (freed: seq<nat>)
      requires Lists() && Tiles(Blocks()) && k < |nodes| && nodes[k] == heap && used[heap] && nfhp != 0
      modifies this`nodes, this`next, this`last, this`nextf, this`lastf, this`size, this`start, this`used, this`shp,
               this`nfhp
      ensures Lists() && Blocks() == GivenBack(old(Blocks()), k) && Dropped(old(nodes), nodes, freed)
    {
      hide View, Unused, ListOk, GivenBack, Tiles;
      Neighbours(next, last, nodes, shp, k);
      var left, right := last[heap], next[heap];
      if left != 0 && right != 0 && !used[left] && !used[right] {
        freed := MergeBoth(heap, k);
      } else if left != 0 && !used[left] {
        freed := MergeLeft(heap, k);
      } else if right != 0 && !used[right] {
        freed := MergeRight(heap, k);
      } else {
        Relist(heap, k);
        freed := [];
      }
    }

    /** An allocation followed by the free of its result leaves the blocks as they were. */
    method AllocThenFree(request: nat, p: nat) returns (done: bool)
      requires Valid() && 0 < request <= 0xffff_f000 && p != 0 && p !in nodes
      modifies this
      ensures done ==> Valid() && Blocks() == old(Blocks())
      ensures !done ==>
                NoneFits(old(Blocks()), Aligned(request)) || exists k :: LastOne(old(Blocks()), k, Aligned(request))
    {
      hide View, Unused, Taken, ListOk, HeapOk, Aligned, PagesMapped, GivenBack;
      ghost var bs, n, he0 := Blocks(), Aligned(request), he;
      var r, cut, k := Alloc(request, p);
      if r.None? { return false; }
      TakenAt(bs, k, n);
      var ok, freed, m := Free(r.value);
      if m != k { LiveBlocksDisjoint(Taken(bs, k, n), he, k, m); }
      GiveBackUndoesTake(bs, he0, k, n);
      done := true;
    }
  }
}
