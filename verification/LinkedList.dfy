/**
 Intrusive doubly linked lists. Each pointer field of the nodes is a map from node addresses to
 addresses; address 0 is the null pointer. A list is the sequence of its nodes' addresses.
 */
module LinkedList {
  function At(s: seq<nat>, i: int): (p: nat) {
    if 0 <= i < |s| then s[i] else 0
  }

  ghost predicate Distinct(s: seq<nat>) {
    && (forall i, j :: 0 <= i < j < |s| ==> s[i] != s[j])
    && forall i :: 0 <= i < |s| ==> s[i] != 0
  }

  predicate Hooked(next: map<nat, nat>, last: map<nat, nat>, s: seq<nat>, i: nat)
    requires i < |s|
  {
    && s[i] in next && s[i] in last
    && next[s[i]] == At(s, i + 1) && last[s[i]] == At(s, i - 1)
  }

  /** The list starting at head holds exactly s, in order, and can be walked both ways. */
  ghost predicate ListOk(next: map<nat, nat>, last: map<nat, nat>, s: seq<nat>, head: nat) {
    && Distinct(s) && head == At(s, 0)
    && forall i :: 0 <= i < |s| ==> Hooked(next, last, s, i)
  }

  function Put(m: map<nat, nat>, p: nat, q: nat): (r: map<nat, nat>) {
    if p == 0 then m else m[p := q]
  }

  function Inserted(s: seq<nat>, k: nat, p: nat): (r: seq<nat>)
    requires k <= |s|
    ensures |r| == |s| + 1 && r[k] == p
    ensures forall i :: 0 <= i < k ==> r[i] == s[i]
    ensures forall i :: k < i < |r| ==> r[i] == s[i - 1]
  {
    s[..k] + [p] + s[k..]
  }

  function Without(s: seq<nat>, lo: nat, hi: nat): (r: seq<nat>)
    requires lo <= hi <= |s|
    ensures |r| == |s| - (hi - lo)
    ensures forall i :: 0 <= i < lo ==> r[i] == s[i]
    ensures forall i :: lo <= i < |r| ==> r[i] == s[i + (hi - lo)]
  {
    s[..lo] + s[hi..]
  }

  lemma InsertedMembers(s: seq<nat>, k: nat, p: nat)
    requires k <= |s|
    ensures forall q :: q in Inserted(s, k, p) <==> q in s || q == p
  {
    assert s == s[..k] + s[k..];
  }

  /** Taking places lo..hi out of a list takes exactly their nodes out. */
  lemma WithoutMembers(s: seq<nat>, lo: nat, hi: nat)
    requires Distinct(s) && lo <= hi <= |s|
    ensures forall q :: q in s <==> q in Without(s, lo, hi) || q in s[lo..hi]
    ensures forall q :: !(q in Without(s, lo, hi) && q in s[lo..hi])
  {
    assert s == s[..lo] + s[lo..hi] + s[hi..];
  }

  /** Linking a new node p in before position k. */
  lemma InsertOk(next: map<nat, nat>, last: map<nat, nat>, s: seq<nat>, head: nat, k: nat, p: nat)
    requires ListOk(next, last, s, head) && k <= |s| && p != 0 && p !in s
    ensures ListOk(Put(next, At(s, k - 1), p)[p := At(s, k)], Put(last, At(s, k), p)[p := At(s, k - 1)],
                   Inserted(s, k, p), if k == 0 then p else head)
  {
    hide Inserted;
    var r := Inserted(s, k, p);
    var n, l := Put(next, At(s, k - 1), p)[p := At(s, k)], Put(last, At(s, k), p)[p := At(s, k - 1)];
    forall i | 0 <= i < |r| ensures Hooked(n, l, r, i) {
      if i < k { assert Hooked(next, last, s, i); }
      if i > k { assert Hooked(next, last, s, i - 1); }
    }
  }

  /** Linking the neighbours of positions lo..hi to each other. */
  lemma RemoveOk(next: map<nat, nat>, last: map<nat, nat>, s: seq<nat>, head: nat, lo: nat, hi: nat)
    requires ListOk(next, last, s, head) && lo <= hi <= |s|
    ensures ListOk(Put(next, At(s, lo - 1), At(s, hi)), Put(last, At(s, hi), At(s, lo - 1)),
                   Without(s, lo, hi), if lo == 0 then At(s, hi) else head)
  {
    hide Without;
    var r := Without(s, lo, hi);
    var n, l := Put(next, At(s, lo - 1), At(s, hi)), Put(last, At(s, hi), At(s, lo - 1));
    forall i | 0 <= i < |r| ensures Hooked(n, l, r, i) {
      if i < lo { assert Hooked(next, last, s, i); }
      if i >= lo { assert Hooked(next, last, s, i + (hi - lo)); }
    }
  }

  lemma Neighbours(next: map<nat, nat>, last: map<nat, nat>, s: seq<nat>, head: nat, k: nat)
    requires ListOk(next, last, s, head) && k < |s|
    ensures s[k] != 0 && s[k] in next && s[k] in last
    ensures next[s[k]] == At(s, k + 1) && last[s[k]] == At(s, k - 1)
    ensures At(s, k + 1) == 0 <==> k + 1 == |s|
    ensures At(s, k - 1) == 0 <==> k == 0
  {
    assert Hooked(next, last, s, k);
  }

  lemma Spread(next: map<nat, nat>, last: map<nat, nat>, s: seq<nat>, head: nat)
    requires ListOk(next, last, s, head)
    ensures Distinct(s)
  {
  }

  lemma ListHead(next: map<nat, nat>, last: map<nat, nat>, s: seq<nat>, head: nat)
    requires ListOk(next, last, s, head)
    ensures head == At(s, 0) && (head == 0 <==> s == [])
  {
  }

  /** Cells outside the list do not matter. */
  lemma OutsideOk(next: map<nat, nat>, last: map<nat, nat>, s: seq<nat>, head: nat, p: nat, q: nat)
    requires ListOk(next, last, s, head) && p !in s
    ensures ListOk(next[p := q], last[p := q], s, head)
  {
    var n, l := next[p := q], last[p := q];
    forall i | 0 <= i < |s| ensures Hooked(n, l, s, i) {
      assert Hooked(next, last, s, i);
    }
  }
}
