/**
 load_balance and tasks_travel of src/machine/time.c, on the ready-list lengths of the CPUs.
 load_balance reads the counters of all CPUs without a lock and chooses a pair; tasks_travel locks the
 two CPUs, reads their counters again and moves a task only if they still differ by 2 or more. The other
 CPUs may have changed meanwhile, so a move is between any two CPUs that are uneven at that moment.
 */
module LoadBalance {
  import opened Common

  const UINT32_MAX := 0xffff_ffff

  predicate IsMax(l: seq<nat>, m: nat) {
    (exists i :: 0 <= i < |l| && l[i] == m) && forall i :: 0 <= i < |l| ==> l[i] <= m
  }

  predicate IsMin(l: seq<nat>, m: nat) {
    (exists i :: 0 <= i < |l| && l[i] == m) && forall i :: 0 <= i < |l| ==> m <= l[i]
  }

  predicate FirstAt(l: seq<nat>, i: int, v: nat) {
    0 <= i < |l| && l[i] == v && forall j :: 0 <= j < i ==> l[j] != v
  }

  /** The loop over all CPUs; busiest is meaningful only when some load is positive. */
  method Scan(l: seq<nat>) returns (busiest: int, maxLoad: nat, minCpu: int, minLoad: nat)
    requires |l| > 0 && forall i :: 0 <= i < |l| ==> l[i] < UINT32_MAX
    ensures IsMax(l, maxLoad) && IsMin(l, minLoad) && FirstAt(l, minCpu, minLoad)
    ensures maxLoad > 0 ==> FirstAt(l, busiest, maxLoad)
  {
    busiest, maxLoad, minLoad, minCpu := -1, 0, UINT32_MAX, -1;
    for i := 0 to |l|
      invariant forall j :: 0 <= j < i ==> minLoad <= l[j] <= maxLoad
      invariant if i == 0 then maxLoad == 0 && minLoad == UINT32_MAX else FirstAt(l, minCpu, minLoad)
      invariant i > 0 ==> exists j :: 0 <= j < i && l[j] == maxLoad
      invariant maxLoad > 0 ==> FirstAt(l, busiest, maxLoad)
    {
      if l[i] > maxLoad {
        maxLoad, busiest := l[i], i;
      }
      if l[i] < minLoad {
        minLoad, minCpu := l[i], i;
      }
      assert l[i] == maxLoad || i > 0;
    }
  }

  /** What tasks_travel demands of the two CPUs when it holds their locks. */
  predicate Uneven(l: seq<nat>, src: int, dst: int) {
    0 <= src < |l| && 0 <= dst < |l| && l[src] >= l[dst] + 2
  }

  /** hi and lo are the extremes read. */
  predicate Pulls(l: seq<nat>, id: nat, now: nat, hi: nat, lo: nat, src: int, dst: int) {
    && id < |l| && hi > lo
    && if now == hi then src == id && FirstAt(l, dst, lo) else now == lo && dst == id && FirstAt(l, src, hi)
  }

  /** The pair a call on CPU id chooses when it reads its own counter as now and the others as l. */
  ghost predicate Chosen(l: seq<nat>, id: nat, now: nat, src: int, dst: int) {
    exists hi, lo :: IsMax(l, hi) && IsMin(l, lo) && Pulls(l, id, now, hi, lo, src, dst)
  }

  /** The loop and the two tests of load_balance. */
  method Choose(l: seq<nat>, id: nat, now: nat) returns (r: Option<(nat, nat)>)
    requires id < |l| && forall i :: 0 <= i < |l| ==> l[i] < UINT32_MAX
    ensures r.Some? ==> Chosen(l, id, now, r.value.0, r.value.1)
    ensures r.None? ==> forall src, dst :: !Chosen(l, id, now, src, dst)
  {
    var busiest, maxLoad, minCpu, minLoad := Scan(l);
    UniqueExtremes(l, maxLoad, minLoad);
    if maxLoad - minLoad < 1 { return None; }
    if now == maxLoad { return Some((id, minCpu)); }
    if now == minLoad { return Some((busiest, id)); }
    r := None;
  }

  /** The pair a call on CPU id moves a task between if nothing changes while it runs. */
  ghost predicate Moves(l: seq<nat>, id: nat, src: int, dst: int) {
    id < |l| && Chosen(l, id, l[id], src, dst) && Uneven(l, src, dst)
  }

  lemma UniqueExtremes(l: seq<nat>, hi: nat, lo: nat)
    requires IsMax(l, hi) && IsMin(l, lo)
    ensures forall m :: IsMax(l, m) ==> m == hi
    ensures forall m :: IsMin(l, m) ==> m == lo
  {
  }

  function Moved(l: seq<nat>, src: nat, dst: nat): (r: seq<nat>)
    requires src < |l| && dst < |l| && src != dst && l[src] > 0
  {
    l[src := l[src] - 1][dst := l[dst] + 1]
  }

  function Total(l: seq<nat>): (n: nat) {
    if l == [] then 0 else Total(l[..|l| - 1]) + l[|l| - 1]
  }

  function Square(x: nat): (n: nat) { x * x }

  lemma SquareStep(x: nat)
    ensures Square(x + 1) == Square(x) + 2 * x + 1
  {
  }

  function Squares(l: seq<nat>): (n: nat) {
    if l == [] then 0 else Squares(l[..|l| - 1]) + Square(l[|l| - 1])
  }

  lemma {:induction false} UpdateSums(l: seq<nat>, i: nat, v: nat)
    requires i < |l|
    ensures Total(l[i := v]) == Total(l) - l[i] + v
    ensures Squares(l[i := v]) == Squares(l) - Square(l[i]) + Square(v)
  {
    hide Square;
    var n := |l| - 1;
    if i == n {
      assert l[i := v][..n] == l[..n];
    } else {
      UpdateSums(l[..n], i, v);
      assert l[i := v][..n] == l[..n][i := v];
    }
  }

  /** A move conserves the tasks and strictly lowers the sum of squared loads. */
  lemma MoveConverges(l: seq<nat>, src: nat, dst: nat)
    requires Uneven(l, src, dst)
    ensures Total(Moved(l, src, dst)) == Total(l)
    ensures Squares(Moved(l, src, dst)) < Squares(l)
  {
    hide Square, Squares, Total;
    var a, b := l[src], l[dst];
    UpdateSums(l, src, a - 1);
    UpdateSums(l[src := a - 1], dst, b + 1);
    SquareStep(a - 1);
    SquareStep(b);
  }

  ghost predicate Follows(l: seq<nat>, l': seq<nat>, src: nat, dst: nat) {
    Uneven(l, src, dst) && l' == Moved(l, src, dst)
  }

  /** Each load list follows from the one before it by a move between two uneven CPUs. */
  ghost predicate Balancing(ls: seq<seq<nat>>) {
    forall i :: 0 < i < |ls| ==> OneMove(ls[i - 1], ls[i])
  }

  ghost predicate OneMove(l: seq<nat>, l': seq<nat>) {
    exists src, dst :: Follows(l, l', src, dst)
  }

  lemma OneMoveConverges(l: seq<nat>, l': seq<nat>)
    requires OneMove(l, l')
    ensures Total(l') == Total(l) && Squares(l') < Squares(l)
  {
    hide Squares, Total, Moved;
    var src, dst :| Follows(l, l', src, dst);
    MoveConverges(l, src, dst);
  }

  /** Balancing comes to rest: without other changes there are at most as many moves as the sum of squares. */
  lemma {:induction false} BalancingEnds(ls: seq<seq<nat>>)
    requires |ls| > 0 && Balancing(ls)
    ensures |ls| - 1 <= Squares(ls[0]) - Squares(ls[|ls| - 1]) && Total(ls[|ls| - 1]) == Total(ls[0])
    decreases |ls|
  {
    hide Squares, Total, OneMove;
    if |ls| > 1 {
      var n := |ls| - 1;
      OneMoveConverges(ls[n - 1], ls[n]);
      var init := ls[..n];
      assert forall i :: 0 <= i < n ==> init[i] == ls[i];
      BalancingEnds(init);
    }
  }

  /** A move never widens the spread. */
  lemma SpreadShrinks(l: seq<nat>, src: nat, dst: nat, hi: nat, lo: nat, hi': nat, lo': nat)
    requires Uneven(l, src, dst) && IsMax(l, hi) && IsMin(l, lo)
    requires IsMax(Moved(l, src, dst), hi') && IsMin(Moved(l, src, dst), lo')
    ensures lo <= lo' <= hi' <= hi
  {
    UniqueExtremes(l, hi, lo);
    var r := Moved(l, src, dst);
    assert forall i :: 0 <= i < |r| ==> lo <= r[i] <= hi;
  }

  /** Some CPU's undisturbed call moves a task exactly when the spread is at least 2. */
  lemma AtRestIff(l: seq<nat>, hi: nat, lo: nat)
    requires IsMax(l, hi) && IsMin(l, lo)
    ensures (forall id, src, dst :: !Moves(l, id, src, dst)) <==> hi - lo <= 1
  {
    UniqueExtremes(l, hi, lo);
    if hi - lo > 1 {
      var src := FindFirst(l, hi);
      var dst := FindFirst(l, lo);
      assert Moves(l, src, src, dst);
    }
  }

  /** Whatever was read, no call moves a task when the spread is at most 1. */
  lemma RestIsStable(l: seq<nat>, hi: nat, lo: nat)
    requires IsMax(l, hi) && IsMin(l, lo)
    ensures (forall src, dst :: !Uneven(l, src, dst)) <==> hi - lo <= 1
  {
    if hi - lo > 1 {
      var src :| 0 <= src < |l| && l[src] == hi;
      var dst :| 0 <= dst < |l| && l[dst] == lo;
      assert Uneven(l, src, dst);
    }
  }

  lemma FindFirst(l: seq<nat>, v: nat) returns (i: nat)
    requires exists j :: 0 <= j < |l| && l[j] == v
    ensures FirstAt(l, i, v)
  {
    i := 0;
    while l[i] != v
      invariant i < |l| && forall j :: 0 <= j < i ==> l[j] != v
      invariant exists j :: i <= j < |l| && l[j] == v
      decreases |l| - i
    {
      i := i + 1;
    }
  }
}
