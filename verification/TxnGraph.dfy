/** `check_txn_graph_cycle`: the transactions of a dependency graph are taken out one by one, always the
    first that nothing left depends into; what cannot be taken out is reported as cyclic. */
module TxnGraph {

  datatype Dep =
    | WriteRead | WriteWrite | ReadWrite | StartDepend | StrictStartDepend | InstrumentDepend
    | VersionSetDepend | OverwriteDepend | InnerDepend

  type Graph = seq<seq<set<Dep>>>

  predicate Square(g: Graph, n: nat) {
    |g| == n && forall i :: 0 <= i < n ==> |g[i]| == n
  }

  /** Only these five kinds order transactions. */
  predicate Edge(g: Graph, from: int, to: int) {
    0 <= from < |g| && 0 <= to < |g[from]| &&
    (WriteRead in g[from][to] || WriteWrite in g[from][to] || ReadWrite in g[from][to] ||
     VersionSetDepend in g[from][to] || OverwriteDepend in g[from][to])
  }

  /** The transactions looked at: not aborted, and not the last one, which made the initial state. */
  predicate Committed(aborted: seq<bool>, i: int) {
    0 <= i < |aborted| - 1 && !aborted[i]
  }

  /** Committed transactions in an order in which every dependency points forward, each once. */
  ghost predicate Topological(aborted: seq<bool>, g: Graph, sorted: seq<int>) {
    (forall k :: 0 <= k < |sorted| ==> Committed(aborted, sorted[k]) && sorted[k] !in sorted[..k]) &&
    (forall k, j :: 0 <= k < |sorted| && Committed(aborted, j) && Edge(g, j, sorted[k]) ==> j in sorted[..k])
  }

  /** What cannot be sorted: the other transactions, each with an edge from another such one. */
  ghost predicate Stuck(aborted: seq<bool>, g: Graph, sorted: seq<int>, cycle: set<int>) {
    (forall i :: i in cycle <==> Committed(aborted, i) && i !in sorted) &&
    (forall i {:trigger HasEdgeFrom(cycle, g, i)} :: i in cycle ==> HasEdgeFrom(cycle, g, i))
  }

  ghost predicate HasEdgeFrom(s: set<int>, g: Graph, i: int) {
    exists j :: j in s && Edge(g, j, i)
  }

  /** A transaction not taken out yet depends into `i`. */
  ghost predicate LeftEdge(n: nat, removed: set<int>, g: Graph, i: int) {
    exists j :: 0 <= j < n && j !in removed && Edge(g, j, i)
  }

  method HasIndegree(g: Graph, n: nat, removed: set<int>, i: nat) returns (has: bool)
    requires Square(g, n) && i < n
    ensures has <==> LeftEdge(n, removed, g, i)
  {
    for j := 0 to n
      invariant forall k :: 0 <= k < j && k !in removed ==> !Edge(g, k, i)
    {
      if j !in removed && Edge(g, j, i) { return true; }
    }
    has := false;
  }

  method FirstSource(g: Graph, n: nat, removed: set<int>) returns (source: int)
    requires Square(g, n)
    ensures source != -1 ==> 0 <= source < n && source !in removed
    ensures source != -1 ==> forall j :: 0 <= j < n && j !in removed ==> !Edge(g, j, source)
    ensures source == -1 ==> forall i :: 0 <= i < n && i !in removed ==> LeftEdge(n, removed, g, i)
  {
    for i := 0 to n
      invariant forall k :: 0 <= k < i && k !in removed ==> LeftEdge(n, removed, g, k)
    {
      if i !in removed {
        var has := HasIndegree(g, n, removed, i);
        if !has { return i; }
      }
    }
    source := -1;
  }

  /** A set of `n` numbers below `n` is all of them. */
  lemma {:induction false} AllRemoved(removed: set<int>, n: nat)
    requires forall i :: i in removed ==> 0 <= i < n
    ensures |removed| <= n
    ensures |removed| == n ==> forall i :: 0 <= i < n ==> i in removed
  {
    if n > 0 {
      var rest := removed - {n - 1};
      AllRemoved(rest, n - 1);
      assert n - 1 in removed ==> removed == rest + {n - 1};
      assert n - 1 !in removed ==> removed == rest;
      assert |removed| == |rest| + if n - 1 in removed then 1 else 0;
    } else {
      assert forall i :: i in removed <==> i in {};
    }
  }

  method TakeSources(aborted: seq<bool>, g: Graph, start: set<int>) returns (sorted: seq<int>, removed: set<int>)
    requires |aborted| > 0 && Square(g, |aborted|)
    requires forall k :: k in start <==> 0 <= k < |aborted| && !Committed(aborted, k)
    ensures Topological(aborted, g, sorted)
    ensures forall k :: k in removed <==> 0 <= k < |aborted| && (!Committed(aborted, k) || k in sorted)
    ensures forall i {:trigger LeftEdge(|aborted|, removed, g, i)} ::
      0 <= i < |aborted| && i !in removed ==> LeftEdge(|aborted|, removed, g, i)
  {
    var n := |aborted|;
    removed := start;
    sorted := [];
    AllRemoved(removed, n);
    while |removed| < n
      invariant forall k :: k in removed <==> 0 <= k < n && (!Committed(aborted, k) || k in sorted)
      invariant Topological(aborted, g, sorted)
      invariant |removed| <= n
      decreases n - |removed|
    {
      var source := FirstSource(g, n, removed);
      if source == -1 { break; }
      TopologicalSnoc(aborted, g, sorted, source);
      removed := removed + {source};
      sorted := sorted + [source];
      AllRemoved(removed, n);
    }
    AllRemoved(removed, n);
  }

  method CheckTxnGraphCycle(aborted: seq<bool>, g: Graph) returns (cycle: set<int>, sorted: seq<int>)
    requires |aborted| > 0 && Square(g, |aborted|)
    ensures Topological(aborted, g, sorted) && Stuck(aborted, g, sorted, cycle)
  {
    var n := |aborted|;
    var removed: set<int> := {};
    for i := 0 to n
      invariant forall k :: k in removed <==> 0 <= k < i && aborted[k]
    {
      if aborted[i] { removed := removed + {i}; }
    }
    removed := removed + {n - 1};

    sorted, removed := TakeSources(aborted, g, removed);

    cycle := {};
    for i := 0 to n
      invariant forall k :: k in cycle <==> 0 <= k < i && k !in removed
    {
      if i !in removed { cycle := cycle + {i}; }
    }
    forall i | i in cycle ensures HasEdgeFrom(cycle, g, i) {
      assert LeftEdge(n, removed, g, i);
    }
  }

  lemma TopologicalSnoc(aborted: seq<bool>, g: Graph, sorted: seq<int>, i: int)
    requires Topological(aborted, g, sorted) && Committed(aborted, i) && i !in sorted
    requires forall j :: Committed(aborted, j) && Edge(g, j, i) ==> j in sorted
    ensures Topological(aborted, g, sorted + [i])
  {
    var s := sorted + [i];
    forall k | 0 <= k < |s| ensures Committed(aborted, s[k]) && s[k] !in s[..k] {
      assert s[..k] == if k < |sorted| then sorted[..k] else sorted;
    }
    forall k, j | 0 <= k < |s| && Committed(aborted, j) && Edge(g, j, s[k]) ensures j in s[..k] {
      assert s[..k] == if k < |sorted| then sorted[..k] else sorted;
    }
  }

  // ---- what the reported set is ----

  predicate Walk(aborted: seq<bool>, g: Graph, w: seq<int>) {
    (forall k :: 0 <= k < |w| ==> Committed(aborted, w[k])) &&
    (forall k :: 0 <= k < |w| - 1 ==> Edge(g, w[k], w[k + 1]))
  }

  predicate Repeats(w: seq<int>) {
    exists x, y :: 0 <= x < y < |w| && w[x] == w[y]
  }

  /** Some dependency cycle leads to `i`. */
  ghost predicate BehindCycle(aborted: seq<bool>, g: Graph, i: int) {
    exists w :: Walk(aborted, g, w) && w != [] && w[|w| - 1] == i && Repeats(w)
  }

  /** The reported transactions are exactly those some cycle leads to: those on a cycle, and also those
      that only depend on one. */
  lemma CycleNodesAreBehindCycles(aborted: seq<bool>, g: Graph, sorted: seq<int>, cycle: set<int>, i: int)
    requires Topological(aborted, g, sorted) && Stuck(aborted, g, sorted, cycle)
    ensures i in cycle <==> BehindCycle(aborted, g, i)
  {
    if i in cycle {
      var w := WalkBack(aborted, g, sorted, cycle, i, |cycle|);
      Pigeonhole(w, cycle);
    } else if i in sorted {
      SortedIsNotBehind(aborted, g, sorted, i);
    }
  }

  lemma SortedIsNotBehind(aborted: seq<bool>, g: Graph, sorted: seq<int>, i: int)
    requires Topological(aborted, g, sorted) && i in sorted
    ensures !BehindCycle(aborted, g, i)
  {
    var k :| 0 <= k < |sorted| && sorted[k] == i;
    forall w | Walk(aborted, g, w) && w != [] && w[|w| - 1] == i ensures !Repeats(w) {
      NoRepeatBefore(aborted, g, sorted, w, k);
    }
  }

  /** Nothing is reported exactly when the committed transactions have no dependency cycle. */
  lemma NoCycleNodesIffAcyclic(aborted: seq<bool>, g: Graph, sorted: seq<int>, cycle: set<int>)
    requires Topological(aborted, g, sorted) && Stuck(aborted, g, sorted, cycle)
    ensures cycle == {} <==> forall w :: Walk(aborted, g, w) ==> !Repeats(w)
  {
    if i :| i in cycle {
      CycleNodesAreBehindCycles(aborted, g, sorted, cycle, i);
    } else {
      assert forall i :: i in cycle <==> i in {};
      forall w | Walk(aborted, g, w) ensures !Repeats(w) {
        if w != [] { CycleNodesAreBehindCycles(aborted, g, sorted, cycle, w[|w| - 1]); }
      }
    }
  }

  lemma {:induction false} WalkBack(aborted: seq<bool>, g: Graph, sorted: seq<int>, cycle: set<int>, i: int,
                                    steps: nat)
    returns (w: seq<int>)
    requires Stuck(aborted, g, sorted, cycle) && i in cycle
    ensures Walk(aborted, g, w) && |w| == steps + 1 && w[steps] == i && forall k :: 0 <= k < |w| ==> w[k] in cycle
    decreases steps
  {
    if steps == 0 {
      w := [i];
    } else {
      assert HasEdgeFrom(cycle, g, i);
      var j :| j in cycle && Edge(g, j, i);
      var v := WalkBack(aborted, g, sorted, cycle, j, steps - 1);
      w := v + [i];
    }
  }

  lemma {:induction false} Pigeonhole(w: seq<int>, s: set<int>)
    requires forall k :: 0 <= k < |w| ==> w[k] in s
    requires |w| > |s|
    ensures Repeats(w)
  {
    var n := |w| - 1;
    var v := w[..n];
    if w[n] in v {
      var x :| 0 <= x < n && v[x] == w[n];
      assert w[x] == w[n];
    } else {
      forall k | 0 <= k < n ensures v[k] in s - {w[n]} { assert v[k] == w[k]; }
      Pigeonhole(v, s - {w[n]});
      var x, y :| 0 <= x < y < n && v[x] == v[y];
      assert w[x] == w[y];
    }
  }

  /** A walk to a sorted transaction stays inside what was sorted before it. */
  lemma {:induction false} NoRepeatBefore(aborted: seq<bool>, g: Graph, sorted: seq<int>, w: seq<int>, k: nat)
    requires Topological(aborted, g, sorted)
    requires Walk(aborted, g, w) && w != [] && k < |sorted| && w[|w| - 1] == sorted[k]
    ensures !Repeats(w) && forall x :: 0 <= x < |w| ==> w[x] in sorted[..k + 1]
    decreases |w|
  {
    var n := |w| - 1;
    if n > 0 {
      var v := w[..n];
      assert Edge(g, w[n - 1], w[n]);
      assert w[n - 1] in sorted[..k];
      var j :| 0 <= j < k && sorted[..k][j] == w[n - 1];
      NoRepeatBefore(aborted, g, sorted, v, j);
      forall x | 0 <= x < n ensures w[x] in sorted[..k] {
        assert v[x] in sorted[..j + 1];
      }
      forall x, y | 0 <= x < y < |w| ensures w[x] != w[y] {
        assert v[x] == w[x];
        if y < n { assert v[y] == w[y]; }
      }
    }
  }

  // ---- the result in terms of the single kinds of dependency ----

  /** Every one of the five kinds puts a committed transaction before the sorted one that depends on it. */
  lemma FiveKindsOrder(aborted: seq<bool>, g: Graph, sorted: seq<int>, k: nat, j: int)
    requires Square(g, |aborted|) && Topological(aborted, g, sorted) && k < |sorted|
    requires 0 <= j < |aborted| - 1 && !aborted[j]
    requires WriteRead in g[j][sorted[k]] || WriteWrite in g[j][sorted[k]] || ReadWrite in g[j][sorted[k]] ||
             VersionSetDepend in g[j][sorted[k]] || OverwriteDepend in g[j][sorted[k]]
    ensures j in sorted[..k]
  {
    assert Committed(aborted, j) && Edge(g, j, sorted[k]);
  }

  /** Two committed transactions that depend on each other, each by any of the five kinds, are both
      reported. */
  lemma FiveKindsReport(aborted: seq<bool>, g: Graph, sorted: seq<int>, cycle: set<int>, i: int, j: int)
    requires Square(g, |aborted|) && Topological(aborted, g, sorted) && Stuck(aborted, g, sorted, cycle)
    requires 0 <= i < |aborted| - 1 && !aborted[i] && 0 <= j < |aborted| - 1 && !aborted[j]
    requires g[i][j] * {WriteRead, WriteWrite, ReadWrite, VersionSetDepend, OverwriteDepend} != {}
    requires g[j][i] * {WriteRead, WriteWrite, ReadWrite, VersionSetDepend, OverwriteDepend} != {}
    ensures i in cycle && j in cycle
  {
    assert Edge(g, i, j) && Edge(g, j, i);
    assert Walk(aborted, g, [i, j, i]) && Walk(aborted, g, [j, i, j]);
    assert [i, j, i][0] == [i, j, i][2] && [j, i, j][0] == [j, i, j][2];
    assert BehindCycle(aborted, g, i) && BehindCycle(aborted, g, j);
    CycleNodesAreBehindCycles(aborted, g, sorted, cycle, i);
    CycleNodesAreBehindCycles(aborted, g, sorted, cycle, j);
  }

  /** The other four kinds order nothing: with them alone nothing is reported and every committed
      transaction is sorted. */
  lemma OtherKindsAreFree(aborted: seq<bool>, g: Graph, sorted: seq<int>, cycle: set<int>)
    requires Square(g, |aborted|) && Topological(aborted, g, sorted) && Stuck(aborted, g, sorted, cycle)
    requires forall i, j :: 0 <= i < |g| && 0 <= j < |g[i]| ==>
      g[i][j] <= {StartDepend, StrictStartDepend, InstrumentDepend, InnerDepend}
    ensures cycle == {}
    ensures forall i :: 0 <= i < |aborted| - 1 && !aborted[i] ==> i in sorted
  {
    forall i ensures i !in cycle {
      assert !HasEdgeFrom(cycle, g, i);
    }
    assert forall i :: i in cycle <==> i in {};
    forall i | 0 <= i < |aborted| - 1 && !aborted[i] ensures i in sorted { assert i !in cycle; }
  }

  /** Sorted and reported together are exactly the transactions that did not abort, the last one, which
      made the initial state, left out; none is both. */
  lemma EveryCommittedOnce(aborted: seq<bool>, g: Graph, sorted: seq<int>, cycle: set<int>, i: int)
    requires Topological(aborted, g, sorted) && Stuck(aborted, g, sorted, cycle)
    ensures i in sorted || i in cycle <==> 0 <= i < |aborted| - 1 && !aborted[i]
    ensures !(i in sorted && i in cycle)
    ensures multiset(sorted)[i] <= 1
  {
    NoRepeat(sorted, i);
  }

  lemma {:induction false} NoRepeat(s: seq<int>, x: int)
    requires forall k :: 0 <= k < |s| ==> s[k] !in s[..k]
    ensures multiset(s)[x] <= 1
  {
    if s != [] {
      var n := |s| - 1;
      forall k | 0 <= k < n ensures s[..n][k] !in s[..n][..k] { assert s[..n][..k] == s[..k]; }
      NoRepeat(s[..n], x);
      assert s == s[..n] + [s[n]];
    }
  }
}
