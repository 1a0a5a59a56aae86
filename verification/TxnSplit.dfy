/** The queue split by transaction, and statements found again by transaction and position. */
module TxnSplit {
  import opened TxQueue
  import opened SerialPath

  /** The statements of `txn` among the first `n` entries. */
  function Of(stmts: seq<Entry>, tids: seq<int>, txn: int, n: nat): seq<Entry>
    requires n <= |tids| == |stmts|
  {
    if n == 0 then [] else Of(stmts, tids, txn, n - 1) + if tids[n - 1] == txn then [stmts[n - 1]] else []
  }

  /** trans_arr: entry `i` goes to the back of its transaction. */
  method SplitByTxn(stmts: seq<Entry>, tids: seq<int>, num: nat) returns (arr: seq<seq<Entry>>)
    requires |tids| == |stmts| && forall i :: 0 <= i < |tids| ==> 0 <= tids[i] < num
    ensures |arr| == num && forall t :: 0 <= t < num ==> arr[t] == Of(stmts, tids, t, |tids|)
  {
    arr := seq(num, _ => []);
    for i := 0 to |tids|
      invariant |arr| == num && forall t :: 0 <= t < num ==> arr[t] == Of(stmts, tids, t, i)
    {
      arr := arr[tids[i] := arr[tids[i]] + [stmts[i]]];
    }
  }

  /** The split loses nothing: with the transactions of the queue, every entry is found again. */
  lemma {:induction false} SplitFinds(stmts: seq<Entry>, tids: seq<int>, i: nat, n: nat)
    requires i < n <= |tids| == |stmts|
    ensures IdOf(tids, i).pos < |Of(stmts, tids, tids[i], n)| == Occurrences(tids, tids[i], n)
    ensures Of(stmts, tids, tids[i], n)[IdOf(tids, i).pos] == stmts[i]
    decreases n
  {
    SplitLength(stmts, tids, tids[i], n - 1);
    if i < n - 1 {
      SplitFinds(stmts, tids, i, n - 1);
    }
  }

  lemma {:induction false} SplitLength(stmts: seq<Entry>, tids: seq<int>, txn: int, n: nat)
    requires n <= |tids| == |stmts|
    ensures |Of(stmts, tids, txn, n)| == Occurrences(tids, txn, n)
  {
    if n > 0 { SplitLength(stmts, tids, txn, n - 1); }
  }

  type Index = map<StmtId, nat>

  ghost predicate IndexOf(m: Index, tids: seq<int>, n: nat)
    requires n <= |tids|
  {
    (forall i :: 0 <= i < n ==> IdOf(tids, i) in m && m[IdOf(tids, i)] == i) &&
    forall id :: id in m ==> m[id] < n && IdOf(tids, m[id]) == id
  }

  /** The map of cross_test from (transaction, position) to the place in the queue. */
  method BuildIndex(tids: seq<int>, num: nat) returns (m: Index)
    requires forall i :: 0 <= i < |tids| ==> 0 <= tids[i] < num
    ensures IndexOf(m, tids, |tids|)
  {
    m := map[];
    var posOfTxn := seq(num, _ => 0);
    for i := 0 to |tids|
      invariant IndexOf(m, tids, i)
      invariant |posOfTxn| == num && forall t :: 0 <= t < num ==> posOfTxn[t] == Occurrences(tids, t, i)
    {
      var tid := tids[i];
      forall k | 0 <= k < i ensures IdOf(tids, k) != IdOf(tids, i) { IdsAreOrdered(tids, k, i); }
      m := m[StmtId(tid, posOfTxn[tid]) := i];
      posOfTxn := posOfTxn[tid := posOfTxn[tid] + 1];
    }
  }

  /** The entries of the path that are neither added reads nor control statements, in path order. */
  function Wanted(q: Queues, path: seq<StmtId>): seq<nat>
    requires InStep(q)
  {
    if path == [] then [] else
    var n := |path| - 1;
    Wanted(q, path[..n]) + WantedAt(q, path[n])
  }

  function WantedAt(q: Queues, id: StmtId): seq<nat>
    requires InStep(q)
  {
    var i := Position(q.tids, id, |q.tids|);
    if i < |q.tids| && !q.usages[i].instrumented && !(IsString(q.stmts[i]) && q.usages[i].kind == InitType) then [i]
    else []
  }

  /** The place in the queue of a name, the length if it has none. */
  function Position(tids: seq<int>, id: StmtId, n: nat): (i: nat)
    requires n <= |tids|
    ensures i < n ==> IdOf(tids, i) == id
    ensures i < n || i == |tids|
    ensures i == |tids| ==> forall k :: 0 <= k < n ==> IdOf(tids, k) != id
  {
    if n == 0 then |tids|
    else if IdOf(tids, n - 1) == id then n - 1
    else Position(tids, id, n - 1)
  }

  /** txn_string_stmt: control statements, placeholders and the reads the instrumentor adds. */
  predicate IsString(e: Entry) { !e.Original? || e.stmt.Control? }

  /** The entries at some places of the queue, with their usages. */
  predicate Extracted(q: Queues, at: seq<nat>, stmts: seq<Entry>, usages: seq<Kind>)
    requires InStep(q)
  {
    |at| == |stmts| == |usages| &&
    forall k :: 0 <= k < |at| ==> at[k] < |q.stmts| && stmts[k] == q.stmts[at[k]] && usages[k] == q.usages[at[k]].kind
  }

  /** Phase 4 of cross_test: what it takes from the transactions is what stands in the queue. */
  method ExtractPath(q: Queues, num: nat, path: seq<StmtId>) returns (stmts: seq<Entry>, usages: seq<Kind>)
    requires InStep(q) && forall i :: 0 <= i < |q.tids| ==> 0 <= q.tids[i] < num
    ensures Extracted(q, Wanted(q, path), stmts, usages)
  {
    var arr := SplitByTxn(q.stmts, q.tids, num);
    var m := BuildIndex(q.tids, num);
    stmts, usages := [], [];
    for n := 0 to |path|
      invariant Extracted(q, Wanted(q, path[..n]), stmts, usages)
    {
      var id := path[n];
      assert path[..n + 1][..n] == path[..n];
      IndexedPosition(m, q.tids, id);
      if id !in m { continue; }
      var i := m[id];
      if q.usages[i].instrumented { continue; }
      if IsString(q.stmts[i]) && q.usages[i].kind == InitType { continue; }
      SplitFinds(q.stmts, q.tids, i, |q.tids|);
      stmts := stmts + [arr[id.txn][id.pos]];
      usages := usages + [q.usages[i].kind];
    }
    assert path[..|path|] == path;
  }

  lemma IndexedPosition(m: Index, tids: seq<int>, id: StmtId)
    requires IndexOf(m, tids, |tids|)
    ensures Position(tids, id, |tids|) == if id in m then m[id] else |tids|
  {
    var i := Position(tids, id, |tids|);
    if i < |tids| { assert IdOf(tids, i) in m; }
  }

  /** An entry is taken if and only if the path names it, it is not instrumented, and it is not a control
      statement or placeholder. */
  lemma {:induction false} TakenIff(q: Queues, path: seq<StmtId>, i: nat)
    requires InStep(q) && i < |q.tids|
    ensures i in Wanted(q, path) <==>
      IdOf(q.tids, i) in path && !q.usages[i].instrumented &&
      !(q.usages[i].kind == InitType && (!q.stmts[i].Original? || q.stmts[i].stmt.Control?))
    decreases |path|
  {
    if path != [] {
      var n := |path| - 1;
      TakenIff(q, path[..n], i);
      assert path == path[..n] + [path[n]];
      var at := Position(q.tids, path[n], |q.tids|);
      if IdOf(q.tids, i) == path[n] && at != i {
        IdsAreOrdered(q.tids, if i < at then i else at, if i < at then at else i);
      }
    }
  }
}
