/** `txn_decycle_test`: while the executed transactions depend on each other in a cycle, each reported
    one is blanked in turn and the rest is tried again; without a cycle the serial path is compared. */
module Decycle {
  import opened TxQueue
  import opened TxnGraph
  import opened SerialPath

  /** What executing a queue and analysing it gives; an exception is caught and counted. */
  datatype Outcome = RunThrew | Analyzed(aborted: seq<bool>, g: Graph)

  datatype Check = Agrees | Differs | CheckThrew

  datatype End = Threw | Compared(sorted: seq<int>, path: seq<StmtId>, check: Check)

  /** A call that does not call again: the queue it saw, the transactions blanked so far, how it ended. */
  datatype Leaf = Leaf(q: Queues, deleted: seq<int>, end: End)

  const PLACEHOLDER := Original(Control("select 1 from (select 1) as subq_0 where 0 <> 0"))

  /** The transactions that still have something to run. */
  function Busy(q: Queues): set<int> {
    set i | 0 <= i < |q.tids| && Runs(q, i) :: q.tids[i]
  }

  predicate Blanks(q: Queues, txn: int, i: int) {
    Runs(q, i) && q.tids[i] == txn
  }

  function Blanked(q: Queues, txn: int): (r: Queues)
    requires InStep(q)
    ensures InStep(r) && r.tids == q.tids
  {
    Queues(seq(|q.stmts|, i requires 0 <= i < |q.stmts| => if Blanks(q, txn, i) then PLACEHOLDER else q.stmts[i]),
           q.tids,
           seq(|q.usages|, i requires 0 <= i < |q.usages| =>
             if Blanks(q, txn, i) then q.usages[i].(kind := InitType, instrumented := false) else q.usages[i]))
  }

  function BlankedAll(q: Queues, txns: seq<int>): (r: Queues)
    requires InStep(q)
    ensures InStep(r) && r.tids == q.tids
    decreases |txns|
  {
    if txns == [] then q else BlankedAll(Blanked(q, txns[0]), txns[1..])
  }

  /** Blanking changes the running entries of the blanked transactions and nothing else. */
  lemma {:induction false} BlankedAllAt(q: Queues, txns: seq<int>, i: nat)
    requires InStep(q) && i < |q.stmts|
    ensures var r := BlankedAll(q, txns);
            if q.usages[i].kind != InitType && q.tids[i] in txns then
              r.stmts[i] == PLACEHOLDER && r.usages[i] == q.usages[i].(kind := InitType, instrumented := false)
            else
              r.stmts[i] == q.stmts[i] && r.usages[i] == q.usages[i]
    decreases |txns|
  {
    if txns != [] {
      BlankedAllAt(Blanked(q, txns[0]), txns[1..], i);
      assert txns == [txns[0]] + txns[1..];
    }
  }

  lemma BusyAfterBlank(q: Queues, txn: int)
    requires InStep(q)
    ensures Busy(Blanked(q, txn)) == Busy(q) - {txn}
  {
    var r := Blanked(q, txn);
    forall i | 0 <= i < |q.tids| ensures Runs(r, i) <==> Runs(q, i) && q.tids[i] != txn {
      assert r.usages[i] ==
        if Blanks(q, txn, i) then q.usages[i].(kind := InitType, instrumented := false) else q.usages[i];
    }
  }

  method Blank(q: Queues, txn: int) returns (r: Queues)
    requires InStep(q)
    ensures r == Blanked(q, txn)
  {
    var stmts, usages := q.stmts, q.usages;
    for i := 0 to |q.stmts|
      invariant |stmts| == |usages| == |q.stmts|
      invariant forall k :: 0 <= k < i ==> stmts[k] == Blanked(q, txn).stmts[k]
      invariant forall k :: 0 <= k < i ==> usages[k] == Blanked(q, txn).usages[k]
      invariant forall k :: i <= k < |stmts| ==> stmts[k] == q.stmts[k] && usages[k] == q.usages[k]
    {
      if q.tids[i] != txn { continue; }
      if q.usages[i].kind == InitType { continue; }
      stmts := stmts[i := PLACEHOLDER];
      usages := usages[i := usages[i].(kind := InitType, instrumented := false)];
    }
    r := Queues(stmts, q.tids, usages);
  }

  // ---- the recursion ----

  /** What is assumed of the analysis: the graph has a row and a column for every status, and only a
      transaction that runs something depends on another. */
  ghost predicate Sensible(run: (Queues, seq<int>) -> Outcome) {
    forall q, d {:trigger run(q, d)} :: run(q, d).Analyzed? ==> SensibleAt(q, run(q, d))
  }

  ghost predicate SensibleAt(q: Queues, o: Outcome)
    requires o.Analyzed?
  {
    |o.aborted| > 0 && Square(o.g, |o.aborted|) && forall j, i :: Edge(o.g, j, i) ==> i in Busy(q)
  }

  /** How a call ends that does not call again. */
  ghost predicate Concluded(leaf: Leaf, run: (Queues, seq<int>) -> Outcome, check: (Queues, seq<StmtId>) -> Check) {
    match run(leaf.q, leaf.deleted)
    case RunThrew => leaf.end == Threw
    case Analyzed(aborted, g) =>
      leaf.end.Compared? && Acyclic(aborted, g) && Topological(aborted, g, leaf.end.sorted) &&
      (forall t :: Committed(aborted, t) ==> t in leaf.end.sorted) &&
      Serial(leaf.q, leaf.end.sorted, leaf.end.path) && leaf.end.check == check(leaf.q, leaf.end.path)
  }

  ghost predicate Acyclic(aborted: seq<bool>, g: Graph) {
    forall w :: Walk(aborted, g, w) ==> !Repeats(w)
  }

  /** The queue a leaf saw is the given one with transactions blanked that had something to run. */
  ghost predicate LeafOf(q: Queues, deleted: seq<int>, leaf: Leaf, run: (Queues, seq<int>) -> Outcome,
                         check: (Queues, seq<StmtId>) -> Check)
    requires InStep(q)
  {
    |deleted| <= |leaf.deleted| && leaf.deleted[..|deleted|] == deleted &&
    leaf.q == BlankedAll(q, leaf.deleted[|deleted|..]) &&
    Busy(leaf.q) <= Busy(q) && |leaf.deleted| - |deleted| == |Busy(q)| - |Busy(leaf.q)| &&
    Concluded(leaf, run, check)
  }

  lemma LeafBelow(q: Queues, deleted: seq<int>, txn: int, leaf: Leaf, run: (Queues, seq<int>) -> Outcome,
                  check: (Queues, seq<StmtId>) -> Check)
    requires InStep(q) && txn in Busy(q) && LeafOf(Blanked(q, txn), deleted + [txn], leaf, run, check)
    ensures LeafOf(q, deleted, leaf, run, check)
  {
    BusyAfterBlank(q, txn);
    var n := |deleted|;
    assert leaf.deleted[..n] == leaf.deleted[..n + 1][..n] == deleted;
    assert leaf.deleted[n] == leaf.deleted[..n + 1][n] == txn;
    assert leaf.deleted[n..] == [txn] + leaf.deleted[n + 1..];
  }

  // ---- which attempts are made ----

  /** The transactions some dependency cycle leads to. */
  ghost function Cyclic(o: Outcome): set<int>
    requires o.Analyzed?
  {
    set i | 0 <= i < |o.aborted| && BehindCycle(o.aborted, o.g, i)
  }

  lemma CyclicIsBusy(q: Queues, o: Outcome)
    requires o.Analyzed? && SensibleAt(q, o)
    ensures Cyclic(o) <= Busy(q)
  {
    forall i | i in Cyclic(o) ensures i in Busy(q) {
      var w :| Walk(o.aborted, o.g, w) && w != [] && w[|w| - 1] == i && Repeats(w);
      assert Edge(o.g, w[|w| - 2], w[|w| - 1]);
    }
  }

  /** For every attempt the transactions blanked for it, in the order of the attempts: each member of
      the cyclic transactions is blanked in turn, until none is left or the run throws. */
  ghost function Attempts(q: Queues, deleted: seq<int>, run: (Queues, seq<int>) -> Outcome): seq<seq<int>>
    requires InStep(q) && Sensible(run)
    decreases |Busy(q)|, 1, 0
  {
    var o := run(q, deleted);
    if o.RunThrew? then [deleted] else
    assert SensibleAt(q, o);
    CyclicIsBusy(q, o);
    if Cyclic(o) == {} then [deleted] else AttemptsWithout(q, deleted, Cyclic(o), |o.aborted|, run)
  }

  ghost function AttemptsWithout(q: Queues, deleted: seq<int>, cycle: set<int>, n: nat, run: (Queues,
                                 seq<int>) -> Outcome): seq<seq<int>>
    requires InStep(q) && Sensible(run) && cycle <= Busy(q)
    decreases |Busy(q)|, 0, n
  {
    if n == 0 then [] else
    var txn := n - 1;
    BusyAfterBlank(q, txn);
    AttemptsWithout(q, deleted, cycle, txn, run) +
      if txn in cycle then Attempts(Blanked(q, txn), deleted + [txn], run) else []
  }

  /** Some attempt always finishes. */
  lemma {:induction false} SomeAttempt(q: Queues, deleted: seq<int>, run: (Queues, seq<int>) -> Outcome)
    requires InStep(q) && Sensible(run)
    ensures Attempts(q, deleted, run) != []
    decreases |Busy(q)|, 1, 0
  {
    var o := run(q, deleted);
    if o.Analyzed? {
      assert SensibleAt(q, o);
      CyclicIsBusy(q, o);
      if txn :| txn in Cyclic(o) { SomeAttemptWithout(q, deleted, Cyclic(o), |o.aborted|, run, txn); }
    }
  }

  lemma {:induction false} SomeAttemptWithout(q: Queues, deleted: seq<int>, cycle: set<int>, n: nat,
                                              run: (Queues, seq<int>) -> Outcome, txn: int)
    requires InStep(q) && Sensible(run) && cycle <= Busy(q) && txn in cycle && 0 <= txn < n
    ensures AttemptsWithout(q, deleted, cycle, n, run) != []
    decreases |Busy(q)|, 0, n
  {
    if txn == n - 1 {
      BusyAfterBlank(q, txn);
      SomeAttempt(Blanked(q, txn), deleted + [txn], run);
    } else {
      SomeAttemptWithout(q, deleted, cycle, n - 1, run, txn);
    }
  }

  /** `d` blanks, one after the other, transactions that some dependency cycle leads to at that point,
      and ends where the run throws or no cycle is left. */
  ghost predicate IsAttempt(q: Queues, deleted: seq<int>, d: seq<int>, run: (Queues, seq<int>) -> Outcome)
    requires InStep(q)
  {
    |deleted| <= |d| && d[..|deleted|] == deleted && EndsAt(q, deleted, d, run) && BlanksOnlyCyclic(q, deleted, d, run)
  }

  ghost predicate BlanksOnlyCyclic(q: Queues, deleted: seq<int>, d: seq<int>, run: (Queues, seq<int>) -> Outcome)
    requires InStep(q) && |deleted| <= |d|
  {
    forall n :: |deleted| <= n < |d| ==> BlanksCyclic(q, deleted, d, n, run)
  }

  ghost predicate EndsAt(q: Queues, deleted: seq<int>, d: seq<int>, run: (Queues, seq<int>) -> Outcome)
    requires InStep(q) && |deleted| <= |d|
  {
    var o := run(BlankedAll(q, d[|deleted|..]), d);
    o.RunThrew? || Cyclic(o) == {}
  }

  ghost predicate BlanksCyclic(q: Queues, deleted: seq<int>, d: seq<int>, n: nat, run: (Queues, seq<int>) -> Outcome)
    requires InStep(q) && |deleted| <= n < |d|
  {
    var o := run(BlankedAll(q, d[|deleted|..n]), d[..n]);
    o.Analyzed? && d[n] in Cyclic(o)
  }

  /** An attempt is over at once, or blanks one cyclic transaction and is an attempt from there. */
  lemma AttemptStep(q: Queues, deleted: seq<int>, d: seq<int>, run: (Queues, seq<int>) -> Outcome)
    requires InStep(q) && |deleted| < |d| && d[..|deleted|] == deleted
    ensures var t := d[|deleted|];
            IsAttempt(q, deleted, d, run) <==>
            run(q, deleted).Analyzed? && t in Cyclic(run(q, deleted)) && IsAttempt(Blanked(q, t), deleted + [t], d, run)
  {
    var m, t := |deleted|, d[|deleted|];
    PrefixOf(deleted, t, d);
    BlanksOnlyStep(q, deleted, d, run);
    BlankedFrom(q, m, d, |d|);
    assert d[m..] == d[m..|d|] && d[m + 1..] == d[m + 1..|d|];
    assert EndsAt(q, deleted, d, run) == EndsAt(Blanked(q, t), deleted + [t], d, run);
  }

  lemma BlanksOnlyStep(q: Queues, deleted: seq<int>, d: seq<int>, run: (Queues, seq<int>) -> Outcome)
    requires InStep(q) && |deleted| < |d| && d[..|deleted|] == deleted
    ensures var t := d[|deleted|];
            BlanksOnlyCyclic(q, deleted, d, run) <==>
              run(q, deleted).Analyzed? && t in Cyclic(run(q, deleted)) &&
              BlanksOnlyCyclic(Blanked(q, t), deleted + [t], d, run)
  {
    var m, t := |deleted|, d[|deleted|];
    FirstBlanked(q, deleted, d, run);
    forall n | m + 1 <= n < |d|
      ensures BlanksCyclic(q, deleted, d, n, run) <==> BlanksCyclic(Blanked(q, t), deleted + [t], d, n, run)
    {
      BlankedFrom(q, m, d, n);
    }
  }

  lemma FirstBlanked(q: Queues, deleted: seq<int>, d: seq<int>, run: (Queues, seq<int>) -> Outcome)
    requires InStep(q) && |deleted| < |d| && d[..|deleted|] == deleted
    ensures BlanksCyclic(q, deleted, d, |deleted|, run) <==>
      run(q, deleted).Analyzed? && d[|deleted|] in Cyclic(run(q, deleted))
  {
    assert d[|deleted|..|deleted|] == [];
  }

  lemma BlankedFrom(q: Queues, m: nat, d: seq<int>, n: nat)
    requires InStep(q) && m + 1 <= n <= |d|
    ensures BlankedAll(q, d[m..n]) == BlankedAll(Blanked(q, d[m]), d[m + 1..n])
  {
    assert d[m..n][0] == d[m] && d[m..n][1..] == d[m + 1..n];
  }

  lemma AttemptHere(q: Queues, deleted: seq<int>, d: seq<int>, run: (Queues, seq<int>) -> Outcome)
    requires InStep(q) && |d| <= |deleted|
    ensures IsAttempt(q, deleted, d, run) <==>
      d == deleted && (run(q, deleted).RunThrew? || Cyclic(run(q, deleted)) == {})
  {
    if |d| == |deleted| {
      assert d[..|deleted|] == d && d[|deleted|..] == [];
    }
  }

  /** The attempts are exactly those, each made once. */
  lemma {:induction false} AttemptsAreAll(q: Queues, deleted: seq<int>, run: (Queues, seq<int>) -> Outcome, d: seq<int>)
    requires InStep(q) && Sensible(run)
    ensures multiset(Attempts(q, deleted, run))[d] == if IsAttempt(q, deleted, d, run) then 1 else 0
    decreases |Busy(q)|, 1, 0
  {
    var o := run(q, deleted);
    if |d| <= |deleted| { AttemptHere(q, deleted, d, run); }
    if |deleted| < |d| && d[..|deleted|] == deleted { AttemptStep(q, deleted, d, run); }
    if o.RunThrew? || Cyclic(o) == {} {
      assert Attempts(q, deleted, run) == [deleted];
    } else {
      assert SensibleAt(q, o);
      CyclicIsBusy(q, o);
      AttemptsWithoutAreAll(q, deleted, Cyclic(o), |o.aborted|, run, d);
    }
  }

  /** The attempt begins with one of the cyclic transactions below `n`. */
  ghost predicate BeginsIn(q: Queues, deleted: seq<int>, cycle: set<int>, n: nat, run: (Queues, seq<int>) -> Outcome,
                           d: seq<int>)
    requires InStep(q)
  {
    var m := |deleted|;
    m < |d| && d[..m] == deleted && 0 <= d[m] < n && d[m] in cycle &&
    IsAttempt(Blanked(q, d[m]), deleted + [d[m]], d, run)
  }

  lemma {:induction false} AttemptsWithoutAreAll(q: Queues, deleted: seq<int>, cycle: set<int>, n: nat,
                                                 run: (Queues, seq<int>) -> Outcome, d: seq<int>)
    requires InStep(q) && Sensible(run) && cycle <= Busy(q)
    ensures multiset(AttemptsWithout(q, deleted, cycle, n, run))[d] ==
            if BeginsIn(q, deleted, cycle, n, run, d) then 1 else 0
    decreases |Busy(q)|, 0, n
  {
    if n > 0 {
      var t := n - 1;
      AttemptsWithoutAreAll(q, deleted, cycle, t, run, d);
      BusyAfterBlank(q, t);
      if t in cycle {
        AttemptsAreAll(Blanked(q, t), deleted + [t], run, d);
        PrefixOf(deleted, t, d);
        BeginsInNext(q, deleted, cycle, t, run, d);
      } else {
        assert BeginsIn(q, deleted, cycle, n, run, d) <==> BeginsIn(q, deleted, cycle, t, run, d);
        assert AttemptsWithout(q, deleted, cycle, n, run) == AttemptsWithout(q, deleted, cycle, t, run);
      }
    }
  }

  lemma BeginsInNext(q: Queues, deleted: seq<int>, cycle: set<int>, t: nat, run: (Queues, seq<int>) -> Outcome,
                     d: seq<int>)
    requires InStep(q) && t in cycle
    ensures BeginsIn(q, deleted, cycle, t + 1, run, d) <==>
      BeginsIn(q, deleted, cycle, t, run, d) || IsAttempt(Blanked(q, t), deleted + [t], d, run)
    ensures !(BeginsIn(q, deleted, cycle, t, run, d) && IsAttempt(Blanked(q, t), deleted + [t], d, run))
  {
    PrefixOf(deleted, t, d);
  }

  lemma PrefixOf(deleted: seq<int>, t: int, d: seq<int>)
    ensures |deleted| < |d| && d[..|deleted| + 1] == deleted + [t] <==>
      |deleted| < |d| && d[..|deleted|] == deleted && d[|deleted|] == t
  {
    if |deleted| < |d| {
      assert d[..|deleted| + 1] == d[..|deleted|] + [d[|deleted|]];
    }
  }

  function Deleted(leaves: seq<Leaf>): seq<seq<int>> {
    seq(|leaves|, k requires 0 <= k < |leaves| => leaves[k].deleted)
  }

  lemma DeletedConcat(a: seq<Leaf>, b: seq<Leaf>)
    ensures Deleted(a + b) == Deleted(a) + Deleted(b)
  {
  }

  lemma ReportedAreCyclic(o: Outcome, sorted: seq<int>, cycle: set<int>)
    requires o.Analyzed? && Topological(o.aborted, o.g, sorted) && Stuck(o.aborted, o.g, sorted, cycle)
    ensures cycle == Cyclic(o)
  {
    forall i ensures i in cycle <==> i in Cyclic(o) {
      CycleNodesAreBehindCycles(o.aborted, o.g, sorted, cycle, i);
      if i in cycle { assert Committed(o.aborted, i); }
    }
  }

  function Bugs(leaves: seq<Leaf>): (n: nat)
    ensures n <= |leaves|
  {
    if leaves == [] then 0
    else
      var end := leaves[|leaves| - 1].end;
      Bugs(leaves[..|leaves| - 1]) + if end.Compared? && end.check == Differs then 1 else 0
  }

  /** Only the comparisons that differ count. */
  lemma {:induction false} BugsAreDifferences(leaves: seq<Leaf>)
    ensures Bugs(leaves) == |set k | 0 <= k < |leaves| && leaves[k].end.Compared? && leaves[k].end.check == Differs|
  {
    if leaves != [] {
      var n := |leaves| - 1;
      BugsAreDifferences(leaves[..n]);
      var before := set k | 0 <= k < n && leaves[..n][k].end.Compared? && leaves[..n][k].end.check == Differs;
      var all := set k | 0 <= k < n + 1 && leaves[k].end.Compared? && leaves[k].end.check == Differs;
      assert forall k :: 0 <= k < n ==> leaves[..n][k] == leaves[k];
      assert all == before + if leaves[n].end.Compared? && leaves[n].end.check == Differs then {n} else {};
    }
  }

  lemma {:induction false} BugsConcat(a: seq<Leaf>, b: seq<Leaf>)
    ensures Bugs(a + b) == Bugs(a) + Bugs(b)
    decreases |b|
  {
    if b == [] {
      assert a + b == a;
    } else {
      BugsConcat(a, b[..|b| - 1]);
      assert (a + b)[..|a + b| - 1] == a + b[..|b| - 1];
    }
  }

  /** Every reported transaction has something to run, so blanking it makes progress. */
  lemma CycleIsBusy(q: Queues, o: Outcome, sorted: seq<int>, cycle: set<int>)
    requires o.Analyzed? && SensibleAt(q, o) && Stuck(o.aborted, o.g, sorted, cycle)
    ensures cycle <= Busy(q)
  {
    forall i | i in cycle ensures i in Busy(q) {
      assert HasEdgeFrom(cycle, o.g, i);
    }
  }

  /** The counters grow by the number of calls that do not call again, and by how many of them found a
      difference; the recursion is no deeper than the number of transactions with something to run. */
  method TxnDecycleTest(q: Queues, deleted: seq<int>, run: (Queues, seq<int>) -> Outcome,
                        check: (Queues, seq<StmtId>) -> Check, succeed: nat, all: nat)
    returns (succeeded: nat, tried: nat, ghost leaves: seq<Leaf>)
    requires |q.usages| == |q.tids| && Sensible(run)
    ensures |q.tids| != |q.stmts| ==> succeeded == succeed && tried == all
    ensures InStep(q) ==> tried == all + |Attempts(q, deleted, run)| && succeed <= succeeded <= succeed + tried - all
    ensures InStep(q) ==> forall k :: 0 <= k < |leaves| ==> LeafOf(q, deleted, leaves[k], run, check)
    ensures tried == all + |leaves| && succeeded == succeed + Bugs(leaves)
    ensures InStep(q) ==> Deleted(leaves) == Attempts(q, deleted, run)
    decreases |Busy(q)|, 2
  {
    succeeded, tried, leaves := succeed, all, [];
    if |q.tids| != |q.stmts| { return; }
    var outcome := run(q, deleted);
    if outcome.RunThrew? {
      tried := all + 1;
      leaves := [Leaf(q, deleted, Threw)];
      return;
    }
    assert SensibleAt(q, outcome);
    var cycle, sorted := CheckTxnGraphCycle(outcome.aborted, outcome.g);
    ReportedAreCyclic(outcome, sorted, cycle);
    if cycle != {} {
      CycleIsBusy(q, outcome, sorted, cycle);
      succeeded, tried, leaves := TryWithout(q, deleted, cycle, |outcome.aborted|, run, check, succeed, all);
    } else {
      NoCycleNodesIffAcyclic(outcome.aborted, outcome.g, sorted, cycle);
      var path := BuildSerialPath(q, sorted);
      var result := check(q, path);
      if result == Differs { succeeded := succeed + 1; }
      tried := all + 1;
      leaves := [Leaf(q, deleted, Compared(sorted, path, result))];
    }
  }

  method TryWithout(q: Queues, deleted: seq<int>, cycle: set<int>, n: nat, run: (Queues, seq<int>) -> Outcome,
                    check: (Queues, seq<StmtId>) -> Check, succeed: nat, all: nat)
    returns (succeeded: nat, tried: nat, ghost leaves: seq<Leaf>)
    requires InStep(q) && Sensible(run) && cycle <= Busy(q)
    ensures forall k :: 0 <= k < |leaves| ==> LeafOf(q, deleted, leaves[k], run, check)
    ensures tried == all + |leaves| && succeeded == succeed + Bugs(leaves)
    ensures Deleted(leaves) == AttemptsWithout(q, deleted, cycle, n, run)
    decreases |Busy(q)|, 1
  {
    succeeded, tried, leaves := succeed, all, [];
    for txn := 0 to n
      invariant Deleted(leaves) == AttemptsWithout(q, deleted, cycle, txn, run)
      invariant forall k :: 0 <= k < |leaves| ==> LeafOf(q, deleted, leaves[k], run, check)
      invariant tried == all + |leaves| && succeeded == succeed + Bugs(leaves)
    {
      assert AttemptsWithout(q, deleted, cycle, txn, run) + [] == AttemptsWithout(q, deleted, cycle, txn, run);
      if txn !in cycle { continue; }
      ghost var more;
      succeeded, tried, more := TryWithoutOne(q, deleted, txn, run, check, succeeded, tried);
      BugsConcat(leaves, more);
      DeletedConcat(leaves, more);
      leaves := leaves + more;
    }
  }

  method TryWithoutOne(q: Queues, deleted: seq<int>, txn: nat, run: (Queues, seq<int>) -> Outcome,
                       check: (Queues, seq<StmtId>) -> Check, succeed: nat, all: nat)
    returns (succeeded: nat, tried: nat, ghost leaves: seq<Leaf>)
    requires InStep(q) && Sensible(run) && txn in Busy(q)
    ensures forall k :: 0 <= k < |leaves| ==> LeafOf(q, deleted, leaves[k], run, check)
    ensures tried == all + |leaves| && succeeded == succeed + Bugs(leaves)
    ensures Deleted(leaves) == Attempts(Blanked(q, txn), deleted + [txn], run)
    decreases |Busy(q)|, 0
  {
    var without := Blank(q, txn);
    BusyAfterBlank(q, txn);
    succeeded, tried, leaves := TxnDecycleTest(without, deleted + [txn], run, check, succeed, all);
    forall k | 0 <= k < |leaves| ensures LeafOf(q, deleted, leaves[k], run, check) {
      LeafBelow(q, deleted, txn, leaves[k], run, check);
    }
  }

  // ---- the path that is compared ----

  /** An entry is on the path if and only if it is no control entry or placeholder and its transaction
      did not abort; the last transaction, which made the initial state, has none there; and no entry is
      there twice. */
  lemma PathIsExact(leaf: Leaf, run: (Queues, seq<int>) -> Outcome, check: (Queues, seq<StmtId>) -> Check, i: nat)
    requires Concluded(leaf, run, check) && leaf.end.Compared? && InStep(leaf.q) && i < |leaf.q.tids|
    ensures var o, t := run(leaf.q, leaf.deleted), leaf.q.tids[i];
            o.Analyzed? && (IdOf(leaf.q.tids, i) in leaf.end.path <==>
              leaf.q.usages[i].kind != InitType && 0 <= t < |o.aborted| - 1 && !o.aborted[t])
    ensures forall a, b :: 0 <= a < b < |leaf.end.path| ==> leaf.end.path[a] != leaf.end.path[b]
  {
    var id, sorted, path := IdOf(leaf.q.tids, i), leaf.end.sorted, leaf.end.path;
    if id in path {
      assert Names(leaf.q, sorted, id);
      var j :| Runs(leaf.q, j) && leaf.q.tids[j] in sorted && IdOf(leaf.q.tids, j) == id;
      OnlyAt(leaf.q.tids, id.txn, id.pos, i);
      assert j == i;
    }
    assert leaf.q.usages[i].kind != InitType ==> Runs(leaf.q, i);
    forall a, b | 0 <= a < b < |path| ensures path[a] != path[b] {
      assert Before(sorted, path[a], path[b]);
    }
  }

  /** On the path every statement comes after those of the transactions its own depends on by any of the
      five kinds, and after its own transaction's earlier ones. */
  lemma PathFollowsDependencies(leaf: Leaf, run: (Queues, seq<int>) -> Outcome, check: (Queues, seq<StmtId>) -> Check,
                                a: nat, b: nat)
    requires Concluded(leaf, run, check) && leaf.end.Compared? && a < |leaf.end.path| && b < |leaf.end.path|
    requires run(leaf.q, leaf.deleted).Analyzed?
    requires DependsBy(run(leaf.q, leaf.deleted).g, leaf.end.path[a].txn, leaf.end.path[b].txn) ||
             (leaf.end.path[a].txn == leaf.end.path[b].txn && leaf.end.path[a].pos < leaf.end.path[b].pos)
    ensures a < b
  {
    var g, s, t := run(leaf.q, leaf.deleted).g, leaf.end.path[a].txn, leaf.end.path[b].txn;
    assert DependsBy(g, s, t) ==> Edge(g, s, t);
  }

  predicate DependsBy(g: Graph, s: int, t: int) {
    0 <= s < |g| && 0 <= t < |g[s]| &&
    g[s][t] * {WriteRead, WriteWrite, ReadWrite, VersionSetDepend, OverwriteDepend} != {}
  }
}
