/** What the transaction level of `minimize_testcase` achieves, in terms of which transactions are left. */
module TxnMinimal {
  import opened TxQueue
  import opened TxMinimize
  import opened TxMinimizer
  import opened Sequences
  import opened Reduction

  predicate Increasing(s: seq<int>) { forall j, k :: 0 <= j < k < |s| ==> s[j] < s[k] }

  /** The position of `t`, the length if it does not occur. */
  function IndexOf(s: seq<int>, t: int): (k: nat)
    ensures k <= |s| && (k < |s| ==> s[k] == t) && forall j :: 0 <= j < k ==> s[j] != t
  {
    if s == [] || s[0] == t then 0
    else
      var k := 1 + IndexOf(s[1..], t);
      assert forall j :: 0 < j < |s| ==> s[j] == s[1..][j - 1];
      k
  }

  /** The statements of some of the transactions, in their order; the transactions are numbered anew. */
  function OfTxns(raw: seq<Raw>, txns: seq<int>): seq<Raw> {
    if raw == [] then [] else
    var r := raw[|raw| - 1];
    OfTxns(raw[..|raw| - 1], txns) + if r.tid in txns then [Raw(r.stmt, IndexOf(txns, r.tid))] else []
  }

  lemma {:induction false} OfAllTxns(raw: seq<Raw>, txns: seq<int>, n: nat)
    requires |txns| == n && forall t :: 0 <= t < n ==> txns[t] == t
    requires forall x :: 0 <= x < |raw| ==> 0 <= raw[x].tid < n
    ensures OfTxns(raw, txns) == raw
  {
    if raw != [] {
      var m := |raw| - 1;
      OfAllTxns(raw[..m], txns, n);
      var t := raw[m].tid;
      assert txns[t] == t && IndexOf(txns, t) == t;
      assert raw == raw[..m] + [raw[m]];
    }
  }

  lemma WithoutTxnOfSnoc(a: seq<Raw>, r: Raw, gone: int)
    ensures WithoutTxn(a + [r], gone) ==
      WithoutTxn(a, gone) + if r.tid == gone then [] else [Raw(r.stmt, Shift(r.tid, gone))]
  {
    assert (a + [r])[..|a + [r]| - 1] == a;
  }

  /** The number of a transaction after another one is cut. */
  lemma IndexAfterCut(txns: seq<int>, k: nat, t: int)
    requires Increasing(txns) && k < |txns|
    ensures t in Cut(txns, k) <==> t in txns && t != txns[k]
    ensures t in txns && t != txns[k] ==> IndexOf(Cut(txns, k), t) == Shift(IndexOf(txns, t), k)
    ensures t in txns ==> (IndexOf(txns, t) == k <==> t == txns[k])
  {
    if t in txns {
      var i := IndexOf(txns, t);
      if i != k {
        var j := InCut(txns, k, i);
        assert t in Cut(txns, k) && IndexOf(Cut(txns, k), t) == j;
      }
    }
  }

  /** Dropping transaction `k` of a part leaves the part without it. */
  lemma {:induction false} WithoutOfTxns(raw: seq<Raw>, txns: seq<int>, k: nat)
    requires Increasing(txns) && k < |txns|
    ensures WithoutTxn(OfTxns(raw, txns), k) == OfTxns(raw, Cut(txns, k))
  {
    if raw == [] {
      assert WithoutTxn([], k) == [];
    } else {
      var m := |raw| - 1;
      var r := raw[m];
      var part := OfTxns(raw[..m], txns);
      WithoutOfTxns(raw[..m], txns, k);
      IndexAfterCut(txns, k, r.tid);
      if r.tid in txns {
        WithoutTxnOfSnoc(part, Raw(r.stmt, IndexOf(txns, r.tid)), k);
      } else {
        assert part + [] == part;
      }
      assert OfTxns(raw, Cut(txns, k)) == WithoutTxn(part, k) +
        if r.tid in Cut(txns, k) then [Raw(r.stmt, IndexOf(Cut(txns, k), r.tid))] else [];
    }
  }

  lemma CutIncreases(txns: seq<int>, k: nat)
    requires Increasing(txns) && k < |txns|
    ensures Increasing(Cut(txns, k))
  {
  }

  /** The transaction level is a pass that drops transactions. */
  lemma {:induction false} TxnPassDrops(raw: seq<Raw>, k: nat, num: nat, accept: seq<Raw> -> bool,
                                        drop: (seq<Raw>, nat) -> seq<Raw>)
    requires forall a, j: nat {:trigger drop(a, j)} :: drop(a, j) == WithoutTxn(a, j)
    ensures TxnPass(raw, k, num, accept) == PartPass(raw, k, num, drop, accept)
    decreases num - k
  {
    if k < num {
      var next := WithoutTxn(raw, k);
      assert drop(raw, k) == next;
      if accept(next) {
        TxnPassDrops(next, k, num - 1, accept, drop);
      } else {
        TxnPassDrops(raw, k + 1, num, accept, drop);
      }
    }
  }

  /** The transactions of a test case are numbered from 0 and all there. */
  predicate AllTxns(raw: seq<Raw>, n: nat) {
    (forall x :: 0 <= x < |raw| ==> 0 <= raw[x].tid < n) && forall t :: 0 <= t < n ==> HasTxn(raw, t)
  }

  predicate HasTxn(raw: seq<Raw>, t: int) { exists x :: 0 <= x < |raw| && raw[x].tid == t }

  lemma LargestTid(raw: seq<Raw>, n: nat)
    requires AllTxns(raw, n)
    ensures Largest(Unzip(Items(raw)).tids) == n - 1
  {
    var tids := Unzip(Items(raw)).tids;
    LargestIsBound(tids);
    LargestOccurs(tids);
    TidsOfItems(raw, Largest(tids));
    if Largest(tids) >= 0 {
      var k :| 0 <= k < |tids| && tids[k] == Largest(tids);
      var j := EntryOfBlock(raw, k);
    }
    if n > 0 {
      assert HasTxn(raw, n - 1);
    }
  }

  lemma {:induction false} LargestOccurs(tids: seq<int>)
    ensures Largest(tids) == -1 || Largest(tids) in tids
  {
    if tids != [] {
      LargestOccurs(tids[..|tids| - 1]);
      assert tids == tids[..|tids| - 1] + [tids[|tids| - 1]];
    }
  }

  /** Every entry belongs to the transaction of some statement. */
  lemma {:induction false} EntryOfBlock(raw: seq<Raw>, i: nat) returns (j: nat)
    requires i < |Items(raw)|
    ensures j < |raw| && Items(raw)[i].tid == raw[j].tid
  {
    var n := |raw| - 1;
    LastBlock(raw);
    if i < |Items(raw[..n])| {
      j := EntryOfBlock(raw[..n], i);
    } else {
      j := n;
      BlockShape(raw[n]);
    }
  }

  lemma DroppedTxns(raw: seq<Raw>, all: seq<int>, drop: (seq<Raw>, nat) -> seq<Raw>, test: seq<Raw> -> bool,
                    bug: seq<int> -> bool, fixed: int -> bool) returns (left: seq<int>)
    requires Increasing(all) && (forall t :: !fixed(t)) && forall s :: bug(s) == test(OfTxns(raw, s))
    requires forall a, j: nat :: drop(a, j) == WithoutTxn(a, j)
    ensures left == ForwardPass(all, 0, bug, fixed) && Increasing(left)
    ensures PartPass(OfTxns(raw, all), 0, |all|, drop, test) == OfTxns(raw, left)
  {
    var of := (s: seq<int>) => OfTxns(raw, s);
    var ok := (s: seq<int>) => Increasing(s);
    forall r, j: nat | ok(r) && j < |r| ensures drop(of(r), j) == of(Cut(r, j)) && ok(Cut(r, j)) {
      WithoutOfTxns(raw, r, j);
      CutIncreases(r, j);
    }
    assert ok(all);
    assert forall s :: bug(s) == test(of(s));
    assert forall t :: !fixed(t);
    left := PartPassIsForward(all, 0, of, ok, drop, test, bug, fixed);
  }

  /** Which transactions the transaction level leaves: some of the original ones, with every statement
      they had. */
  lemma TxnsLeft(raw: seq<Raw>, n: nat, reproduces: Queues -> bool, save: Queues -> bool) returns (left: seq<int>)
    requires AllTxns(raw, n) && forall q :: save(q)
    ensures var all := seq(n, t => t);
            var bug := (s: seq<int>) => Reproduces(OfTxns(raw, s), reproduces);
            left == ForwardPass(all, 0, bug, (t: int) => false)
    ensures Increasing(left) && AfterTxns(raw, reproduces, save) == OfTxns(raw, left)
  {
    var all := seq(n, t => t);
    var bug := (s: seq<int>) => Reproduces(OfTxns(raw, s), reproduces);
    var fixed := (t: int) => false;
    LargestTid(raw, n);
    OfAllTxns(raw, all, n);
    var accept := Accepts(reproduces, save);
    var drop := (a: seq<Raw>, k: nat) => WithoutTxn(a, k);
    TxnPassDrops(raw, 0, n, accept, drop);
    left := DroppedTxns(raw, all, drop, accept, bug, fixed);
    assert left == ForwardPass(all, 0, bug, fixed);
  }

  /** The failure persists without transaction `t`. */
  predicate PersistsWithout(raw: seq<Raw>, t: nat, reproduces: Queues -> bool) {
    reproduces(Unzip(Items(WithoutTxn(raw, t))))
  }

  lemma PersistsIsBug(raw: seq<Raw>, all: seq<int>, n: nat, t: nat, reproduces: Queues -> bool)
    requires AllTxns(raw, n) && |all| == n && (forall k :: 0 <= k < n ==> all[k] == k) && t < n
    ensures PersistsWithout(raw, t, reproduces) <==> Reproduces(OfTxns(raw, Cut(all, t)), reproduces)
  {
    OfAllTxns(raw, all, n);
    WithoutOfTxns(raw, all, t);
  }

  /** If every cut is saved, fewer transactions are left if and only if the failure persists without some
      one of them. */
  lemma FewerTxnsIff(raw: seq<Raw>, n: nat, reproduces: Queues -> bool, save: Queues -> bool) returns (left: seq<int>)
    requires AllTxns(raw, n) && forall q :: save(q)
    ensures Increasing(left) && AfterTxns(raw, reproduces, save) == OfTxns(raw, left) && |left| <= n
    ensures |left| < n <==> exists t :: 0 <= t < n && PersistsWithout(raw, t, reproduces)
  {
    left := TxnsLeft(raw, n, reproduces, save);
    FewerLeftIff(raw, n, reproduces, left, (s: seq<int>) => Reproduces(OfTxns(raw, s), reproduces), (t: int) => false);
  }

  lemma FewerLeftIff(raw: seq<Raw>, n: nat, reproduces: Queues -> bool, left: seq<int>, bug: seq<int> -> bool,
                     fixed: int -> bool)
    requires AllTxns(raw, n) && (forall t :: !fixed(t))
    requires forall s :: bug(s) == Reproduces(OfTxns(raw, s), reproduces)
    requires left == ForwardPass(seq(n, t => t), 0, bug, fixed)
    ensures |left| <= n
    ensures |left| < n <==> exists t :: 0 <= t < n && PersistsWithout(raw, t, reproduces)
  {
    var all := seq(n, t => t);
    ForwardPassShrinks(all, 0, bug, fixed);
    forall t: nat | t < n ensures bug(Cut(all, t)) <==> PersistsWithout(raw, t, reproduces) {
      PersistsIsBug(raw, all, n, t, reproduces);
    }
    if |left| < n {
      var k :| 0 <= k < |all| && !fixed(all[k]) && bug(Cut(all, k));
      assert PersistsWithout(raw, k, reproduces);
    }
    if t :| 0 <= t < n && PersistsWithout(raw, t, reproduces) {
      assert !fixed(all[t]) && bug(Cut(all, t));
    }
  }

  /** If moreover adding transactions back cannot hide the failure, none of those left can be dropped. */
  lemma TxnsAreMinimal(raw: seq<Raw>, n: nat, reproduces: Queues -> bool, save: Queues -> bool) returns (left: seq<int>)
    requires AllTxns(raw, n) && forall q :: save(q)
    requires UpwardClosed(seq(n, t => t), (s: seq<int>) => Reproduces(OfTxns(raw, s), reproduces))
    ensures Increasing(left) && AfterTxns(raw, reproduces, save) == OfTxns(raw, left)
    ensures forall t :: 0 <= t < |left| ==> !PersistsWithout(AfterTxns(raw, reproduces, save), t, reproduces)
  {
    left := TxnsLeft(raw, n, reproduces, save);
    var all := seq(n, t => t);
    var bug := (s: seq<int>) => Reproduces(OfTxns(raw, s), reproduces);
    var fixed := (t: int) => false;
    assert left == ForwardPass(all, 0, bug, fixed);
    assert UpwardClosed(all, bug);
    ForwardPassIsMinimal(all, bug, fixed);
    forall t: nat | t < |left| ensures !PersistsWithout(AfterTxns(raw, reproduces, save), t, reproduces) {
      WithoutOfTxns(raw, left, t);
      assert !bug(Cut(left, t));
    }
  }
}
