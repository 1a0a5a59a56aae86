/** Statements named by transaction and position, and the serial path that runs the sorted transactions
    one after the other. */
module SerialPath {
  import opened TxQueue
  import opened TxnGraph

  datatype StmtId = StmtId(txn: int, pos: int)

  /** How many of the first `n` entries belong to `txn`. */
  function Occurrences(tids: seq<int>, txn: int, n: nat): nat
    requires n <= |tids|
  {
    if n == 0 then 0 else Occurrences(tids, txn, n - 1) + if tids[n - 1] == txn then 1 else 0
  }

  function IdOf(tids: seq<int>, i: nat): StmtId
    requires i < |tids|
  {
    StmtId(tids[i], Occurrences(tids, tids[i], i))
  }

  method NewStmtId(tids: seq<int>, i: nat) returns (id: StmtId)
    requires i < |tids|
    ensures id == IdOf(tids, i)
  {
    var txn, pos := tids[i], -1;
    for k := 0 to i + 1
      invariant pos == Occurrences(tids, txn, k) - 1
    {
      if tids[k] == txn { pos := pos + 1; }
    }
    id := StmtId(txn, pos);
  }

  method TransferToStmtIdx(id: StmtId, tids: seq<int>) returns (i: int)
    ensures i == -1 || (0 <= i < |tids| && IdOf(tids, i) == id)
    ensures i == -1 ==> id.txn == -1 || forall k :: 0 <= k < |tids| ==> IdOf(tids, k) != id
  {
    if id.txn == -1 || id.pos == -1 { return -1; }
    var target := -1;
    for k := 0 to |tids|
      invariant target == Occurrences(tids, id.txn, k) - 1
      invariant forall j :: 0 <= j < k ==> IdOf(tids, j) != id
    {
      if tids[k] == id.txn {
        target := target + 1;
        if target == id.pos { return k; }
      }
    }
    i := -1;
  }

  lemma {:induction false} CountGrows(tids: seq<int>, txn: int, i: nat, j: nat)
    requires i <= j <= |tids|
    ensures Occurrences(tids, txn, i) <= Occurrences(tids, txn, j)
    decreases j
  {
    if i < j { CountGrows(tids, txn, i, j - 1); }
  }

  /** In a transaction, names are ordered as positions in the queue; so a name has one position. */
  lemma IdsAreOrdered(tids: seq<int>, i: nat, j: nat)
    requires i < j < |tids|
    ensures IdOf(tids, i) != IdOf(tids, j)
    ensures tids[i] == tids[j] ==> IdOf(tids, i).pos < IdOf(tids, j).pos
  {
    if tids[i] == tids[j] { CountGrows(tids, tids[i], i + 1, j); }
  }

  lemma {:induction false} EveryPositionIsNamed(tids: seq<int>, txn: int, pos: nat, n: nat) returns (i: nat)
    requires n <= |tids| && pos < Occurrences(tids, txn, n)
    ensures i < n && IdOf(tids, i) == StmtId(txn, pos)
    decreases n
  {
    if tids[n - 1] == txn && pos == Occurrences(tids, txn, n - 1) {
      i := n - 1;
    } else {
      i := EveryPositionIsNamed(tids, txn, pos, n - 1);
    }
  }

  // ---- the path ----

  /** An entry that is not BEGIN, COMMIT, ABORT or a placeholder. */
  predicate Runs(q: Queues, i: int) {
    0 <= i < |q.tids| && i < |q.usages| && q.usages[i].kind != InitType
  }

  ghost predicate Names(q: Queues, txns: seq<int>, id: StmtId) {
    exists i :: Runs(q, i) && q.tids[i] in txns && IdOf(q.tids, i) == id
  }

  ghost predicate Earlier(txns: seq<int>, s: int, t: int) {
    exists x, y :: 0 <= x < y < |txns| && txns[x] == s && txns[y] == t
  }

  /** Transaction order first, then program order. */
  ghost predicate Before(txns: seq<int>, s: StmtId, t: StmtId) {
    (s.txn == t.txn && s.pos < t.pos) || Earlier(txns, s.txn, t.txn)
  }

  /** The path lists exactly the running entries of the given transactions, in serial order. */
  ghost predicate Serial(q: Queues, txns: seq<int>, path: seq<StmtId>) {
    (forall i {:trigger Runs(q, i)} :: Runs(q, i) && q.tids[i] in txns ==> IdOf(q.tids, i) in path) &&
    (forall k :: 0 <= k < |path| ==> Names(q, txns, path[k])) &&
    (forall a, b :: 0 <= a < b < |path| ==> Before(txns, path[a], path[b]))
  }

  /** The statements of one transaction, in program order. */
  method TxnPart(q: Queues, txn: int) returns (part: seq<StmtId>)
    requires |q.usages| == |q.tids| && txn >= 0
    ensures Serial(q, [txn], part) && forall k :: 0 <= k < |part| ==> part[k].txn == txn
  {
    part := [];
    var num := Occurrences(q.tids, txn, |q.tids|);
    for pos := 0 to num
      invariant forall k :: 0 <= k < |part| ==> Names(q, [txn], part[k]) && part[k].txn == txn && part[k].pos < pos
      invariant forall a, b :: 0 <= a < b < |part| ==> part[a].pos < part[b].pos
      invariant forall i {:trigger Runs(q, i)} ::
        Runs(q, i) && q.tids[i] == txn && IdOf(q.tids, i).pos < pos ==> IdOf(q.tids, i) in part
    {
      ghost var at := EveryPositionIsNamed(q.tids, txn, pos, |q.tids|);
      var i := PositionOf(q.tids, txn, pos, at);
      OnlyAt(q.tids, txn, pos, i);
      if q.usages[i].kind != InitType {
        assert Runs(q, i);
        part := part + [StmtId(txn, pos)];
      }
    }
    forall i | Runs(q, i) && q.tids[i] in [txn] ensures IdOf(q.tids, i) in part {
      CountGrows(q.tids, txn, i + 1, |q.tids|);
    }
  }

  lemma OnlyAt(tids: seq<int>, txn: int, pos: nat, i: nat)
    requires i < |tids| && IdOf(tids, i) == StmtId(txn, pos)
    ensures forall k :: 0 <= k < |tids| && tids[k] == txn && IdOf(tids, k).pos == pos ==> k == i
  {
    forall k | 0 <= k < |tids| && tids[k] == txn && IdOf(tids, k).pos == pos ensures k == i {
      if k < i { IdsAreOrdered(tids, k, i); }
      if i < k { IdsAreOrdered(tids, i, k); }
    }
  }

  /** `transfer_2_stmt_idx` on a name that exists. */
  method PositionOf(tids: seq<int>, txn: int, pos: nat, ghost at: nat) returns (i: nat)
    requires at < |tids| && IdOf(tids, at) == StmtId(txn, pos) && txn != -1
    ensures i == at
  {
    var idx := TransferToStmtIdx(StmtId(txn, pos), tids);
    OnlyAt(tids, txn, pos, at);
    i := idx;
  }

  method BuildSerialPath(q: Queues, txns: seq<int>) returns (path: seq<StmtId>)
    requires |q.usages| == |q.tids| && forall k :: 0 <= k < |txns| ==> txns[k] >= 0
    ensures Serial(q, txns, path)
  {
    path := [];
    for n := 0 to |txns|
      invariant Serial(q, txns[..n], path)
    {
      var part := TxnPart(q, txns[n]);
      assert txns[..n + 1] == txns[..n] + [txns[n]];
      SerialConcat(q, txns[..n], txns[n], path, part);
      path := path + part;
    }
    assert txns[..|txns|] == txns;
  }

  lemma SerialConcat(q: Queues, txns: seq<int>, txn: int, path: seq<StmtId>, part: seq<StmtId>)
    requires Serial(q, txns, path) && Serial(q, [txn], part) && forall k :: 0 <= k < |part| ==> part[k].txn == txn
    ensures Serial(q, txns + [txn], path + part)
  {
    var all, p := txns + [txn], path + part;
    forall i {:trigger Runs(q, i)} | Runs(q, i) && q.tids[i] in all ensures IdOf(q.tids, i) in p {
      assert q.tids[i] in txns || q.tids[i] in [txn];
    }
    forall k | 0 <= k < |p| ensures Names(q, all, p[k]) {
      if k < |path| { NamesMore(q, txns, all, path[k]); } else { NamesMore(q, [txn], all, part[k - |path|]); }
    }
    forall a, b | 0 <= a < b < |p| ensures Before(all, p[a], p[b]) {
      if b < |path| {
        StillBefore(txns, txn, path[a], path[b]);
      } else if a < |path| {
        assert Names(q, txns, path[a]);
        assert path[a].txn in txns;
        var x :| 0 <= x < |txns| && txns[x] == path[a].txn;
        assert all[x] == p[a].txn && all[|txns|] == p[b].txn;
      } else {
        assert Before([txn], part[a - |path|], part[b - |path|]);
      }
    }
  }

  lemma NamesMore(q: Queues, txns: seq<int>, more: seq<int>, id: StmtId)
    requires Names(q, txns, id) && forall t :: t in txns ==> t in more
    ensures Names(q, more, id)
  {
  }

  lemma StillBefore(txns: seq<int>, txn: int, s: StmtId, t: StmtId)
    requires Before(txns, s, t)
    ensures Before(txns + [txn], s, t)
  {
    if Earlier(txns, s.txn, t.txn) {
      var x, y :| 0 <= x < y < |txns| && txns[x] == s.txn && txns[y] == t.txn;
      var all := txns + [txn];
      assert all[x] == s.txn && all[y] == t.txn;
    }
  }
}
