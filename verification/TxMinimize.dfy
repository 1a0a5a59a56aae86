/** `minimize_testcase`: transactions, then statements, are cut out of the three parallel vectors by
    erasing and index arithmetic. The code relies on the block shape the instrumentor produced; here
    every cut is shown to remove whole blocks. */
module TxMinimize {
  import opened TxQueue
  import opened Sequences

  function EraseAt(q: Queues, i: nat): Queues
    requires InStep(q) && i < |q.stmts|
  {
    Queues(q.stmts[..i] + q.stmts[i + 1..], q.tids[..i] + q.tids[i + 1..], q.usages[..i] + q.usages[i + 1..])
  }

  lemma EraseAtUnzip(items: seq<Item>, i: nat)
    requires i < |items|
    ensures EraseAt(Unzip(items), i) == Unzip(items[..i] + items[i + 1..])
  {
  }

  /** Erasing the entry in the middle. */
  lemma EraseMiddle(a: seq<Item>, x: Item, b: seq<Item>)
    ensures EraseAt(Unzip(a + [x] + b), |a|) == Unzip(a + b)
  {
    var items := a + [x] + b;
    assert items[..|a|] == a && items[|a| + 1..] == b;
    EraseAtUnzip(items, |a|);
  }

  // ---- what stands beside a block ----

  lemma FirstOfItems(raw: seq<Raw>)
    requires raw != []
    ensures |Items(raw)| > 0 && Items(raw)[0].usage.kind != AfterWriteRead
  {
    assert Items(raw)[0] == Block(raw[0])[0];
    if |Reads(raw[0])| > 0 { assert Block(raw[0])[0] == Reads(raw[0])[0]; }
  }

  lemma LastOfItems(raw: seq<Raw>)
    requires raw != []
    ensures |Items(raw)| > 0 && !IsRead(Items(raw)[|Items(raw)| - 1].usage)
  {
    var n := |raw| - 1;
    ItemsAround(raw, n);
    assert raw[..n + 1] == raw;
    LastOfBlock(raw[n]);
    LastOfConcat(Items(raw[..n]), Block(raw[n]));
  }

  lemma LastOfBlock(r: Raw)
    ensures |Block(r)| > 0 && !IsRead(Block(r)[|Block(r)| - 1].usage)
  {
    BlockShape(r);
    LastOfConcat(Reads(r), [Basic(r)]);
    if Tail(r) != [] { LastOfConcat(Reads(r) + [Basic(r)], Tail(r)); }
  }

  lemma LastOfConcat(a: seq<Item>, b: seq<Item>)
    requires b != []
    ensures (a + b)[|a + b| - 1] == b[|b| - 1]
  {
  }

  // ---- deleting a statement ----

  /** The entry at `i` with the reads before it and the read after it, in the order the code erases
      them; `before` is the index the outer loop goes on from. */
  method DeleteAt(q: Queues, i: nat, ghost left: seq<Item>, ghost reads_: seq<Item>, ghost basic: Item,
                  ghost tail: seq<Item>, ghost right: seq<Item>) returns (r: Queues, before: int)
    requires q == Unzip(left + reads_ + [basic] + tail + right) && i == |left| + |reads_| && i + 1 < |q.stmts|
    requires if q.usages[i + 1].kind == AfterWriteRead then |tail| == 1 else |tail| == 0
    requires forall k :: 0 <= k < |reads_| ==> IsRead(reads_[k].usage)
    requires left != [] ==> !IsRead(left[|left| - 1].usage)
    ensures r == Unzip(left + right) && before == |left| - 1
  {
    r := q;
    if q.usages[i + 1].kind == AfterWriteRead {
      assert tail == [tail[0]];
      EraseMiddle(left + reads_ + [basic], tail[0], right);
      r := EraseAt(r, i + 1);
    } else {
      assert left + reads_ + [basic] + tail + right == left + reads_ + [basic] + right;
    }
    EraseMiddle(left + reads_, basic, right);
    r := EraseAt(r, i);
    r, before := EraseReads(r, i - 1, left, reads_, right);
  }

  /** The entry before `right` is a read exactly while there are reads left. */
  lemma ReadIsLast(left: seq<Item>, mid: seq<Item>, right: seq<Item>)
    requires forall k :: 0 <= k < |mid| ==> IsRead(mid[k].usage)
    requires left != [] ==> !IsRead(left[|left| - 1].usage)
    ensures var last := |left| + |mid| - 1;
            last >= 0 ==> (IsRead(Unzip(left + mid + right).usages[last]) <==> mid != [])
  {
    var last := |left| + |mid| - 1;
    if mid != [] {
      assert (left + mid + right)[last] == mid[|mid| - 1];
    } else if left != [] {
      assert (left + mid + right)[last] == left[|left| - 1];
    }
  }

  lemma EraseLastRead(left: seq<Item>, mid: seq<Item>, right: seq<Item>)
    requires mid != []
    ensures EraseAt(Unzip(left + mid + right), |left| + |mid| - 1) == Unzip(left + mid[..|mid| - 1] + right)
  {
    var a, x := left + mid[..|mid| - 1], mid[|mid| - 1];
    assert left + mid + right == a + [x] + right;
    EraseMiddle(a, x, right);
  }

  method EraseReads(q: Queues, start: int, ghost left: seq<Item>, ghost reads_: seq<Item>, ghost right: seq<Item>)
    returns (r: Queues, before: int)
    requires q == Unzip(left + reads_ + right) && start == |left| + |reads_| - 1
    requires forall k :: 0 <= k < |reads_| ==> IsRead(reads_[k].usage)
    requires left != [] ==> !IsRead(left[|left| - 1].usage)
    ensures r == Unzip(left + right) && before == |left| - 1
  {
    r, before := q, start;
    ghost var mid := reads_;
    ReadIsLast(left, mid, right);
    while before >= 0 && IsRead(r.usages[before])
      invariant before == |left| + |mid| - 1
      invariant r == Unzip(left + mid + right)
      invariant forall k :: 0 <= k < |mid| ==> IsRead(mid[k].usage)
      invariant before >= 0 ==> (IsRead(r.usages[before]) <==> mid != [])
      decreases before
    {
      EraseLastRead(left, mid, right);
      r := EraseAt(r, before);
      before := before - 1;
      mid := mid[..|mid| - 1];
      ReadIsLast(left, mid, right);
    }
    assert left + mid + right == left + right;
  }

  /** Statement `j` is the entry at `i`: deleting it removes exactly its block from all three vectors. */
  method DeleteStmt(q: Queues, i: nat, ghost raw: seq<Raw>, ghost j: nat) returns (r: Queues, before: int)
    requires q == Unzip(Items(raw)) && j < |raw| && i == |Items(raw[..j])| + |Reads(raw[j])|
    requires i + 1 < |q.stmts|
    ensures r == Unzip(Items(raw[..j] + raw[j + 1..]))
    ensures before == |Items(raw[..j])| - 1
  {
    ghost var left, right := DeletionFits(raw, j);
    r, before := DeleteAt(q, i, left, Reads(raw[j]), Basic(raw[j]), Tail(raw[j]), right);
  }

  /** What lies around the block of statement `j`, as the deletion needs it. */
  lemma DeletionFits(raw: seq<Raw>, j: nat) returns (left: seq<Item>, right: seq<Item>)
    requires j < |raw|
    ensures |left| == |Items(raw[..j])| && Items(raw[..j] + raw[j + 1..]) == left + right
    ensures var reads_, tail, i := Reads(raw[j]), Tail(raw[j]), |left| + |Reads(raw[j])|;
            Items(raw) == left + reads_ + [Basic(raw[j])] + tail + right &&
            (i + 1 < |Items(raw)| ==>
              if Items(raw)[i + 1].usage.kind == AfterWriteRead then |tail| == 1 else |tail| == 0) &&
            (forall k :: 0 <= k < |reads_| ==> IsRead(reads_[k].usage))
    ensures left != [] ==> !IsRead(left[|left| - 1].usage)
  {
    left, right := Items(raw[..j]), Items(raw[j + 1..]);
    BlockAt(raw, j);
    ReadsAreReads(raw[j]);
    if raw[..j] != [] { LastOfItems(raw[..j]); }
    ItemsConcat(raw[..j], raw[j + 1..]);
  }

  lemma ReadsAreReads(r: Raw)
    ensures forall k :: 0 <= k < |Reads(r)| ==> IsRead(Reads(r)[k].usage)
  {
    BlockShape(r);
  }

  /** Around the entry of statement `j`: what comes after it is its own tail or no AFTER_WRITE_READ. */
  lemma BlockAt(raw: seq<Raw>, j: nat)
    requires j < |raw|
    ensures var left, right := Items(raw[..j]), Items(raw[j + 1..]);
            var reads_, basic, tail := Reads(raw[j]), Basic(raw[j]), Tail(raw[j]);
            var i := |left| + |reads_|;
            Items(raw) == left + reads_ + [basic] + tail + right && i < |Items(raw)| && Items(raw)[i] == basic &&
            (i + 1 < |Items(raw)| ==>
              if Items(raw)[i + 1].usage.kind == AfterWriteRead then |tail| == 1 else |tail| == 0)
  {
    ItemsAround(raw, j);
    var left, right := Items(raw[..j]), Items(raw[j + 1..]);
    var reads_, basic, tail := Reads(raw[j]), Basic(raw[j]), Tail(raw[j]);
    Reassociate(left, reads_ + [basic], tail);
    Reassociate(left, reads_, [basic]);
    var i := |left| + |reads_|;
    if |tail| == 0 && i + 1 < |Items(raw)| {
      assert Items(raw)[i + 1] == right[0];
      FirstOfItems(raw[j + 1..]);
    }
  }

  // ---- deleting a transaction ----

  function Shift(tid: int, gone: int): int { if tid < gone then tid else tid - 1 }

  /** The entries of other transactions. */
  function Others(items: seq<Item>, gone: int): (r: seq<Item>)
    ensures |r| <= |items|
  {
    if items == [] then [] else
    var n := |items| - 1;
    Others(items[..n], gone) + if items[n].tid == gone then [] else [items[n]]
  }

  function Shifted(items: seq<Item>, gone: int): seq<Item> {
    seq(|items|, k requires 0 <= k < |items| => items[k].(tid := Shift(items[k].tid, gone)))
  }

  /** The positions of the statements of other transactions, in order. */
  function Survivors(raw: seq<Raw>, gone: int): (s: seq<nat>)
    ensures forall x :: 0 <= x < |s| ==> s[x] < |raw| && raw[s[x]].tid != gone
  {
    if raw == [] then [] else
    var n := |raw| - 1;
    var s := Survivors(raw[..n], gone);
    assert forall x :: 0 <= x < |s| ==> raw[..n][s[x]] == raw[s[x]];
    if raw[n].tid == gone then s else s + [n]
  }

  lemma {:induction false} SurvivorsFacts(raw: seq<Raw>, gone: int)
    ensures var s := Survivors(raw, gone);
            (forall x, y :: 0 <= x < y < |s| ==> s[x] < s[y]) &&
            (forall y :: 0 <= y < |raw| && raw[y].tid != gone ==> y in s)
  {
    if raw != [] {
      var n := |raw| - 1;
      SurvivorsFacts(raw[..n], gone);
      var s, p := Survivors(raw, gone), Survivors(raw[..n], gone);
      assert s == p + if raw[n].tid == gone then [] else [n];
      forall y | 0 <= y < |raw| && raw[y].tid != gone ensures y in s {
        if y < n { assert raw[..n][y] == raw[y] && y in p; }
      }
    }
  }

  /** The statement list without a transaction, the later transactions renumbered. */
  function WithoutTxn(raw: seq<Raw>, gone: int): seq<Raw> {
    if raw == [] then [] else
    var r := raw[|raw| - 1];
    WithoutTxn(raw[..|raw| - 1], gone) + if r.tid == gone then [] else [Raw(r.stmt, Shift(r.tid, gone))]
  }

  /** Its statements are those of the survivors. */
  lemma {:induction false} WithoutTxnAt(raw: seq<Raw>, gone: int)
    ensures var r, s := WithoutTxn(raw, gone), Survivors(raw, gone);
            |r| == |s| && forall x :: 0 <= x < |r| ==> r[x] == Raw(raw[s[x]].stmt, Shift(raw[s[x]].tid, gone))
  {
    if raw != [] {
      var n := |raw| - 1;
      WithoutTxnAt(raw[..n], gone);
      var s := Survivors(raw[..n], gone);
      assert forall x :: 0 <= x < |s| ==> raw[..n][s[x]] == raw[s[x]];
    }
  }

  lemma {:induction false} OthersConcat(a: seq<Item>, b: seq<Item>, gone: int)
    ensures Others(a + b, gone) == Others(a, gone) + Others(b, gone)
  {
    if b == [] {
      assert a + b == a;
    } else {
      var n := |b| - 1;
      assert (a + b)[..|a| + n] == a + b[..n] && (a + b)[|a| + n] == b[n];
      OthersConcat(a, b[..n], gone);
    }
  }

  lemma {:induction false} OthersOfOneTxn(items: seq<Item>, tid: int, gone: int)
    requires forall k :: 0 <= k < |items| ==> items[k].tid == tid
    ensures Others(items, gone) == if tid == gone then [] else items
  {
    if items != [] {
      OthersOfOneTxn(items[..|items| - 1], tid, gone);
      assert items == items[..|items| - 1] + [items[|items| - 1]];
    }
  }

  lemma ShiftedBlock(r: Raw, gone: int)
    ensures Shifted(Block(r), gone) == Block(Raw(r.stmt, Shift(r.tid, gone)))
  {
  }

  /** Erasing the entries of a transaction and renumbering gives the instrumentation of the
      statement list without it. */
  lemma {:induction false} ItemsWithoutTxn(raw: seq<Raw>, gone: int)
    ensures Shifted(Others(Items(raw), gone), gone) == Items(WithoutTxn(raw, gone))
  {
    if raw == [] {
      assert Items(raw) == [] && WithoutTxn(raw, gone) == [];
    } else {
      ItemsWithoutTxn(raw[..|raw| - 1], gone);
      ItemsWithoutTxnSnoc(raw, gone);
    }
  }

  lemma OthersSnoc(raw: seq<Raw>, gone: int)
    requires raw != []
    ensures var n := |raw| - 1;
            Others(Items(raw), gone) == Others(Items(raw[..n]), gone) + if raw[n].tid == gone then [] else Block(raw[n])
  {
    var n := |raw| - 1;
    ItemsAround(raw, n);
    assert raw[..n + 1] == raw;
    OthersConcat(Items(raw[..n]), Block(raw[n]), gone);
    BlockShape(raw[n]);
    OthersOfOneTxn(Block(raw[n]), raw[n].tid, gone);
  }

  lemma ItemsWithoutTxnSnoc(raw: seq<Raw>, gone: int)
    requires raw != []
    requires var prefix := raw[..|raw| - 1];
             Shifted(Others(Items(prefix), gone), gone) == Items(WithoutTxn(prefix, gone))
    ensures Shifted(Others(Items(raw), gone), gone) == Items(WithoutTxn(raw, gone))
  {
    var prefix, r := raw[..|raw| - 1], raw[|raw| - 1];
    var shifted := Raw(r.stmt, Shift(r.tid, gone));
    OthersSnoc(raw, gone);
    ShiftedConcat(Others(Items(prefix), gone), Block(r), gone);
    ShiftedBlock(r, gone);
    ItemsOfOne(shifted);
    ItemsConcat(WithoutTxn(prefix, gone), [shifted]);
    assert WithoutTxn(prefix, gone) + [] == WithoutTxn(prefix, gone);
  }

  lemma ShiftedConcat(a: seq<Item>, b: seq<Item>, gone: int)
    ensures Shifted(a + b, gone) == Shifted(a, gone) + Shifted(b, gone)
    ensures Shifted(a + [], gone) == Shifted(a, gone)
  {
    assert a + [] == a;
  }

  /** Entry `done` is looked at: it stays or goes. */
  lemma OthersNext(items: seq<Item>, done: nat, gone: int)
    requires done < |items|
    ensures var kept, rest := Others(items[..done], gone), items[done + 1..];
            kept + items[done..] == kept + [items[done]] + rest &&
            Others(items[..done + 1], gone) == kept + (if items[done].tid == gone then [] else [items[done]]) &&
            (items[done].tid == gone ==> EraseAt(Unzip(kept + [items[done]] + rest), |kept|) == Unzip(kept + rest))
  {
    var kept, rest := Others(items[..done], gone), items[done + 1..];
    SplitAt(items, done);
    Assoc(kept, [items[done]], rest);
    assert items[..done + 1][done] == items[done];
    EraseMiddle(kept, items[done], rest);
  }

  /** Entry `done` of the queue, now at `i`, is erased or passed by. */
  method LookAt(q: Queues, tid: int, i: nat, ghost items: seq<Item>, ghost done: nat) returns (r: Queues, next: nat)
    requires done < |items| && i == |Others(items[..done], tid)|
    requires q == Unzip(Others(items[..done], tid) + items[done..])
    ensures next == |Others(items[..done + 1], tid)| && r == Unzip(Others(items[..done + 1], tid) + items[done + 1..])
  {
    OthersNext(items, done, tid);
    assert q.tids[i] == items[done].tid;
    if q.tids[i] != tid {
      r, next := q, i + 1;
    } else {
      r, next := EraseAt(q, i), i;
      assert Others(items[..done], tid) + [] == Others(items[..done], tid);
    }
  }

  lemma NoneLookedAt(items: seq<Item>, gone: int)
    ensures Others(items[..0], gone) == [] && [] + items[0..] == items
  {
  }

  lemma AllLookedAt(items: seq<Item>, done: nat, gone: int)
    requires done == |items|
    ensures Others(items[..done], gone) + items[done..] == Others(items, gone)
  {
    assert items[..done] == items;
  }

  method DeleteTxn(q: Queues, tid: int, ghost items: seq<Item>) returns (r: Queues)
    requires q == Unzip(items)
    ensures r == Unzip(Shifted(Others(items, tid), tid))
  {
    r := q;
    var i := 0;
    ghost var done := 0;
    NoneLookedAt(items, tid);
    while i < |r.tids|
      invariant 0 <= done <= |items| && i == |Others(items[..done], tid)|
      invariant r == Unzip(Others(items[..done], tid) + items[done..])
      decreases |items| - done
    {
      r, i := LookAt(r, tid, i, items, done);
      done := done + 1;
    }
    AllLookedAt(items, done, tid);
    r := ShiftTids(r, tid, Others(items, tid));
  }

  method ShiftTids(q: Queues, tid: int, ghost items: seq<Item>) returns (r: Queues)
    requires q == Unzip(items)
    ensures r == Unzip(Shifted(items, tid))
  {
    var tids := q.tids;
    var i := 0;
    while i < |tids|
      invariant 0 <= i <= |tids| == |items|
      invariant forall k :: 0 <= k < i ==> tids[k] == Shift(items[k].tid, tid)
      invariant forall k :: i <= k < |tids| ==> tids[k] == items[k].tid
    {
      if tids[i] >= tid {
        tids := tids[i := tids[i] - 1];
      }
      i := i + 1;
    }
    r := Queues(q.stmts, tids, q.usages);
    assert r == Unzip(Shifted(items, tid)) by {
      assert r.tids == Unzip(Shifted(items, tid)).tids;
    }
  }
}
