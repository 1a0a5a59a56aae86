/** The two loops of `minimize_testcase` and what a reduced test case keeps of the original one. */
module TxMinimizer {
  import opened TxQueue
  import opened TxMinimize
  import opened Sequences
  import opened Reduction
  import opened Sql

  /** BEGIN, COMMIT and ABORT are never deleted on their own. */
  predicate Fixed(s: Stmt, isTxnText: Entry -> bool) { s.Control? && isTxnText(Original(s)) }

  /** A later statement of the same transaction. */
  predicate HasLater(raw: seq<Raw>, x: nat) {
    x < |raw| && exists y :: x < y < |raw| && raw[y].tid == raw[x].tid
  }

  /** Every transaction ends with COMMIT or ABORT. */
  predicate EndsFixed(raw: seq<Raw>, isTxnText: Entry -> bool) {
    forall x {:trigger HasLater(raw, x)} :: 0 <= x < |raw| ==> HasLater(raw, x) || Fixed(raw[x].stmt, isTxnText)
  }

  lemma EndsFixedWithoutTxn(raw: seq<Raw>, gone: int, isTxnText: Entry -> bool)
    requires EndsFixed(raw, isTxnText)
    ensures EndsFixed(WithoutTxn(raw, gone), isTxnText)
  {
    var s, r := Survivors(raw, gone), WithoutTxn(raw, gone);
    SurvivorsFacts(raw, gone);
    WithoutTxnAt(raw, gone);
    forall x | 0 <= x < |r| ensures HasLater(r, x) || Fixed(r[x].stmt, isTxnText) {
      assert HasLater(raw, s[x]) || Fixed(raw[s[x]].stmt, isTxnText);
      if HasLater(raw, s[x]) {
        var y :| s[x] < y < |raw| && raw[y].tid == raw[s[x]].tid;
        var z :| 0 <= z < |s| && s[z] == y;
        assert z > x && r[z].tid == r[x].tid;
      }
    }
  }

  lemma EndsFixedWithoutStmt(raw: seq<Raw>, j: nat, isTxnText: Entry -> bool)
    requires EndsFixed(raw, isTxnText) && j < |raw| && !Fixed(raw[j].stmt, isTxnText)
    ensures EndsFixed(Cut(raw, j), isTxnText)
  {
    var r := Cut(raw, j);
    assert HasLater(raw, j);
    var last :| j < last < |raw| && raw[last].tid == raw[j].tid;
    forall x | 0 <= x < |r| ensures HasLater(r, x) || Fixed(r[x].stmt, isTxnText) {
      var x0 := if x < j then x else x + 1;
      assert HasLater(raw, x0) || Fixed(raw[x0].stmt, isTxnText);
      if HasLater(raw, x0) { StillLater(raw, j, last, x); }
    }
  }

  lemma StillLater(raw: seq<Raw>, j: nat, last: nat, x: nat)
    requires j < last < |raw| && raw[last].tid == raw[j].tid && x < |Cut(raw, j)|
    requires HasLater(raw, if x < j then x else x + 1)
    ensures HasLater(Cut(raw, j), x)
  {
    var x0 := if x < j then x else x + 1;
    var y :| x0 < y < |raw| && raw[y].tid == raw[x0].tid;
    var y' := InCut(raw, j, if y == j then last else y);
    assert Cut(raw, j)[y'].tid == Cut(raw, j)[x].tid;
  }

  /** `raw` is what is left of `raw0`: statement `x` of it is statement `kept[x]` of the original, in
      the original order; transaction `t` of it is transaction `orig[t]` of the original, in the
      original order; and of every transaction that is left the fixed statements are left too (all of
      them, when `whole`). */
  ghost predicate Reduced(raw0: seq<Raw>, raw: seq<Raw>, orig: seq<int>, kept: seq<nat>, whole: bool,
                          isTxnText: Entry -> bool) {
    |kept| == |raw| &&
    (forall x, y :: 0 <= x < y < |kept| ==> kept[x] < kept[y]) &&
    (forall x, y :: 0 <= x < y < |orig| ==> orig[x] < orig[y]) &&
    (forall x {:trigger Came(raw0, raw[x], orig, kept[x])} :: 0 <= x < |raw| ==> Came(raw0, raw[x], orig, kept[x])) &&
    (forall y {:trigger MustStay(raw0, orig, whole, isTxnText, y)} ::
      MustStay(raw0, orig, whole, isTxnText, y) ==> y in kept)
  }

  predicate MustStay(raw0: seq<Raw>, orig: seq<int>, whole: bool, isTxnText: Entry -> bool, y: int) {
    0 <= y < |raw0| && raw0[y].tid in orig && (whole || Fixed(raw0[y].stmt, isTxnText))
  }

  predicate Came(raw0: seq<Raw>, r: Raw, orig: seq<int>, y: nat) {
    y < |raw0| && 0 <= r.tid < |orig| && raw0[y] == Raw(r.stmt, orig[r.tid])
  }

  lemma ReducedIdentity(raw0: seq<Raw>, n: nat, isTxnText: Entry -> bool) returns (orig: seq<int>, kept: seq<nat>)
    requires forall x :: 0 <= x < |raw0| ==> 0 <= raw0[x].tid < n
    ensures |orig| == n && Reduced(raw0, raw0, orig, kept, true, isTxnText)
  {
    orig := seq(n, t => t);
    kept := seq(|raw0|, x => x);
    forall y | 0 <= y < |raw0| ensures y in kept { assert kept[y] == y; }
  }

  /** A statement of a transaction that stays came from the same place as before. */
  lemma CameAfterTxn(raw0: seq<Raw>, r: Raw, orig: seq<int>, y: nat, gone: nat)
    requires gone < |orig| && Came(raw0, r, orig, y) && r.tid != gone
    ensures Came(raw0, Raw(r.stmt, Shift(r.tid, gone)), Cut(orig, gone), y)
  {
    var _ := InCut(orig, gone, r.tid);
  }

  lemma ReducedByTxn(raw0: seq<Raw>, raw: seq<Raw>, orig: seq<int>, kept: seq<nat>, gone: nat, isTxnText: Entry -> bool)
    returns (kept': seq<nat>)
    requires Reduced(raw0, raw, orig, kept, true, isTxnText) && gone < |orig|
    ensures Reduced(raw0, WithoutTxn(raw, gone), Cut(orig, gone), kept', true, isTxnText)
  {
    kept' := KeptAt(raw, gone, kept);
    SurvivorsFacts(raw, gone);
    WithoutTxnAt(raw, gone);
    AllCame(raw0, raw, orig, kept, gone, isTxnText);
    forall y | MustStay(raw0, Cut(orig, gone), true, isTxnText, y) ensures y in kept' {
      StaysKept(raw0, raw, orig, kept, gone, isTxnText, y);
      var z :| 0 <= z < |Survivors(raw, gone)| && kept[Survivors(raw, gone)[z]] == y;
      assert kept'[z] == y;
    }
    forall x, y | 0 <= x < y < |Cut(orig, gone)| ensures Cut(orig, gone)[x] < Cut(orig, gone)[y] { }
  }

  /** The original places of the statements that survive. */
  function KeptAt(raw: seq<Raw>, gone: int, kept: seq<nat>): (k: seq<nat>)
    requires |kept| == |raw|
    ensures |k| == |Survivors(raw, gone)| && forall x :: 0 <= x < |k| ==> k[x] == kept[Survivors(raw, gone)[x]]
  {
    var s := Survivors(raw, gone);
    seq(|s|, x requires 0 <= x < |s| => kept[s[x]])
  }

  lemma AllCame(raw0: seq<Raw>, raw: seq<Raw>, orig: seq<int>, kept: seq<nat>, gone: nat, isTxnText: Entry -> bool)
    requires Reduced(raw0, raw, orig, kept, true, isTxnText) && gone < |orig|
    ensures |WithoutTxn(raw, gone)| == |Survivors(raw, gone)|
    ensures forall x :: 0 <= x < |WithoutTxn(raw, gone)| ==>
      Came(raw0, WithoutTxn(raw, gone)[x], Cut(orig, gone), kept[Survivors(raw, gone)[x]])
  {
    var s, r := Survivors(raw, gone), WithoutTxn(raw, gone);
    WithoutTxnAt(raw, gone);
    forall x | 0 <= x < |r| ensures Came(raw0, r[x], Cut(orig, gone), kept[s[x]]) {
      CameAfterTxn(raw0, raw[s[x]], orig, kept[s[x]], gone);
    }
  }

  lemma StaysKept(raw0: seq<Raw>, raw: seq<Raw>, orig: seq<int>, kept: seq<nat>, gone: nat, isTxnText: Entry -> bool,
                  y: nat)
    requires Reduced(raw0, raw, orig, kept, true, isTxnText) && gone < |orig|
    requires y < |raw0| && raw0[y].tid in Cut(orig, gone)
    ensures exists z :: 0 <= z < |Survivors(raw, gone)| && kept[Survivors(raw, gone)[z]] == y
  {
    var t :| 0 <= t < |Cut(orig, gone)| && Cut(orig, gone)[t] == raw0[y].tid;
    assert MustStay(raw0, orig, true, isTxnText, y);
    var x :| 0 <= x < |kept| && kept[x] == y;
    assert Came(raw0, raw[x], orig, y);
    SurvivorsFacts(raw, gone);
    WithoutTxnAt(raw, gone);
    assert x in Survivors(raw, gone);
  }

  lemma ReducedByStmt(raw0: seq<Raw>, raw: seq<Raw>, orig: seq<int>, kept: seq<nat>, j: nat, whole: bool,
                      isTxnText: Entry -> bool)
    requires Reduced(raw0, raw, orig, kept, whole, isTxnText) && j < |raw| && !Fixed(raw[j].stmt, isTxnText)
    ensures Reduced(raw0, Cut(raw, j), orig, Cut(kept, j), false, isTxnText)
  {
    forall y | MustStay(raw0, orig, false, isTxnText, y) ensures y in Cut(kept, j) {
      assert MustStay(raw0, orig, whole, isTxnText, y);
      var x :| 0 <= x < |kept| && kept[x] == y;
      assert Came(raw0, raw[x], orig, y);
      var _ := InCut(kept, j, x);
    }
  }

  // ---- the two passes over the statements ----

  /** A candidate replaces the test case when it still reproduces and the user saves it. */
  predicate Accepted(raw: seq<Raw>, reproduces: Queues -> bool, save: Queues -> bool) {
    Reproduces(raw, reproduces) && save(Unzip(Items(raw)))
  }

  predicate Reproduces(raw: seq<Raw>, reproduces: Queues -> bool) { reproduces(Unzip(Items(raw))) }

  function Accepts(reproduces: Queues -> bool, save: Queues -> bool): seq<Raw> -> bool {
    (raw: seq<Raw>) => Accepted(raw, reproduces, save)
  }

  /** Each transaction in turn is dropped if that is accepted; the next one then has its number. */
  function TxnPass(raw: seq<Raw>, tid: nat, num: nat, accept: seq<Raw> -> bool): seq<Raw>
    decreases num - tid
  {
    if tid >= num then raw
    else if accept(WithoutTxn(raw, tid)) then TxnPass(WithoutTxn(raw, tid), tid, num - 1, accept)
    else TxnPass(raw, tid + 1, num, accept)
  }

  /** Each statement that may be deleted is dropped if that is accepted. */
  function StmtPass(raw: seq<Raw>, j: nat, reproduces: Queues -> bool, save: Queues -> bool,
                    isTxnText: Entry -> bool): seq<Raw>
    requires j <= |raw|
    decreases |raw| - j
  {
    if j == |raw| then raw
    else if !isTxnText(Original(raw[j].stmt)) && Accepted(Cut(raw, j), reproduces, save) then
      StmtPass(Cut(raw, j), j, reproduces, save, isTxnText)
    else StmtPass(raw, j + 1, reproduces, save, isTxnText)
  }

  // ---- the two loops ----

  /** What both passes keep; `reproduces` is the deterministic outcome of `reproduce_routine`, `save`
      the answer at the prompt. */
  ghost predicate Kept(raw0: seq<Raw>, raw: seq<Raw>, orig: seq<int>, kept: seq<nat>, whole: bool,
                       reproduces: Queues -> bool, isTxnText: Entry -> bool) {
    EndsFixed(raw, isTxnText) && reproduces(Unzip(Items(raw))) && Reduced(raw0, raw, orig, kept, whole, isTxnText)
  }

  lemma KeptWithoutTxn(raw0: seq<Raw>, raw: seq<Raw>, orig: seq<int>, kept: seq<nat>, gone: nat,
                       reproduces: Queues -> bool, isTxnText: Entry -> bool) returns (kept': seq<nat>)
    requires Kept(raw0, raw, orig, kept, true, reproduces, isTxnText)
    requires gone < |orig| && reproduces(Unzip(Items(WithoutTxn(raw, gone))))
    ensures Kept(raw0, WithoutTxn(raw, gone), Cut(orig, gone), kept', true, reproduces, isTxnText)
  {
    EndsFixedWithoutTxn(raw, gone, isTxnText);
    kept' := ReducedByTxn(raw0, raw, orig, kept, gone, isTxnText);
  }

  lemma KeptWithoutStmt(raw0: seq<Raw>, raw: seq<Raw>, orig: seq<int>, kept: seq<nat>, j: nat,
                        reproduces: Queues -> bool, isTxnText: Entry -> bool)
    requires Kept(raw0, raw, orig, kept, false, reproduces, isTxnText)
    requires j < |raw| && !isTxnText(Original(raw[j].stmt)) && reproduces(Unzip(Items(Cut(raw, j))))
    ensures Kept(raw0, Cut(raw, j), orig, Cut(kept, j), false, reproduces, isTxnText)
  {
    EndsFixedWithoutStmt(raw, j, isTxnText);
    ReducedByStmt(raw0, raw, orig, kept, j, false, isTxnText);
  }

  /** Some part of the original, of `num` transactions where that is given, is what `raw` keeps. */
  ghost predicate Keeps(raw0: seq<Raw>, raw: seq<Raw>, num: Option<nat>, whole: bool, reproduces: Queues -> bool,
                        isTxnText: Entry -> bool) {
    exists orig, kept :: Kept(raw0, raw, orig, kept, whole, reproduces, isTxnText) && (num.None? || num.value == |orig|)
  }

  lemma KeepsWithoutTxn(raw0: seq<Raw>, raw: seq<Raw>, num: nat, gone: nat, reproduces: Queues -> bool,
                        isTxnText: Entry -> bool)
    requires Keeps(raw0, raw, Some(num), true, reproduces, isTxnText)
    requires gone < num && reproduces(Unzip(Items(WithoutTxn(raw, gone))))
    ensures Keeps(raw0, WithoutTxn(raw, gone), Some(num - 1), true, reproduces, isTxnText)
  {
    var orig, kept :| Kept(raw0, raw, orig, kept, true, reproduces, isTxnText) && num == |orig|;
    var kept' := KeptWithoutTxn(raw0, raw, orig, kept, gone, reproduces, isTxnText);
  }

  lemma KeepsWithoutStmt(raw0: seq<Raw>, raw: seq<Raw>, j: nat, reproduces: Queues -> bool, isTxnText: Entry -> bool)
    requires Keeps(raw0, raw, None, false, reproduces, isTxnText)
    requires j < |raw| && !isTxnText(Original(raw[j].stmt)) && reproduces(Unzip(Items(Cut(raw, j))))
    ensures Keeps(raw0, Cut(raw, j), None, false, reproduces, isTxnText)
  {
    var orig, kept :| Kept(raw0, raw, orig, kept, false, reproduces, isTxnText);
    KeptWithoutStmt(raw0, raw, orig, kept, j, reproduces, isTxnText);
  }

  /** Whole transactions are left, each with all its statements. */
  lemma {:induction false} TxnPassKeeps(raw0: seq<Raw>, raw: seq<Raw>, tid: nat, num: nat,
                                        reproduces: Queues -> bool, save: Queues -> bool, isTxnText: Entry -> bool)
    requires Keeps(raw0, raw, Some(num), true, reproduces, isTxnText) && tid <= num
    ensures Keeps(raw0, TxnPass(raw, tid, num, Accepts(reproduces, save)), None, true, reproduces, isTxnText)
    decreases num - tid
  {
    if tid == num {
      assert TxnPass(raw, tid, num, Accepts(reproduces, save)) == raw;
    } else if Accepted(WithoutTxn(raw, tid), reproduces, save) {
      KeepsWithoutTxn(raw0, raw, num, tid, reproduces, isTxnText);
      TxnPassKeeps(raw0, WithoutTxn(raw, tid), tid, num - 1, reproduces, save, isTxnText);
    } else {
      TxnPassKeeps(raw0, raw, tid + 1, num, reproduces, save, isTxnText);
    }
  }

  lemma {:induction false} StmtPassKeeps(raw0: seq<Raw>, raw: seq<Raw>, j: nat,
                                         reproduces: Queues -> bool, save: Queues -> bool, isTxnText: Entry -> bool)
    requires Keeps(raw0, raw, None, false, reproduces, isTxnText) && j <= |raw|
    ensures Keeps(raw0, StmtPass(raw, j, reproduces, save, isTxnText), None, false, reproduces, isTxnText)
    decreases |raw| - j
  {
    if j < |raw| {
      if !isTxnText(Original(raw[j].stmt)) && Accepted(Cut(raw, j), reproduces, save) {
        KeepsWithoutStmt(raw0, raw, j, reproduces, isTxnText);
        StmtPassKeeps(raw0, Cut(raw, j), j, reproduces, save, isTxnText);
      } else {
        StmtPassKeeps(raw0, raw, j + 1, reproduces, save, isTxnText);
      }
    }
  }

  lemma KeepsInPart(raw0: seq<Raw>, raw: seq<Raw>, reproduces: Queues -> bool, isTxnText: Entry -> bool)
    requires Keeps(raw0, raw, None, true, reproduces, isTxnText)
    ensures Keeps(raw0, raw, None, false, reproduces, isTxnText)
  {
    var orig, kept :| Kept(raw0, raw, orig, kept, true, reproduces, isTxnText);
    forall y | MustStay(raw0, orig, false, isTxnText, y) ensures y in kept {
      assert MustStay(raw0, orig, true, isTxnText, y);
    }
    assert Kept(raw0, raw, orig, kept, false, reproduces, isTxnText);
  }

  lemma KeepsItself(raw: seq<Raw>, num: nat, reproduces: Queues -> bool, isTxnText: Entry -> bool)
    requires EndsFixed(raw, isTxnText) && reproduces(Unzip(Items(raw)))
    requires forall x :: 0 <= x < |raw| ==> 0 <= raw[x].tid < num
    ensures Keeps(raw, raw, Some(num), true, reproduces, isTxnText)
  {
    var orig, kept := ReducedIdentity(raw, num, isTxnText);
    assert Kept(raw, raw, orig, kept, true, reproduces, isTxnText);
  }

  function Largest(tids: seq<int>): int {
    if tids == [] then -1 else
    var rest := Largest(tids[..|tids| - 1]);
    if tids[|tids| - 1] > rest then tids[|tids| - 1] else rest
  }

  lemma {:induction false} LargestIsBound(tids: seq<int>)
    ensures Largest(tids) >= -1 && forall k :: 0 <= k < |tids| ==> tids[k] <= Largest(tids)
  {
    if tids != [] { LargestIsBound(tids[..|tids| - 1]); }
  }

  function AfterTxns(raw: seq<Raw>, reproduces: Queues -> bool, save: Queues -> bool): seq<Raw> {
    LargestIsBound(Unzip(Items(raw)).tids);
    TxnPass(raw, 0, Largest(Unzip(Items(raw)).tids) + 1, Accepts(reproduces, save))
  }

  /** The test case the two passes leave. */
  function Minimized(raw: seq<Raw>, reproduces: Queues -> bool, save: Queues -> bool,
                     isTxnText: Entry -> bool): seq<Raw> {
    StmtPass(AfterTxns(raw, reproduces, save), 0, reproduces, save, isTxnText)
  }

  /** It reproduces; its statements are statements of the original, in their order and in their
      transactions, which are numbered anew in order; and of each transaction that is left, all BEGIN,
      COMMIT and ABORT statements are. */
  lemma MinimizedKeeps(raw: seq<Raw>, reproduces: Queues -> bool, save: Queues -> bool, isTxnText: Entry -> bool)
    requires EndsFixed(raw, isTxnText) && reproduces(Unzip(Items(raw)))
    requires forall x :: 0 <= x < |raw| ==> 0 <= raw[x].tid
    ensures Keeps(raw, Minimized(raw, reproduces, save, isTxnText), None, false, reproduces, isTxnText)
  {
    var whole := AfterTxns(raw, reproduces, save);
    AfterTxnsKeeps(raw, reproduces, save, isTxnText);
    KeepsInPart(raw, whole, reproduces, isTxnText);
    StmtPassKeeps(raw, whole, 0, reproduces, save, isTxnText);
  }

  lemma {:induction false} TxnPassIsSaved(raw: seq<Raw>, tid: nat, num: nat, reproduces: Queues -> bool,
                                          save: Queues -> bool)
    ensures var r := TxnPass(raw, tid, num, Accepts(reproduces, save));
            r == raw || (reproduces(Unzip(Items(r))) && save(Unzip(Items(r))))
    decreases num - tid
  {
    if tid < num {
      if Accepted(WithoutTxn(raw, tid), reproduces, save) {
        TxnPassIsSaved(WithoutTxn(raw, tid), tid, num - 1, reproduces, save);
      } else {
        TxnPassIsSaved(raw, tid + 1, num, reproduces, save);
      }
    }
  }

  lemma {:induction false} StmtPassIsSaved(raw: seq<Raw>, j: nat, reproduces: Queues -> bool, save: Queues -> bool,
                                           isTxnText: Entry -> bool)
    requires j <= |raw|
    ensures var r := StmtPass(raw, j, reproduces, save, isTxnText);
            r == raw || (reproduces(Unzip(Items(r))) && save(Unzip(Items(r))))
    decreases |raw| - j
  {
    if j < |raw| {
      if !isTxnText(Original(raw[j].stmt)) && Accepted(Cut(raw, j), reproduces, save) {
        StmtPassIsSaved(Cut(raw, j), j, reproduces, save, isTxnText);
      } else {
        StmtPassIsSaved(raw, j + 1, reproduces, save, isTxnText);
      }
    }
  }

  /** What is left is the original, or a test case that reproduced and that the user saved. */
  lemma MinimizedIsSaved(raw: seq<Raw>, reproduces: Queues -> bool, save: Queues -> bool, isTxnText: Entry -> bool)
    ensures var r := Minimized(raw, reproduces, save, isTxnText);
            r == raw || (reproduces(Unzip(Items(r))) && save(Unzip(Items(r))))
  {
    var num := Largest(Unzip(Items(raw)).tids) + 1;
    LargestIsBound(Unzip(Items(raw)).tids);
    TxnPassIsSaved(raw, 0, num, reproduces, save);
    StmtPassIsSaved(AfterTxns(raw, reproduces, save), 0, reproduces, save, isTxnText);
  }

  // ---- when every cut that reproduces is saved ----

  lemma {:induction false} StmtPassIsForward(raw: seq<Raw>, j: nat, reproduces: Queues -> bool, save: Queues -> bool,
                                             isTxnText: Entry -> bool, bug: seq<Raw> -> bool, fixed: Raw -> bool)
    requires j <= |raw| && (forall q :: save(q))
    requires forall s :: bug(s) == Reproduces(s, reproduces)
    requires forall r :: fixed(r) == isTxnText(Original(r.stmt))
    ensures StmtPass(raw, j, reproduces, save, isTxnText) == ForwardPass(raw, j, bug, fixed)
    decreases |raw| - j
  {
    if j < |raw| {
      if !fixed(raw[j]) && bug(Cut(raw, j)) {
        StmtPassIsForward(Cut(raw, j), j, reproduces, save, isTxnText, bug, fixed);
      } else {
        StmtPassIsForward(raw, j + 1, reproduces, save, isTxnText, bug, fixed);
      }
    }
  }

  /** If every cut is saved and adding statements cannot hide the failure, no statement of the result
      that may be deleted can be spared. */
  lemma MinimizedIsMinimal(raw: seq<Raw>, reproduces: Queues -> bool, save: Queues -> bool, isTxnText: Entry -> bool)
    requires forall q :: save(q)
    requires UpwardClosed(AfterTxns(raw, reproduces, save), (s: seq<Raw>) => Reproduces(s, reproduces))
    ensures OneMinimal(Minimized(raw, reproduces, save, isTxnText), (s: seq<Raw>) => Reproduces(s, reproduces),
                       (r: Raw) => isTxnText(Original(r.stmt)))
  {
    var bug := (s: seq<Raw>) => Reproduces(s, reproduces);
    var fixed := (r: Raw) => isTxnText(Original(r.stmt));
    var whole := AfterTxns(raw, reproduces, save);
    StmtPassIsForward(whole, 0, reproduces, save, isTxnText, bug, fixed);
    assert UpwardClosed(whole, bug);
    ForwardPassIsMinimal(whole, bug, fixed);
    assert OneMinimal(Minimized(raw, reproduces, save, isTxnText), bug, fixed);
  }

  lemma AfterTxnsKeeps(raw: seq<Raw>, reproduces: Queues -> bool, save: Queues -> bool, isTxnText: Entry -> bool)
    requires EndsFixed(raw, isTxnText) && reproduces(Unzip(Items(raw)))
    requires forall x :: 0 <= x < |raw| ==> 0 <= raw[x].tid
    ensures Keeps(raw, AfterTxns(raw, reproduces, save), None, true, reproduces, isTxnText)
    ensures EndsFixed(AfterTxns(raw, reproduces, save), isTxnText)
  {
    var num := Largest(Unzip(Items(raw)).tids) + 1;
    LargestIsBound(Unzip(Items(raw)).tids);
    TidsOfItems(raw, num - 1);
    KeepsItself(raw, num, reproduces, isTxnText);
    TxnPassKeeps(raw, raw, 0, num, reproduces, save, isTxnText);
  }

  method TxnLevel(q: Queues, txnNum: nat, ghost raw0: seq<Raw>, reproduces: Queues -> bool, save: Queues -> bool)
    returns (r: Queues)
    requires q == Unzip(Items(raw0))
    ensures r == Unzip(Items(TxnPass(raw0, 0, txnNum, Accepts(reproduces, save))))
  {
    r := q;
    ghost var raw := raw0;
    var tid, num := 0, txnNum;
    while tid < num
      invariant 0 <= tid <= num && r == Unzip(Items(raw))
      invariant TxnPass(raw, tid, num, Accepts(reproduces, save)) ==
        TxnPass(raw0, 0, txnNum, Accepts(reproduces, save))
      decreases num - tid
    {
      var candidate := DeleteTxn(r, tid, Items(raw));
      ItemsWithoutTxn(raw, tid);
      if reproduces(candidate) && save(candidate) {
        r, raw := candidate, WithoutTxn(raw, tid);
        num := num - 1;
      } else {
        tid := tid + 1;
      }
    }
  }

  /** Where the entry of statement `j` lies. */
  function Pos(raw: seq<Raw>, j: nat): nat
    requires j < |raw|
  {
    |Items(raw[..j])| + |Reads(raw[j])|
  }

  /** An entry that is not instrumented is the statement of the block it lies in. */
  lemma {:induction false} EntryPos(raw: seq<Raw>, i: nat) returns (j: nat)
    requires i < |Items(raw)| && !Items(raw)[i].usage.instrumented
    ensures j < |raw| && i == Pos(raw, j)
  {
    var n := |raw| - 1;
    var init := raw[..n];
    LastBlock(raw);
    if i < |Items(init)| {
      j := EntryPos(init, i);
      assert init[..j] == raw[..j];
    } else {
      j := n;
      OneBasic(raw[n], i - |Items(init)|);
    }
  }

  lemma LastBlock(raw: seq<Raw>)
    requires raw != []
    ensures var n := |raw| - 1; Items(raw) == Items(raw[..n]) + Block(raw[n])
  {
    var n := |raw| - 1;
    ItemsAround(raw, n);
    assert raw[..n + 1] == raw;
  }

  lemma OneBasic(r: Raw, k: nat)
    requires k < |Block(r)|
    ensures !Block(r)[k].usage.instrumented ==> k == |Reads(r)| && Block(r)[k] == Basic(r)
  {
    BlockShape(r);
    if k < |Reads(r)| { assert Block(r)[k] == Reads(r)[k]; }
    if k > |Reads(r)| { assert Block(r)[k] == Tail(r)[k - |Reads(r)| - 1]; }
  }

  /** A deletable entry is not the last one: its transaction still has to end. */
  lemma EntryFollows(raw: seq<Raw>, j: nat, isTxnText: Entry -> bool)
    requires EndsFixed(raw, isTxnText) && j < |raw| && !Fixed(raw[j].stmt, isTxnText)
    ensures |Items(raw[..j])| + |Reads(raw[j])| + 1 < |Items(raw)|
  {
    assert HasLater(raw, j);
    BlockAt(raw, j);
    FirstOfItems(raw[j + 1..]);
  }

  lemma PrefixGrows(raw: seq<Raw>, a: nat, b: nat)
    requires a <= b <= |raw|
    ensures |Items(raw[..a])| <= |Items(raw[..b])|
  {
    assert raw[..b] == raw[..a] + raw[a..b];
    ItemsConcat(raw[..a], raw[a..b]);
  }

  lemma PosGrows(raw: seq<Raw>, a: nat, b: nat)
    requires a < b < |raw|
    ensures Pos(raw, a) < |Items(raw[..b])| <= Pos(raw, b)
  {
    ItemsAround(raw, a);
    PrefixGrows(raw, a + 1, b);
  }

  lemma PosWithin(raw: seq<Raw>, j: nat)
    requires j < |raw|
    ensures Pos(raw, j) < |Items(raw)| && Items(raw)[Pos(raw, j)] == Basic(raw[j])
  {
    BlockAt(raw, j);
  }

  /** The next statement whose entry lies at `i` or later is `j`. */
  ghost predicate AtStmt(raw: seq<Raw>, i: nat, j: nat) {
    j <= |raw| && (j < |raw| ==> i <= Pos(raw, j)) && (j > 0 ==> Pos(raw, j - 1) < i)
  }

  lemma NotSkipped(raw: seq<Raw>, i: nat, j: nat)
    requires AtStmt(raw, i, j) && i < |Items(raw)| && !Items(raw)[i].usage.instrumented
    ensures j < |raw| && i == Pos(raw, j)
  {
    var k := EntryPos(raw, i);
    if k + 1 < j { PosBefore(raw, k, j - 1, i); }
    if j < k { PosBefore(raw, j, k, i); }
  }

  lemma PosBefore(raw: seq<Raw>, a: nat, b: nat, i: nat)
    requires a < b < |raw|
    ensures Pos(raw, a) < Pos(raw, b)
  {
    PosGrows(raw, a, b);
  }

  lemma AllDone(raw: seq<Raw>, i: nat, j: nat)
    requires AtStmt(raw, i, j) && i >= |Items(raw)|
    ensures j == |raw|
  {
    if j < |raw| { PosWithin(raw, j); }
  }

  /** Going on to the next entry. */
  lemma NextEntry(raw: seq<Raw>, i: nat, j: nat) returns (j': nat)
    requires AtStmt(raw, i, j) && i < |Items(raw)|
    ensures AtStmt(raw, i + 1, j')
    ensures if j < |raw| && i == Pos(raw, j) then j' == j + 1 else j' == j
  {
    j' := if j < |raw| && i == Pos(raw, j) then j + 1 else j;
    if j' == j + 1 && j' < |raw| { PosGrows(raw, j, j'); }
  }

  /** After a deletion the loop goes on where the block began. */
  lemma AfterCut(raw: seq<Raw>, j: nat)
    requires j < |raw|
    ensures AtStmt(Cut(raw, j), |Items(raw[..j])|, j)
  {
    var c := Cut(raw, j);
    assert c[..j] == raw[..j];
    if j > 0 {
      PosGrows(raw, j - 1, j);
      assert c[..j - 1] == raw[..j - 1] && c[j - 1] == raw[j - 1];
    }
  }

  lemma FewerItems(raw: seq<Raw>, j: nat)
    requires j < |raw|
    ensures |Items(Cut(raw, j))| - |Items(raw[..j])| < |Items(raw)| - Pos(raw, j)
  {
    ItemsAround(raw, j);
    ItemsConcat(raw[..j], raw[j + 1..]);
  }

  /** An entry the loop does not skip is that of statement `j`, is not the last one, and when it is
      deleted the loop goes on closer to the end. */
  lemma Deletable(raw: seq<Raw>, i: nat, j: nat, isTxnText: Entry -> bool)
    requires AtStmt(raw, i, j) && EndsFixed(raw, isTxnText) && i < |Items(raw)|
    requires !Items(raw)[i].usage.instrumented && !isTxnText(Items(raw)[i].entry)
    ensures j < |raw| && i == Pos(raw, j) && i + 1 < |Items(raw)| && !isTxnText(Original(raw[j].stmt))
    ensures EndsFixed(Cut(raw, j), isTxnText) && AtStmt(Cut(raw, j), |Items(raw[..j])|, j)
    ensures |Items(Cut(raw, j))| - |Items(raw[..j])| < |Items(raw)| - i
  {
    NotSkipped(raw, i, j);
    PosWithin(raw, j);
    EntryFollows(raw, j, isTxnText);
    EndsFixedWithoutStmt(raw, j, isTxnText);
    FewerItems(raw, j);
    AfterCut(raw, j);
  }

  /** An entry that is skipped: the pass over the statements moves on with it or not at all. */
  lemma SkipEntry(raw: seq<Raw>, i: nat, j: nat, reproduces: Queues -> bool, save: Queues -> bool,
                  isTxnText: Entry -> bool)
    returns (next: nat)
    requires AtStmt(raw, i, j) && i < |Items(raw)|
    requires isTxnText(Items(raw)[i].entry) || Items(raw)[i].usage.instrumented
    ensures AtStmt(raw, i + 1, next)
    ensures StmtPass(raw, next, reproduces, save, isTxnText) == StmtPass(raw, j, reproduces, save, isTxnText)
  {
    next := NextEntry(raw, i, j);
    if j < |raw| { PosWithin(raw, j); }
  }

  /** Deletes the statement whose entry lies at `i` if that is accepted, and says where to go on. */
  method TryStmt(q: Queues, i: nat, ghost raw: seq<Raw>, ghost j: nat, reproduces: Queues -> bool, save: Queues -> bool,
                 ghost isTxnText: Entry -> bool)
    returns (r: Queues, next: nat, ghost left: seq<Raw>, ghost k: nat)
    requires AtStmt(raw, i, j) && q == Unzip(Items(raw)) && EndsFixed(raw, isTxnText)
    requires i < |q.stmts| && !isTxnText(q.stmts[i]) && !q.usages[i].instrumented
    ensures AtStmt(left, next, k) && r == Unzip(Items(left)) && EndsFixed(left, isTxnText)
    ensures StmtPass(left, k, reproduces, save, isTxnText) == StmtPass(raw, j, reproduces, save, isTxnText)
    ensures |r.stmts| - next < |q.stmts| - i
  {
    Deletable(raw, i, j, isTxnText);
    var candidate, before := DeleteStmt(q, i, raw, j);
    ghost var cut := Cut(raw, j);
    assert candidate == Unzip(Items(cut));
    if reproduces(candidate) && save(candidate) {
      StmtPassDrops(raw, j, reproduces, save, isTxnText);
      r, next, left, k := candidate, before + 1, cut, j;
    } else {
      StmtPassGoesOn(raw, j, reproduces, save, isTxnText);
      k := NextEntry(raw, i, j);
      r, next, left := q, i + 1, raw;
    }
  }

  lemma StmtPassDrops(raw: seq<Raw>, j: nat, reproduces: Queues -> bool, save: Queues -> bool, isTxnText: Entry -> bool)
    requires j < |raw| && !isTxnText(Original(raw[j].stmt))
    requires reproduces(Unzip(Items(Cut(raw, j)))) && save(Unzip(Items(Cut(raw, j))))
    ensures StmtPass(raw, j, reproduces, save, isTxnText) == StmtPass(Cut(raw, j), j, reproduces, save, isTxnText)
  {
  }

  lemma StmtPassGoesOn(raw: seq<Raw>, j: nat, reproduces: Queues -> bool, save: Queues -> bool,
                       isTxnText: Entry -> bool)
    requires j < |raw|
    requires !(reproduces(Unzip(Items(Cut(raw, j)))) && save(Unzip(Items(Cut(raw, j)))))
    ensures StmtPass(raw, j, reproduces, save, isTxnText) == StmtPass(raw, j + 1, reproduces, save, isTxnText)
  {
  }

  method StmtLevel(q: Queues, ghost raw0: seq<Raw>, reproduces: Queues -> bool, save: Queues -> bool,
                   isTxnText: Entry -> bool)
    returns (r: Queues)
    requires q == Unzip(Items(raw0)) && EndsFixed(raw0, isTxnText)
    ensures r == Unzip(Items(StmtPass(raw0, 0, reproduces, save, isTxnText)))
  {
    r := q;
    ghost var raw, j: nat := raw0, 0;
    var i: nat := 0;
    while i < |r.stmts|
      invariant AtStmt(raw, i, j) && r == Unzip(Items(raw)) && EndsFixed(raw, isTxnText)
      invariant StmtPass(raw, j, reproduces, save, isTxnText) == StmtPass(raw0, 0, reproduces, save, isTxnText)
      decreases |r.stmts| - i
    {
      if isTxnText(r.stmts[i]) || r.usages[i].instrumented {
        j := SkipEntry(raw, i, j, reproduces, save, isTxnText);
        i := i + 1;
      } else {
        r, i, raw, j := TryStmt(r, i, raw, j, reproduces, save, isTxnText);
      }
    }
    AllDone(raw, i, j);
  }

  method MaxTid(tids: seq<int>) returns (max: int)
    ensures max == Largest(tids)
  {
    max := -1;
    for k := 0 to |tids|
      invariant max == Largest(tids[..k])
    {
      assert tids[..k + 1][..k] == tids[..k];
      if tids[k] > max { max := tids[k]; }
    }
    assert tids[..|tids|] == tids;
  }

  /** Every statement has its entry in the tid queue. */
  lemma TidsOfItems(raw: seq<Raw>, max: int)
    requires forall k :: 0 <= k < |Unzip(Items(raw)).tids| ==> Unzip(Items(raw)).tids[k] <= max
    ensures forall x :: 0 <= x < |raw| ==> raw[x].tid <= max
  {
    forall x | 0 <= x < |raw| ensures raw[x].tid <= max {
      PosWithin(raw, x);
      assert Unzip(Items(raw)).tids[Pos(raw, x)] == raw[x].tid;
    }
  }

  /** A test case that reproduces is replaced by what the passes leave, if that is shorter. The usages
      are passed by value: they are not changed. */
  method MinimizeTestcase(q: Queues, ghost raw: seq<Raw>, reproduces: Queues -> bool, save: Queues -> bool,
                          isTxnText: Entry -> bool)
    returns (changed: bool, stmts: seq<Entry>, tids: seq<int>)
    requires q == Unzip(Items(raw)) && EndsFixed(raw, isTxnText)
    requires forall x :: 0 <= x < |raw| ==> 0 <= raw[x].tid
    ensures changed <==> reproduces(q) && |Items(Minimized(raw, reproduces, save, isTxnText))| != |Items(raw)|
    ensures var r := if changed then Unzip(Items(Minimized(raw, reproduces, save, isTxnText))) else q;
            stmts == r.stmts && tids == r.tids
    ensures changed ==> Keeps(raw, Minimized(raw, reproduces, save, isTxnText), None, false, reproduces, isTxnText)
  {
    if !reproduces(q) {
      return false, q.stmts, q.tids;
    }
    var max := MaxTid(q.tids);
    LargestIsBound(q.tids);
    AfterTxnsKeeps(raw, reproduces, save, isTxnText);
    MinimizedKeeps(raw, reproduces, save, isTxnText);
    var r := TxnLevel(q, max + 1, raw, reproduces, save);
    r := StmtLevel(r, AfterTxns(raw, reproduces, save), reproduces, save, isTxnText);
    if |r.stmts| == |q.stmts| {
      return false, q.stmts, q.tids;
    }
    changed, stmts, tids := true, r.stmts, r.tids;
  }
}
