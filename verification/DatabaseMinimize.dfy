/** `minimize_qcn_database`: one pass over the statements that build the database, from the last to the
    first; a statement stays dropped when the query still shows the bug without it. */
module DatabaseMinimize {
  import opened Sequences
  import opened Reduction

  /** Feeding the statements fails, testing the query throws, the query shows the bug, or does not. */
  datatype Outcome = FeedError | Throws | Bug | NoBug

  // ---- the test of one database ----

  /** One execution of a query: it fails, or gives a result. */
  datatype Execution = Failed | Gave(result: int)

  /** qcn_test_without_initialization: the original and the rewritten query are executed, and once more
      if they differ. The tester of SELECT guards the second executions, that of INSERT SELECT does not. */
  function Tested(guarded: bool, origin: Execution, qit: Execution, origin2: Execution, qit2: Execution): Outcome {
    if origin.Failed? || qit.Failed? then NoBug
    else if qit == origin then NoBug
    else if origin2.Failed? || qit2.Failed? then if guarded then NoBug else Throws
    else if qit2 != origin2 then Bug
    else NoBug
  }

  /** An exception leaves the test exactly when an unguarded validation fails after both queries ran and
      differed; it is a bug exactly when all four executions succeed and the results differ both times. */
  lemma ThrowsIff(guarded: bool, origin: Execution, qit: Execution, origin2: Execution, qit2: Execution)
    ensures Tested(guarded, origin, qit, origin2, qit2) == Throws <==>
      !guarded && origin.Gave? && qit.Gave? && origin != qit && (origin2.Failed? || qit2.Failed?)
    ensures Tested(guarded, origin, qit, origin2, qit2) == Bug <==>
      origin.Gave? && qit.Gave? && origin2.Gave? && qit2.Gave? && origin != qit && origin2 != qit2
  {
  }

  // ---- the pass ----

  type Test = seq<string> -> Outcome

  predicate StaysDropped(o: Outcome) { o == Bug || o == Throws }

  /** The list after statement `i - 1` had its turn. */
  function Next(q: seq<string>, i: nat, test: Test): seq<string>
    requires 0 < i <= |q|
  {
    if StaysDropped(test(Cut(q, i - 1))) then Cut(q, i - 1) else q
  }

  function Pass(q: seq<string>, i: nat, test: Test): seq<string>
    requires i <= |q|
    decreases i
  {
    if i == 0 then q else Pass(Next(q, i, test), i - 1, test)
  }

  /** Statements have their turn from the last to the first; one is dropped for good exactly when the list
      without it shows the bug or throws. */
  lemma {:induction false} PassIs(q: seq<string>, test: Test, i: nat)
    requires i <= |q|
    ensures i == 0 ==> Pass(q, i, test) == q
    ensures i > 0 ==>
      var shorter := q[..i - 1] + q[i..];
      Pass(q, i, test) == Pass(if test(shorter) in {Bug, Throws} then shorter else q, i - 1, test)
  {
    if i > 0 { assert Cut(q, i - 1) == q[..i - 1] + q[i..]; }
  }

  method MinimizeQcnDatabase(queue: seq<string>, test: Test) returns (q: seq<string>)
    ensures q == Pass(queue, |queue|, test)
  {
    q := queue;
    var i := |q| - 1;
    while i >= 0
      invariant -1 <= i < |q|
      invariant Pass(q, i + 1, test) == Pass(queue, |queue|, test)
      decreases i
    {
      ghost var whole := q;
      var removed := q[i];
      q := q[..i] + q[i + 1..];
      assert q == Cut(whole, i);
      var outcome := test(q);
      if outcome == FeedError {
        q := q[..i] + [removed] + q[i..];
        assert q == whole;
      } else if outcome == NoBug {
        q := q[..i] + [removed] + q[i..];
        assert q == whole;
      }
      i := i - 1;
    }
  }

  // ---- does the rest show the bug ----

  /** The lists the pass tests, in their order. */
  function Retests(q: seq<string>, i: nat, test: Test): seq<seq<string>>
    requires i <= |q|
    decreases i
  {
    if i == 0 then [] else [Cut(q, i - 1)] + Retests(Next(q, i, test), i - 1, test)
  }

  /** How the test of the last list that was kept came out; NoBug if none was kept. */
  function LastKept(tested: seq<seq<string>>, test: Test): Outcome {
    if tested == [] then NoBug
    else if LastKept(tested[1..], test) != NoBug then LastKept(tested[1..], test)
    else if StaysDropped(test(tested[0])) then test(tested[0])
    else NoBug
  }

  lemma {:induction false} PassIsLastKept(q: seq<string>, i: nat, test: Test)
    requires i <= |q|
    ensures var last := LastKept(Retests(q, i, test), test);
            if last == NoBug then Pass(q, i, test) == q else test(Pass(q, i, test)) == last
    decreases i
  {
    if i > 0 {
      var c, rest := Cut(q, i - 1), Retests(Next(q, i, test), i - 1, test);
      PassIsLastKept(Next(q, i, test), i - 1, test);
      assert ([c] + rest)[0] == c && ([c] + rest)[1..] == rest;
    }
  }

  lemma {:induction false} LastKeptThrows(tested: seq<seq<string>>, test: Test)
    ensures LastKept(tested, test) in {Bug, Throws, NoBug}
    ensures LastKept(tested, test) == Throws ==> exists k :: 0 <= k < |tested| && test(tested[k]) == Throws
  {
    if tested != [] {
      LastKeptThrows(tested[1..], test);
      if LastKept(tested[1..], test) == Throws {
        var k :| 0 <= k < |tested[1..]| && test(tested[1..][k]) == Throws;
        assert tested[k + 1] == tested[1..][k];
      }
    }
  }

  /** What is left shows the bug if and only if the last list that was kept was not kept by a throw; in
      particular if no tested list throws. */
  lemma RestShowsBugIff(s: seq<string>, test: Test)
    requires test(s) == Bug
    ensures test(Pass(s, |s|, test)) == Bug <==> LastKept(Retests(s, |s|, test), test) != Throws
    ensures (forall k :: 0 <= k < |Retests(s, |s|, test)| ==> test(Retests(s, |s|, test)[k]) != Throws) ==>
      test(Pass(s, |s|, test)) == Bug
  {
    PassIsLastKept(s, |s|, test);
    LastKeptThrows(Retests(s, |s|, test), test);
  }

  /** The second statement's retest throws while it validates: the rest is only the first statement, and
      testing it throws. */
  lemma ThrowLosesBug(a: string, b: string, test: Test)
    requires test([a, b]) == Bug && test([]) == NoBug
    requires test([a]) == Tested(false, Gave(0), Gave(1), Failed, Gave(1))
    ensures Pass([a, b], 2, test) == [a] && test([a]) == Throws
  {
    assert Cut([a, b], 1) == [a] && Cut([a], 0) == [];
  }

  // ---- is the rest minimal ----

  lemma {:induction false} PassSelects(s: seq<string>, m: seq<bool>, i: nat, test: Test, bug: seq<string> -> bool)
    returns (m': seq<bool>)
    requires |m| == |s| && i <= |s| && forall j :: 0 <= j < i ==> m[j]
    requires forall q :: bug(q) == (test(q) == Bug)
    requires forall p :: i <= p < |s| ==> Needed(s, m, p, bug)
    ensures i <= |Sel(s, m)| && |m'| == |s| && Pass(Sel(s, m), i, test) == Sel(s, m')
    ensures forall p :: 0 <= p < |s| ==> Needed(s, m', p, bug)
    decreases i
  {
    if i == 0 {
      m' := m;
    } else {
      var p := i - 1;
      SelCut(s, m, p);
      var without := m[p := false];
      var next := if StaysDropped(test(Sel(s, without))) then without else m;
      BelowIsOrder(m, m, m);
      forall k | p <= k < |s| ensures Needed(s, next, k, bug) {
        if k > p { NeededInPart(s, m, next, k, bug); }
      }
      m' := PassSelects(s, next, p, test, bug);
    }
  }

  /** The rest is a selection of the statements in their order; and if adding statements cannot hide the
      bug, no statement of the rest can be spared. */
  lemma RestIsMinimal(s: seq<string>, test: Test) returns (m: seq<bool>)
    ensures |m| == |s| && Pass(s, |s|, test) == Sel(s, m)
    ensures UpwardClosed(s, (q: seq<string>) => test(q) == Bug) ==>
      OneMinimal(Pass(s, |s|, test), (q: seq<string>) => test(q) == Bug, (x: string) => false)
  {
    var bug := (q: seq<string>) => test(q) == Bug;
    var all := seq(|s|, _ => true);
    SelAll(s, all);
    m := PassSelects(s, all, |s|, test, bug);
    if UpwardClosed(s, (q: seq<string>) => test(q) == Bug) {
      assert UpwardClosed(s, bug);
      AllNeededIsMinimal(s, m, bug, (x: string) => false);
    }
  }

  /** Without that assumption one pass may not be enough: here the rest is [a, c], and [a] alone would
      do. */
  lemma OnePassMissesSmaller(a: string, b: string, c: string, test: Test)
    requires test([a, b, c]) == test([a, c]) == test([a]) == Bug
    requires test([a, b]) == test([c]) == NoBug
    ensures Pass([a, b, c], 3, test) == [a, c] && test(Cut([a, c], 1)) == Bug
  {
    assert Cut([a, b, c], 2) == [a, b] && Cut([a, b, c], 1) == [a, c];
    assert Cut([a, c], 0) == [c] && Cut([a, c], 1) == [a];
  }
}
