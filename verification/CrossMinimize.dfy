/** Cross mode: a statement list is run twice, once as it is and once with the expressions of its
    queries rewritten; statements are dropped as long as the two runs still differ. The statements keep
    their expression objects, which every retest transforms in place and puts back. */
module CrossMinimize {
  import opened Sql
  import opened ExprTree
  import opened Replacement
  import opened ExprGraph
  import opened Roots
  import opened TxQueue
  import opened Sequences

  /** `roots` are the expressions transform_select reaches: search conditions, select lists, HAVING
      conditions, of the query and of its WITH queries. The other statements have none: their
      expressions are never transformed and belong to their fixed text. */
  datatype PathStmt = PathStmt(id: int, usage: Kind, roots: seq<Node>)

  /** A statement as the database gets it: `id` stands for its fixed text around the expressions. */
  datatype Sent = Sent(id: int, texts: seq<Text>)

  predicate SelectLike(s: PathStmt) { s.usage == SelectRead || s.usage == VersionSetRead }

  // ---- the first transform, when the difference was found ----

  /** Transforming expressions for the first time and putting them back memorises a form of each. */
  method FirstRound(roots: seq<Node>, clickhouse: bool) returns (ghost forms: Forms)
    requires State(Elements(roots), {}, map[], clickhouse)
    requires forall j, k :: 0 <= j < k < |roots| ==> roots[j] != roots[k]
    modifies Nodes(Elements(roots))`isTransformed, Nodes(Elements(roots))`eqExpr, Nodes(Elements(roots))`disj,
             Nodes(Elements(roots))`hasEqualExpr, Nodes(Elements(roots))`tree, Nodes(Elements(roots))`hasPrintEqExpr
    ensures State(Elements(roots), {}, forms, clickhouse) && forms.Keys == Elements(roots)
  {
    ghost var all, shown := Elements(roots), {};
    forms := map[];
    for k := 0 to |roots|
      invariant shown == forms.Keys == Elements(roots[..k]) && State(all, shown, forms, clickhouse)
    {
      assert roots[..k + 1] == roots[..k] + [roots[k]];
      TransformRoot(roots[k], all, shown, forms, clickhouse);
      forms := Learned(roots[k], forms);
      shown := shown + {roots[k]};
    }
    assert roots[..|roots|] == roots;
    for k := 0 to |roots|
      invariant shown == Elements(roots[k..]) && State(all, shown, forms, clickhouse)
    {
      assert roots[k..] == [roots[k]] + roots[k + 1..];
      BackRoot(roots[k], all, shown, forms, clickhouse);
      shown := shown - {roots[k]};
    }
  }

  // ---- whole statements ----

  /** Every root is one of `all`, and no root occurs twice, in one statement or in two. */
  ghost predicate Owned(stmts: seq<PathStmt>, all: set<Node>) {
    (forall a, i :: 0 <= a < |stmts| && 0 <= i < |stmts[a].roots| ==> stmts[a].roots[i] in all) &&
    (forall a, i, j :: 0 <= a < |stmts| && 0 <= i < j < |stmts[a].roots| ==> stmts[a].roots[i] != stmts[a].roots[j]) &&
    (forall a, b :: 0 <= a < b < |stmts| ==> RootsOf(stmts[a]) !! RootsOf(stmts[b]))
  }

  ghost function RootsOf(s: PathStmt): set<Node> { Elements(s.roots) }

  /** The roots of the statements at some positions. */
  ghost function Covered(stmts: seq<PathStmt>, at: seq<nat>): set<Node>
    requires Within(stmts, at)
  {
    set k, r | 0 <= k < |at| && r in RootsOf(stmts[at[k]]) :: r
  }

  ghost predicate Within(stmts: seq<PathStmt>, at: seq<nat>) {
    (forall k :: 0 <= k < |at| ==> at[k] < |stmts|) && forall j, k :: 0 <= j < k < |at| ==> at[j] < at[k]
  }

  lemma CoveredMore(stmts: seq<PathStmt>, at: seq<nat>, all: set<Node>, a: nat)
    requires Owned(stmts, all) && Within(stmts, at) && Within(stmts, at + [a]) && a < |stmts|
    ensures Covered(stmts, at + [a]) == Covered(stmts, at) + RootsOf(stmts[a])
    ensures RootsOf(stmts[a]) !! Covered(stmts, at)
  {
    var more := at + [a];
    forall r | r in Covered(stmts, at) ensures r in Covered(stmts, more) && r !in RootsOf(stmts[a]) {
      var k :| 0 <= k < |at| && r in RootsOf(stmts[at[k]]);
      assert more[k] == at[k] && more[|at|] == a;
    }
    forall r | r in RootsOf(stmts[a]) ensures r in Covered(stmts, more) {
      assert more[|at|] == a;
    }
  }

  lemma CoveredLess(stmts: seq<PathStmt>, at: seq<nat>, all: set<Node>, k: nat)
    requires Owned(stmts, all) && Within(stmts, at) && k < |at|
    ensures Within(stmts, at[k..]) && Within(stmts, at[k + 1..])
    ensures RootsOf(stmts[at[k]]) <= Covered(stmts, at[k..])
    ensures Covered(stmts, at[k + 1..]) == Covered(stmts, at[k..]) - RootsOf(stmts[at[k]])
  {
    var left, rest := at[k..], at[k + 1..];
    assert left[0] == at[k] && forall j :: 0 <= j < |rest| ==> rest[j] == left[j + 1] == at[k + 1 + j];
    forall r | r in Covered(stmts, rest) ensures r in Covered(stmts, left) && r !in RootsOf(stmts[at[k]]) {
      var j :| 0 <= j < |rest| && r in RootsOf(stmts[rest[j]]);
      assert r in RootsOf(stmts[left[j + 1]]);
    }
    forall r | r in Covered(stmts, left) && r !in RootsOf(stmts[at[k]]) ensures r in Covered(stmts, rest) {
      var j :| 0 <= j < |left| && r in RootsOf(stmts[left[j]]);
      assert r in RootsOf(stmts[rest[j - 1]]);
    }
  }

  /** A root is covered exactly when its own statement is. */
  lemma CoveredIff(stmts: seq<PathStmt>, at: seq<nat>, all: set<Node>, a: nat, r: Node)
    requires Owned(stmts, all) && Within(stmts, at) && a < |stmts| && r in RootsOf(stmts[a])
    ensures r in Covered(stmts, at) <==> a in at
  {
    if a in at {
      var k :| 0 <= k < |at| && at[k] == a;
      assert r in RootsOf(stmts[at[k]]);
    }
    if r in Covered(stmts, at) {
      var k :| 0 <= k < |at| && r in RootsOf(stmts[at[k]]);
      SameStmt(stmts, all, a, at[k], r);
    }
  }

  lemma SameStmt(stmts: seq<PathStmt>, all: set<Node>, a: nat, b: nat, r: Node)
    requires Owned(stmts, all) && a < |stmts| && b < |stmts| && r in RootsOf(stmts[a]) && r in RootsOf(stmts[b])
    ensures a == b
  {
  }

  ghost function TextOf(r: Node, rewritten: bool, forms: Forms): Text
    requires r in forms
  {
    Render(if rewritten then ViewOf(forms[r]) else PlainOf(forms[r]))
  }

  ghost function SentStmt(s: PathStmt, rewritten: bool, forms: Forms): Sent
    requires RootsOf(s) <= forms.Keys
  {
    Sent(s.id, seq(|s.roots|, k requires 0 <= k < |s.roots| =>
      assert s.roots[k] in RootsOf(s); TextOf(s.roots[k], rewritten, forms)))
  }

  /** What one run sends: the statements as they are, or with every query rewritten. */
  ghost function SentAll(stmts: seq<PathStmt>, rewritten: bool, forms: Forms): seq<Sent>
    requires OwnsRoots(stmts, forms.Keys)
  {
    seq(|stmts|, a requires 0 <= a < |stmts| => SentStmt(stmts[a], rewritten && SelectLike(stmts[a]), forms))
  }

  ghost predicate OwnsRoots(stmts: seq<PathStmt>, all: set<Node>) {
    forall a :: 0 <= a < |stmts| ==> RootsOf(stmts[a]) <= all
  }

  method TransformSelect(s: PathStmt, ghost all: set<Node>, ghost shown: set<Node>, ghost forms: Forms,
                         clickhouse: bool)
    requires State(all, shown, forms, clickhouse) && Owned([s], all) && all <= forms.Keys && RootsOf(s) !! shown
    modifies Nodes(all)`isTransformed, Nodes(all)`eqExpr, Nodes(all)`disj, Nodes(all)`hasEqualExpr, Nodes(all)`tree,
             Nodes(all)`hasPrintEqExpr
    ensures State(all, shown + RootsOf(s), forms, clickhouse)
  {
    assert [s][0] == s;
    ghost var now := shown;
    for k := 0 to |s.roots|
      invariant now == shown + set j | 0 <= j < k :: s.roots[j]
      invariant State(all, now, forms, clickhouse)
    {
      TransformRoot(s.roots[k], all, now, forms, clickhouse);
      now := now + {s.roots[k]};
    }
    assert now == shown + RootsOf(s);
  }

  method BackTransformSelect(s: PathStmt, ghost all: set<Node>, ghost shown: set<Node>, ghost forms: Forms,
                             clickhouse: bool)
    requires State(all, shown, forms, clickhouse) && Owned([s], all) && RootsOf(s) <= shown
    modifies Nodes(all)`isTransformed, Nodes(all)`disj, Nodes(all)`hasEqualExpr, Nodes(all)`tree
    ensures State(all, shown - RootsOf(s), forms, clickhouse)
  {
    assert [s][0] == s;
    ghost var now := shown;
    for k := 0 to |s.roots|
      invariant now == shown - set j | 0 <= j < k :: s.roots[j]
      invariant State(all, now, forms, clickhouse)
    {
      BackRoot(s.roots[k], all, now, forms, clickhouse);
      now := now - {s.roots[k]};
    }
    assert now == shown - RootsOf(s);
  }

  method SendStmt(s: PathStmt, rewritten: bool, ghost all: set<Node>, ghost shown: set<Node>, ghost forms: Forms,
                  clickhouse: bool)
    returns (sent: Sent)
    requires State(all, shown, forms, clickhouse) && all <= forms.Keys && RootsOf(s) <= all
    requires forall r :: r in RootsOf(s) ==> (r in shown <==> rewritten)
    modifies Nodes(all)`hasPrintEqExpr
    ensures State(all, shown, forms, clickhouse) && sent == SentStmt(s, rewritten, forms)
  {
    var texts := [];
    ghost var full := SentStmt(s, rewritten, forms).texts;
    for k := 0 to |s.roots|
      invariant State(all, shown, forms, clickhouse) && texts == full[..k]
    {
      SplitAt(full, k);
      assert s.roots[k] in RootsOf(s);
      var text := OutRoot(s.roots[k], all, shown, forms, clickhouse);
      FormMeans(s.roots[k], all, shown, forms, clickhouse);
      assert RootState(s.roots[k], shown, forms, clickhouse);
      texts := texts + [text];
    }
    assert full[..|full|] == full;
    sent := Sent(s.id, texts);
  }

  /** execute_normal_path: the text of every statement, in order. */
  method SendPath(stmts: seq<PathStmt>, rewritten: bool, ghost at: seq<nat>, ghost all: set<Node>,
                  ghost forms: Forms, clickhouse: bool)
    returns (sent: seq<Sent>)
    requires Owned(stmts, all) && Queries(stmts, if rewritten then |stmts| else 0, at) && all <= forms.Keys
    requires State(all, Covered(stmts, at), forms, clickhouse)
    modifies Nodes(all)`hasPrintEqExpr
    ensures OwnsRoots(stmts, all)
    ensures State(all, Covered(stmts, at), forms, clickhouse) && sent == SentAll(stmts, rewritten, forms)
  {
    sent := [];
    assert OwnsRoots(stmts, all);
    for a := 0 to |stmts|
      invariant State(all, Covered(stmts, at), forms, clickhouse)
      invariant |sent| == a && forall b :: 0 <= b < a ==> sent[b] == SentAll(stmts, rewritten, forms)[b]
    {
      forall r | r in RootsOf(stmts[a]) ensures r in Covered(stmts, at) <==> rewritten && SelectLike(stmts[a]) {
        CoveredIff(stmts, at, all, a, r);
      }
      var one := SendStmt(stmts[a], rewritten && SelectLike(stmts[a]), all, Covered(stmts, at), forms, clickhouse);
      sent := sent + [one];
    }
  }

  /** The positions of the queries among the first `n` statements. */
  ghost predicate Queries(stmts: seq<PathStmt>, n: nat, at: seq<nat>) {
    n <= |stmts| && Within(stmts, at) && forall a :: a in at <==> 0 <= a < n && SelectLike(stmts[a])
  }

  method TransformPath(stmts: seq<PathStmt>, ghost all: set<Node>, ghost forms: Forms, clickhouse: bool)
    returns (at: seq<nat>)
    requires Owned(stmts, all) && all <= forms.Keys && State(all, {}, forms, clickhouse)
    modifies Nodes(all)`isTransformed, Nodes(all)`eqExpr, Nodes(all)`disj, Nodes(all)`hasEqualExpr, Nodes(all)`tree,
             Nodes(all)`hasPrintEqExpr
    ensures Queries(stmts, |stmts|, at) && State(all, Covered(stmts, at), forms, clickhouse)
  {
    at := [];
    assert Covered(stmts, at) == {};
    for a := 0 to |stmts|
      invariant Queries(stmts, a, at) && State(all, Covered(stmts, at), forms, clickhouse)
    {
      if SelectLike(stmts[a]) {
        QueriesSnoc(stmts, a, at);
        CoveredMore(stmts, at, all, a);
        OwnedOne(stmts, all, a);
        TransformSelect(stmts[a], all, Covered(stmts, at), forms, clickhouse);
        at := at + [a];
      }
    }
  }

  lemma QueriesSnoc(stmts: seq<PathStmt>, a: nat, at: seq<nat>)
    requires Queries(stmts, a, at) && a < |stmts| && SelectLike(stmts[a])
    ensures Queries(stmts, a + 1, at + [a])
  {
    assert forall k :: 0 <= k < |at| ==> at[k] in at;
  }

  lemma OwnedOne(stmts: seq<PathStmt>, all: set<Node>, a: nat)
    requires Owned(stmts, all) && a < |stmts|
    ensures Owned([stmts[a]], all)
  {
  }

  method BackPath(stmts: seq<PathStmt>, at: seq<nat>, ghost all: set<Node>, ghost forms: Forms, clickhouse: bool)
    requires Owned(stmts, all) && Within(stmts, at) && State(all, Covered(stmts, at), forms, clickhouse)
    modifies Nodes(all)`isTransformed, Nodes(all)`disj, Nodes(all)`hasEqualExpr, Nodes(all)`tree
    ensures State(all, {}, forms, clickhouse)
  {
    assert at[0..] == at;
    for k := 0 to |at|
      invariant Within(stmts, at[k..]) && State(all, Covered(stmts, at[k..]), forms, clickhouse)
    {
      CoveredLess(stmts, at, all, k);
      OwnedOne(stmts, all, at[k]);
      BackTransformSelect(stmts[at[k]], all, Covered(stmts, at[k..]), forms, clickhouse);
    }
    assert Covered(stmts, at[|at|..]) == {};
  }

  // ---- one retest ----

  type Content = map<string, seq<seq<string>>>

  datatype Output = Output(rows: multiset<seq<string>>, content: Content)

  /** The database: `run` is what executing a list of statements gives, None if it throws; `same` is
      compare_content. */
  datatype Database = Database(run: seq<Sent> -> Option<Output>, same: (Content, Content) -> bool)

  predicate Differ(db: Database, normal: Output, transformed: Output) {
    normal.rows != transformed.rows || !db.same(normal.content, transformed.content)
  }

  ghost predicate RunThrows(stmts: seq<PathStmt>, rewritten: bool, db: Database, forms: Forms)
    requires OwnsRoots(stmts, forms.Keys)
  {
    db.run(SentAll(stmts, rewritten, forms)).None?
  }

  /** Whether a list of statements shows the difference: a function of the texts, for the same rewrites
      are printed every time. */
  ghost predicate Differs(stmts: seq<PathStmt>, db: Database, forms: Forms)
    requires OwnsRoots(stmts, forms.Keys)
  {
    !RunThrows(stmts, false, db, forms) && !RunThrows(stmts, true, db, forms) &&
    Differ(db, db.run(SentAll(stmts, false, forms)).value, db.run(SentAll(stmts, true, forms)).value)
  }

  /** The expressions are at rest after a retest, unless the rewritten run throws: then those of the
      queries, at the positions `at`, stay rewritten. */
  method Retest(stmts: seq<PathStmt>, db: Database, ghost all: set<Node>, ghost forms: Forms, clickhouse: bool)
    returns (persists: bool, threw: bool, ghost at: seq<nat>)
    requires Owned(stmts, all) && all <= forms.Keys && OwnsRoots(stmts, all) && State(all, {}, forms, clickhouse)
    modifies Nodes(all)`isTransformed, Nodes(all)`eqExpr, Nodes(all)`disj, Nodes(all)`hasEqualExpr,
             Nodes(all)`tree, Nodes(all)`hasPrintEqExpr
    ensures OwnsRoots(stmts, forms.Keys)
    ensures threw <==> RunThrows(stmts, false, db, forms) || RunThrows(stmts, true, db, forms)
    ensures persists <==> Differs(stmts, db, forms)
    ensures Queries(stmts, if threw && !RunThrows(stmts, false, db, forms) then |stmts| else 0, at)
    ensures State(all, Covered(stmts, at), forms, clickhouse)
  {
    at := [];
    assert Covered(stmts, at) == {};
    var texts := SendPath(stmts, false, at, all, forms, clickhouse);
    var normal := db.run(texts);
    if normal.None? { return false, true, at; }
    var queries := TransformPath(stmts, all, forms, clickhouse);
    texts := SendPath(stmts, true, queries, all, forms, clickhouse);
    var transformed := db.run(texts);
    if transformed.None? { return false, true, queries; }
    BackPath(stmts, queries, all, forms, clickhouse);
    persists, threw := Differ(db, normal.value, transformed.value), false;
  }

  /** A rewritten expression is marked: transforming it again, as the report that is saved after an
      exception does, would fail the assertion of mark_transformed. */
  lemma RewrittenIsMarked(r: Node, forms: Forms, clickhouse: bool)
    requires Rewritten(r, forms, clickhouse)
    ensures r.isTransformed
  {
    assert r.Own();
    assert r.tree.marked;
  }

  // ---- dropping statements ----

  ghost predicate Usable(stmts: seq<PathStmt>, all: set<Node>, forms: Forms) {
    Owned(stmts, all) && OwnsRoots(stmts, all) && OwnsRoots(stmts, forms.Keys) && all <= forms.Keys
  }

  lemma UsableCut(stmts: seq<PathStmt>, i: nat, all: set<Node>, forms: Forms)
    requires Usable(stmts, all, forms) && i < |stmts|
    ensures Usable(Cut(stmts, i), all, forms)
  {
    var c := Cut(stmts, i);
    forall a, b | 0 <= a < b < |c| ensures RootsOf(c[a]) !! RootsOf(c[b]) {
      assert RootsOf(stmts[if a < i then a else a + 1]) !! RootsOf(stmts[if b < i then b else b + 1]);
    }
  }

  /** No statement other than a query can be dropped, unless it is the only statement. */
  ghost predicate Minimal(stmts: seq<PathStmt>, db: Database, all: set<Node>, forms: Forms)
    requires Usable(stmts, all, forms)
  {
    |stmts| == 1 || NoneDroppable(stmts, |stmts|, db, all, forms)
  }

  /** None of the first `n` statements other than the queries can be dropped. */
  ghost predicate NoneDroppable(stmts: seq<PathStmt>, n: nat, db: Database, all: set<Node>, forms: Forms)
    requires Usable(stmts, all, forms) && n <= |stmts|
  {
    forall i :: 0 <= i < n ==> SelectLike(stmts[i]) || !DiffersWithout(stmts, i, db, all, forms)
  }

  ghost predicate DiffersWithout(stmts: seq<PathStmt>, i: nat, db: Database, all: set<Node>, forms: Forms)
    requires Usable(stmts, all, forms) && i < |stmts|
  {
    UsableCut(stmts, i, all, forms);
    Differs(Cut(stmts, i), db, forms)
  }

  /** Statement `x` is statement `kept[x]` of the list at the start; the order and all queries are kept. */
  ghost predicate Rest(start: seq<PathStmt>, stmts: seq<PathStmt>, kept: seq<nat>) {
    |kept| == |stmts| && (forall x :: 0 <= x < |kept| ==> kept[x] < |start| && start[kept[x]] == stmts[x]) &&
    (forall x, y :: 0 <= x < y < |kept| ==> kept[x] < kept[y]) &&
    (forall z :: 0 <= z < |start| && SelectLike(start[z]) ==> z in kept)
  }

  lemma RestCut(start: seq<PathStmt>, stmts: seq<PathStmt>, kept: seq<nat>, i: nat)
    requires Rest(start, stmts, kept) && i < |stmts| && !SelectLike(stmts[i])
    ensures Rest(start, Cut(stmts, i), Cut(kept, i))
  {
    forall z | 0 <= z < |start| && SelectLike(start[z]) ensures z in Cut(kept, i) {
      var x :| 0 <= x < |kept| && kept[x] == z;
      var _ := InCut(kept, i, x);
    }
  }

  // ---- what this means for the single kinds of statements ----

  /** At the end no control statement, write or read around a write can be dropped, unless it is the only
      statement. */
  lemma EveryOtherKindIsNeeded(stmts: seq<PathStmt>, db: Database, all: set<Node>, forms: Forms, i: nat)
    requires Usable(stmts, all, forms) && Minimal(stmts, db, all, forms) && i < |stmts| != 1
    requires stmts[i].usage in {InitType, UpdateWrite, InsertWrite, DeleteWrite, BeforeWriteRead, AfterWriteRead}
    ensures OwnsRoots(Cut(stmts, i), forms.Keys) && !Differs(Cut(stmts, i), db, forms)
  {
    UsableCut(stmts, i, all, forms);
    assert !DiffersWithout(stmts, i, db, all, forms);
  }

  /** Every SELECT and every version read of the start list is still there. */
  lemma ReadsAreKept(start: seq<PathStmt>, stmts: seq<PathStmt>, kept: seq<nat>, z: nat)
    requires Rest(start, stmts, kept) && z < |start|
    requires start[z].usage == SelectRead || start[z].usage == VersionSetRead
    ensures exists x :: 0 <= x < |stmts| && kept[x] == z && stmts[x] == start[z]
  {
    assert z in kept;
  }

  /** Exactly SELECTs and version reads are sent rewritten, and only in the rewritten run. */
  lemma OnlyReadsAreRewritten(stmts: seq<PathStmt>, forms: Forms, rewritten: bool, a: nat, k: nat)
    requires OwnsRoots(stmts, forms.Keys) && a < |stmts| && k < |stmts[a].roots|
    ensures stmts[a].roots[k] in forms
    ensures |SentAll(stmts, rewritten, forms)| == |stmts| && SentAll(stmts, rewritten, forms)[a].id == stmts[a].id
    ensures |SentAll(stmts, rewritten, forms)[a].texts| == |stmts[a].roots|
    ensures SentAll(stmts, rewritten, forms)[a].texts[k] ==
      if rewritten && (stmts[a].usage == SelectRead || stmts[a].usage == VersionSetRead)
      then Render(ViewOf(forms[stmts[a].roots[k]])) else Render(PlainOf(forms[stmts[a].roots[k]]))
  {
    assert stmts[a].roots[k] in RootsOf(stmts[a]);
  }

  /** A list shows the difference if and only if both runs end and their rows or their final contents
      differ. */
  lemma DiffersIff(stmts: seq<PathStmt>, db: Database, forms: Forms)
    requires OwnsRoots(stmts, forms.Keys)
    ensures var normal, transformed := db.run(SentAll(stmts, false, forms)), db.run(SentAll(stmts, true, forms));
            Differs(stmts, db, forms) <==>
            normal.Some? && transformed.Some? &&
            (normal.value.rows != transformed.value.rows || !db.same(normal.value.content, transformed.value.content))
  {
  }

  class CrossTester {
    var lastPathStmts: seq<PathStmt>

    constructor (stmts: seq<PathStmt>)
      ensures lastPathStmts == stmts
    {
      lastPathStmts := stmts;
    }

    /** One turn of the loop: drops the first statement that can be dropped. After an exception the
        expressions in `shown` are rewritten. */
    method DropOne(db: Database, ghost all: set<Node>, ghost forms: Forms, clickhouse: bool)
      returns (changed: bool, threw: bool, ghost at: nat, ghost shown: set<Node>)
      requires Usable(lastPathStmts, all, forms) && State(all, {}, forms, clickhouse)
      requires Differs(lastPathStmts, db, forms)
      modifies this, Nodes(all)`isTransformed, Nodes(all)`eqExpr, Nodes(all)`disj, Nodes(all)`hasEqualExpr,
               Nodes(all)`tree, Nodes(all)`hasPrintEqExpr
      ensures Usable(lastPathStmts, all, forms) && State(all, shown, forms, clickhouse)
      ensures Differs(lastPathStmts, db, forms)
      ensures !threw ==> shown == {}
      ensures !changed ==> lastPathStmts == old(lastPathStmts) && (threw || Minimal(lastPathStmts, db, all, forms))
      ensures changed ==> !threw && lastPathStmts != []
      ensures changed ==> at < |old(lastPathStmts)| && !SelectLike(old(lastPathStmts)[at])
      ensures changed ==> lastPathStmts == Cut(old(lastPathStmts), at)
      ensures changed ==> NoneDroppable(old(lastPathStmts), at, db, all, forms)
    {
      changed, threw, at, shown := false, false, 0, {};
      for i := 0 to |lastPathStmts|
        invariant !changed && !threw && shown == {}
        invariant State(all, {}, forms, clickhouse) && lastPathStmts == old(lastPathStmts)
        invariant NoneDroppable(lastPathStmts, i, db, all, forms)
      {
        if SelectLike(lastPathStmts[i]) { continue; }
        var tmp := Cut(lastPathStmts, i);
        if tmp == [] { break; }
        UsableCut(lastPathStmts, i, all, forms);
        var persists;
        ghost var queries;
        persists, threw, queries := Retest(tmp, db, all, forms, clickhouse);
        if threw {
          shown := Covered(tmp, queries);
          return;
        }
        NothingCovered(tmp, queries);
        if persists {
          lastPathStmts := tmp;
          changed, at := true, i;
          return;
        }
      }
    }

    /** Phase 1 of minimize. Nothing is assumed of how the difference depends on the statements. */
    method MinimizePhase1(db: Database, ghost all: set<Node>, ghost forms: Forms, clickhouse: bool)
      returns (threw: bool, ghost kept: seq<nat>, ghost shown: set<Node>)
      requires lastPathStmts != []
      requires Usable(lastPathStmts, all, forms) && State(all, {}, forms, clickhouse)
      requires Differs(lastPathStmts, db, forms)
      modifies this, Nodes(all)`isTransformed, Nodes(all)`eqExpr, Nodes(all)`disj, Nodes(all)`hasEqualExpr,
               Nodes(all)`tree, Nodes(all)`hasPrintEqExpr
      ensures lastPathStmts != [] && Usable(lastPathStmts, all, forms)
      ensures Rest(old(lastPathStmts), lastPathStmts, kept) && Differs(lastPathStmts, db, forms)
      ensures !threw ==> Minimal(lastPathStmts, db, all, forms) && State(all, {}, forms, clickhouse)
      ensures threw ==> State(all, shown, forms, clickhouse)
    {
      kept := seq(|lastPathStmts|, x => x);
      forall z | 0 <= z < |kept| ensures z in kept { assert kept[z] == z; }
      var changed := true;
      threw, shown := false, {};
      while changed
        invariant lastPathStmts != [] && Usable(lastPathStmts, all, forms) && State(all, shown, forms, clickhouse)
        invariant Rest(old(lastPathStmts), lastPathStmts, kept) && Differs(lastPathStmts, db, forms)
        invariant (changed ==> !threw) && (!threw ==> shown == {})
        invariant !changed && !threw ==> Minimal(lastPathStmts, db, all, forms)
        decreases |lastPathStmts|, changed
      {
        ghost var before := lastPathStmts;
        ghost var at;
        changed, threw, at, shown := DropOne(db, all, forms, clickhouse);
        if changed {
          RestCut(old(lastPathStmts), before, kept, at);
          kept := Cut(kept, at);
        }
      }
    }
  }

  lemma NothingCovered(stmts: seq<PathStmt>, at: seq<nat>)
    requires Queries(stmts, 0, at)
    ensures Covered(stmts, at) == {}
  {
    assert forall k :: 0 <= k < |at| ==> at[k] in at;
  }
}
