/** The rewrite of IN: `case when (x in q) is not null then exists (q where x = column) else null end`,
    with the comparison pushed into both sides of a compound query. */
module InQuery {
  import opened Sql
  import opened QuerySemantics

  /** The subquery of IN; its queries select one column. */
  datatype Subquery = Single(q: Query) | Compound(kind: string, l: Query, r: Query)

  predicate OneColumn(c: Subquery) {
    match c
    case Single(q) => |q.select| == 1
    case Compound(_, l, r) => |l.select| == 1 && |r.select| == 1
  }

  ghost function RowsOf(i: Interp, env: Row, c: Subquery): multiset<Result> {
    match c
    case Single(q) => multiset(Rows(i, env, q))
    case Compound(kind, l, r) => SetOperation(kind, Rows(i, env, l), Rows(i, env, r))
  }

  predicate Matches(i: Interp, v: Val, x: Result) { x != [] && i.compare("=", v, x[0]) == True }

  /** ISO/IEC 9075:1992, section 8.4: true if some row equals the value, else unknown if some comparison
      is. */
  ghost function In(i: Interp, v: Val, rows: multiset<Result>): Truth {
    if exists x :: x in rows && Matches(i, v, x) then True
    else if exists x: Result :: x in rows && x != [] && i.compare("=", v, x[0]) == Unknown then Unknown
    else False
  }

  /** In terms of NULL: true if the value, not NULL, is a row; unknown if it is not and there is a row
      that is NULL, or any row when the value is NULL; else false. */
  lemma InIs(i: Interp, v: Val, rows: multiset<Result>)
    requires HasEquality(i) && forall x :: x in rows ==> |x| == 1
    ensures In(i, v, rows) == True <==> v != Null && [v] in rows
    ensures In(i, v, rows) == Unknown <==>
      ([v] !in rows && [Null] in rows) || (v == Null && exists x :: x in rows)
  {
    forall x | x in rows ensures x == [x[0]] && SqlEquality(i, v, x[0]) { }
    if [v] in rows && v != Null { assert SqlEquality(i, v, v) && Matches(i, v, [v]); }
    if [Null] in rows { assert SqlEquality(i, v, Null) && [Null][0] == Null; }
    if v == Null && exists x :: x in rows {
      var x :| x in rows;
      assert SqlEquality(i, v, x[0]);
    }
  }

  /** `x = column` put before the condition. */
  function Narrow(q: Query, x: Expr): Query
    requires |q.select| == 1
  {
    q.(where := And(Base(Compare("=", x, q.select[0])), q.where))
  }

  function NarrowAll(c: Subquery, x: Expr): Subquery
    requires OneColumn(c)
  {
    match c
    case Single(q) => Single(Narrow(q, x))
    case Compound(kind, l, r) => Compound(kind, Narrow(l, x), Narrow(r, x))
  }

  /** No name of the value is captured by a row of the subquery. */
  predicate Scoped(q: Query, x: Expr) {
    forall b :: b in q.from ==> Names(x) !! b.Keys
  }

  predicate ScopedAll(c: Subquery, x: Expr) {
    match c
    case Single(q) => Scoped(q, x)
    case Compound(_, l, r) => Scoped(l, x) && Scoped(r, x)
  }

  // ---- narrowing keeps the rows that equal the value ----

  function Matching(i: Interp, v: Val, rows: seq<Result>): seq<Result> {
    if rows == [] then []
    else if Matches(i, v, rows[0]) then [rows[0]] + Matching(i, v, rows[1..])
    else Matching(i, v, rows[1..])
  }

  lemma {:induction false} MatchingCount(i: Interp, v: Val, rows: seq<Result>, x: Result)
    ensures multiset(Matching(i, v, rows))[x] == if Matches(i, v, x) then multiset(rows)[x] else 0
    ensures x in Matching(i, v, rows) <==> x in rows && Matches(i, v, x)
  {
    if rows != [] {
      MatchingCount(i, v, rows[1..], x);
      assert rows == [rows[0]] + rows[1..];
    }
  }

  lemma {:induction false} DedupOfMatching(i: Interp, v: Val, rows: seq<Result>)
    ensures Dedup(Matching(i, v, rows)) == Matching(i, v, Dedup(rows))
  {
    if rows != [] {
      DedupOfMatching(i, v, rows[1..]);
      MatchingCount(i, v, rows[1..], rows[0]);
    }
  }

  lemma NarrowHolds(i: Interp, env: Row, q: Query, x: Expr, b: Row)
    requires |q.select| == 1 && Names(x) !! b.Keys
    ensures Holds(i, env + b, Narrow(q, x).where) == True <==>
      Holds(i, env + b, q.where) == True && Matches(i, Eval(At(i, env), x), RowOf(i, env + b, q.select))
  {
    EvalAgrees(i, env + b, env, x);
    var at := At(i, env + b);
    assert EvalAll(at, q.select)[0] == Eval(at, q.select[0]);
    assert Eval(at, Compare("=", x, q.select[0])) == FromTruth(i.compare("=", Eval(at, x), Eval(at, q.select[0])));
  }

  lemma {:induction false} NarrowRowsFrom(i: Interp, env: Row, q: Query, x: Expr, n: nat)
    requires |q.select| == 1 && Scoped(q, x) && n <= |q.from|
    ensures RowsFrom(i, env, q.from[n..], q.select, Narrow(q, x).where) ==
      Matching(i, Eval(At(i, env), x), RowsFrom(i, env, q.from[n..], q.select, q.where))
    decreases |q.from| - n
  {
    if n < |q.from| {
      NarrowRowsFrom(i, env, q, x, n + 1);
      NarrowHolds(i, env, q, x, q.from[n]);
      assert q.from[n..][0] == q.from[n] && q.from[n..][1..] == q.from[n + 1..];
    }
  }

  lemma NarrowRows(i: Interp, env: Row, q: Query, x: Expr)
    requires |q.select| == 1 && Scoped(q, x)
    ensures Rows(i, env, Narrow(q, x)) == Matching(i, Eval(At(i, env), x), Rows(i, env, q))
  {
    NarrowRowsFrom(i, env, q, x, 0);
    assert q.from[0..] == q.from;
    DedupOfMatching(i, Eval(At(i, env), x), RowsFrom(i, env, q.from, q.select, q.where));
  }

  /** Every set operation keeps, of the narrowed sides, exactly the rows that equal the value. */
  lemma SetOperationOfMatching(i: Interp, v: Val, kind: string, a: seq<Result>, b: seq<Result>, x: Result)
    ensures SetOperation(kind, Matching(i, v, a), Matching(i, v, b))[x] ==
      if Matches(i, v, x) then SetOperation(kind, a, b)[x] else 0
  {
    var f, g := Matching(i, v, a), Matching(i, v, b);
    MatchingCount(i, v, a, x);
    MatchingCount(i, v, b, x);
    SetOperationCount(kind, a, b, x);
    SetOperationCount(kind, f, g, x);
  }

  function Min(m: nat, n: nat): nat { if m < n then m else n }

  /** How often a row occurs in the result depends only on how often it occurs on both sides. */
  lemma SetOperationCount(kind: string, a: seq<Result>, b: seq<Result>, x: Result)
    ensures var m, n := multiset(a)[x], multiset(b)[x];
            SetOperation(kind, a, b)[x] ==
            if kind == "intersect" then if m > 0 && n > 0 then 1 else 0
            else if kind == "except" then if m > 0 && n == 0 then 1 else 0
            else if kind == "intersect all" then Min(m, n)
            else if kind == "except all" then if m > n then m - n else 0
            else if kind == "union all" then m + n
            else if m > 0 || n > 0 then 1 else 0
  {
    assert x in a <==> multiset(a)[x] > 0;
    assert x in b <==> multiset(b)[x] > 0;
    assert x in a + b <==> x in a || x in b;
  }

  lemma NarrowRowsOf(i: Interp, env: Row, c: Subquery, x: Expr, row: Result)
    requires OneColumn(c) && ScopedAll(c, x)
    ensures RowsOf(i, env, NarrowAll(c, x))[row] ==
      if Matches(i, Eval(At(i, env), x), row) then RowsOf(i, env, c)[row] else 0
  {
    var v := Eval(At(i, env), x);
    match c {
      case Single(q) =>
        NarrowRows(i, env, q, x);
        MatchingCount(i, v, Rows(i, env, q), row);
      case Compound(kind, l, r) =>
        NarrowRows(i, env, l, x);
        NarrowRows(i, env, r, x);
        SetOperationOfMatching(i, v, kind, Rows(i, env, l), Rows(i, env, r), row);
    }
  }

  // ---- the rewrite ----

  /** What the narrowed subquery prints: INTERSECT and EXCEPT are rewritten once more. */
  ghost function PrintedRows(i: Interp, env: Row, c: Subquery): multiset<Result>
    requires OneColumn(c)
  {
    if c.Compound? && c.kind in {"intersect", "except"} then
      multiset(Rows(i, env, Correlated(c.l, c.r, c.kind == "except")))
    else RowsOf(i, env, c)
  }

  /** `case when (x in q) is not null then exists (...) else null end`. */
  ghost function Rewritten(i: Interp, env: Row, c: Subquery, x: Expr): Truth
    requires OneColumn(c)
  {
    if In(i, Eval(At(i, env), x), RowsOf(i, env, c)) != Unknown then ExistsIn(PrintedRows(i, env, NarrowAll(c, x)))
    else Unknown
  }

  predicate NoCaptureIn(c: Subquery) { c.Compound? ==> NoCapture(c.l, c.r) }

  lemma PrintedHasSameRows(i: Interp, env: Row, c: Subquery, row: Result)
    requires HasEquality(i) && OneColumn(c) && NoCaptureIn(c)
    ensures row in PrintedRows(i, env, c) <==> row in RowsOf(i, env, c)
  {
    if c.Compound? && c.kind in {"intersect", "except"} {
      CorrelatedRows(i, env, c.l, c.r, c.kind == "except");
      KeepIsSetOp(Rows(i, env, c.l), Rows(i, env, c.r), c.kind == "except");
    }
  }

  lemma NarrowNoCapture(c: Subquery, x: Expr)
    requires OneColumn(c) && ScopedAll(c, x) && NoCaptureIn(c)
    ensures NoCaptureIn(NarrowAll(c, x))
  {
    if c.Compound? {
      var names := CondNames(Narrow(c.r, x).where);
      var eq := Compare("=", x, c.r.select[0]);
      assert Names(eq) == Names(x) + Names(c.r.select[0]) && CondNames(Base(eq)) == Names(eq);
      assert names == CondNames(Base(eq)) + CondNames(c.r.where);
      assert Names(c.r.select[0]) <= NamesAll(c.r.select);
      forall a, b, n | a in c.l.from && b in c.r.from && n in NamesAll(c.r.select) + names ensures n in b || n !in a {
        if n in Names(x) { assert Names(x) !! a.Keys; }
      }
    }
  }

  /** The rewrite keeps the value of `x in q`, for a plain query and for every set operation. */
  lemma InIsExists(i: Interp, env: Row, c: Subquery, x: Expr)
    requires HasEquality(i) && OneColumn(c) && ScopedAll(c, x) && NoCaptureIn(c)
    ensures Rewritten(i, env, c, x) == In(i, Eval(At(i, env), x), RowsOf(i, env, c))
  {
    var v, rows := Eval(At(i, env), x), RowsOf(i, env, c);
    NarrowNoCapture(c, x);
    forall row ensures row in PrintedRows(i, env, NarrowAll(c, x)) <==> row in rows && Matches(i, v, row) {
      PrintedHasSameRows(i, env, NarrowAll(c, x), row);
      NarrowRowsOf(i, env, c, x, row);
    }
  }

  /** NOT IN is rewritten to the very same CASE: its value is kept if and only if `x in q` is unknown. */
  lemma NotInKeptIff(i: Interp, env: Row, c: Subquery, x: Expr)
    requires HasEquality(i) && OneColumn(c) && ScopedAll(c, x) && NoCaptureIn(c)
    ensures Rewritten(i, env, c, x) == NotT(In(i, Eval(At(i, env), x), RowsOf(i, env, c))) <==>
      In(i, Eval(At(i, env), x), RowsOf(i, env, c)) == Unknown
  {
    InIsExists(i, env, c, x);
  }

  /** `x not in (select k from t)` with x = 1 and one row with k = 1 is false, its rewrite true. */
  lemma NotInFails(i: Interp)
    requires HasEquality(i) && i.atom("x") == Data(1)
    ensures var c := Single(Query(false, [map["k" := Data(1)]], [Atom("k")], Base(Literal(True))));
            NotT(In(i, Eval(At(i, map[]), Atom("x")), RowsOf(i, map[], c))) == False &&
            Rewritten(i, map[], c, Atom("x")) == True
  {
    var row: Row := map["k" := Data(1)];
    var q := Query(false, [row], [Atom("k")], Base(Literal(True)));
    var at := At(i, map[] + row);
    assert EvalAll(at, q.select) == [Data(1)];
    assert RowsFrom(i, map[], [row][1..], q.select, q.where) == [];
    assert Rows(i, map[], q) == [[Data(1)]];
    assert SqlEquality(i, Data(1), Data(1));
    assert [Data(1)] in RowsOf(i, map[], Single(q)) && Matches(i, Data(1), [Data(1)]);
    assert Eval(At(i, map[]), Atom("x")) == Data(1);
    InIsExists(i, map[], Single(q), Atom("x"));
  }
}
