/** Queries as values: a row source, a select list and a search condition that may contain EXISTS
    over another query. Rows are bags; names are looked up in the innermost row that has them. */
module QuerySemantics {
  import opened Sql

  type Row = map<string, Val>    // "alias.column" to value
  type Result = seq<Val>         // one result row

  /** The interpretation `i` with the names of `env` bound. */
  function At(i: Interp, env: Row): Interp {
    i.(atom := (name: string) => if name in env then env[name] else i.atom(name))
  }

  datatype Cond =
    | Base(e: Expr)
    | And(l: Cond, r: Cond)
    | Neg(c: Cond)
    | Exists(from: seq<Row>, where: Cond)

  /** ISO/IEC 9075:1992, sections 8.8 and 8.12. */
  function Holds(i: Interp, env: Row, c: Cond): Truth
    decreases c
  {
    match c
    case Base(e) => ToTruth(Eval(At(i, env), e))
    case And(l, r) => AndT(Holds(i, env, l), Holds(i, env, r))
    case Neg(x) => NotT(Holds(i, env, x))
    case Exists(from, w) =>
      if exists k :: 0 <= k < |from| && Holds(i, env + from[k], w) == True then True else False
  }

  /** `distinct` is the set quantifier. */
  datatype Query = Query(distinct: bool, from: seq<Row>, select: seq<Expr>, where: Cond)

  function RowOf(i: Interp, env: Row, select: seq<Expr>): Result { EvalAll(At(i, env), select) }

  /** The rows of a query, in the order of its row source and with their multiplicity. */
  function Rows(i: Interp, env: Row, q: Query): seq<Result> {
    var rows := RowsFrom(i, env, q.from, q.select, q.where);
    if q.distinct then Dedup(rows) else rows
  }

  /** Each row once. */
  function Dedup(rows: seq<Result>): seq<Result> {
    if rows == [] then []
    else if rows[0] in rows[1..] then Dedup(rows[1..])
    else [rows[0]] + Dedup(rows[1..])
  }

  lemma {:induction false} DedupCount(rows: seq<Result>, x: Result)
    ensures multiset(Dedup(rows))[x] == if x in rows then 1 else 0
    ensures x in Dedup(rows) <==> x in rows
  {
    if rows != [] {
      DedupCount(rows[1..], x);
      assert rows == [rows[0]] + rows[1..];
    }
  }

  function RowsFrom(i: Interp, env: Row, from: seq<Row>, select: seq<Expr>, where: Cond): seq<Result> {
    if from == [] then []
    else
      var rest := RowsFrom(i, env, from[1..], select, where);
      if Holds(i, env + from[0], where) == True then [RowOf(i, env + from[0], select)] + rest else rest
  }

  lemma {:induction false} RowInRows(i: Interp, env: Row, from: seq<Row>, select: seq<Expr>, where: Cond, x: Result)
    ensures x in RowsFrom(i, env, from, select, where) <==>
      exists k :: 0 <= k < |from| && Holds(i, env + from[k], where) == True && x == RowOf(i, env + from[k], select)
  {
    if from != [] {
      RowInRows(i, env, from[1..], select, where, x);
      if exists k :: 0 <= k < |from| && Holds(i, env + from[k], where) == True && x == RowOf(i, env + from[k], select) {
        var k :| 0 <= k < |from| && Holds(i, env + from[k], where) == True && x == RowOf(i, env + from[k], select);
        if k > 0 { assert from[1..][k - 1] == from[k]; }
      }
    }
  }

  // ---- names ----

  function Names(e: Expr): set<string> {
    match e
    case Atom(n) => {n}
    case Literal(_) => {}
    case Arith(_, l, r) => Names(l) + Names(r)
    case Compare(_, l, r) => Names(l) + Names(r)
    case Junction(_, l, r) => Names(l) + Names(r)
    case Not(x) => Names(x)
    case NullTest(x, _) => Names(x)
    case Case(c, t, f) => Names(c) + Names(t) + Names(f)
    case Call(_, args) => NamesAll(args)
  }

  function NamesAll(es: seq<Expr>): (r: set<string>)
    ensures forall k :: 0 <= k < |es| ==> Names(es[k]) <= r
  {
    if es == [] then {} else Names(es[0]) + NamesAll(es[1..])
  }

  function CondNames(c: Cond): set<string> {
    match c
    case Base(e) => Names(e)
    case And(l, r) => CondNames(l) + CondNames(r)
    case Neg(x) => CondNames(x)
    case Exists(_, w) => CondNames(w)
  }

  /** The two environments give the names the same values. */
  predicate Agree(a: Row, b: Row, names: set<string>) {
    forall n :: n in names ==> (n in a <==> n in b) && (n in a ==> a[n] == b[n])
  }

  lemma {:induction false} EvalAgrees(i: Interp, a: Row, b: Row, e: Expr)
    requires Agree(a, b, Names(e))
    ensures Eval(At(i, a), e) == Eval(At(i, b), e)
  {
    match e {
      case Atom(_) =>
      case Literal(_) =>
      case Arith(_, l, r) => EvalAgrees(i, a, b, l); EvalAgrees(i, a, b, r);
      case Compare(_, l, r) => EvalAgrees(i, a, b, l); EvalAgrees(i, a, b, r);
      case Junction(_, l, r) => EvalAgrees(i, a, b, l); EvalAgrees(i, a, b, r);
      case Not(x) => EvalAgrees(i, a, b, x);
      case NullTest(x, _) => EvalAgrees(i, a, b, x);
      case Case(c, t, f) => EvalAgrees(i, a, b, c); EvalAgrees(i, a, b, t); EvalAgrees(i, a, b, f);
      case Call(_, args) => EvalAllAgrees(i, a, b, args);
    }
  }

  lemma {:induction false} EvalAllAgrees(i: Interp, a: Row, b: Row, es: seq<Expr>)
    requires Agree(a, b, NamesAll(es))
    ensures EvalAll(At(i, a), es) == EvalAll(At(i, b), es)
  {
    if es != [] {
      EvalAgrees(i, a, b, es[0]);
      EvalAllAgrees(i, a, b, es[1..]);
    }
  }

  lemma {:induction false} HoldsAgrees(i: Interp, a: Row, b: Row, c: Cond)
    requires Agree(a, b, CondNames(c))
    ensures Holds(i, a, c) == Holds(i, b, c)
    decreases c
  {
    match c {
      case Base(e) => EvalAgrees(i, a, b, e);
      case And(l, r) => HoldsAgrees(i, a, b, l); HoldsAgrees(i, a, b, r);
      case Neg(x) => HoldsAgrees(i, a, b, x);
      case Exists(from, w) =>
        forall k | 0 <= k < |from| ensures Holds(i, a + from[k], w) == Holds(i, b + from[k], w) {
          HoldsAgrees(i, a + from[k], b + from[k], w);
        }
    }
  }

  // ---- the null-safe equality of two select lists ----

  /** `(l = r) or ((l is null) and (r is null))`. */
  function SameColumn(l: Expr, r: Expr): Expr {
    Junction(true, Compare("=", l, r), Junction(false, NullTest(l, false), NullTest(r, false)))
  }

  /** The first `n` columns are the same, joined with AND from the left. */
  function SameColumns(ls: seq<Expr>, rs: seq<Expr>, n: nat): Expr
    requires 0 < n <= |ls| && n <= |rs|
  {
    if n == 1 then SameColumn(ls[0], rs[0])
    else Junction(false, SameColumns(ls, rs, n - 1), SameColumn(ls[n - 1], rs[n - 1]))
  }

  /** `=` is SQL equality: unknown as soon as one side is NULL. */
  predicate SqlEquality(i: Interp, a: Val, b: Val) {
    i.compare("=", a, b) == (if a == Null || b == Null then Unknown else if a == b then True else False)
  }

  ghost predicate HasEquality(i: Interp) { forall a, b :: SqlEquality(i, a, b) }

  lemma SameColumnMeans(i: Interp, l: Expr, r: Expr)
    requires HasEquality(i)
    ensures ToTruth(Eval(i, SameColumn(l, r))) == True <==> Eval(i, l) == Eval(i, r)
  {
    var a, b := Eval(i, l), Eval(i, r);
    assert SqlEquality(i, a, b);
    var eq, nulls := Compare("=", l, r), Junction(false, NullTest(l, false), NullTest(r, false));
    assert Eval(i, eq) == FromTruth(i.compare("=", a, b));
    assert Eval(i, NullTest(l, false)) == Bool(a == Null) && Eval(i, NullTest(r, false)) == Bool(b == Null);
    assert Eval(i, nulls) == Bool(a == Null && b == Null);
  }

  /** The predicate is true exactly when no column is distinct; otherwise it is false or unknown. */
  lemma {:induction false} SameColumnsMeans(i: Interp, ls: seq<Expr>, rs: seq<Expr>, n: nat)
    requires HasEquality(i) && 0 < n <= |ls| && n <= |rs|
    ensures ToTruth(Eval(i, SameColumns(ls, rs, n))) == True <==>
      forall k :: 0 <= k < n ==> Eval(i, ls[k]) == Eval(i, rs[k])
  {
    SameColumnMeans(i, ls[n - 1], rs[n - 1]);
    if n > 1 {
      SameColumnsMeans(i, ls, rs, n - 1);
      var prefix, last := SameColumns(ls, rs, n - 1), SameColumn(ls[n - 1], rs[n - 1]);
      assert Eval(i, Junction(false, prefix, last)) ==
        FromTruth(AndT(ToTruth(Eval(i, prefix)), ToTruth(Eval(i, last))));
    }
  }

  // ---- INTERSECT and EXCEPT as (NOT) EXISTS ----

  /** The left query with `[not] exists (right where same columns and right.where)` put before its condition. */
  function Correlated(l: Query, r: Query, negate: bool): Query
    requires 0 < |l.select| == |r.select|
  {
    var same := Base(SameColumns(l.select, r.select, |l.select|));
    var exists_ := Exists(r.from, And(same, r.where));
    l.(where := And(if negate then Neg(exists_) else exists_, l.where))
  }

  /** The rewritten condition is well scoped: no name of the left select list is captured by a row
      of the right, and the right does not see the rows of the left. */
  predicate NoCapture(l: Query, r: Query) {
    forall a, b :: a in l.from && b in r.from ==>
      NamesAll(l.select) !! b.Keys &&
      forall n :: n in NamesAll(r.select) + CondNames(r.where) ==> n in b || n !in a
  }

  function Keep(rows: seq<Result>, others: seq<Result>, negate: bool): seq<Result> {
    if rows == [] then []
    else if (rows[0] in others) != negate then [rows[0]] + Keep(rows[1..], others, negate)
    else Keep(rows[1..], others, negate)
  }

  lemma InnerMatches(i: Interp, env: Row, l: Query, r: Query, a: Row, k: nat)
    requires HasEquality(i) && 0 < |l.select| == |r.select| && NoCapture(l, r)
    requires a in l.from && k < |r.from|
    ensures var same := Base(SameColumns(l.select, r.select, |l.select|));
            Holds(i, env + a + r.from[k], And(same, r.where)) == True <==>
            Holds(i, env + r.from[k], r.where) == True &&
            RowOf(i, env + r.from[k], r.select) == RowOf(i, env + a, l.select)
  {
    var b := r.from[k];
    var inner, right, left := env + a + b, env + b, env + a;
    HoldsAgrees(i, inner, right, r.where);
    EvalAllAgrees(i, inner, right, r.select);
    EvalAllAgrees(i, inner, left, l.select);
    SameColumnsHold(i, inner, l.select, r.select);
  }

  lemma SameColumnsHold(i: Interp, env: Row, ls: seq<Expr>, rs: seq<Expr>)
    requires HasEquality(i) && 0 < |ls| == |rs|
    ensures Holds(i, env, Base(SameColumns(ls, rs, |ls|))) == True <==> RowOf(i, env, ls) == RowOf(i, env, rs)
  {
    var at := At(i, env);
    assert HasEquality(at) by { assert forall x, y :: SqlEquality(i, x, y) ==> SqlEquality(at, x, y); }
    SameColumnsMeans(at, ls, rs, |ls|);
    assert forall j :: 0 <= j < |ls| ==> EvalAll(at, ls)[j] == Eval(at, ls[j]) && EvalAll(at, rs)[j] == Eval(at, rs[j]);
  }

  lemma ExistsMeans(i: Interp, env: Row, l: Query, r: Query, a: Row)
    requires HasEquality(i) && 0 < |l.select| == |r.select| && NoCapture(l, r) && a in l.from
    ensures var same := Base(SameColumns(l.select, r.select, |l.select|));
            Holds(i, env + a, Exists(r.from, And(same, r.where))) ==
            if RowOf(i, env + a, l.select) in Rows(i, env, r) then True else False
  {
    var same := Base(SameColumns(l.select, r.select, |l.select|));
    var x := RowOf(i, env + a, l.select);
    RowInRows(i, env, r.from, r.select, r.where, x);
    DedupCount(RowsFrom(i, env, r.from, r.select, r.where), x);
    forall k | 0 <= k < |r.from|
      ensures Holds(i, env + a + r.from[k], And(same, r.where)) == True <==>
              Holds(i, env + r.from[k], r.where) == True && x == RowOf(i, env + r.from[k], r.select)
    {
      InnerMatches(i, env, l, r, a, k);
    }
  }

  lemma CorrelatedHolds(i: Interp, env: Row, l: Query, r: Query, negate: bool)
    requires 0 < |l.select| == |r.select|
    ensures var exists_ := Exists(r.from, And(Base(SameColumns(l.select, r.select, |l.select|)), r.where));
            var e := Holds(i, env, exists_);
            Holds(i, env, Correlated(l, r, negate).where) == AndT(if negate then NotT(e) else e, Holds(i, env, l.where))
  {
  }

  lemma {:induction false} CorrelatedRowsFrom(i: Interp, env: Row, l: Query, r: Query, negate: bool, n: nat)
    requires HasEquality(i) && 0 < |l.select| == |r.select| && NoCapture(l, r) && n <= |l.from|
    ensures RowsFrom(i, env, l.from[n..], l.select, Correlated(l, r, negate).where) ==
      Keep(RowsFrom(i, env, l.from[n..], l.select, l.where), Rows(i, env, r), negate)
    decreases |l.from| - n
  {
    if n == |l.from| {
      assert l.from[n..] == [];
    } else {
      CorrelatedRowsFrom(i, env, l, r, negate, n + 1);
      ExistsMeans(i, env, l, r, l.from[n]);
      CorrelatedHolds(i, env + l.from[n], l, r, negate);
      assert l.from[n..][0] == l.from[n] && l.from[n..][1..] == l.from[n + 1..];
    }
  }

  lemma {:induction false} KeepSameMembers(rows: seq<Result>, others: seq<Result>, same: seq<Result>, negate: bool)
    requires forall x :: x in others <==> x in same
    ensures Keep(rows, others, negate) == Keep(rows, same, negate)
  {
    if rows != [] { KeepSameMembers(rows[1..], others, same, negate); }
  }

  lemma {:induction false} KeepMembers(rows: seq<Result>, others: seq<Result>, negate: bool, x: Result)
    ensures x in Keep(rows, others, negate) <==> x in rows && (x in others) != negate
  {
    if rows != [] { KeepMembers(rows[1..], others, negate, x); }
  }

  lemma {:induction false} DedupOfKept(rows: seq<Result>, others: seq<Result>, negate: bool)
    ensures Dedup(Keep(rows, others, negate)) == Keep(Dedup(rows), others, negate)
  {
    if rows != [] {
      DedupOfKept(rows[1..], others, negate);
      KeepMembers(rows[1..], others, negate, rows[0]);
    }
  }

  /** The rewritten query returns the left rows, with their multiplicity and order, that have (for
      EXCEPT: have not) a not-distinct row on the right. */
  lemma CorrelatedRows(i: Interp, env: Row, l: Query, r: Query, negate: bool)
    requires HasEquality(i) && 0 < |l.select| == |r.select| && NoCapture(l, r)
    ensures Rows(i, env, Correlated(l, r, negate)) == Keep(Rows(i, env, l), Rows(i, env, r), negate)
  {
    CorrelatedRowsFrom(i, env, l, r, negate, 0);
    assert l.from[0..] == l.from;
    DedupOfKept(RowsFrom(i, env, l.from, l.select, l.where), Rows(i, env, r), negate);
  }

  /** SQL INTERSECT (EXCEPT for `negate`) of two bags: each row once. */
  function SqlSetOp(rows: seq<Result>, others: seq<Result>, negate: bool): multiset<Result> {
    multiset(set x | x in rows && (x in others) != negate)
  }

  lemma {:induction false} KeepCount(rows: seq<Result>, others: seq<Result>, negate: bool, x: Result)
    ensures multiset(Keep(rows, others, negate))[x] ==
      if (x in others) != negate then multiset(rows)[x] else 0
  {
    if rows != [] {
      KeepCount(rows[1..], others, negate, x);
      assert rows == [rows[0]] + rows[1..];
    }
  }

  /** Without duplicates the kept rows are what INTERSECT or EXCEPT returns; as bags the two agree
      exactly when every kept row occurs once on the left. */
  lemma KeepIsSetOp(rows: seq<Result>, others: seq<Result>, negate: bool)
    ensures forall x :: x in Keep(rows, others, negate) <==> x in SqlSetOp(rows, others, negate)
    ensures multiset(Keep(rows, others, negate)) == SqlSetOp(rows, others, negate) <==>
      forall x :: x in rows && (x in others) != negate ==> multiset(rows)[x] == 1
  {
    var kept, s := multiset(Keep(rows, others, negate)), SqlSetOp(rows, others, negate);
    forall x ensures kept[x] == (if (x in others) != negate then multiset(rows)[x] else 0) {
      KeepCount(rows, others, negate, x);
    }
    forall x ensures x in Keep(rows, others, negate) <==> x in s {
      assert x in Keep(rows, others, negate) <==> kept[x] > 0;
      assert x in rows <==> multiset(rows)[x] > 0;
    }
    forall x ensures s[x] == if x in rows && (x in others) != negate then 1 else 0 {
    }
    if forall x :: x in rows && (x in others) != negate ==> multiset(rows)[x] == 1 {
      forall x ensures kept[x] == s[x] {
        assert x in rows <==> multiset(rows)[x] > 0;
      }
      assert kept == s;
    }
  }

  /** ISO/IEC 9075:1992, section 7.10, on bags of rows. */
  ghost function SetOperation(kind: string, rows: seq<Result>, others: seq<Result>): multiset<Result> {
    if kind == "intersect" then SqlSetOp(rows, others, false)
    else if kind == "except" then SqlSetOp(rows, others, true)
    else if kind == "intersect all" then multiset(rows) * multiset(others)
    else if kind == "except all" then multiset(rows) - multiset(others)
    else if kind == "union all" then multiset(rows) + multiset(others)
    else multiset(set x | x in rows + others)
  }

  /** EXISTS over a query: section 8.8. */
  ghost function ExistsIn(rows: multiset<Result>): Truth {
    if exists x :: x in rows then True else False
  }

  // ---- EXISTS as IN ----

  /** `true in (select e from ... where true)`: unknown when no row is true but some row is NULL. */
  function TrueIn(i: Interp, env: Row, from: seq<Row>, e: Expr): Truth {
    if exists k :: 0 <= k < |from| && ToTruth(Eval(At(i, env + from[k]), e)) == True then True
    else if exists k :: 0 <= k < |from| && ToTruth(Eval(At(i, env + from[k]), e)) == Unknown then Unknown
    else False
  }

  /** `case when p is null then false else p end`. */
  function Guarded(p: Expr): Expr { Case(NullTest(p, false), Literal(False), p) }

  lemma GuardedValue(i: Interp, p: Expr)
    requires IsCondition(p)
    ensures ToTruth(Eval(i, Guarded(p))) == if ToTruth(Eval(i, p)) == True then True else False
  {
    ConditionIsTruth(i, p);
    assert Eval(i, NullTest(p, false)) == Bool(Eval(i, p) == Null);
  }

  /** Moving the search condition of an EXISTS into the select list of an IN keeps its value in
      every environment; without the guard it would do so exactly when some row is true or no row
      is unknown. */
  lemma ExistsAsIn(i: Interp, env: Row, from: seq<Row>, p: Expr)
    requires IsCondition(p)
    ensures TrueIn(i, env, from, Guarded(p)) == Holds(i, env, Exists(from, Base(p)))
    ensures TrueIn(i, env, from, p) == Holds(i, env, Exists(from, Base(p))) <==>
      (exists k :: 0 <= k < |from| && ToTruth(Eval(At(i, env + from[k]), p)) == True) ||
      (forall k :: 0 <= k < |from| ==> ToTruth(Eval(At(i, env + from[k]), p)) != Unknown)
  {
    forall k | 0 <= k < |from|
      ensures ToTruth(Eval(At(i, env + from[k]), Guarded(p))) ==
              if ToTruth(Eval(At(i, env + from[k]), p)) == True then True else False
    {
      GuardedValue(At(i, env + from[k]), p);
    }
    assert forall k :: 0 <= k < |from| ==>
      Holds(i, env + from[k], Base(p)) == ToTruth(Eval(At(i, env + from[k]), p));
  }
}
