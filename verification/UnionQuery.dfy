/** Compound queries as objects: the rewrite of INTERSECT and EXCEPT replaces the search objects of
    both sides, and the undo must put the very same objects back. */
module UnionQuery {
  import opened Sql
  import S = QuerySemantics

  datatype Form =
    | Generated                                    // some condition of the random generator
    | Columns(e: Expr)                             // the comparison of the two select lists
    | Term(lhs: BoolExpr, rhs: BoolExpr)           // bool_term with AND
    | NotOf(inner: BoolExpr)                       // not_expr
    | ExistsOf(subquery: QuerySpec)                // exists_predicate

  /** A condition object. `cond` is what it means; it never changes. */
  class BoolExpr {
    const form: Form
    ghost const cond: S.Cond

    constructor (form: Form, ghost cond: S.Cond)
      ensures this.form == form && this.cond == cond
    {
      this.form, this.cond := form, cond;
    }

    /** The meaning fits the operands; for EXISTS, the subquery as it is now. */
    ghost predicate Fits()
      reads if form.ExistsOf? then {form.subquery} else {}
    {
      match form
      case Generated => true
      case Columns(e) => cond == S.Base(e)
      case Term(l, r) => cond == S.And(l.cond, r.cond)
      case NotOf(x) => cond == S.Neg(x.cond)
      case ExistsOf(q) => cond == S.Exists(q.from, q.search.cond)
    }
  }

  class QuerySpec {
    const distinct: bool       // set_quantifier
    const from: seq<S.Row>
    const select: seq<Expr>
    const hasGroup: bool
    const hasWindow: bool
    var search: BoolExpr

    constructor (distinct: bool, from: seq<S.Row>, select: seq<Expr>, hasGroup: bool, hasWindow: bool, search: BoolExpr)
      ensures this.distinct == distinct && this.from == from && this.select == select && this.search == search
      ensures this.hasGroup == hasGroup && this.hasWindow == hasWindow
    {
      this.distinct, this.from, this.select, this.search := distinct, from, select, search;
      this.hasGroup, this.hasWindow := hasGroup, hasWindow;
    }

    ghost function Value(): S.Query
      reads this
    {
      S.Query(distinct, from, select, search.cond)
    }
  }

  datatype EqQuery = NoEq | TheLeft | Same(query: UnionedQuery)

  class UnionedQuery {
    const lhs: QuerySpec
    const rhs: QuerySpec
    const kind: string         // union, union all, union distinct, intersect [all], except [all]
    var isTransformed: bool
    var eqQuery: EqQuery

    // the search objects both sides had when the query was last untransformed
    ghost var lhsSearch: BoolExpr
    ghost var rhsSearch: BoolExpr

    constructor (lhs: QuerySpec, rhs: QuerySpec, kind: string)
      requires lhs != rhs && 0 < |lhs.select| == |rhs.select|
      ensures Valid() && !isTransformed && this.lhs == lhs && this.rhs == rhs && this.kind == kind
    {
      this.lhs, this.rhs, this.kind := lhs, rhs, kind;
      isTransformed, eqQuery := false, NoEq;
      lhsSearch, rhsSearch := lhs.search, rhs.search;
    }

    predicate Rewrites() {
      !(lhs.hasGroup || lhs.hasWindow || rhs.hasGroup || rhs.hasWindow) && (kind == "intersect" || kind == "except")
    }

    ghost predicate Valid()
      reads this, lhs, rhs
    {
      lhs != rhs && 0 < |lhs.select| == |rhs.select| &&
      if isTransformed && Rewrites() then eqQuery == TheLeft && Rewritten()
      else
        lhs.search == lhsSearch && rhs.search == rhsSearch &&
        (isTransformed ==>
          eqQuery.Same? && eqQuery.query.lhs == lhs && eqQuery.query.rhs == rhs && eqQuery.query.kind == kind)
    }

    /** Both search objects are conjunctions whose right operand is the search object they replaced. */
    ghost predicate Rewritten()
      requires 0 < |lhs.select| == |rhs.select|
      reads this, lhs, rhs
    {
      lhs.search.form.Term? && lhs.search.form.rhs == lhsSearch &&
      rhs.search.form.Term? && rhs.search.form.rhs == rhsSearch &&
      IsGuard(lhs.search.form.lhs) &&
      lhs.Value() == S.Correlated(OriginalLhs(), OriginalRhs(), kind == "except")
    }

    /** `guard` is (NOT) EXISTS over the right side as it is now. */
    ghost predicate IsGuard(guard: BoolExpr)
      reads rhs
    {
      if kind == "except" then
        guard.form.NotOf? && guard.Fits() && guard.form.inner.form == ExistsOf(rhs) && guard.form.inner.Fits()
      else guard.form == ExistsOf(rhs) && guard.Fits()
    }

    ghost function OriginalLhs(): S.Query
      reads this
    {
      S.Query(lhs.distinct, lhs.from, lhs.select, lhsSearch.cond)
    }

    ghost function OriginalRhs(): S.Query
      reads this
    {
      S.Query(rhs.distinct, rhs.from, rhs.select, rhsSearch.cond)
    }

    /** The comparison of the two select lists, built column by column. */
    method ComparisonOfColumns() returns (p: BoolExpr)
      requires 0 < |lhs.select| == |rhs.select|
      ensures p.form == Columns(S.SameColumns(lhs.select, rhs.select, |lhs.select|)) && p.Fits()
      ensures fresh(p)
    {
      var e := S.SameColumn(lhs.select[0], rhs.select[0]);
      var k := 1;
      while k < |lhs.select|
        invariant 1 <= k <= |lhs.select|
        invariant e == S.SameColumns(lhs.select, rhs.select, k)
      {
        e := Junction(false, e, S.SameColumn(lhs.select[k], rhs.select[k]));
        k := k + 1;
      }
      p := new BoolExpr(Columns(e), S.Base(e));
    }

    method EquivalentTransform()
      requires Valid() && !isTransformed
      modifies this, lhs`search, rhs`search
      ensures Valid() && isTransformed
      ensures lhsSearch == old(lhsSearch) && rhsSearch == old(rhsSearch)
      ensures eqQuery == TheLeft <==>
        (kind == "intersect" || kind == "except") &&
        !lhs.hasGroup && !lhs.hasWindow && !rhs.hasGroup && !rhs.hasWindow
      ensures eqQuery == TheLeft <==> lhs.search != old(lhs.search) || rhs.search != old(rhs.search)
      ensures eqQuery == TheLeft ==> fresh(lhs.search) && fresh(rhs.search)
    {
      isTransformed := true;
      if !Rewrites() {
        var again := new UnionedQuery(lhs, rhs, kind);
        eqQuery := Same(again);
        return;
      }
      Correlate();
      eqQuery := TheLeft;
    }

    /** Makes both searches conjunctions: the comparison into the right, (NOT) EXISTS into the left. */
    method Correlate()
      requires lhs != rhs && 0 < |lhs.select| == |rhs.select|
      modifies lhs`search, rhs`search
      ensures lhs.search.form.Term? && lhs.search.form.rhs == old(lhs.search)
      ensures rhs.search.form.Term? && rhs.search.form.rhs == old(rhs.search)
      ensures fresh(lhs.search) && fresh(rhs.search)
      ensures IsGuard(lhs.search.form.lhs)
      ensures lhs.Value() == S.Correlated(old(lhs.Value()), old(rhs.Value()), kind == "except")
    {
      var same := ComparisonOfColumns();
      Conjoin(rhs, same);
      var exists_ := new BoolExpr(ExistsOf(rhs), S.Exists(rhs.from, rhs.search.cond));
      var guard := exists_;
      if kind == "except" {
        guard := new BoolExpr(NotOf(exists_), S.Neg(exists_.cond));
      }
      assert exists_.Fits() && guard.Fits();
      Conjoin(lhs, guard);
    }

    method Conjoin(q: QuerySpec, guard: BoolExpr)
      modifies q`search
      ensures q.search.form == Term(guard, old(q.search)) && q.search.Fits() && fresh(q.search)
    {
      q.search := new BoolExpr(Term(guard, q.search), S.And(guard.cond, q.search.cond));
    }

    method BackTransform()
      requires Valid() && isTransformed
      modifies this`isTransformed, lhs`search, rhs`search
      ensures Valid() && !isTransformed
      ensures lhs.search == lhsSearch && rhs.search == rhsSearch
    {
      isTransformed := false;
      if lhs.hasGroup || lhs.hasWindow || rhs.hasGroup || rhs.hasWindow {
        return;
      }
      if kind == "union" || kind == "union all" {
        return;
      }
      if kind == "intersect" || kind == "except" {
        rhs.search := rhs.search.form.rhs;
        lhs.search := lhs.search.form.rhs;
      }
    }

    /** After any number of rounds both sides hold the same search objects as before. */
    method Rounds(n: nat)
      requires Valid() && !isTransformed
      modifies this, lhs`search, rhs`search
      ensures Valid() && !isTransformed
      ensures lhs.search == old(lhs.search) && rhs.search == old(rhs.search)
    {
      var k := 0;
      while k < n
        invariant Valid() && !isTransformed
        invariant lhs.search == old(lhs.search) && rhs.search == old(rhs.search)
      {
        EquivalentTransform();
        BackTransform();
        k := k + 1;
      }
    }

    /** What the text printed for the query returns. */
    ghost function Printed(i: Interp, env: S.Row): multiset<S.Result>
      reads this, lhs, rhs
    {
      if isTransformed && eqQuery == TheLeft then multiset(S.Rows(i, env, lhs.Value()))
      else S.SetOperation(kind, S.Rows(i, env, lhs.Value()), S.Rows(i, env, rhs.Value()))
    }

    ghost function Original(i: Interp, env: S.Row): multiset<S.Result>
      reads this
    {
      S.SetOperation(kind, S.Rows(i, env, OriginalLhs()), S.Rows(i, env, OriginalRhs()))
    }

    /** Printing the query transformed or not gives the same rows apart from duplicates. */
    lemma PrintedRows(i: Interp, env: S.Row)
      requires Valid() && S.HasEquality(i) && S.NoCapture(OriginalLhs(), OriginalRhs())
      ensures forall x :: x in Printed(i, env) <==> x in Original(i, env)
      ensures !(isTransformed && Rewrites()) ==> Printed(i, env) == Original(i, env)
      ensures isTransformed && Rewrites() ==>
        (Printed(i, env) == Original(i, env) <==>
          var rows, others := S.Rows(i, env, OriginalLhs()), S.Rows(i, env, OriginalRhs());
          forall x :: x in rows && (x in others) != (kind == "except") ==> multiset(rows)[x] == 1)
    {
      if isTransformed && Rewrites() {
        S.CorrelatedRows(i, env, OriginalLhs(), OriginalRhs(), kind == "except");
        S.KeepIsSetOp(S.Rows(i, env, OriginalLhs()), S.Rows(i, env, OriginalRhs()), kind == "except");
      }
    }

    /** EXISTS over the printed query keeps its value; its callers print it there. */
    lemma PrintedExists(i: Interp, env: S.Row)
      requires Valid() && S.HasEquality(i) && S.NoCapture(OriginalLhs(), OriginalRhs())
      ensures S.ExistsIn(Printed(i, env)) == S.ExistsIn(Original(i, env))
    {
      PrintedRows(i, env);
    }

    /** With SELECT DISTINCT on the left the printed query returns the same bag. */
    lemma PrintedDistinct(i: Interp, env: S.Row)
      requires Valid() && S.HasEquality(i) && S.NoCapture(OriginalLhs(), OriginalRhs()) && lhs.distinct
      ensures Printed(i, env) == Original(i, env)
    {
      PrintedRows(i, env);
      forall x | x in S.Rows(i, env, OriginalLhs()) ensures multiset(S.Rows(i, env, OriginalLhs()))[x] == 1 {
        S.DedupCount(S.RowsFrom(i, env, lhs.from, lhs.select, lhsSearch.cond), x);
      }
    }
  }
}
