/** `qcn_select_tester`: a query is printed, the expressions of its select list, FROM subqueries, WHERE
    and HAVING are transformed in place, it is printed again and put back. Both texts return the same
    rows. */
module EetQuery {
  import opened Sql
  import opened ExprTree
  import opened ExprGraph
  import opened Roots
  import S = QuerySemantics

  /** An expression of a select list; those of grouped queries, and all for clickhouse, stay fixed. */
  datatype Part = Rewritable(node: Node) | Fixed(e: Expr)

  datatype NodeQuery = NodeQuery(distinct: bool, select: seq<Part>, from: Source, search: Node, having: Option<Node>)

  /** A table reference: a named table, a subquery with its column names, a join. */
  datatype Source =
    | Table(name: string)
    | Derived(columns: seq<string>, query: NodeQuery)
    | Joined(lhs: Source, rhs: Source, on: Expr)

  // ---- the same query over plain expressions, and its rows ----

  datatype PureQuery = PureQuery(distinct: bool, select: seq<Expr>, from: PureSource, where: Expr, having: Option<Expr>)

  datatype PureSource =
    | PureTable(name: string)
    | PureDerived(columns: seq<string>, query: PureQuery)
    | PureJoined(lhs: PureSource, rhs: PureSource, on: Expr)

  /** The rows of the tables, and how GROUP BY makes one row of a group. */
  datatype Tables = Tables(table: string -> seq<S.Row>, group: seq<S.Row> -> seq<S.Row>)

  function Filter(i: Interp, env: S.Row, rows: seq<S.Row>, e: Expr): seq<S.Row> {
    if rows == [] then []
    else if ToTruth(Eval(S.At(i, env + rows[0]), e)) == True then [rows[0]] + Filter(i, env, rows[1..], e)
    else Filter(i, env, rows[1..], e)
  }

  function Project(i: Interp, env: S.Row, rows: seq<S.Row>, select: seq<Expr>): seq<S.Result> {
    if rows == [] then [] else [S.RowOf(i, env + rows[0], select)] + Project(i, env, rows[1..], select)
  }

  function Named(columns: seq<string>, values: S.Result): S.Row {
    if columns == [] || values == [] then map[] else Named(columns[1..], values[1..])[columns[0] := values[0]]
  }

  function NamedAll(columns: seq<string>, rows: seq<S.Result>): seq<S.Row> {
    if rows == [] then [] else [Named(columns, rows[0])] + NamedAll(columns, rows[1..])
  }

  function Beside(row: S.Row, rows: seq<S.Row>): seq<S.Row> {
    if rows == [] then [] else [row + rows[0]] + Beside(row, rows[1..])
  }

  function Product(ls: seq<S.Row>, rs: seq<S.Row>): seq<S.Row> {
    if ls == [] then [] else Beside(ls[0], rs) + Product(ls[1..], rs)
  }

  function QueryRows(i: Interp, env: S.Row, db: Tables, q: PureQuery): seq<S.Result>
    decreases q
  {
    var kept := Filter(i, env, SourceRows(i, env, db, q.from), q.where);
    var groups := if q.having.Some? then Filter(i, env, db.group(kept), q.having.value) else kept;
    var rows := Project(i, env, groups, q.select);
    if q.distinct then S.Dedup(rows) else rows
  }

  function SourceRows(i: Interp, env: S.Row, db: Tables, s: PureSource): seq<S.Row>
    decreases s
  {
    match s
    case PureTable(name) => db.table(name)
    case PureDerived(columns, query) => NamedAll(columns, QueryRows(i, env, db, query))
    case PureJoined(l, r, on) => Filter(i, env, Product(SourceRows(i, env, db, l), SourceRows(i, env, db, r)), on)
  }

  // ---- which rows these are ----

  lemma {:induction false} FilterIff(i: Interp, env: S.Row, rows: seq<S.Row>, e: Expr, row: S.Row)
    ensures row in Filter(i, env, rows, e) <==> row in rows && ToTruth(Eval(S.At(i, env + row), e)) == True
  {
    if rows != [] { FilterIff(i, env, rows[1..], e, row); }
  }

  lemma {:induction false} ProjectIff(i: Interp, env: S.Row, rows: seq<S.Row>, select: seq<Expr>, x: S.Result)
    ensures x in Project(i, env, rows, select) <==> exists row :: row in rows && x == S.RowOf(i, env + row, select)
  {
    if rows != [] {
      ProjectIff(i, env, rows[1..], select, x);
      assert rows[0] in rows && forall row :: row in rows <==> row == rows[0] || row in rows[1..];
    }
  }

  lemma {:induction false} NamedIff(columns: seq<string>, rows: seq<S.Result>, row: S.Row)
    ensures row in NamedAll(columns, rows) <==> exists x :: x in rows && row == Named(columns, x)
  {
    if rows != [] {
      NamedIff(columns, rows[1..], row);
      assert rows[0] in rows && forall x :: x in rows <==> x == rows[0] || x in rows[1..];
    }
  }

  lemma {:induction false} BesideIff(l: S.Row, rs: seq<S.Row>, row: S.Row)
    ensures row in Beside(l, rs) <==> exists r :: r in rs && row == l + r
  {
    if rs != [] {
      BesideIff(l, rs[1..], row);
      assert rs[0] in rs && forall r :: r in rs <==> r == rs[0] || r in rs[1..];
    }
  }

  lemma {:induction false} ProductIff(ls: seq<S.Row>, rs: seq<S.Row>, row: S.Row)
    ensures row in Product(ls, rs) <==> exists l, r :: l in ls && r in rs && row == l + r
  {
    if ls != [] {
      BesideIff(ls[0], rs, row);
      ProductIff(ls[1..], rs, row);
      assert ls[0] in ls && forall l :: l in ls <==> l == ls[0] || l in ls[1..];
    }
  }

  /** A query returns the select list of every source row that satisfies WHERE, or of every group of such
      rows that satisfies HAVING; under DISTINCT each once. */
  lemma QueryRowsIff(i: Interp, env: S.Row, db: Tables, q: PureQuery, kept: seq<S.Row>, x: S.Result)
    requires kept == Filter(i, env, SourceRows(i, env, db, q.from), q.where)
    ensures forall row :: row in kept <==>
      row in SourceRows(i, env, db, q.from) && ToTruth(Eval(S.At(i, env + row), q.where)) == True
    ensures q.having.None? ==>
      (x in QueryRows(i, env, db, q) <==> exists row :: row in kept && x == S.RowOf(i, env + row, q.select))
    ensures q.having.Some? ==>
      (x in QueryRows(i, env, db, q) <==>
       exists row :: row in db.group(kept) && ToTruth(Eval(S.At(i, env + row), q.having.value)) == True &&
                     x == S.RowOf(i, env + row, q.select))
    ensures q.distinct ==> multiset(QueryRows(i, env, db, q))[x] <= 1
  {
    forall row ensures row in kept <==>
      row in SourceRows(i, env, db, q.from) && ToTruth(Eval(S.At(i, env + row), q.where)) == True
    {
      FilterIff(i, env, SourceRows(i, env, db, q.from), q.where, row);
    }
    var groups := if q.having.Some? then Filter(i, env, db.group(kept), q.having.value) else kept;
    if q.having.Some? {
      forall row ensures row in groups <==>
        row in db.group(kept) && ToTruth(Eval(S.At(i, env + row), q.having.value)) == True
      {
        FilterIff(i, env, db.group(kept), q.having.value, row);
      }
    }
    ProjectIff(i, env, groups, q.select, x);
    S.DedupCount(Project(i, env, groups, q.select), x);
  }

  /** A table gives its rows, a subquery its rows under their names, a join the pairs of rows that satisfy
      its condition. */

  lemma SourceRowsIff(i: Interp, env: S.Row, db: Tables, s: PureSource, row: S.Row)
    ensures s.PureTable? ==> SourceRows(i, env, db, s) == db.table(s.name)
    ensures s.PureDerived? ==> (row in SourceRows(i, env, db, s) <==>
      exists x :: x in QueryRows(i, env, db, s.query) && row == Named(s.columns, x))
    ensures s.PureJoined? ==> (row in SourceRows(i, env, db, s) <==>
      ToTruth(Eval(S.At(i, env + row), s.on)) == True &&
      exists l, r :: l in SourceRows(i, env, db, s.lhs) && r in SourceRows(i, env, db, s.rhs) && row == l + r)
  {
    match s {
      case PureTable(_) =>
      case PureDerived(columns, query) => NamedIff(columns, QueryRows(i, env, db, query), row);
      case PureJoined(l, r, on) =>
        var ls, rs := SourceRows(i, env, db, l), SourceRows(i, env, db, r);
        ProductIff(ls, rs, row);
        FilterIff(i, env, Product(ls, rs), on, row);
    }
  }

  /** The expressions of a query: its own, and those of its sources at any depth. */
  lemma ExprsAre(q: PureQuery, e: Expr)
    ensures e in Exprs(q) <==>
      e in q.select || e == q.where || (q.having.Some? && e == q.having.value) || e in SourceExprs(q.from)
    ensures q.from.PureDerived? ==> SourceExprs(q.from) == Exprs(q.from.query)
    ensures q.from.PureJoined? ==> (e in SourceExprs(q.from) <==>
      e in SourceExprs(q.from.lhs) || e in SourceExprs(q.from.rhs) || e == q.from.on)
  {
  }

  // ---- which expressions a query has ----

  ghost function PartRoots(parts: seq<Part>): set<Node> {
    if parts == [] then {} else (if parts[0].Rewritable? then {parts[0].node} else {}) + PartRoots(parts[1..])
  }

  ghost function HavingRoot(q: NodeQuery): set<Node> { if q.having.Some? then {q.having.value} else {} }

  ghost function RootsIn(q: NodeQuery): set<Node>
    decreases q
  {
    PartRoots(q.select) + SourceRoots(q.from) + {q.search} + HavingRoot(q)
  }

  ghost function SourceRoots(s: Source): set<Node>
    decreases s
  {
    match s
    case Table(_) => {}
    case Derived(_, query) => RootsIn(query)
    case Joined(l, r, _) => SourceRoots(l) + SourceRoots(r)
  }

  ghost predicate OnceParts(parts: seq<Part>) {
    parts == [] || ((parts[0].Rewritable? ==> parts[0].node !in PartRoots(parts[1..])) && OnceParts(parts[1..]))
  }

  /** No expression object occurs twice. */
  ghost predicate Once(q: NodeQuery)
    decreases q
  {
    OnceParts(q.select) && OnceSource(q.from) && PartRoots(q.select) !! SourceRoots(q.from) &&
    q.search !in PartRoots(q.select) + SourceRoots(q.from) &&
    HavingRoot(q) !! PartRoots(q.select) + SourceRoots(q.from) + {q.search}
  }

  ghost predicate OnceSource(s: Source)
    decreases s
  {
    match s
    case Table(_) => true
    case Derived(_, query) => Once(query)
    case Joined(l, r, _) => OnceSource(l) && OnceSource(r) && SourceRoots(l) !! SourceRoots(r)
  }

  /** What each root prints. */
  type Prints = map<Node, Expr>

  ghost function PureParts(parts: seq<Part>, m: Prints): seq<Expr>
    requires PartRoots(parts) <= m.Keys
  {
    if parts == [] then []
    else [if parts[0].Rewritable? then m[parts[0].node] else parts[0].e] + PureParts(parts[1..], m)
  }

  ghost function Pure(q: NodeQuery, m: Prints): PureQuery
    requires RootsIn(q) <= m.Keys
    decreases q
  {
    PureQuery(q.distinct, PureParts(q.select, m), PureFrom(q.from, m), m[q.search],
              if q.having.Some? then Some(m[q.having.value]) else None)
  }

  ghost function PureFrom(s: Source, m: Prints): PureSource
    requires SourceRoots(s) <= m.Keys
    decreases s
  {
    match s
    case Table(name) => PureTable(name)
    case Derived(columns, query) => PureDerived(columns, Pure(query, m))
    case Joined(l, r, on) => PureJoined(PureFrom(l, m), PureFrom(r, m), on)
  }

  /** The expressions of a query in the order they are printed. */
  function Exprs(q: PureQuery): seq<Expr>
    decreases q
  {
    q.select + SourceExprs(q.from) + [q.where] + if q.having.Some? then [q.having.value] else []
  }

  function SourceExprs(s: PureSource): seq<Expr>
    decreases s
  {
    match s
    case PureTable(_) => []
    case PureDerived(_, query) => Exprs(query)
    case PureJoined(l, r, on) => SourceExprs(l) + SourceExprs(r) + [on]
  }

  // ---- expressions of equal value give equal rows ----

  ghost predicate SameValue(e: Expr, f: Expr) { forall i :: Eval(i, e) == Eval(i, f) }

  ghost predicate SameValues(roots: set<Node>, m: Prints, n: Prints) {
    forall r :: r in roots ==> r in m && r in n && SameValue(m[r], n[r])
  }

  lemma {:induction false} FilterSame(i: Interp, env: S.Row, rows: seq<S.Row>, e: Expr, f: Expr)
    requires SameValue(e, f)
    ensures Filter(i, env, rows, e) == Filter(i, env, rows, f)
  {
    if rows != [] {
      assert Eval(S.At(i, env + rows[0]), e) == Eval(S.At(i, env + rows[0]), f);
      FilterSame(i, env, rows[1..], e, f);
    }
  }

  lemma {:induction false} PartsSame(i: Interp, parts: seq<Part>, m: Prints, n: Prints)
    requires SameValues(PartRoots(parts), m, n)
    ensures EvalAll(i, PureParts(parts, m)) == EvalAll(i, PureParts(parts, n))
  {
    if parts != [] {
      PartsSame(i, parts[1..], m, n);
      if parts[0].Rewritable? { assert SameValue(m[parts[0].node], n[parts[0].node]); }
    }
  }

  lemma {:induction false} ProjectSame(i: Interp, env: S.Row, rows: seq<S.Row>, parts: seq<Part>, m: Prints, n: Prints)
    requires SameValues(PartRoots(parts), m, n)
    ensures Project(i, env, rows, PureParts(parts, m)) == Project(i, env, rows, PureParts(parts, n))
  {
    if rows != [] {
      PartsSame(S.At(i, env + rows[0]), parts, m, n);
      ProjectSame(i, env, rows[1..], parts, m, n);
    }
  }

  /** A query over expressions of equal value returns the same rows, in the same order. */
  lemma {:induction false} RowsSame(i: Interp, env: S.Row, db: Tables, q: NodeQuery, m: Prints, n: Prints)
    requires SameValues(RootsIn(q), m, n)
    ensures QueryRows(i, env, db, Pure(q, m)) == QueryRows(i, env, db, Pure(q, n))
    decreases q
  {
    SourceSame(i, env, db, q.from, m, n);
    assert SameValue(m[q.search], n[q.search]);
    var from := SourceRows(i, env, db, PureFrom(q.from, m));
    FilterSame(i, env, from, m[q.search], n[q.search]);
    var kept := Filter(i, env, from, m[q.search]);
    var groups := kept;
    if q.having.Some? {
      var h := q.having.value;
      assert h in RootsIn(q);
      FilterSame(i, env, db.group(kept), m[h], n[h]);
      groups := Filter(i, env, db.group(kept), m[h]);
    }
    ProjectSame(i, env, groups, q.select, m, n);
  }

  lemma {:induction false} SourceSame(i: Interp, env: S.Row, db: Tables, s: Source, m: Prints, n: Prints)
    requires SameValues(SourceRoots(s), m, n)
    ensures SourceRows(i, env, db, PureFrom(s, m)) == SourceRows(i, env, db, PureFrom(s, n))
    decreases s
  {
    match s {
      case Table(_) =>
      case Derived(_, query) => RowsSame(i, env, db, query, m, n);
      case Joined(l, r, _) =>
        SourceSame(i, env, db, l, m, n);
        SourceSame(i, env, db, r, m, n);
    }
  }

  // ---- printing ----

  /** The roots of the query print as `m` says. */
  ghost predicate PrintAs(roots: set<Node>, shown: set<Node>, m: Prints)
    reads roots`tree
  {
    forall r :: r in roots ==> r in m && m[r] == if r in shown then ViewOf(r.tree) else PlainOf(r.tree)
  }

  method OutNode(r: Node, ghost all: set<Node>, ghost shown: set<Node>, ghost forms: Forms, ghost m: Prints,
                 clickhouse: bool)
    returns (t: Text)
    requires State(all, shown, forms, clickhouse) && r in all && PrintAs({r}, shown, m)
    modifies Nodes(all)`hasPrintEqExpr
    ensures State(all, shown, forms, clickhouse) && t == Render(m[r])
  {
    t := OutRoot(r, all, shown, forms, clickhouse);
  }

  method OutParts(parts: seq<Part>, ghost all: set<Node>, ghost shown: set<Node>, ghost forms: Forms,
                  ghost m: Prints, clickhouse: bool)
    returns (texts: seq<Text>)
    requires State(all, shown, forms, clickhouse) && PartRoots(parts) <= all && PrintAs(PartRoots(parts), shown, m)
    modifies Nodes(all)`hasPrintEqExpr
    ensures State(all, shown, forms, clickhouse) && PartRoots(parts) <= m.Keys
    ensures texts == RenderAll(PureParts(parts, m))
  {
    if parts == [] { return []; }
    var t;
    match parts[0] {
      case Rewritable(node) => t := OutNode(node, all, shown, forms, m, clickhouse);
      case Fixed(e) => t := Render(e);
    }
    var rest := OutParts(parts[1..], all, shown, forms, m, clickhouse);
    texts := [t] + rest;
  }

  method OutSource(s: Source, ghost all: set<Node>, ghost shown: set<Node>, ghost forms: Forms, ghost m: Prints,
                   clickhouse: bool)
    returns (texts: seq<Text>)
    requires State(all, shown, forms, clickhouse) && SourceRoots(s) <= all && PrintAs(SourceRoots(s), shown, m)
    modifies Nodes(all)`hasPrintEqExpr
    ensures State(all, shown, forms, clickhouse) && SourceRoots(s) <= m.Keys
    ensures texts == RenderAll(SourceExprs(PureFrom(s, m)))
    decreases s
  {
    match s {
      case Table(_) => texts := [];
      case Derived(_, query) => texts := OutQuery(query, all, shown, forms, m, clickhouse);
      case Joined(l, r, on) =>
        var left := OutSource(l, all, shown, forms, m, clickhouse);
        var right := OutSource(r, all, shown, forms, m, clickhouse);
        texts := left + right + [Render(on)];
        var ls, rs := SourceExprs(PureFrom(l, m)), SourceExprs(PureFrom(r, m));
        RenderConcat(ls, rs);
        RenderConcat(ls + rs, [on]);
    }
  }

  method OutQuery(q: NodeQuery, ghost all: set<Node>, ghost shown: set<Node>, ghost forms: Forms, ghost m: Prints,
                  clickhouse: bool)
    returns (texts: seq<Text>)
    requires State(all, shown, forms, clickhouse) && RootsIn(q) <= all && PrintAs(RootsIn(q), shown, m)
    modifies Nodes(all)`hasPrintEqExpr
    ensures State(all, shown, forms, clickhouse) && RootsIn(q) <= m.Keys && texts == RenderAll(Exprs(Pure(q, m)))
    decreases q
  {
    var select := OutParts(q.select, all, shown, forms, m, clickhouse);
    var from := OutSource(q.from, all, shown, forms, m, clickhouse);
    var where := OutNode(q.search, all, shown, forms, m, clickhouse);
    var having := [];
    if q.having.Some? {
      assert q.having.value in RootsIn(q);
      var h := OutNode(q.having.value, all, shown, forms, m, clickhouse);
      having := [h];
    }
    texts := select + from + [where] + having;
    RenderParts(Pure(q, m));
  }

  lemma {:induction false} RenderConcat(es: seq<Expr>, fs: seq<Expr>)
    ensures RenderAll(es + fs) == RenderAll(es) + RenderAll(fs)
  {
    if es == [] {
      assert es + fs == fs;
    } else {
      assert (es + fs)[0] == es[0] && (es + fs)[1..] == es[1..] + fs;
      RenderConcat(es[1..], fs);
    }
  }

  lemma RenderParts(q: PureQuery)
    ensures RenderAll(Exprs(q)) == RenderAll(q.select) + RenderAll(SourceExprs(q.from)) + [Render(q.where)] +
      if q.having.Some? then [Render(q.having.value)] else []
  {
    var from := SourceExprs(q.from);
    RenderConcat(q.select, from);
    RenderConcat(q.select + from, [q.where]);
    if q.having.Some? {
      RenderConcat(q.select + from + [q.where], [q.having.value]);
    } else {
      assert Exprs(q) == q.select + from + [q.where];
    }
  }

  // ---- transforming and putting back ----

  /** What was learned earlier stays. */
  ghost predicate Extends(forms: Forms, more: Forms) {
    forall r :: r in forms ==> r in more && more[r] == forms[r]
  }

  /** What every method below keeps: the plain expressions. */
  ghost function Plains(all: set<Node>): Prints
    reads all`tree
  {
    map r | r in all :: PlainOf(r.tree)
  }

  method TransformNode(r: Node, ghost all: set<Node>, ghost shown: set<Node>, ghost forms: Forms, clickhouse: bool)
    returns (ghost more: Forms)
    requires State(all, shown, forms, clickhouse) && r in all && r !in shown
    modifies Nodes(all)`isTransformed, Nodes(all)`eqExpr, Nodes(all)`disj, Nodes(all)`hasEqualExpr,
             Nodes(all)`tree, Nodes(all)`hasPrintEqExpr
    ensures State(all, shown + {r}, more, clickhouse) && Plains(all) == old(Plains(all))
    ensures Extends(forms, more) && more.Keys == forms.Keys + {r}
  {
    TransformRoot(r, all, shown, forms, clickhouse);
    more := Learned(r, forms);
  }

  method TransformParts(parts: seq<Part>, ghost all: set<Node>, ghost shown: set<Node>, ghost forms: Forms,
                        clickhouse: bool)
    returns (ghost more: Forms)
    requires State(all, shown, forms, clickhouse) && OnceParts(parts) && PartRoots(parts) <= all
    requires PartRoots(parts) !! shown
    modifies Nodes(all)`isTransformed, Nodes(all)`eqExpr, Nodes(all)`disj, Nodes(all)`hasEqualExpr,
             Nodes(all)`tree, Nodes(all)`hasPrintEqExpr
    ensures State(all, shown + PartRoots(parts), more, clickhouse) && Plains(all) == old(Plains(all))
    ensures Extends(forms, more) && more.Keys == forms.Keys + PartRoots(parts)
  {
    more := forms;
    if parts == [] {
      assert shown + PartRoots(parts) == shown;
      return;
    }
    ghost var now := shown;
    if parts[0].Rewritable? {
      more := TransformNode(parts[0].node, all, shown, more, clickhouse);
      now := now + {parts[0].node};
    }
    more := TransformParts(parts[1..], all, now, more, clickhouse);
    assert shown + PartRoots(parts) == now + PartRoots(parts[1..]);
  }

  /** eq_transform_table_ref */
  method TransformSource(s: Source, ghost all: set<Node>, ghost shown: set<Node>, ghost forms: Forms, clickhouse: bool)
    returns (ghost more: Forms)
    requires State(all, shown, forms, clickhouse) && OnceSource(s) && SourceRoots(s) <= all && SourceRoots(s) !! shown
    modifies Nodes(all)`isTransformed, Nodes(all)`eqExpr, Nodes(all)`disj, Nodes(all)`hasEqualExpr,
             Nodes(all)`tree, Nodes(all)`hasPrintEqExpr
    ensures State(all, shown + SourceRoots(s), more, clickhouse) && Plains(all) == old(Plains(all))
    ensures Extends(forms, more) && more.Keys == forms.Keys + SourceRoots(s)
    decreases s
  {
    match s {
      case Table(_) =>
        more := forms;
        assert shown + SourceRoots(s) == shown;
      case Derived(_, query) =>
        more := TransformQuery(query, all, shown, forms, clickhouse);
      case Joined(l, r, _) =>
        more := TransformSource(l, all, shown, forms, clickhouse);
        more := TransformSource(r, all, shown + SourceRoots(l), more, clickhouse);
        assert shown + SourceRoots(s) == shown + SourceRoots(l) + SourceRoots(r);
    }
  }

  /** eq_transform_query */
  method TransformQuery(q: NodeQuery, ghost all: set<Node>, ghost shown: set<Node>, ghost forms: Forms,
                        clickhouse: bool)
    returns (ghost more: Forms)
    requires State(all, shown, forms, clickhouse) && Once(q) && RootsIn(q) <= all && RootsIn(q) !! shown
    modifies Nodes(all)`isTransformed, Nodes(all)`eqExpr, Nodes(all)`disj, Nodes(all)`hasEqualExpr,
             Nodes(all)`tree, Nodes(all)`hasPrintEqExpr
    ensures State(all, shown + RootsIn(q), more, clickhouse) && Plains(all) == old(Plains(all))
    ensures Extends(forms, more) && more.Keys == forms.Keys + RootsIn(q)
    decreases q
  {
    more := TransformParts(q.select, all, shown, forms, clickhouse);
    ghost var now := shown + PartRoots(q.select);
    more := TransformSource(q.from, all, now, more, clickhouse);
    now := now + SourceRoots(q.from);
    more := TransformConditions(q, all, now, more, clickhouse);
    RootsInOrder(q, shown);
  }

  lemma RootsInOrder(q: NodeQuery, shown: set<Node>)
    ensures shown + PartRoots(q.select) + SourceRoots(q.from) + ({q.search} + HavingRoot(q)) == shown + RootsIn(q)
  {
  }

  /** WHERE, and HAVING of a grouped query. */
  method TransformConditions(q: NodeQuery, ghost all: set<Node>, ghost shown: set<Node>, ghost forms: Forms,
                             clickhouse: bool)
    returns (ghost more: Forms)
    requires State(all, shown, forms, clickhouse) && q.search in all && HavingRoot(q) <= all
    requires q.search !in HavingRoot(q) && {q.search} + HavingRoot(q) !! shown
    modifies Nodes(all)`isTransformed, Nodes(all)`eqExpr, Nodes(all)`disj, Nodes(all)`hasEqualExpr,
             Nodes(all)`tree, Nodes(all)`hasPrintEqExpr
    ensures State(all, shown + ({q.search} + HavingRoot(q)), more, clickhouse) && Plains(all) == old(Plains(all))
    ensures Extends(forms, more) && more.Keys == forms.Keys + ({q.search} + HavingRoot(q))
  {
    more := TransformNode(q.search, all, shown, forms, clickhouse);
    if q.having.Some? {
      more := TransformNode(q.having.value, all, shown + {q.search}, more, clickhouse);
      assert shown + {q.search} + {q.having.value} == shown + ({q.search} + HavingRoot(q));
    } else {
      assert {q.search} + HavingRoot(q) == {q.search};
    }
  }

  method BackNode(r: Node, ghost all: set<Node>, ghost shown: set<Node>, ghost forms: Forms, clickhouse: bool)
    requires State(all, shown, forms, clickhouse) && r in all && r in shown
    modifies Nodes(all)`isTransformed, Nodes(all)`disj, Nodes(all)`hasEqualExpr, Nodes(all)`tree
    ensures State(all, shown - {r}, forms, clickhouse) && Plains(all) == old(Plains(all))
  {
    BackRoot(r, all, shown, forms, clickhouse);
  }

  method BackParts(parts: seq<Part>, ghost all: set<Node>, ghost shown: set<Node>, ghost forms: Forms, clickhouse: bool)
    requires State(all, shown, forms, clickhouse) && OnceParts(parts) && PartRoots(parts) <= all
    requires PartRoots(parts) <= shown
    modifies Nodes(all)`isTransformed, Nodes(all)`disj, Nodes(all)`hasEqualExpr, Nodes(all)`tree
    ensures State(all, shown - PartRoots(parts), forms, clickhouse) && Plains(all) == old(Plains(all))
  {
    if parts == [] {
      assert shown - PartRoots(parts) == shown;
      return;
    }
    ghost var now := shown;
    if parts[0].Rewritable? {
      BackNode(parts[0].node, all, shown, forms, clickhouse);
      now := now - {parts[0].node};
    }
    BackParts(parts[1..], all, now, forms, clickhouse);
    assert shown - PartRoots(parts) == now - PartRoots(parts[1..]);
  }

  method BackSource(s: Source, ghost all: set<Node>, ghost shown: set<Node>, ghost forms: Forms, clickhouse: bool)
    requires State(all, shown, forms, clickhouse) && OnceSource(s) && SourceRoots(s) <= all && SourceRoots(s) <= shown
    modifies Nodes(all)`isTransformed, Nodes(all)`disj, Nodes(all)`hasEqualExpr, Nodes(all)`tree
    ensures State(all, shown - SourceRoots(s), forms, clickhouse) && Plains(all) == old(Plains(all))
    decreases s
  {
    match s {
      case Table(_) => assert shown - SourceRoots(s) == shown;
      case Derived(_, query) => BackQuery(query, all, shown, forms, clickhouse);
      case Joined(l, r, _) =>
        BackSource(l, all, shown, forms, clickhouse);
        BackSource(r, all, shown - SourceRoots(l), forms, clickhouse);
        assert shown - SourceRoots(s) == shown - SourceRoots(l) - SourceRoots(r);
    }
  }

  method BackQuery(q: NodeQuery, ghost all: set<Node>, ghost shown: set<Node>, ghost forms: Forms, clickhouse: bool)
    requires State(all, shown, forms, clickhouse) && Once(q) && RootsIn(q) <= all && RootsIn(q) <= shown
    modifies Nodes(all)`isTransformed, Nodes(all)`disj, Nodes(all)`hasEqualExpr, Nodes(all)`tree
    ensures State(all, shown - RootsIn(q), forms, clickhouse) && Plains(all) == old(Plains(all))
    decreases q
  {
    BackParts(q.select, all, shown, forms, clickhouse);
    ghost var now := shown - PartRoots(q.select);
    BackSource(q.from, all, now, forms, clickhouse);
    now := now - SourceRoots(q.from);
    BackNode(q.search, all, now, forms, clickhouse);
    now := now - {q.search};
    if q.having.Some? {
      BackNode(q.having.value, all, now, forms, clickhouse);
      now := now - {q.having.value};
    }
    assert now == shown - RootsIn(q);
  }

  // ---- one test round ----

  ghost function Views(forms: Forms): Prints { map r | r in forms :: ViewOf(forms[r]) }

  ghost function Origins(forms: Forms): Prints { map r | r in forms :: PlainOf(forms[r]) }

  /** The two texts of a round. */
  ghost predicate Texts(q: NodeQuery, forms: Forms, origin: seq<Text>, qit: seq<Text>)
    requires RootsIn(q) <= forms.Keys
  {
    origin == RenderAll(Exprs(Pure(q, Origins(forms)))) && qit == RenderAll(Exprs(Pure(q, Views(forms))))
  }

  /** `initial_origin_and_qit_query`: afterwards the query is at rest, and later rounds print the same. */
  method InitialOriginAndQit(q: NodeQuery, ghost all: set<Node>, ghost forms: Forms, clickhouse: bool)
    returns (origin: seq<Text>, qit: seq<Text>, ghost more: Forms)
    requires State(all, {}, forms, clickhouse) && Once(q) && RootsIn(q) <= all
    modifies Nodes(all)`isTransformed, Nodes(all)`eqExpr, Nodes(all)`disj, Nodes(all)`hasEqualExpr,
             Nodes(all)`tree, Nodes(all)`hasPrintEqExpr
    ensures State(all, {}, more, clickhouse) && Plains(all) == old(Plains(all))
    ensures Extends(forms, more) && more.Keys == forms.Keys + RootsIn(q)
    ensures Texts(q, more, origin, qit)
  {
    origin := OutQuery(q, all, {}, forms, Plains(all), clickhouse);
    more := TransformQuery(q, all, {}, forms, clickhouse);
    assert {} + RootsIn(q) == RootsIn(q);
    qit := OutShown(q, all, more, clickhouse);
    SamePrints(q, Plains(all), Origins(more));
    BackQuery(q, all, RootsIn(q), more, clickhouse);
    assert RootsIn(q) - RootsIn(q) == {};
  }

  method OutShown(q: NodeQuery, ghost all: set<Node>, ghost forms: Forms, clickhouse: bool) returns (qit: seq<Text>)
    requires State(all, RootsIn(q), forms, clickhouse) && RootsIn(q) <= all && RootsIn(q) <= forms.Keys
    modifies Nodes(all)`hasPrintEqExpr
    ensures State(all, RootsIn(q), forms, clickhouse) && qit == RenderAll(Exprs(Pure(q, Views(forms))))
    ensures forall r :: r in RootsIn(q) ==> Origins(forms)[r] == Plains(all)[r]
  {
    ShownForms(q, all, forms, clickhouse);
    qit := OutQuery(q, all, RootsIn(q), forms, Views(forms), clickhouse);
  }

  lemma ShownForms(q: NodeQuery, all: set<Node>, forms: Forms, clickhouse: bool)
    requires State(all, RootsIn(q), forms, clickhouse) && RootsIn(q) <= all && RootsIn(q) <= forms.Keys
    ensures PrintAs(RootsIn(q), RootsIn(q), Views(forms))
    ensures forall r :: r in RootsIn(q) ==> Origins(forms)[r] == Plains(all)[r]
  {
    forall r | r in RootsIn(q)
      ensures Views(forms)[r] == ViewOf(r.tree) && Origins(forms)[r] == PlainOf(r.tree)
    {
      assert RootState(r, RootsIn(q), forms, clickhouse);
    }
  }

  lemma {:induction false} SamePrints(q: NodeQuery, m: Prints, n: Prints)
    requires RootsIn(q) <= m.Keys && RootsIn(q) <= n.Keys && forall r :: r in RootsIn(q) ==> m[r] == n[r]
    ensures Pure(q, m) == Pure(q, n)
    decreases q
  {
    SamePartPrints(q.select, m, n);
    SameSourcePrints(q.from, m, n);
    if q.having.Some? { assert q.having.value in RootsIn(q); }
  }

  lemma {:induction false} SamePartPrints(parts: seq<Part>, m: Prints, n: Prints)
    requires PartRoots(parts) <= m.Keys && PartRoots(parts) <= n.Keys
    requires forall r :: r in PartRoots(parts) ==> m[r] == n[r]
    ensures PureParts(parts, m) == PureParts(parts, n)
  {
    if parts != [] { SamePartPrints(parts[1..], m, n); }
  }

  lemma {:induction false} SameSourcePrints(s: Source, m: Prints, n: Prints)
    requires SourceRoots(s) <= m.Keys && SourceRoots(s) <= n.Keys && forall r :: r in SourceRoots(s) ==> m[r] == n[r]
    ensures PureFrom(s, m) == PureFrom(s, n)
    decreases s
  {
    match s {
      case Table(_) =>
      case Derived(_, query) => SamePrints(query, m, n);
      case Joined(l, r, _) =>
        SameSourcePrints(l, m, n);
        SameSourcePrints(r, m, n);
    }
  }

  /** Both texts of a round return the same rows, for every row of every database. */
  lemma BothTextsReturnTheSame(q: NodeQuery, all: set<Node>, forms: Forms, clickhouse: bool, i: Interp, env: S.Row,
                               db: Tables)
    requires State(all, {}, forms, clickhouse) && RootsIn(q) <= all && RootsIn(q) <= forms.Keys
    ensures QueryRows(i, env, db, Pure(q, Origins(forms))) == QueryRows(i, env, db, Pure(q, Views(forms)))
  {
    forall r | r in RootsIn(q) ensures SameValue(Origins(forms)[r], Views(forms)[r]) {
      FormMeans(r, all, {}, forms, clickhouse);
    }
    RowsSame(i, env, db, q, Origins(forms), Views(forms));
  }

  /** However often the round is repeated, it prints the same two texts. */
  method Rounds(q: NodeQuery, ghost all: set<Node>, clickhouse: bool, n: nat)
    returns (origins: seq<seq<Text>>, qits: seq<seq<Text>>, ghost forms: Forms)
    requires State(all, {}, map[], clickhouse) && Once(q) && RootsIn(q) <= all
    modifies Nodes(all)`isTransformed, Nodes(all)`eqExpr, Nodes(all)`disj, Nodes(all)`hasEqualExpr,
             Nodes(all)`tree, Nodes(all)`hasPrintEqExpr
    ensures State(all, {}, forms, clickhouse) && Plains(all) == old(Plains(all)) && |origins| == |qits| == n
    ensures n > 0 ==> RootsIn(q) <= forms.Keys && forall j :: 0 <= j < n ==> Texts(q, forms, origins[j], qits[j])
  {
    origins, qits, forms := [], [], map[];
    while |qits| < n
      invariant State(all, {}, forms, clickhouse) && Plains(all) == old(Plains(all)) && |origins| == |qits| <= n
      invariant |qits| > 0 ==> forms.Keys == RootsIn(q)
      invariant |qits| > 0 ==> forall j :: 0 <= j < |qits| ==> Texts(q, forms, origins[j], qits[j])
      invariant |qits| == 0 ==> forms == map[]
    {
      var origin, qit;
      ghost var more;
      origin, qit, more := InitialOriginAndQit(q, all, forms, clickhouse);
      assert |qits| > 0 ==> more == forms;
      forms := more;
      origins, qits := origins + [origin], qits + [qit];
    }
  }
}
