/** Expressions that are transformed and put back in place, round after round: at rest each is
    untransformed and remembers the form it takes when it is transformed. */
module Roots {
  import opened Sql
  import opened ExprTree
  import opened Replacement
  import opened ExprGraph

  /** Ready for a round: untransformed, with rewrites (if any) that are up to date. */
  ghost predicate Ready(n: Node)
    reads n, n.Repr
  {
    n.Valid() && n.Quiet({}) && AllUnmarked(n.tree) && Good(n.tree) && Kinds(n.tree)
  }

  /** Between rounds every node that takes part has its rewrite: `u` is the state it repeats. */
  ghost predicate Repeats(t: Tree, u: Tree, clickhouse: bool) {
    Good(u) && AllMarked(u, clickhouse) && t == Back(u, clickhouse)
  }

  lemma RoundFacts(t: Tree, u: Tree, clickhouse: bool)
    requires Good(t) && AllUnmarked(t) && Kinds(t) && Transformed(t, u, clickhouse)
    ensures Good(u) && AllMarked(u, clickhouse) && Kinds(u)
    ensures var b := Back(u, clickhouse);
            Good(b) && AllUnmarked(b) && Kinds(b) && Plain(b) == Plain(t) && View(b) == Plain(t)
    ensures View(t) == Plain(t)
    ensures forall i :: Meaning(i, Render(View(u))) == Meaning(i, Render(Plain(t))) == Some(Eval(i, Plain(t)))
  {
    TransformKeepsGood(t, u, clickhouse);
    TransformKeepsKinds(t, u, clickhouse);
    BackKeepsGood(u, clickhouse);
    BackKeepsKinds(u, clickhouse);
    UnmarkedPrintsPlain(t);
    UnmarkedPrintsPlain(Back(u, clickhouse));
    forall i: Interp
      ensures Meaning(i, Render(View(u))) == Meaning(i, Render(Plain(t))) == Some(Eval(i, Plain(t)))
    {
      RewritePreservesMeaning(i, u);
      MeaningOfText(i, View(u));
      MeaningOfText(i, Plain(t));
    }
  }

  /** The transformed form of each root that was transformed before. */
  type Forms = map<Node, Tree>

  /** Put back, and every rewrite memorised. */
  ghost predicate Resting(r: Node, forms: Forms, clickhouse: bool)
    reads r, r.Repr
  {
    r in forms && Kinds(forms[r]) && Ready(r) && Repeats(r.tree, forms[r], clickhouse)
  }

  ghost predicate Rewritten(r: Node, forms: Forms, clickhouse: bool)
    reads r, r.Repr
  {
    r in forms && Kinds(forms[r]) && Good(forms[r]) && AllMarked(forms[r], clickhouse) &&
    r.Valid() && r.Quiet({}) && r.tree == forms[r]
  }

  ghost function Nodes(all: set<Node>): set<Node>
    reads all`Repr
  {
    set r, n | r in all && n in r.Repr :: n
  }

  ghost function Elements(rs: seq<Node>): set<Node> { set r | r in rs }

  ghost predicate Apart(all: set<Node>)
    reads all`Repr
  {
    forall r, s :: r in all && s in all && r != s ==> r.Repr !! s.Repr
  }

  /** The roots in `shown` are rewritten; the others are at rest, or were never transformed. */
  ghost predicate State(all: set<Node>, shown: set<Node>, forms: Forms, clickhouse: bool)
    reads all, Nodes(all)
  {
    Apart(all) &&
    forall r {:trigger RootState(r, shown, forms, clickhouse)} :: r in all ==> RootState(r, shown, forms, clickhouse)
  }

  ghost predicate RootState(r: Node, shown: set<Node>, forms: Forms, clickhouse: bool)
    reads r, r.Repr
  {
    if r in shown then Rewritten(r, forms, clickhouse)
    else if r in forms then Resting(r, forms, clickhouse)
    else Ready(r)
  }

  /** The expression a tree stands for. */
  ghost function PlainOf(t: Tree): Expr { if Shaped(t) then Plain(t) else Literal(Unknown) }

  /** What a tree prints. */
  ghost function ViewOf(t: Tree): Expr { if Printable(t) then View(t) else Literal(Unknown) }

  /** The form of a root after it was transformed. */
  ghost function Learned(r: Node, forms: Forms): Forms
    reads r`tree
  {
    if r in forms then forms else forms[r := r.tree]
  }

  /** The first time the root takes a form; every later time it takes it again. */
  method TransformRoot(r: Node, ghost all: set<Node>, ghost shown: set<Node>, ghost forms: Forms, clickhouse: bool)
    requires State(all, shown, forms, clickhouse) && r in all && r !in shown
    modifies r.Repr`isTransformed, r.Repr`eqExpr, r.Repr`disj, r.Repr`hasEqualExpr, r.Repr`tree, r.Repr`hasPrintEqExpr
    ensures State(all, shown + {r}, Learned(r, forms), clickhouse)
    ensures forall o :: o in all ==> PlainOf(o.tree) == PlainOf(old(o.tree))
  {
    assert RootState(r, shown, forms, clickhouse);
    r.EquivalentTransform(clickhouse);
    TransformedOnce(old(r.tree), r.tree, r, forms, clickhouse);
    forall o | o in all
      ensures RootState(o, shown + {r}, Learned(r, forms), clickhouse) && PlainOf(o.tree) == PlainOf(old(o.tree))
    {
      if o != r { assert old(RootState(o, shown, forms, clickhouse)); }
    }
  }

  lemma TransformedOnce(t: Tree, u: Tree, r: Node, forms: Forms, clickhouse: bool)
    requires Good(t) && AllUnmarked(t) && Kinds(t) && Transformed(t, u, clickhouse)
    requires r in forms ==> Repeats(t, forms[r], clickhouse)
    ensures Good(u) && AllMarked(u, clickhouse) && Kinds(u) && PlainOf(u) == PlainOf(t)
    ensures r in forms ==> u == forms[r]
  {
    TransformKeepsGood(t, u, clickhouse);
    TransformKeepsKinds(t, u, clickhouse);
    if r in forms { SecondTransformRepeats(forms[r], u, clickhouse); }
  }

  method BackRoot(r: Node, ghost all: set<Node>, ghost shown: set<Node>, ghost forms: Forms, clickhouse: bool)
    requires State(all, shown, forms, clickhouse) && r in all && r in shown
    modifies r.Repr`isTransformed, r.Repr`disj, r.Repr`hasEqualExpr, r.Repr`tree
    ensures State(all, shown - {r}, forms, clickhouse)
    ensures forall o :: o in all ==> PlainOf(o.tree) == PlainOf(old(o.tree))
  {
    assert RootState(r, shown, forms, clickhouse);
    BackKeepsGood(forms[r], clickhouse);
    BackKeepsKinds(forms[r], clickhouse);
    r.BackTransform(clickhouse);
    forall o | o in all
      ensures RootState(o, shown - {r}, forms, clickhouse) && PlainOf(o.tree) == PlainOf(old(o.tree))
    {
      if o != r { assert old(RootState(o, shown, forms, clickhouse)); }
    }
  }

  method OutRoot(r: Node, ghost all: set<Node>, ghost shown: set<Node>, ghost forms: Forms, clickhouse: bool)
    returns (t: Text)
    requires State(all, shown, forms, clickhouse) && r in all
    modifies r.Repr`hasPrintEqExpr
    ensures State(all, shown, forms, clickhouse)
    ensures t == Render(if r in shown then ViewOf(r.tree) else PlainOf(r.tree))
  {
    assert RootState(r, shown, forms, clickhouse);
    if r !in shown { UnmarkedPrintsPlain(r.tree); }
    t := r.Out();
    forall o | o in all ensures RootState(o, shown, forms, clickhouse) {
      assert old(RootState(o, shown, forms, clickhouse));
    }
  }

  /** A form has the plain expression of its root, and means the same. */
  lemma FormMeans(r: Node, all: set<Node>, shown: set<Node>, forms: Forms, clickhouse: bool)
    requires State(all, shown, forms, clickhouse) && r in all && r in forms
    ensures PlainOf(forms[r]) == PlainOf(r.tree)
    ensures forall i :: Eval(i, ViewOf(forms[r])) == Eval(i, PlainOf(forms[r]))
  {
    assert RootState(r, shown, forms, clickhouse);
    if r !in shown { BackKeepsGood(forms[r], clickhouse); }
    forall i: Interp ensures Eval(i, ViewOf(forms[r])) == Eval(i, PlainOf(forms[r])) {
      RewritePreservesMeaning(i, forms[r]);
    }
  }
}
