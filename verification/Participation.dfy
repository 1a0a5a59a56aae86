/** Which nodes take part in a transform: every node of the object tree, except that for clickhouse those
    below a function call do not. Nodes are addressed by the operands on the way from the root. */
module Participation {
  import opened Sql
  import opened ExprTree
  import opened Replacement
  import opened ExprGraph

  /** A way down: at every node the number of one of its operands. */
  type Path = seq<nat>

  predicate HasPath(t: Tree, p: Path)
    decreases p
  {
    p == [] || (p[0] < |t.kids| && HasPath(t.kids[p[0]], p[1..]))
  }

  function TreeAt(t: Tree, p: Path): Tree
    requires HasPath(t, p)
    decreases p
  {
    if p == [] then t else TreeAt(t.kids[p[0]], p[1..])
  }

  /** Some node above the end of the path is a function call. */
  predicate BelowCall(t: Tree, p: Path)
    requires HasPath(t, p)
    decreases p
  {
    p != [] && (t.op.Funcall? || BelowCall(t.kids[p[0]], p[1..]))
  }

  lemma {:induction false} UnmarkedEverywhere(t: Tree, p: Path)
    requires AllUnmarked(t) && HasPath(t, p)
    ensures !TreeAt(t, p).marked
    decreases p
  {
    if p != [] { UnmarkedEverywhere(t.kids[p[0]], p[1..]); }
  }

  /** In the outcome of a transform a node is marked if and only if it is not, for clickhouse, below a
      function call; operators, operands and ids stay. */
  lemma {:induction false} MarkedIff(t: Tree, u: Tree, clickhouse: bool, p: Path)
    requires AllUnmarked(t) && Transformed(t, u, clickhouse) && HasPath(u, p)
    ensures HasPath(t, p) && TreeAt(u, p).op == TreeAt(t, p).op && TreeAt(u, p).cid == TreeAt(t, p).cid
    ensures TreeAt(u, p).marked <==> !(clickhouse && BelowCall(u, p))
    decreases p
  {
    if p != [] {
      var k := p[0];
      if clickhouse && t.op.Funcall? {
        assert u.kids[k] == t.kids[k];
        UnmarkedEverywhere(t.kids[k], p[1..]);
      } else {
        MarkedIff(t.kids[k], u.kids[k], clickhouse, p[1..]);
      }
    }
  }

  // ---- the objects ----

  ghost predicate Leads(n: Node, p: Path)
    reads n`Repr, n.Repr`kids, n.Repr`disj, n.Repr`isTransformed, n.Repr`eqExpr, n.Repr`hasEqualExpr,
          n.Repr`componentId, n.Repr`Repr, n.Repr`tree
    requires n.Valid()
    decreases p
  {
    p == [] || (p[0] < |n.kids| && n.Linked() && Leads(n.kids[p[0]], p[1..]))
  }

  ghost function NodeAt(n: Node, p: Path): Node
    reads n`Repr, n.Repr`kids, n.Repr`disj, n.Repr`isTransformed, n.Repr`eqExpr, n.Repr`hasEqualExpr,
          n.Repr`componentId, n.Repr`Repr, n.Repr`tree
    requires n.Valid() && Leads(n, p)
    decreases p
  {
    if p == [] then n else NodeAt(n.kids[p[0]], p[1..])
  }

  /** Above the end of the path stands a call of a function. */
  ghost predicate CallAbove(n: Node, p: Path)
    reads n`Repr, n.Repr`kids, n.Repr`disj, n.Repr`isTransformed, n.Repr`eqExpr, n.Repr`hasEqualExpr,
          n.Repr`componentId, n.Repr`Repr, n.Repr`tree
    requires n.Valid() && Leads(n, p)
    decreases p
  {
    p != [] && (n.op.Funcall? || CallAbove(n.kids[p[0]], p[1..]))
  }

  /** Along a path the objects are what the ghost tree says. */
  lemma {:induction false} NodeIsTree(n: Node, p: Path)
    requires n.Valid() && Leads(n, p)
    ensures HasPath(n.tree, p) && (CallAbove(n, p) <==> BelowCall(n.tree, p))
    ensures NodeAt(n, p) in n.Repr && NodeAt(n, p).Valid() && NodeAt(n, p).tree == TreeAt(n.tree, p)
    ensures NodeAt(n, p).isTransformed == TreeAt(n.tree, p).marked
    decreases p
  {
    assert n.Linked() && n.OwnFields() && n.Own();
    if p != [] { NodeIsTree(n.kids[p[0]], p[1..]); }
  }

  /** equivalent_transform marks every node of the object tree; for clickhouse, exactly those with no
      function call above them. back_transform leaves none marked. */
  method TransformAndBack(root: Node, clickhouse: bool)
    requires root.Valid() && root.Quiet({}) && AllUnmarked(root.tree) && Good(root.tree) && Kinds(root.tree)
    modifies root.Repr
    ensures root.Valid() && forall p :: Leads(root, p) ==> !NodeAt(root, p).isTransformed
  {
    TransformAll(root, clickhouse);
    BackAllNodes(root, clickhouse);
  }

  method TransformAll(root: Node, clickhouse: bool)
    requires root.Valid() && root.Quiet({}) && AllUnmarked(root.tree) && Good(root.tree) && Kinds(root.tree)
    modifies root.Repr
    ensures root.Valid() && Good(root.tree) && AllMarked(root.tree, clickhouse) && Kinds(root.tree)
    ensures root.Repr == old(root.Repr)
    ensures forall p :: Leads(root, p) ==> (NodeAt(root, p).isTransformed <==> !(clickhouse && CallAbove(root, p)))
  {
    root.EquivalentTransform(clickhouse);
    TransformKeepsGood(old(root.tree), root.tree, clickhouse);
    TransformKeepsKinds(old(root.tree), root.tree, clickhouse);
    forall p | Leads(root, p) ensures NodeAt(root, p).isTransformed <==> !(clickhouse && CallAbove(root, p)) {
      NodeIsTree(root, p);
      MarkedIff(old(root.tree), root.tree, clickhouse, p);
    }
  }

  method BackAllNodes(root: Node, clickhouse: bool)
    requires root.Valid() && Good(root.tree) && AllMarked(root.tree, clickhouse) && Kinds(root.tree)
    modifies root.Repr
    ensures root.Valid() && forall p :: Leads(root, p) ==> !NodeAt(root, p).isTransformed
  {
    root.BackTransform(clickhouse);
    BackKeepsGood(old(root.tree), clickhouse);
    forall p | Leads(root, p) ensures !NodeAt(root, p).isTransformed {
      NodeIsTree(root, p);
      UnmarkedEverywhere(root.tree, p);
    }
  }
}
