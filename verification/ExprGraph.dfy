/** The expression objects themselves: nodes that are rewritten in place, and rewrites that point
    back at the node they rewrite. Each node carries, as ghost state, the `Tree` it stands for. */
module ExprGraph {
  import opened Sql
  import opened ExprTree
  import opened Components
  import opened Replacement

  /** How a rewrite prints. A snapshot is text (printed_expr); random parts are fresh expressions
      that nothing else refers to. */
  datatype Form =
    | CaseThenThis(rb: Expr, rv: Expr)
    | CaseElseThis(rb: Expr, rv: Expr)
    | CasePrintedThen(rb: Expr, printed: Text)
    | CasePrintedElse(rb: Expr, printed: Text)
    | TrueAndThis(rb: Expr)
    | FalseOrThis(rb: Expr)
    | ConstExtended(ext: Expr, truth: Truth)
    | ConstNull

  predicate FormOf(f: Form, op: Op, m: Memo) {
    match f
    case CaseThenThis(rb, rv) => m == ThenThis(rb, rv)
    case CaseElseThis(rb, rv) => m == ElseThis(rb, rv)
    case CasePrintedThen(rb, printed) => m.SnapThen? && m.rb == rb && printed == Render(m.snap)
    case CasePrintedElse(rb, printed) => m.SnapElse? && m.rb == rb && printed == Render(m.snap)
    case TrueAndThis(rb) => m == AndTrue(rb)
    case FalseOrThis(rb) => m == OrFalse(rb)
    case ConstExtended(ext, truth) => m == Extended(ext) && op == BoolConst(truth)
    case ConstNull => m == SameNull
  }

  function FormText(f: Form, live: Text): Text {
    match f
    case CaseThenThis(rb, rv) => CaseText(Render(Tautology(rb)), live, Render(rv))
    case CaseElseThis(rb, rv) => CaseText(Render(Contradiction(rb)), Render(rv), live)
    case CasePrintedThen(rb, printed) => CaseText(Render(rb), printed, live)
    case CasePrintedElse(rb, printed) => CaseText(Render(rb), live, printed)
    case TrueAndThis(rb) => InfixText(Render(Tautology(rb)), TAnd, live)
    case FalseOrThis(rb) => InfixText(Render(Contradiction(rb)), TOr, live)
    case ConstExtended(ext, truth) => InfixText(Render(ext), if truth == True then TOr else TAnd, [TLit(truth)])
    case ConstNull => [TLit(Unknown)]
  }

  lemma FormTextIsRender(f: Form, op: Op, m: Memo, live: Expr, s: Text)
    requires MemoFits(op, m) && FormOf(f, op, m)
    requires f.ConstExtended? || f.ConstNull? || s == Render(live)
    ensures FormText(f, s) == Render(Wrap(op, m, live))
  {
  }

  /** bool_expr::factory: some condition, nothing more is known of it. */
  method RandomCondition() returns (e: Expr)
    ensures IsCondition(e)
  {
    e := *;
    if !IsCondition(e) {
      e := Literal(Unknown);
    }
  }

  /** The object behind eq_value_expr: a CASE or junction one of whose operands is its owner, so the
      object graph is cyclic. It never changes once it is made. */
  class EqExpr {
    const owner: Node
    const form: Form
    ghost const memo: Memo

    constructor (owner: Node, form: Form, ghost memo: Memo)
      ensures this.owner == owner && this.form == form && this.memo == memo
    {
      this.owner := owner;
      this.form := form;
      this.memo := memo;
    }

    /** Prints the rewrite; where it meets its owner, the owner prints itself live. */
    method Out() returns (s: Text)
      requires owner.Valid() && owner.eqExpr == this && owner.isTransformed
      requires owner.hasPrintEqExpr && owner.Quiet({owner})
      modifies owner.Repr`hasPrintEqExpr
      ensures owner.Valid()
      ensures forall n :: n in owner.Repr ==> n.hasPrintEqExpr == old(n.hasPrintEqExpr)
      ensures s == Render(View(owner.tree))
      decreases owner.tree, 3
    {
      var live: Text := [];
      if !form.ConstExtended? && !form.ConstNull? {
        live := owner.Out();
      }
      FormTextIsRender(form, owner.op, memo, Live(owner.tree), live);
      s := FormText(form, live);
    }
  }

  ghost predicate AreTreesOf(ts: seq<Tree>, ns: seq<Node>)
    reads ns`tree
  {
    |ts| == |ns| && forall k :: 0 <= k < |ns| ==> ts[k] == ns[k].tree
  }

  lemma {:induction false} HaveTrees(ns: seq<Node>)
    ensures exists ts :: AreTreesOf(ts, ns)
  {
    if ns == [] {
      assert AreTreesOf([], ns);
    } else {
      HaveTrees(ns[1..]);
      var ts :| AreTreesOf(ts, ns[1..]);
      assert AreTreesOf([ns[0].tree] + ts, ns);
    }
  }

  ghost function TreesOf(ns: seq<Node>): (ts: seq<Tree>)
    reads ns`tree
    ensures |ts| == |ns| && forall k :: 0 <= k < |ns| ==> ts[k] == ns[k].tree
  {
    HaveTrees(ns);
    var ts :| AreTreesOf(ts, ns);
    ts
  }

  class Node {
    const op: Op
    var disj: bool             // the op field of a bool_term: OR or AND
    var kids: seq<Node>
    var isTransformed: bool
    var eqExpr: EqExpr?
    var hasPrintEqExpr: bool
    var hasEqualExpr: bool     // a marked bool_term prints its De Morgan dual
    var componentId: int

    ghost var Repr: set<Node>
    ghost var tree: Tree

    constructor (op: Op, disj: bool, kids: seq<Node>, ghost nodes: set<Node>)
      requires Arity(op, |kids|)
      requires forall k :: 0 <= k < |kids| ==> kids[k].Valid() && kids[k] in nodes && kids[k].Repr <= nodes
      requires forall j, k :: 0 <= j < k < |kids| ==> kids[j].Repr !! kids[k].Repr
      ensures Valid() && fresh(this) && !hasPrintEqExpr
      ensures tree == Tree(op, disj, tree.kids, None, false, -1) && |tree.kids| == |kids|
      ensures forall k :: 0 <= k < |kids| ==> tree.kids[k] == kids[k].tree
      ensures Repr == {this} + nodes
    {
      this.op, this.disj, this.kids := op, disj, kids;
      isTransformed, eqExpr, hasPrintEqExpr, hasEqualExpr, componentId := false, null, false, false, -1;
      Repr := {this} + nodes;
      new;
      assert Linked();
      Settle();
    }

    /** The operands are whole trees of their own that share no node. */
    ghost predicate Linked()
      reads this`Repr, this`kids, (Repr - {this})`kids, (Repr - {this})`disj, (Repr - {this})`isTransformed,
            (Repr - {this})`eqExpr, (Repr - {this})`hasEqualExpr, (Repr - {this})`componentId,
            (Repr - {this})`Repr, (Repr - {this})`tree
      decreases Repr, 0
    {
      this in Repr && Arity(op, |kids|) &&
      (forall k :: 0 <= k < |kids| ==>
        kids[k] in Repr - {this} && kids[k].Repr <= Repr && this !in kids[k].Repr && kids[k].Valid()) &&
      (forall j, k :: 0 <= j < k < |kids| ==> kids[j].Repr !! kids[k].Repr)
    }

    ghost function MemoOf(): Option<Memo>
      reads this`eqExpr
    {
      if eqExpr == null then None else Some(eqExpr.memo)
    }

    /** The fields of the node are what the ghost tree says; nothing about its operands. */
    ghost predicate OwnFields()
      reads this`disj, this`isTransformed, this`eqExpr, this`hasEqualExpr, this`componentId, this`tree
    {
      hasEqualExpr == (op.BoolTerm? && isTransformed) && (isTransformed ==> eqExpr != null) &&
      (eqExpr != null ==> eqExpr.owner == this && FormOf(eqExpr.form, op, eqExpr.memo) && MemoFits(op, eqExpr.memo)) &&
      tree == Tree(op, disj, tree.kids, MemoOf(), isTransformed, componentId)
    }

    ghost predicate Own()
      reads this`kids, this`disj, this`isTransformed, this`eqExpr, this`hasEqualExpr, this`componentId, this`tree,
            kids`tree
    {
      OwnFields() && |tree.kids| == |kids| &&
      (forall k :: 0 <= k < |kids| ==> tree.kids[k] == kids[k].tree) && Printable(tree)
    }

    ghost predicate Valid()
      reads this`Repr, Repr`kids, Repr`disj, Repr`isTransformed, Repr`eqExpr, Repr`hasEqualExpr, Repr`componentId,
            Repr`Repr, Repr`tree
      decreases Repr, 1
    {
      this in Repr && Linked() && Own()
    }

    /** No node of the tree other than `except` is in the middle of printing its rewrite. */
    ghost predicate Quiet(except: set<Node>)
      reads this`Repr, Repr`hasPrintEqExpr
    {
      forall n :: n in Repr - except ==> !n.hasPrintEqExpr
    }

    method OutEqExpr() returns (s: Text)
      requires Valid() && isTransformed && Quiet({})
      modifies Repr`hasPrintEqExpr
      ensures Valid()
      ensures forall n :: n in Repr ==> n.hasPrintEqExpr == old(n.hasPrintEqExpr)
      ensures s == Render(View(tree))
      decreases tree, 4
    {
      assert hasPrintEqExpr == false;
      hasPrintEqExpr := true;
      s := eqExpr.Out();
      hasPrintEqExpr := false;
    }

    method Out() returns (s: Text)
      requires Valid() && (hasPrintEqExpr ==> isTransformed) && Quiet({this})
      modifies Repr`hasPrintEqExpr
      ensures Valid()
      ensures forall n :: n in Repr ==> n.hasPrintEqExpr == old(n.hasPrintEqExpr)
      ensures s == Render(if hasPrintEqExpr then Live(tree) else View(tree))
      decreases tree, if isTransformed && !hasPrintEqExpr then 5 else 2
    {
      if isTransformed && !hasPrintEqExpr {
        s := OutEqExpr();
        return;
      }
      var parts := OutKids();
      LayoutIsRender(op, disj, isTransformed, ViewAll(tree.kids), parts);
      s := Layout(op, disj, isTransformed, parts);
    }

    method OutKid(k: nat) returns (part: Text)
      requires Valid() && Quiet({this}) && k < |kids|
      modifies Repr`hasPrintEqExpr
      ensures forall n :: n in Repr ==> n.hasPrintEqExpr == old(n.hasPrintEqExpr)
      ensures part == Render(View(tree.kids[k]))
      decreases tree, 0
    {
      assert kids[k].Quiet({});
      part := kids[k].Out();
    }

    method OutKids() returns (parts: seq<Text>)
      requires Valid() && Quiet({this})
      modifies Repr`hasPrintEqExpr
      ensures Valid()
      ensures forall n :: n in Repr ==> n.hasPrintEqExpr == old(n.hasPrintEqExpr)
      ensures |parts| == |tree.kids|
      ensures forall k :: 0 <= k < |parts| ==> parts[k] == Render(View(tree.kids[k]))
      decreases tree, 1
    {
      parts := [];
      var k := 0;
      while k < |kids|
        invariant 0 <= k <= |kids| && |parts| == k
        invariant forall n :: n in Repr ==> n.hasPrintEqExpr == old(n.hasPrintEqExpr)
        invariant forall j :: 0 <= j < k ==> parts[j] == Render(View(tree.kids[j]))
      {
        var part := OutKid(k);
        parts := parts + [part];
        k := k + 1;
      }
    }

    method MarkTransformed()
      requires isTransformed == false
      modifies this`isTransformed
      ensures isTransformed
    {
      assert isTransformed == false;
      isTransformed := true;
    }

    method UnmarkTransformed()
      requires isTransformed == true
      modifies this`isTransformed
      ensures !isTransformed
    {
      assert isTransformed == true;
      isTransformed := false;
    }

    /** The rewrite a condition or a boolean constant makes; `*` stands for the random generator. */
    method NewBoolRewrite() returns (f: Form, ghost m: Memo)
      requires IsBoolOp(op)
      ensures FormOf(f, op, m) && MemoFits(op, m) && !IsSnapshot(m)
    {
      var random := RandomCondition();
      var isCaseTrue: bool := *;
      if op == BoolConst(Unknown) {
        f, m := ConstNull, SameNull;
      } else if op.BoolConst? {
        f, m := ConstExtended(random, op.truth), Extended(random);
      } else if isCaseTrue {
        f, m := TrueAndThis(random), AndTrue(random);
      } else {
        f, m := FalseOrThis(random), OrFalse(random);
      }
    }

    /** The rewrite a value makes. The third kind takes its snapshot while the node is unmarked. */
    method NewValueRewrite() returns (f: Form, ghost m: Memo)
      requires Valid() && Quiet({}) && AllUnmarked(tree) && !IsBoolOp(op)
      modifies Repr`hasPrintEqExpr
      ensures forall n :: n in Repr ==> n.hasPrintEqExpr == old(n.hasPrintEqExpr)
      ensures Shaped(tree) && FormOf(f, op, m) && NewMemo(tree, m)
    {
      PrintableIsShaped(tree);
      var randomBool := RandomCondition();
      var randomValue: Expr := *;
      var choice: nat := *;
      if choice <= 3 {
        f, m := CaseThenThis(randomBool, randomValue), ThenThis(randomBool, randomValue);
      } else if choice <= 6 {
        f, m := CaseElseThis(randomBool, randomValue), ElseThis(randomBool, randomValue);
      } else {
        UnmarkedPrintsPlain(tree);
        var printed := Out();
        var coin: bool := *;
        if coin {
          f, m := CasePrintedThen(randomBool, printed), SnapThen(randomBool, Plain(tree));
        } else {
          f, m := CasePrintedElse(randomBool, printed), SnapElse(randomBool, Plain(tree));
        }
      }
    }

    /** The part of equivalent_transform in the base classes: mark, and make the rewrite once. */
    method MakeRewrite()
      requires Valid() && Quiet({}) && AllUnmarked(tree)
      modifies this`isTransformed, this`eqExpr, Repr`hasPrintEqExpr
      ensures isTransformed && eqExpr != null && eqExpr.owner == this
      ensures FormOf(eqExpr.form, op, eqExpr.memo)
      ensures Shaped(tree)
      ensures if tree.memo.Some? then eqExpr.memo == tree.memo.value else NewMemo(tree, eqExpr.memo)
      ensures MemoFits(op, eqExpr.memo)
      ensures forall n :: n in Repr ==> n.hasPrintEqExpr == old(n.hasPrintEqExpr)
    {
      PrintableIsShaped(tree);
      MarkTransformed();
      if eqExpr != null {
        return;
      }
      var f: Form;
      ghost var m: Memo;
      if IsBoolOp(op) {
        f, m := NewBoolRewrite();
      } else {
        UnmarkTransformed();
        f, m := NewValueRewrite();
        MarkTransformed();
      }
      eqExpr := new EqExpr(this, f, m);
    }

    method EquivalentTransform(clickhouse: bool)
      requires Valid() && Quiet({}) && AllUnmarked(tree) && Kinds(tree)
      modifies Repr`isTransformed, Repr`eqExpr, Repr`disj, Repr`hasEqualExpr, Repr`tree, Repr`hasPrintEqExpr
      ensures Valid() && Quiet({})
      ensures Transformed(old(tree), tree, clickhouse)
      decreases tree, 1
    {
      assert Linked() && tree.kids == TreesOf(kids) && OwnFields();
      assert OperandsCast() by { OperandOps(); }
      MakeRewrite();
      TransformKids(clickhouse);
      FinishTransform(clickhouse);
    }

    method FinishTransform(clickhouse: bool)
      requires OperandsCast()
      requires Linked() && isTransformed && eqExpr != null && !hasEqualExpr
      requires eqExpr.owner == this && FormOf(eqExpr.form, op, eqExpr.memo) && MemoFits(op, eqExpr.memo)
      requires Shaped(tree) && tree == Tree(op, disj, tree.kids, tree.memo, false, componentId)
      requires if tree.memo.Some? then eqExpr.memo == tree.memo.value else NewMemo(tree, eqExpr.memo)
      requires KidsTransformed(clickhouse)
      modifies this`disj, this`hasEqualExpr, this`tree
      ensures Valid()
      ensures Transformed(old(tree), tree, clickhouse)
    {
      FlipBoolTerm();
      Settle();
      TransformedFromParts(old(tree), tree, clickhouse);
    }

    /** The operands are what equivalent_transform makes of the operands in the ghost tree. */
    ghost predicate KidsTransformed(clickhouse: bool)
      reads this`tree, this`kids, kids`tree
    {
      AllTransformed(op, tree.kids, TreesOf(kids), clickhouse)
    }

    /** The casts a bool_term makes on its operands succeed. */
    ghost predicate OperandsCast()
      reads this`kids
    {
      op.BoolTerm? ==> forall k :: 0 <= k < |kids| ==> IsBoolOp(kids[k].op)
    }

    lemma OperandOps()
      requires Valid()
      ensures Kinds(tree) ==> OperandsCast()
    {
      assert Linked() && forall k :: 0 <= k < |kids| ==> kids[k].Valid() && tree.kids[k] == kids[k].tree;
    }

    /** A bool_term changes between AND and OR; while it is marked it prints its De Morgan dual. */
    method FlipBoolTerm()
      requires Linked() && OperandsCast()
      modifies this`disj, this`hasEqualExpr
      ensures Linked()
      ensures op.BoolTerm? ==> disj == !old(disj) && hasEqualExpr == !old(hasEqualExpr)
      ensures !op.BoolTerm? ==> disj == old(disj) && hasEqualExpr == old(hasEqualExpr)
    {
      if op.BoolTerm? {
        disj := !disj;
        hasEqualExpr := !hasEqualExpr;
      }
    }

    /** Brings the ghost tree up to date with the fields. */
    ghost method Settle()
      requires Linked()
      requires hasEqualExpr == (op.BoolTerm? && isTransformed) && (isTransformed ==> eqExpr != null)
      requires eqExpr != null ==> eqExpr.owner == this
      requires eqExpr != null ==> FormOf(eqExpr.form, op, eqExpr.memo) && MemoFits(op, eqExpr.memo)
      modifies this`tree
      ensures Valid() && TreesOf(kids) == old(TreesOf(kids))
      ensures tree == Tree(op, disj, old(TreesOf(kids)), MemoOf(), isTransformed, componentId)
    {
      assert forall k :: 0 <= k < |kids| ==> Printable(kids[k].tree);
      tree := Tree(op, disj, TreesOf(kids), MemoOf(), isTransformed, componentId);
    }

    /** The first `k` operands are transformed, the others are as in `ts`. */
    ghost predicate PartlyTransformed(k: nat, ts: seq<Tree>, clickhouse: bool)
      reads this`kids, kids`tree
    {
      |ts| == |kids| &&
      forall j :: 0 <= j < |kids| ==>
        if j < k then Transformed(ts[j], TreesOf(kids)[j], clickhouse) else TreesOf(kids)[j] == ts[j]
    }

    method TransformKid(k: nat, clickhouse: bool, ghost ts: seq<Tree>)
      requires Linked() && Quiet({}) && k < |kids| && PartlyTransformed(k, ts, clickhouse)
      requires AllUnmarked(ts[k]) && Kinds(ts[k])
      modifies kids[k].Repr`isTransformed, kids[k].Repr`eqExpr, kids[k].Repr`disj, kids[k].Repr`hasEqualExpr,
               kids[k].Repr`tree, kids[k].Repr`hasPrintEqExpr
      ensures Linked() && Quiet({}) && PartlyTransformed(k + 1, ts, clickhouse)
      decreases ts[k], 2
    {
      assert kids[k].tree == TreesOf(kids)[k] == ts[k];
      assert kids[k].Quiet({});
      kids[k].EquivalentTransform(clickhouse);
    }

    method TransformKids(clickhouse: bool)
      requires Linked() && Quiet({}) && tree.kids == TreesOf(kids) && UnmarkedBelow(tree) && KindsBelow(tree)
      modifies (Repr - {this})`isTransformed, (Repr - {this})`eqExpr, (Repr - {this})`disj,
               (Repr - {this})`hasEqualExpr, (Repr - {this})`tree, (Repr - {this})`hasPrintEqExpr
      ensures Linked() && Quiet({})
      ensures KidsTransformed(clickhouse)
      decreases tree, 0
    {
      if SkipsKids(op, clickhouse) {
        return;
      }
      ghost var ts := tree.kids;
      var k := 0;
      while k < |kids|
        invariant 0 <= k <= |kids| && Linked() && Quiet({}) && PartlyTransformed(k, ts, clickhouse)
      {
        TransformKid(k, clickhouse, ts);
        k := k + 1;
      }
    }

    method BackTransform(clickhouse: bool)
      requires Valid() && AllMarked(tree, clickhouse) && Kinds(tree)
      modifies Repr`isTransformed, Repr`disj, Repr`hasEqualExpr, Repr`tree
      ensures Valid()
      ensures tree == Back(old(tree), clickhouse)
      decreases tree, 1
    {
      assert Linked() && tree.kids == TreesOf(kids) && OwnFields();
      assert OperandsCast() by { OperandOps(); }
      BackKids(clickhouse);
      UnmarkTransformed();
      FinishBack(clickhouse);
    }

    method FinishBack(clickhouse: bool)
      requires OperandsCast()
      requires Linked() && !isTransformed && hasEqualExpr == op.BoolTerm?
      requires eqExpr != null && eqExpr.owner == this && FormOf(eqExpr.form, op, eqExpr.memo)
      requires MemoFits(op, eqExpr.memo)
      requires tree == Tree(op, disj, tree.kids, Some(eqExpr.memo), true, componentId)
      requires KidsAreBack(clickhouse)
      modifies this`disj, this`hasEqualExpr, this`tree
      ensures Valid()
      ensures tree == Back(old(tree), clickhouse)
    {
      FlipBoolTerm();
      Settle();
      BackFromParts(old(tree), tree, clickhouse);
    }

    ghost predicate KidsAreBack(clickhouse: bool)
      reads this`tree, this`kids, kids`tree
    {
      TreesOf(kids) == KidsBack(op, tree.kids, clickhouse)
    }

    method BackKid(k: nat, clickhouse: bool, ghost ts: seq<Tree>, ghost want: seq<Tree>)
      requires Linked() && k < |kids| && Partly(k, want, ts)
      requires AllMarked(ts[k], clickhouse) && Kinds(ts[k]) && want[k] == Back(ts[k], clickhouse)
      modifies kids[k].Repr`isTransformed, kids[k].Repr`disj, kids[k].Repr`hasEqualExpr, kids[k].Repr`tree
      ensures Linked() && Partly(k + 1, want, ts)
      decreases ts[k], 2
    {
      assert kids[k].tree == TreesOf(kids)[k] == ts[k];
      kids[k].BackTransform(clickhouse);
      assert kids[k].tree == want[k];
    }

    method BackKids(clickhouse: bool)
      requires Linked() && tree.kids == TreesOf(kids)
      requires MarkedBelow(tree, clickhouse) && KindsBelow(tree) && tree.op == op
      modifies (Repr - {this})`isTransformed, (Repr - {this})`disj, (Repr - {this})`hasEqualExpr, (Repr - {this})`tree
      ensures Linked()
      ensures KidsAreBack(clickhouse)
      decreases tree, 0
    {
      if SkipsKids(op, clickhouse) {
        return;
      }
      ghost var ts, want := tree.kids, BackAll(tree.kids, clickhouse);
      var k := 0;
      while k < |kids|
        invariant 0 <= k <= |kids| && Linked() && Partly(k, want, ts)
      {
        BackKid(k, clickhouse, ts, want);
        k := k + 1;
      }
      AllBecame(want, ts);
    }

    lemma AllBecame(want: seq<Tree>, ts: seq<Tree>)
      requires Partly(|kids|, want, ts)
      ensures TreesOf(kids) == want
    {
    }

    /** The first `k` operands have become what `want` says, the others are as in `ts`. */
    ghost predicate Partly(k: nat, want: seq<Tree>, ts: seq<Tree>)
      reads this`kids, kids`tree
    {
      |ts| == |want| == |kids| &&
      forall j :: 0 <= j < |kids| ==> TreesOf(kids)[j] == if j < k then want[j] else ts[j]
    }

    // ---- components ----

    /** Numbers the tree in preorder; `id` is the reference parameter, returned as `next`. */
    method SetComponentId(id: int) returns (next: int)
      requires Valid() && AllUnmarked(tree)
      modifies Repr`componentId, Repr`tree
      ensures Valid()
      ensures tree == Number(old(tree), id) && next == id + NodeCount(old(tree))
      decreases tree, 1
    {
      assert isTransformed == false;
      assert Linked() && tree.kids == TreesOf(kids) && OwnFields();
      componentId := id;
      next := NumberKids(id + 1);
      Settle();
    }

    method NumberKid(k: nat, id: int, ghost ts: seq<Tree>, ghost want: seq<Tree>) returns (next: int)
      requires Linked() && k < |kids| && Partly(k, want, ts) && AllUnmarked(ts[k]) && want[k] == Number(ts[k], id)
      modifies kids[k].Repr`componentId, kids[k].Repr`tree
      ensures Linked() && Partly(k + 1, want, ts) && next == id + NodeCount(ts[k])
      decreases ts[k], 2
    {
      assert kids[k].tree == TreesOf(kids)[k] == ts[k];
      next := kids[k].SetComponentId(id);
      assert kids[k].tree == want[k];
    }

    method NumberKids(id: int) returns (next: int)
      requires Linked() && tree.kids == TreesOf(kids) && UnmarkedBelow(tree)
      modifies (Repr - {this})`componentId, (Repr - {this})`tree
      ensures Linked()
      ensures TreesOf(kids) == NumberAll(tree.kids, id) && next == id + NodeCountAll(tree.kids)
      decreases tree, 0
    {
      ghost var want, at := HasNumbering(tree.kids, id);
      next := NumberFrom(id, tree.kids, want, at);
    }

    method NumberFrom(id: int, ghost ts: seq<Tree>, ghost want: seq<Tree>, ghost at: seq<int>) returns (next: int)
      requires Linked() && ts == TreesOf(kids) && (forall k :: 0 <= k < |ts| ==> AllUnmarked(ts[k]))
      requires Numbering(ts, want, at) && at[0] == id
      modifies (Repr - {this})`componentId, (Repr - {this})`tree
      ensures Linked() && TreesOf(kids) == want && next == at[|ts|]
      decreases ts, 3
    {
      next := id;
      var k := 0;
      while k < |kids|
        invariant 0 <= k <= |kids| && Linked() && Partly(k, want, ts) && next == at[k]
      {
        next := NumberKid(k, next, ts, want);
        k := k + 1;
      }
      AllBecame(want, ts);
    }

    /** The first proper descendant that carries the id; null when there is none. */
    method GetComponentFromId(id: int) returns (component: Node?)
      requires Valid()
      ensures Shaped(tree) && (component != null <==> Find(tree, id).Some?)
      ensures component != null ==> component in Repr && component.Valid() && component.tree == Find(tree, id).value
      decreases tree, 1
    {
      PrintableIsShaped(tree);
      component := SearchKids(SearchOrder(op, isTransformed, |kids|), id);
    }

    method SearchKids(order: seq<nat>, id: int) returns (component: Node?)
      requires Valid() && Shaped(tree) && forall j :: 0 <= j < |order| ==> order[j] < |kids|
      ensures component != null <==> FindIn(tree, order, id).Some?
      ensures component != null ==> component in Repr && component.Valid()
      ensures component != null ==> component.tree == FindIn(tree, order, id).value
      decreases tree, 0
    {
      assert Linked();
      var j := 0;
      while j < |order|
        invariant 0 <= j <= |order|
        invariant FindIn(tree, order, id) == FindIn(tree, order[j..], id)
      {
        var kid := kids[order[j]];
        if kid.componentId == id {
          return kid;
        }
        component := kid.GetComponentFromId(id);
        if component != null {
          return;
        }
        assert order[j..][1..] == order[j + 1..];
        j := j + 1;
      }
      component := null;
    }

    /** Replaces the first slot that carries the id and takes the component. */
    method SetComponentFromId(id: int, component: Node) returns (done: bool, ghost replaced: Node?)
      requires Valid() && AllUnmarked(tree) && component.Valid() && component.Repr !! Repr
      modifies Repr`kids, Repr`Repr, Repr`tree, component`componentId, component`tree
      ensures Valid()
      ensures done <==> Replace(old(tree), id, old(component.tree)).Some?
      ensures tree == if done then Replace(old(tree), id, old(component.tree)).value else old(tree)
      ensures done ==> Detached(replaced, old(Repr), component)
      ensures !done ==> Repr == old(Repr) && component.Valid() && component.tree == old(component.tree)
      decreases tree, 3
    {
      done, replaced := ReplaceInKids(id, component);
    }

    /** The replaced component is a whole tree of its own again; the new one took its place. */
    ghost predicate Detached(replaced: Node?, was: set<Node>, component: Node)
      reads this`Repr, component`Repr, replaced, if replaced == null then {} else replaced.Repr
    {
      replaced != null && replaced.Valid() && replaced.Repr <= was && Repr == was - replaced.Repr + component.Repr
    }

    /** Linked but for operand `k`, whose nodes are `gap`. */
    ghost predicate LinkedExcept(k: nat, gap: set<Node>)
      reads this`Repr, this`kids, Repr - gap - {this}, kids`Repr
    {
      this in Repr - gap && Arity(op, |kids|) && k < |kids| &&
      (forall j :: 0 <= j < |kids| && j != k ==>
        kids[j] in Repr - gap - {this} && kids[j].Repr <= Repr - gap - {this} && kids[j].Valid()) &&
      (forall i, j :: 0 <= i < j < |kids| && i != k && j != k ==> kids[i].Repr !! kids[j].Repr)
    }

    /** Makes `n` operand `k`. */
    method Relink(k: nat, n: Node, ghost gap: set<Node>)
      requires LinkedExcept(k, gap) && OwnFields() && |tree.kids| == |kids|
      requires forall j :: 0 <= j < |kids| && j != k ==> kids[j].tree == tree.kids[j]
      requires n.Valid() && n.Repr !! (Repr - gap)
      modifies this`kids, this`Repr, this`tree
      ensures Valid()
      ensures tree == WithKid(old(tree), k, n.tree)
      ensures Repr == old(Repr) - gap + n.Repr
    {
      kids := kids[k := n];
      Repr := Repr - gap + n.Repr;
      assert Linked();
      Settle();
      assert tree.kids == old(tree).kids[k := n.tree];
    }

    method Attach(k: nat, id: int, component: Node) returns (ghost replaced: Node)
      requires Valid() && k < |kids| && component.Valid() && component.Repr !! Repr
      modifies this`kids, this`Repr, this`tree, component`componentId, component`tree
      ensures Valid()
      ensures tree == WithKid(old(tree), k, old(component.tree).(cid := id))
      ensures Detached(replaced, old(Repr), component)
    {
      replaced := kids[k];
      ghost var gap := kids[k].Repr;
      PrepareSlot(k, id, component);
      Relink(k, component, gap);
    }

    /** The component takes the id; the slot it will take is all that is not linked. */
    method PrepareSlot(k: nat, id: int, component: Node)
      requires Valid() && k < |kids| && component.Valid() && component.Repr !! Repr
      modifies component`componentId, component`tree
      ensures LinkedExcept(k, kids[k].Repr) && OwnFields() && tree.kids == TreesOf(kids)
      ensures component.Valid() && component.tree == old(component.tree).(cid := id)
      ensures kids[k].Valid() && kids[k].Repr <= Repr
    {
      assert Linked() && OwnFields() && tree.kids == TreesOf(kids);
      AttachComponent(id, component);
    }

    method AttachComponent(id: int, component: Node)
      requires component.Valid()
      modifies component`componentId, component`tree
      ensures component.Valid() && component.tree == old(component.tree).(cid := id)
    {
      assert component.Linked() && component.tree.kids == TreesOf(component.kids);
      component.componentId := id;
      component.Settle();
    }

    method ReplaceInKids(id: int, component: Node) returns (done: bool, ghost replaced: Node?)
      requires Valid() && AllUnmarked(tree) && component.Valid() && component.Repr !! Repr
      modifies Repr`kids, Repr`Repr, Repr`tree, component`componentId, component`tree
      ensures Valid()
      ensures done <==> Replace(old(tree), id, old(component.tree)).Some?
      ensures tree == if done then Replace(old(tree), id, old(component.tree)).value else old(tree)
      ensures done ==> Detached(replaced, old(Repr), component)
      ensures !done ==> Repr == old(Repr) && component.Valid() && component.tree == old(component.tree)
      decreases tree, 2
    {
      var k := 0;
      while k < |kids|
        invariant 0 <= k <= |kids| && |kids| == |tree.kids| && Repr == old(Repr)
        invariant Valid() && tree == old(tree)
        invariant component.Valid() && component.tree == old(component.tree) && component.Repr == old(component.Repr)
        invariant Replace(tree, id, component.tree) == ReplaceFrom(tree, k, id, component.tree)
      {
        done, replaced := ReplaceInKid(k, id, component);
        if done {
          return;
        }
        k := k + 1;
      }
      return false, null;
    }

    method ReplaceInKid(k: nat, id: int, component: Node) returns (done: bool, ghost replaced: Node?)
      requires Valid() && AllUnmarked(tree) && component.Valid() && component.Repr !! Repr && k < |tree.kids|
      modifies Repr`kids, Repr`Repr, Repr`tree, component`componentId, component`tree
      ensures Valid()
      ensures done <==> ReplaceOne(old(tree), k, id, old(component.tree)).Some?
      ensures tree == if done then ReplaceOne(old(tree), k, id, old(component.tree)).value else old(tree)
      ensures done ==> Detached(replaced, old(Repr), component)
      ensures !done ==> Repr == old(Repr) && component.Valid() && component.tree == old(component.tree)
      ensures !done ==> component.Repr == old(component.Repr)
      decreases tree, 1
    {
      assert Linked() && kids[k].Valid();
      assert kids[k].OwnFields() && component.OwnFields();
      if (SlotOf(op, k) == Guarded ==> IsBoolOp(component.op)) && kids[k].componentId == id {
        replaced := Attach(k, id, component);
        return true, replaced;
      }
      done, replaced := ReplaceBelow(k, id, component);
    }

    method ReplaceBelow(k: nat, id: int, component: Node) returns (done: bool, ghost replaced: Node?)
      requires Valid() && UnmarkedBelow(tree) && component.Valid() && component.Repr !! Repr && k < |kids|
      modifies Repr`kids, Repr`Repr, Repr`tree, component`componentId, component`tree
      ensures Valid()
      ensures done <==> Replace(old(tree).kids[k], id, old(component.tree)).Some?
      ensures tree ==
        if done then WithKid(old(tree), k, Replace(old(tree).kids[k], id, old(component.tree)).value) else old(tree)
      ensures done ==> Detached(replaced, old(Repr), component)
      ensures !done ==> Repr == old(Repr) && component.Valid() && component.tree == old(component.tree)
      ensures !done ==> component.Repr == old(component.Repr)
      decreases tree, 0
    {
      assert Linked() && OwnFields() && tree.kids == TreesOf(kids);
      ghost var gap := kids[k].Repr;
      done, replaced := SetInKid(k, id, component);
      Relink(k, kids[k], gap);
      SameKid(old(tree), k);
    }

    method SetInKid(k: nat, id: int, component: Node) returns (done: bool, ghost replaced: Node?)
      requires Linked() && k < |kids| && AllUnmarked(kids[k].tree) && component.Valid() && component.Repr !! Repr
      modifies kids[k].Repr`kids, kids[k].Repr`Repr, kids[k].Repr`tree, component`componentId, component`tree
      ensures LinkedExcept(k, old(kids[k].Repr)) && kids[k].Valid() && kids[k].Repr !! (Repr - old(kids[k].Repr))
      ensures forall j :: 0 <= j < |kids| && j != k ==> kids[j].tree == old(kids[j].tree)
      ensures done <==> Replace(old(kids[k].tree), id, old(component.tree)).Some?
      ensures kids[k].tree ==
        if done then Replace(old(kids[k].tree), id, old(component.tree)).value else old(kids[k].tree)
      ensures done ==> replaced != null && replaced.Valid() && replaced.Repr <= old(kids[k].Repr)
      ensures done ==> kids[k].Repr == old(kids[k].Repr) - replaced.Repr + component.Repr
      ensures !done ==> kids[k].Repr == old(kids[k].Repr) && component.Valid() && component.tree == old(component.tree)
      ensures !done ==> component.Repr == old(component.Repr)
      decreases kids[k].tree, 4
    {
      done, replaced := kids[k].SetComponentFromId(id, component);
    }
  }
}
