/** A value of type `Tree` is one state of an expression object graph: the structure under
    `value_expr`, with the rewrite each node has memorised and the flag that says whether the
    rewrite is printed. This module defines what such a state prints and what it means. */
module ExprTree {
  import opened Sql

  datatype Op =
    | Leaf(text: string)            // column_reference, const_expr
    | BoolConst(truth: Truth)       // const_bool
    | ArithOp(name: string)         // binop_expr
    | CompareOp(name: string)       // comparison_op
    | BoolTerm                      // bool_term
    | Negation                      // not_expr
    | NullPredicate(negated: bool)  // null_predicate
    | CaseExpr                      // case_expr: condition, true_expr, false_expr
    | Coalesce(name: string)        // coalesce, nullif
    | Funcall(name: string)         // funcall

  predicate Arity(op: Op, n: nat) {
    match op
    case Leaf(_) | BoolConst(_) => n == 0
    case Negation | NullPredicate(_) => n == 1
    case ArithOp(_) | CompareOp(_) | BoolTerm => n == 2
    case CaseExpr => n == 3
    case Coalesce(_) | Funcall(_) => true
  }

  predicate IsBoolOp(op: Op) {
    op.BoolConst? || op.CompareOp? || op.BoolTerm? || op.Negation? || op.NullPredicate?
  }

  /** ClickHouse gets no rewrites below a function call. */
  predicate SkipsKids(op: Op, clickhouse: bool) { clickhouse && op.Funcall? }

  /** The rewrite an object keeps in eq_value_expr, eq_bool_expr or eq_expr. "This" is the object. */
  datatype Memo =
    | ThenThis(rb: Expr, rv: Expr)    // case when <true> then this else rv end
    | ElseThis(rb: Expr, rv: Expr)    // case when <false> then rv else this end
    | SnapThen(rb: Expr, snap: Expr)  // case when rb then snapshot else this end
    | SnapElse(rb: Expr, snap: Expr)  // case when rb then this else snapshot end
    | AndTrue(rb: Expr)               // <true> and this
    | OrFalse(rb: Expr)               // <false> or this
    | Extended(ext: Expr)             // ext or true, ext and false
    | SameNull                        // null stays null

  predicate IsSnapshot(m: Memo) { m.SnapThen? || m.SnapElse? }

  predicate MemoFits(op: Op, m: Memo) {
    match m
    case AndTrue(rb) => IsBoolOp(op) && !op.BoolConst? && IsCondition(rb)
    case OrFalse(rb) => IsBoolOp(op) && !op.BoolConst? && IsCondition(rb)
    case Extended(ext) => op.BoolConst? && op.truth != Unknown && IsCondition(ext)
    case SameNull => op == BoolConst(Unknown)
    case _ => !IsBoolOp(op) && IsCondition(m.rb)
  }

  function Wrap(op: Op, m: Memo, live: Expr): Expr
    requires MemoFits(op, m)
  {
    match m
    case ThenThis(rb, rv) => Case(Tautology(rb), live, rv)
    case ElseThis(rb, rv) => Case(Contradiction(rb), rv, live)
    case SnapThen(rb, snap) => Case(rb, snap, live)
    case SnapElse(rb, snap) => Case(rb, live, snap)
    case AndTrue(rb) => Junction(false, Tautology(rb), live)
    case OrFalse(rb) => Junction(true, Contradiction(rb), live)
    case Extended(ext) => Junction(op.truth == True, ext, Literal(op.truth))
    case SameNull => Literal(Unknown)
  }

  datatype Tree = Tree(op: Op, disj: bool, kids: seq<Tree>, memo: Option<Memo>, marked: bool, cid: int)

  /** Whether a bool_term was generated as OR; the field itself is flipped while it is marked. */
  predicate BaseDisj(op: Op, disj: bool, marked: bool) { if op.BoolTerm? && marked then !disj else disj }

  predicate Shaped(t: Tree) {
    Arity(t.op, |t.kids|) && forall k :: 0 <= k < |t.kids| ==> Shaped(t.kids[k])
  }

  function Build(op: Op, disj: bool, es: seq<Expr>): Expr
    requires Arity(op, |es|)
  {
    match op
    case Leaf(text) => Atom(text)
    case BoolConst(truth) => Literal(truth)
    case ArithOp(name) => Arith(name, es[0], es[1])
    case CompareOp(name) => Compare(name, es[0], es[1])
    case BoolTerm => Junction(disj, es[0], es[1])
    case Negation => Not(es[0])
    case NullPredicate(negated) => NullTest(es[0], negated)
    case CaseExpr => Case(es[0], es[1], es[2])
    case Coalesce(name) => Call(name, es)
    case Funcall(name) => Call(name, es)
  }

  /** The expression the object stands for, whatever its flags and rewrites. */
  function Plain(t: Tree): Expr
    requires Shaped(t)
  {
    Build(t.op, BaseDisj(t.op, t.disj, t.marked), PlainAll(t.kids))
  }

  function PlainAll(ts: seq<Tree>): (es: seq<Expr>)
    requires forall k :: 0 <= k < |ts| ==> Shaped(ts[k])
    ensures |es| == |ts|
    ensures forall k :: 0 <= k < |ts| ==> es[k] == Plain(ts[k])
  {
    if ts == [] then [] else [Plain(ts[0])] + PlainAll(ts[1..])
  }

  /** The node's own text around given operands: a marked bool_term prints its De Morgan dual. */
  function Around(op: Op, disj: bool, marked: bool, es: seq<Expr>): Expr
    requires Arity(op, |es|)
  {
    if op.BoolTerm? && marked then Not(Junction(disj, Not(es[1]), Not(es[0]))) else Build(op, disj, es)
  }

  /** Every rewrite present has the shape its class makes, and every marked node has one. */
  predicate Printable(t: Tree) {
    Arity(t.op, |t.kids|) && (t.memo.Some? ==> MemoFits(t.op, t.memo.value)) && (t.marked ==> t.memo.Some?) &&
    forall k :: 0 <= k < |t.kids| ==> Printable(t.kids[k])
  }

  lemma {:induction false} PrintableIsShaped(t: Tree)
    requires Printable(t)
    ensures Shaped(t)
  {
    forall k | 0 <= k < |t.kids| ensures Shaped(t.kids[k]) { PrintableIsShaped(t.kids[k]); }
  }

  /** What the node prints while has_print_eq_expr is set: its own text around its operands. */
  function Live(t: Tree): Expr
    requires Printable(t)
    decreases t, 0
  {
    Around(t.op, t.disj, t.marked, ViewAll(t.kids))
  }

  /** What `out` prints for the object. */
  function View(t: Tree): Expr
    requires Printable(t)
    decreases t, 1
  {
    if t.marked then Wrap(t.op, t.memo.value, Live(t)) else Live(t)
  }

  function ViewAll(ts: seq<Tree>): (es: seq<Expr>)
    requires forall k :: 0 <= k < |ts| ==> Printable(ts[k])
    ensures |es| == |ts|
    ensures forall k :: 0 <= k < |ts| ==> es[k] == View(ts[k])
    decreases ts
  {
    if ts == [] then [] else [View(ts[0])] + ViewAll(ts[1..])
  }

  /** Printable, and every snapshot still is the text of its object. */
  predicate Good(t: Tree) {
    Printable(t) && Shaped(t) &&
    (t.memo.Some? && IsSnapshot(t.memo.value) ==> t.memo.value.snap == Plain(t)) &&
    forall k :: 0 <= k < |t.kids| ==> Good(t.kids[k])
  }

  /** The text of a node, in the order its class writes it, around the texts of its operands. */
  function Layout(op: Op, disj: bool, marked: bool, ts: seq<Text>): Text
    requires Arity(op, |ts|)
  {
    match op
    case Leaf(text) => [TWord(text)]
    case BoolConst(truth) => [TLit(truth)]
    case ArithOp(name) => InfixText(ts[0], TArith(name), ts[1])
    case CompareOp(name) => InfixText(ts[0], TCompare(name), ts[1])
    case BoolTerm =>
      var junct := if disj then TOr else TAnd;
      if marked then [TNot] + Paren(InfixText([TNot] + Paren(ts[1]), junct, [TNot] + Paren(ts[0])))
      else InfixText(ts[0], junct, ts[1])
    case Negation => [TNot] + Paren(ts[0])
    case NullPredicate(negated) => NullTestText(ts[0], negated)
    case CaseExpr => CaseText(ts[0], ts[1], ts[2])
    case Coalesce(name) => [TWord(name)] + Paren(Join(ts))
    case Funcall(name) => [TWord(name)] + Paren(Join(ts))
  }

  lemma LayoutIsRender(op: Op, disj: bool, marked: bool, es: seq<Expr>, ts: seq<Text>)
    requires Arity(op, |es|) && |ts| == |es|
    requires forall k :: 0 <= k < |es| ==> ts[k] == Render(es[k])
    ensures Layout(op, disj, marked, ts) == Render(Around(op, disj, marked, es))
  {
    assert ts == RenderAll(es);
    if op.BoolTerm? && marked {
      var junct := if disj then TOr else TAnd;
      assert Render(Not(es[0])) == [TNot] + Paren(ts[0]);
      assert Render(Not(es[1])) == [TNot] + Paren(ts[1]);
      assert Render(Junction(disj, Not(es[1]), Not(es[0]))) ==
        InfixText([TNot] + Paren(ts[1]), junct, [TNot] + Paren(ts[0]));
    }
  }

  // ---- the rewrites preserve meaning ----

  lemma BuildCongruent(i: Interp, op: Op, disj: bool, es: seq<Expr>, fs: seq<Expr>)
    requires |es| == |fs| && Arity(op, |es|)
    requires forall k :: 0 <= k < |es| ==> Eval(i, es[k]) == Eval(i, fs[k])
    ensures Eval(i, Build(op, disj, es)) == Eval(i, Build(op, disj, fs))
  {
    assert EvalAll(i, es) == EvalAll(i, fs);
  }

  lemma DeMorgan(i: Interp, disj: bool, l: Expr, r: Expr)
    ensures Eval(i, Not(Junction(disj, Not(r), Not(l)))) == Eval(i, Junction(!disj, l, r))
  {
    var a, b := ToTruth(Eval(i, l)), ToTruth(Eval(i, r));
    assert ToTruth(Eval(i, Not(l))) == NotT(a) && ToTruth(Eval(i, Not(r))) == NotT(b);
    var inner := Junction(disj, Not(r), Not(l));
    assert Eval(i, inner) == FromTruth(if disj then OrT(NotT(b), NotT(a)) else AndT(NotT(b), NotT(a)));
  }

  lemma JunctionUnit(i: Interp, disj: bool, guard: Expr, e: Expr)
    requires ToTruth(Eval(i, guard)) == (if disj then False else True)
    requires !Eval(i, e).Data?
    ensures Eval(i, Junction(disj, guard, e)) == Eval(i, e)
  {
  }

  lemma WrapMeans(i: Interp, op: Op, m: Memo, live: Expr)
    requires MemoFits(op, m)
    requires IsSnapshot(m) ==> Eval(i, m.snap) == Eval(i, live)
    requires IsBoolOp(op) ==> !Eval(i, live).Data?
    requires op.BoolConst? ==> live == Literal(op.truth)
    ensures Eval(i, Wrap(op, m, live)) == Eval(i, live)
  {
    match m {
      case ThenThis(rb, _) => GuardsDecided(i, rb);
      case ElseThis(rb, _) => GuardsDecided(i, rb);
      case AndTrue(rb) => GuardsDecided(i, rb); JunctionUnit(i, false, Tautology(rb), live);
      case OrFalse(rb) => GuardsDecided(i, rb); JunctionUnit(i, true, Contradiction(rb), live);
      case _ =>
    }
  }

  /** The transformed text has the value of the original expression, NULL included, for every
      row, every random part and every subset of the nodes being marked. */
  lemma {:induction false} RewritePreservesMeaning(i: Interp, t: Tree)
    requires Good(t)
    ensures Eval(i, View(t)) == Eval(i, Plain(t))
  {
    var vs, ps := ViewAll(t.kids), PlainAll(t.kids);
    forall k | 0 <= k < |t.kids| ensures Eval(i, vs[k]) == Eval(i, ps[k]) {
      RewritePreservesMeaning(i, t.kids[k]);
    }
    var base := BaseDisj(t.op, t.disj, t.marked);
    BuildCongruent(i, t.op, base, vs, ps);
    if t.op.BoolTerm? {
      DeMorgan(i, t.disj, vs[0], vs[1]);
    }
    var live := Live(t);
    assert Eval(i, live) == Eval(i, Plain(t));
    if t.marked {
      if IsBoolOp(t.op) {
        assert IsCondition(Plain(t));
        ConditionIsTruth(i, Plain(t));
      }
      WrapMeans(i, t.op, t.memo.value, live);
    }
  }

  // ---- one round of equivalent_transform and back_transform ----

  predicate AllUnmarked(t: Tree)
    decreases t, 1
  {
    !t.marked && UnmarkedBelow(t)
  }

  predicate UnmarkedBelow(t: Tree)
    decreases t, 0
  {
    forall k :: 0 <= k < |t.kids| ==> AllUnmarked(t.kids[k])
  }

  /** The state `equivalent_transform` leaves: the node and everything it passes on to is marked. */
  predicate AllMarked(t: Tree, clickhouse: bool)
    decreases t, 1
  {
    t.marked && t.memo.Some? && MarkedBelow(t, clickhouse)
  }

  predicate MarkedBelow(t: Tree, clickhouse: bool)
    decreases t, 0
  {
    forall k :: 0 <= k < |t.kids| ==>
      if SkipsKids(t.op, clickhouse) then AllUnmarked(t.kids[k]) else AllMarked(t.kids[k], clickhouse)
  }

  predicate NewMemo(t: Tree, m: Memo)
    requires Shaped(t)
  {
    MemoFits(t.op, m) && (IsSnapshot(m) ==> m.snap == Plain(t))
  }

  /** `u` is a possible outcome of `equivalent_transform` on `t`. */
  predicate Transformed(t: Tree, u: Tree, clickhouse: bool) {
    Shaped(t) && u.op == t.op && u.cid == t.cid && u.marked && u.disj == (t.op.BoolTerm? != t.disj) &&
    u.memo.Some? && (if t.memo.Some? then u.memo == t.memo else NewMemo(t, u.memo.value)) &&
    |u.kids| == |t.kids| &&
    forall k :: 0 <= k < |t.kids| ==>
      if SkipsKids(t.op, clickhouse) then u.kids[k] == t.kids[k] else Transformed(t.kids[k], u.kids[k], clickhouse)
  }

  /** What becomes of the operands of a node. */
  predicate AllTransformed(op: Op, ts: seq<Tree>, us: seq<Tree>, clickhouse: bool) {
    |us| == |ts| && forall k :: 0 <= k < |ts| ==>
      if SkipsKids(op, clickhouse) then us[k] == ts[k] else Transformed(ts[k], us[k], clickhouse)
  }

  lemma TransformedFromParts(t: Tree, u: Tree, clickhouse: bool)
    requires Shaped(t)
    requires u.memo.Some? && (if t.memo.Some? then u.memo == t.memo else NewMemo(t, u.memo.value))
    requires u == Tree(t.op, t.op.BoolTerm? != t.disj, u.kids, u.memo, true, t.cid)
    requires AllTransformed(t.op, t.kids, u.kids, clickhouse)
    ensures Transformed(t, u, clickhouse)
  {
  }

  /** The outcome of `back_transform`. */
  function Back(t: Tree, clickhouse: bool): Tree {
    t.(marked := false, disj := (t.op.BoolTerm? != t.disj),
       kids := if SkipsKids(t.op, clickhouse) then t.kids else BackAll(t.kids, clickhouse))
  }

  function BackAll(ts: seq<Tree>, clickhouse: bool): (us: seq<Tree>)
    ensures |us| == |ts|
    ensures forall k :: 0 <= k < |ts| ==> us[k] == Back(ts[k], clickhouse)
  {
    if ts == [] then [] else [Back(ts[0], clickhouse)] + BackAll(ts[1..], clickhouse)
  }

  /** What becomes of the operands of a node. */
  function KidsBack(op: Op, ts: seq<Tree>, clickhouse: bool): seq<Tree> {
    if SkipsKids(op, clickhouse) then ts else BackAll(ts, clickhouse)
  }

  lemma BackFromParts(t: Tree, u: Tree, clickhouse: bool)
    requires u == Tree(t.op, t.op.BoolTerm? != t.disj, KidsBack(t.op, t.kids, clickhouse), t.memo, false, t.cid)
    ensures u == Back(t, clickhouse)
  {
  }

  lemma {:induction false} UnmarkedPrintsPlain(t: Tree)
    requires Printable(t) && AllUnmarked(t)
    ensures Shaped(t) && View(t) == Plain(t)
  {
    PrintableIsShaped(t);
    forall k | 0 <= k < |t.kids| ensures View(t.kids[k]) == Plain(t.kids[k]) {
      UnmarkedPrintsPlain(t.kids[k]);
    }
    assert ViewAll(t.kids) == PlainAll(t.kids);
  }

  lemma {:induction false} TransformKeepsGood(t: Tree, u: Tree, clickhouse: bool)
    requires Good(t) && AllUnmarked(t) && Transformed(t, u, clickhouse)
    ensures Good(u) && AllMarked(u, clickhouse) && Plain(u) == Plain(t)
  {
    forall k | 0 <= k < |t.kids|
      ensures Good(u.kids[k]) && Plain(u.kids[k]) == Plain(t.kids[k])
      ensures if SkipsKids(t.op, clickhouse) then AllUnmarked(u.kids[k]) else AllMarked(u.kids[k], clickhouse)
    {
      if !SkipsKids(t.op, clickhouse) { TransformKeepsGood(t.kids[k], u.kids[k], clickhouse); }
    }
    assert PlainAll(u.kids) == PlainAll(t.kids);
  }

  lemma {:induction false} BackKeepsGood(t: Tree, clickhouse: bool)
    requires Good(t) && AllMarked(t, clickhouse)
    ensures var u := Back(t, clickhouse); Good(u) && AllUnmarked(u) && Plain(u) == Plain(t)
  {
    var u := Back(t, clickhouse);
    forall k | 0 <= k < |t.kids|
      ensures Good(u.kids[k]) && AllUnmarked(u.kids[k]) && Plain(u.kids[k]) == Plain(t.kids[k])
    {
      if !SkipsKids(t.op, clickhouse) { BackKeepsGood(t.kids[k], clickhouse); }
    }
    assert PlainAll(u.kids) == PlainAll(t.kids);
  }

  /** Once a tree was transformed and put back, transforming it again gives the same state:
      every node that takes part has its rewrite memorised. */
  lemma {:induction false} SecondTransformRepeats(u: Tree, w: Tree, clickhouse: bool)
    requires Good(u) && AllMarked(u, clickhouse)
    requires Transformed(Back(u, clickhouse), w, clickhouse)
    ensures w == u
  {
    var b := Back(u, clickhouse);
    forall k | 0 <= k < |u.kids| ensures w.kids[k] == u.kids[k] {
      if !SkipsKids(u.op, clickhouse) {
        assert b.kids[k] == Back(u.kids[k], clickhouse);
        SecondTransformRepeats(u.kids[k], w.kids[k], clickhouse);
      }
    }
    assert w.kids == u.kids;
  }

  predicate Round(t: Tree, u: Tree, forward: bool, clickhouse: bool) {
    if forward then Transformed(t, u, clickhouse) else u == Back(t, clickhouse)
  }

  /** An alternation of transforms and back-transforms, any number of them. */
  predicate Run(states: seq<Tree>, forward: bool, clickhouse: bool) {
    |states| > 0 &&
    (|states| > 1 ==> Round(states[0], states[1], forward, clickhouse) && Run(states[1..], !forward, clickhouse))
  }

  /** What every step of an alternation keeps. */
  predicate AtPhase(t: Tree, plain: Expr, unmarked: bool, clickhouse: bool) {
    Good(t) && Plain(t) == plain && if unmarked then AllUnmarked(t) else AllMarked(t, clickhouse)
  }

  lemma RoundKeeps(t: Tree, u: Tree, plain: Expr, forward: bool, clickhouse: bool)
    requires AtPhase(t, plain, forward, clickhouse) && Round(t, u, forward, clickhouse)
    ensures AtPhase(u, plain, !forward, clickhouse)
  {
    if forward { TransformKeepsGood(t, u, clickhouse); } else { BackKeepsGood(t, clickhouse); }
  }

  lemma {:induction false} RunState(states: seq<Tree>, plain: Expr, clickhouse: bool, k: nat)
    requires Run(states, true, clickhouse) && 2 * k < |states|
    requires AtPhase(states[0], plain, true, clickhouse)
    ensures AtPhase(states[2 * k], plain, true, clickhouse)
    decreases k
  {
    if k > 0 {
      var later := states[1..];
      assert Run(later, false, clickhouse) && later[1..] == states[2..];
      RoundKeeps(states[0], states[1], plain, true, clickhouse);
      RoundKeeps(states[1], states[2], plain, false, clickhouse);
      RunState(states[2..], plain, clickhouse, k - 1);
    }
  }

  /** Three steps on from a marked state, the marked state is the same again. */
  lemma TwoRoundsRepeat(u: Tree, v: Tree, w: Tree, plain: Expr, clickhouse: bool)
    requires AtPhase(u, plain, false, clickhouse)
    requires Round(u, v, false, clickhouse) && Round(v, w, true, clickhouse)
    ensures w == u
  {
    RoundKeeps(u, v, plain, false, clickhouse);
    SecondTransformRepeats(u, w, clickhouse);
  }

  lemma {:induction false} RunRepeats(states: seq<Tree>, plain: Expr, clickhouse: bool, k: nat)
    requires Run(states, false, clickhouse) && 2 * k < |states|
    requires AtPhase(states[0], plain, false, clickhouse)
    ensures states[2 * k] == states[0]
    decreases k
  {
    if k > 0 {
      var later := states[1..];
      assert Run(later, true, clickhouse) && later[1..] == states[2..];
      TwoRoundsRepeat(states[0], states[1], states[2], plain, clickhouse);
      RunRepeats(states[2..], plain, clickhouse, k - 1);
    }
  }

  /** Over any alternation that starts untransformed, however long: each back-transformed state
      prints the original text, and each transformed state is the first transformed state again. */
  lemma RunAlternates(states: seq<Tree>, clickhouse: bool, k: nat)
    requires Run(states, true, clickhouse) && Good(states[0]) && AllUnmarked(states[0])
    ensures 2 * k < |states| ==> Good(states[2 * k]) && View(states[2 * k]) == View(states[0])
    ensures 2 * k + 1 < |states| ==> states[2 * k + 1] == states[1]
    ensures |states| > 1 ==> Good(states[1]) && forall i :: Eval(i, View(states[1])) == Eval(i, View(states[0]))
  {
    var plain := Plain(states[0]);
    UnmarkedPrintsPlain(states[0]);
    if 2 * k < |states| {
      RunState(states, plain, clickhouse, k);
      UnmarkedPrintsPlain(states[2 * k]);
    }
    if |states| > 1 {
      RoundKeeps(states[0], states[1], plain, true, clickhouse);
      if 2 * k + 1 < |states| {
        RunRepeats(states[1..], plain, clickhouse, k);
      }
      forall i: Interp ensures Eval(i, View(states[1])) == Eval(i, View(states[0])) {
        RewritePreservesMeaning(i, states[1]);
      }
    }
  }

  // ---- what a tree stands for, operator by operator ----

  /** The value of the expression an object tree stands for. */
  function TreeValue(i: Interp, t: Tree): Val
    requires Shaped(t)
  {
    match t.op
    case Leaf(text) => i.atom(text)
    case BoolConst(truth) => FromTruth(truth)
    case ArithOp(name) => i.arith(name, TreeValue(i, t.kids[0]), TreeValue(i, t.kids[1]))
    case CompareOp(name) => FromTruth(i.compare(name, TreeValue(i, t.kids[0]), TreeValue(i, t.kids[1])))
    case BoolTerm =>
      var a, b := ToTruth(TreeValue(i, t.kids[0])), ToTruth(TreeValue(i, t.kids[1]));
      FromTruth(if t.disj != t.marked then OrT(a, b) else AndT(a, b))
    case Negation => FromTruth(NotT(ToTruth(TreeValue(i, t.kids[0]))))
    case NullPredicate(negated) => Bool((TreeValue(i, t.kids[0]) == Null) != negated)
    case CaseExpr =>
      if ToTruth(TreeValue(i, t.kids[0])) == True then TreeValue(i, t.kids[1]) else TreeValue(i, t.kids[2])
    case Coalesce(name) => i.call(name, TreeValues(i, t.kids))
    case Funcall(name) => i.call(name, TreeValues(i, t.kids))
  }

  function TreeValues(i: Interp, ts: seq<Tree>): (vs: seq<Val>)
    requires forall k :: 0 <= k < |ts| ==> Shaped(ts[k])
    ensures |vs| == |ts| && forall k :: 0 <= k < |ts| ==> vs[k] == TreeValue(i, ts[k])
  {
    if ts == [] then [] else [TreeValue(i, ts[0])] + TreeValues(i, ts[1..])
  }

  /** The plain expression has that value: operands in their order, each operator its own meaning. */
  lemma {:induction false} PlainValue(i: Interp, t: Tree)
    requires Shaped(t)
    ensures Eval(i, Plain(t)) == TreeValue(i, t)
  {
    var ps := PlainAll(t.kids);
    forall k | 0 <= k < |t.kids| ensures Eval(i, ps[k]) == TreeValue(i, t.kids[k]) { PlainValue(i, t.kids[k]); }
    match t.op {
      case BoolTerm =>
        var a, b := ToTruth(TreeValue(i, t.kids[0])), ToTruth(TreeValue(i, t.kids[1]));
        JunctionValue(i, BaseDisj(t.op, t.disj, t.marked), ps[0], ps[1], a, b);
      case Negation => assert Plain(t) == Not(ps[0]);
      case NullPredicate(negated) => assert Plain(t) == NullTest(ps[0], negated);
      case CaseExpr => assert Plain(t) == Case(ps[0], ps[1], ps[2]);
      case Coalesce(name) => CallMeans(i, name, ps, TreeValues(i, t.kids));
      case Funcall(name) => CallMeans(i, name, ps, TreeValues(i, t.kids));
      case _ =>
    }
  }

  lemma JunctionValue(i: Interp, disj: bool, l: Expr, r: Expr, a: Truth, b: Truth)
    requires a == ToTruth(Eval(i, l)) && b == ToTruth(Eval(i, r))
    ensures Eval(i, Junction(disj, l, r)) == FromTruth(if disj then OrT(a, b) else AndT(a, b))
  {
    var e := Junction(disj, l, r);
    assert e.disj == disj && e.lhs == l && e.rhs == r;
  }

  lemma CallMeans(i: Interp, name: string, es: seq<Expr>, vs: seq<Val>)
    requires |vs| == |es| && forall k :: 0 <= k < |es| ==> Eval(i, es[k]) == vs[k]
    ensures Eval(i, Call(name, es)) == i.call(name, vs)
  {
    assert EvalAll(i, es) == vs;
  }

  /** The tokens of an untransformed node, in the order they are printed. */
  lemma NodeTokens(name: string, a: Text, b: Text, c: Text, negated: bool, disj: bool)
    ensures Layout(ArithOp(name), disj, false, [a, b]) == [TOpen] + a + [TClose, TArith(name), TOpen] + b + [TClose]
    ensures Layout(CompareOp(name), disj, false, [a, b]) == [TOpen] + a + [TClose, TCompare(name), TOpen] + b + [TClose]
    ensures Layout(BoolTerm, disj, false, [a, b]) ==
      [TOpen] + a + [TClose, if disj then TOr else TAnd, TOpen] + b + [TClose]
    ensures Layout(Negation, disj, false, [a]) == [TNot, TOpen] + a + [TClose]
    ensures Layout(NullPredicate(negated), disj, false, [a]) ==
      [TOpen] + a + (if negated then [TClose, TIs, TNot, TLit(Unknown)] else [TClose, TIs, TLit(Unknown)])
    ensures Layout(CaseExpr, disj, false, [a, b, c]) ==
      [TCase, TWhen, TOpen] + a + [TClose, TThen, TOpen] + b + [TClose, TElse, TOpen] + c + [TClose, TEnd]
  {
  }

  lemma CallTokens(name: string, a: Text, b: Text, truth: Truth, disj: bool, marked: bool)
    ensures Layout(Coalesce(name), disj, marked, [a, b]) == [TWord(name), TOpen] + a + [TComma] + b + [TClose]
    ensures Layout(Funcall(name), disj, marked, [a, b]) == [TWord(name), TOpen] + a + [TComma] + b + [TClose]
    ensures Layout(Leaf(name), disj, marked, []) == [TWord(name)]
    ensures Layout(BoolConst(truth), disj, marked, []) == [TLit(truth)]
  {
    assert [a, b][1..] == [b];
    assert Join([a, b]) == a + [TComma] + b;
    assert [TWord(name)] + Paren(a + [TComma] + b) == [TWord(name), TOpen] + a + [TComma] + b + [TClose];
  }

  /** A transformed AND or OR is the other operator and prints NOT over its negated operands, the second
      one first. */
  lemma DualShape(t: Tree, u: Tree, clickhouse: bool)
    requires t.op.BoolTerm? && Transformed(t, u, clickhouse) && Printable(u)
    ensures u.disj == !t.disj && Live(u) == Not(Junction(!t.disj, Not(View(u.kids[1])), Not(View(u.kids[0]))))
  {
  }

  /** What a transformed node prints: a value becomes a CASE one of whose arms is its live text; a
      condition is joined with a condition that is always true or always false; a boolean constant is
      joined with some condition; the NULL constant stays. */
  lemma RewriteShape(t: Tree)
    requires Printable(t) && t.marked
    ensures t.op.Leaf? || t.op.ArithOp? || t.op.CaseExpr? || t.op.Coalesce? || t.op.Funcall? ==>
      View(t).Case? && (View(t).thn == Live(t) || View(t).els == Live(t))
    ensures t.op.CompareOp? || t.op.BoolTerm? || t.op.Negation? || t.op.NullPredicate? ==>
      View(t).Junction? && View(t).rhs == Live(t) &&
      exists r :: View(t).lhs == if View(t).disj then Junction(false, Junction(false, r, Not(r)), NullTest(r, true))
                                 else Junction(true, Junction(true, r, Not(r)), NullTest(r, false))
    ensures t.op == BoolConst(True) || t.op == BoolConst(False) ==>
      View(t).Junction? && View(t).rhs == Literal(t.op.truth) && View(t).disj == (t.op.truth == True)
    ensures t.op == BoolConst(Unknown) ==> View(t) == Literal(Unknown)
  {
    var m := t.memo.value;
    assert m.AndTrue? ==> View(t).lhs == Tautology(m.rb);
    assert m.OrFalse? ==> View(t).lhs == Contradiction(m.rb);
  }
}
