/** How long the transformed text is. Every node is printed live exactly once, and a snapshot adds
    the plain text of its node once more, so the length is the plain length plus what the rewrites
    add plus the snapshots; it never grows exponentially. */
module TextSize {
  import opened Sql
  import opened ExprTree

  /** The number of tokens of an expression. */
  function Size(e: Expr): nat {
    match e
    case Atom(_) => 1
    case Literal(_) => 1
    case Arith(_, l, r) => Size(l) + Size(r) + 5
    case Compare(_, l, r) => Size(l) + Size(r) + 5
    case Junction(_, l, r) => Size(l) + Size(r) + 5
    case Not(x) => Size(x) + 3
    case NullTest(x, negated) => Size(x) + (if negated then 5 else 4)
    case Case(c, t, f) => Size(c) + Size(t) + Size(f) + 11
    case Call(_, args) => Total(args) + (if |args| == 0 then 3 else |args| + 2)
  }

  function Total(es: seq<Expr>): nat {
    if es == [] then 0 else Size(es[0]) + Total(es[1..])
  }

  lemma {:induction false} SizeIsLength(e: Expr)
    ensures |Render(e)| == Size(e)
  {
    match e {
      case Atom(_) =>
      case Literal(_) =>
      case Arith(_, l, r) => SizeIsLength(l); SizeIsLength(r);
      case Compare(_, l, r) => SizeIsLength(l); SizeIsLength(r);
      case Junction(_, l, r) => SizeIsLength(l); SizeIsLength(r);
      case Not(x) => SizeIsLength(x);
      case NullTest(x, _) => SizeIsLength(x);
      case Case(c, t, f) => SizeIsLength(c); SizeIsLength(t); SizeIsLength(f);
      case Call(name, args) =>
        JoinSize(args);
        var body := Join(RenderAll(args));
        assert Render(e) == [TWord(name)] + Paren(body);
    }
  }

  lemma {:induction false} JoinSize(es: seq<Expr>)
    ensures |Join(RenderAll(es))| == Total(es) + (if |es| == 0 then 0 else |es| - 1)
  {
    if |es| > 0 {
      SizeIsLength(es[0]);
      JoinSize(es[1..]);
      assert RenderAll(es)[1..] == RenderAll(es[1..]);
    }
  }

  /** The tokens a node writes itself. */
  function Fixed(op: Op, n: nat): nat {
    match op
    case Leaf(_) | BoolConst(_) => 1
    case ArithOp(_) | CompareOp(_) | BoolTerm => 5
    case Negation => 3
    case NullPredicate(negated) => if negated then 5 else 4
    case CaseExpr => 11
    case _ => if n == 0 then 3 else n + 2
  }

  lemma TotalOfFew(es: seq<Expr>)
    ensures |es| == 1 ==> Total(es) == Size(es[0])
    ensures |es| == 2 ==> Total(es) == Size(es[0]) + Size(es[1])
    ensures |es| == 3 ==> Total(es) == Size(es[0]) + Size(es[1]) + Size(es[2])
  {
    if |es| > 0 { assert Total(es) == Size(es[0]) + Total(es[1..]); }
    if |es| > 1 { assert Total(es[1..]) == Size(es[1]) + Total(es[2..]) by { assert es[1..][1..] == es[2..]; } }
    if |es| > 2 { assert Total(es[2..]) == Size(es[2]) + Total(es[3..]) by { assert es[2..][1..] == es[3..]; } }
  }

  lemma BuildSize(op: Op, disj: bool, es: seq<Expr>)
    requires Arity(op, |es|)
    ensures Size(Build(op, disj, es)) == Fixed(op, |es|) + Total(es)
  {
    TotalOfFew(es);
  }

  /** What a rewrite adds around the live text, not counting a snapshot. */
  function RewriteSize(m: Memo): nat {
    match m
    case ThenThis(rb, rv) => 11 + Size(Tautology(rb)) + Size(rv)
    case ElseThis(rb, rv) => 11 + Size(Contradiction(rb)) + Size(rv)
    case SnapThen(rb, _) => 11 + Size(rb)
    case SnapElse(rb, _) => 11 + Size(rb)
    case AndTrue(rb) => 5 + Size(Tautology(rb))
    case OrFalse(rb) => 5 + Size(Contradiction(rb))
    case Extended(ext) => 5 + Size(ext)
    case SameNull => 0
  }

  /** What the rewrites of a tree add: random parts, keywords and parentheses. */
  function Added(t: Tree): nat {
    (if t.marked && t.memo.Some? then RewriteSize(t.memo.value) + (if t.op.BoolTerm? then 9 else 0) else 0) +
    AddedAll(t.kids)
  }

  function AddedAll(ts: seq<Tree>): nat {
    if ts == [] then 0 else Added(ts[0]) + AddedAll(ts[1..])
  }

  /** The snapshots that are printed. */
  function Snapshots(t: Tree): nat {
    (if t.marked && t.memo.Some? && IsSnapshot(t.memo.value) then Size(t.memo.value.snap) else 0) + SnapshotsAll(t.kids)
  }

  function SnapshotsAll(ts: seq<Tree>): nat {
    if ts == [] then 0 else Snapshots(ts[0]) + SnapshotsAll(ts[1..])
  }

  /** The length of the original text, read off the tree. */
  function PlainSize(t: Tree): nat { Fixed(t.op, |t.kids|) + PlainSizeAll(t.kids) }

  function PlainSizeAll(ts: seq<Tree>): nat {
    if ts == [] then 0 else PlainSize(ts[0]) + PlainSizeAll(ts[1..])
  }

  lemma {:induction false} PlainSizeIsSize(t: Tree)
    requires Shaped(t)
    ensures Size(Plain(t)) == PlainSize(t)
  {
    PlainSizeIsSizeAll(t.kids);
    BuildSize(t.op, BaseDisj(t.op, t.disj, t.marked), PlainAll(t.kids));
  }

  lemma {:induction false} PlainSizeIsSizeAll(ts: seq<Tree>)
    requires forall k :: 0 <= k < |ts| ==> Shaped(ts[k])
    ensures Total(PlainAll(ts)) == PlainSizeAll(ts)
  {
    if ts != [] {
      PlainSizeIsSize(ts[0]);
      PlainSizeIsSizeAll(ts[1..]);
      assert PlainAll(ts)[1..] == PlainAll(ts[1..]);
    }
  }

  lemma AroundSize(op: Op, disj: bool, marked: bool, es: seq<Expr>)
    requires Arity(op, |es|)
    ensures Size(Around(op, disj, marked, es)) ==
      Fixed(op, |es|) + Total(es) + (if op.BoolTerm? && marked then 9 else 0)
  {
    BuildSize(op, disj, es);
    TotalOfFew(es);
    if op.BoolTerm? && marked {
      assert Size(Junction(disj, Not(es[1]), Not(es[0]))) == Size(Not(es[1])) + Size(Not(es[0])) + 5;
    }
  }

  lemma WrapSize(op: Op, m: Memo, live: Expr)
    requires MemoFits(op, m) && (op.BoolConst? ==> Size(live) == 1)
    ensures Size(Wrap(op, m, live)) == Size(live) + RewriteSize(m) + (if IsSnapshot(m) then Size(m.snap) else 0)
  {
  }

  /** The exact length of the transformed text. */
  lemma {:induction false} TransformedSize(t: Tree)
    requires Good(t)
    ensures Size(View(t)) == Size(Plain(t)) + Added(t) + Snapshots(t)
  {
    TransformedSizeAll(t.kids);
    AroundSize(t.op, t.disj, t.marked, ViewAll(t.kids));
    BuildSize(t.op, BaseDisj(t.op, t.disj, t.marked), PlainAll(t.kids));
    if t.marked {
      WrapSize(t.op, t.memo.value, Live(t));
    }
  }

  lemma {:induction false} TransformedSizeAll(ts: seq<Tree>)
    requires forall k :: 0 <= k < |ts| ==> Good(ts[k]) && Printable(ts[k]) && Shaped(ts[k])
    ensures Total(ViewAll(ts)) == Total(PlainAll(ts)) + AddedAll(ts) + SnapshotsAll(ts)
  {
    if ts != [] {
      TransformedSize(ts[0]);
      TransformedSizeAll(ts[1..]);
      assert ViewAll(ts)[1..] == ViewAll(ts[1..]) && PlainAll(ts)[1..] == PlainAll(ts[1..]);
    }
  }

  function Height(t: Tree): nat { 1 + HeightAll(t.kids) }

  function HeightAll(ts: seq<Tree>): nat {
    if ts == [] then 0 else Max(Height(ts[0]), HeightAll(ts[1..]))
  }

  function Max(a: nat, b: nat): nat { if a > b then a else b }

  /** `m` taken `h` times. */
  function Times(h: nat, m: nat): nat {
    if h == 0 then 0 else m + Times(h - 1, m)
  }

  lemma {:induction false} TimesGrows(g: nat, h: nat, a: nat, b: nat)
    requires g <= h && a <= b
    ensures Times(g, a) <= Times(h, b)
  {
    if g > 0 { TimesGrows(g - 1, h - 1, a, b); }
  }

  lemma {:induction false} TimesSum(h: nat, a: nat, b: nat)
    ensures Times(h, a + b) == Times(h, a) + Times(h, b)
  {
    if h > 0 { TimesSum(h - 1, a, b); }
  }

  lemma LevelBound(all: nat, below: nat, h: nat, s: nat, m: nat)
    requires below <= Times(h, s) && s <= m && all <= m + below
    ensures all <= Times(1 + h, m)
  {
    TimesGrows(h, h, s, m);
  }

  lemma KidsBound(all: nat, first: nat, rest: nat, g: nat, h: nat, a: nat, b: nat)
    requires all == first + rest && first <= Times(g, a) && rest <= Times(h, b) && g <= h
    ensures all <= Times(h, a + b)
  {
    TimesGrows(g, h, a, a);
    TimesSum(h, a, b);
  }

  lemma OwnSnapshot(t: Tree)
    requires Good(t)
    ensures Snapshots(t) <= PlainSize(t) + SnapshotsAll(t.kids)
  {
    if t.memo.Some? && IsSnapshot(t.memo.value) { PlainSizeIsSize(t); }
  }

  /** Never exponential: the snapshots of one level of the tree together are no longer than the plain
      text, so all of them are at most height times the plain text. */
  lemma {:induction false} SnapshotsBound(t: Tree)
    requires Good(t)
    ensures Snapshots(t) <= Times(Height(t), PlainSize(t))
  {
    OwnSnapshot(t);
    SnapshotsBoundAll(t.kids, HeightAll(t.kids));
    LevelBound(Snapshots(t), SnapshotsAll(t.kids), HeightAll(t.kids), PlainSizeAll(t.kids), PlainSize(t));
  }

  lemma {:induction false} SnapshotsBoundAll(ts: seq<Tree>, h: nat)
    requires forall k :: 0 <= k < |ts| ==> Good(ts[k])
    requires h >= HeightAll(ts)
    ensures SnapshotsAll(ts) <= Times(h, PlainSizeAll(ts))
  {
    if ts != [] {
      SnapshotsBound(ts[0]);
      SnapshotsBoundAll(ts[1..], h);
      KidsBound(SnapshotsAll(ts), Snapshots(ts[0]), SnapshotsAll(ts[1..]), Height(ts[0]), h,
                PlainSize(ts[0]), PlainSizeAll(ts[1..]));
    }
  }

  /** The exact length of the transformed text: the plain text once, what the rewrites add, and the
      snapshots, which `SnapshotsBound` keeps below height times the plain text. */
  lemma ExactLength(t: Tree)
    requires Good(t)
    ensures |Render(View(t))| == PlainSize(t) + Added(t) + Snapshots(t) && |Render(Plain(t))| == PlainSize(t)
  {
    SizeIsLength(View(t));
    SizeIsLength(Plain(t));
    PlainSizeIsSize(t);
    TransformedSize(t);
  }
}
