/** How a memorised rewrite becomes wrong: `coalesce(a, x)` is transformed with a snapshot and put back,
    its components are numbered, `a` is replaced by the NULL constant, and the next transform still
    offers `coalesce(a, x)`. */
module StaleSnapshot {
  import opened Sql
  import opened ExprTree
  import opened Components
  import opened Replacement

  /** The rewrite both columns make. */
  const COLUMN_MEMO := ThenThis(Literal(True), Literal(True))

  const SNAPSHOT := SnapThen(Literal(True), Call("coalesce", [Atom("a"), Atom("x")]))

  function Column(name: string, memo: Option<Memo>, cid: int): Tree {
    Tree(Leaf(name), false, [], memo, false, cid)
  }

  function Coalesced(l: Tree, r: Tree, memo: Option<Memo>, cid: int): Tree {
    Tree(Coalesce("coalesce"), false, [l, r], memo, false, cid)
  }

  function Null(memo: Option<Memo>, cid: int): Tree { Tree(BoolConst(Unknown), false, [], memo, false, cid) }

  function Marked(t: Tree): Tree { t.(marked := true) }

  /** The node before its first transform. */
  function Fresh(): Tree { Coalesced(Column("a", None, -1), Column("x", None, -1), None, -1) }

  function First(): Tree {
    var a, x := Column("a", Some(COLUMN_MEMO), -1), Column("x", Some(COLUMN_MEMO), -1);
    Marked(Coalesced(Marked(a), Marked(x), Some(SNAPSHOT), -1))
  }

  /** After the replacement of component 1. */
  function Changed(): Tree {
    Coalesced(Null(None, 1), Column("x", Some(COLUMN_MEMO), 2), Some(SNAPSHOT), 0)
  }

  function Second(): Tree {
    Marked(Coalesced(Marked(Null(Some(SameNull), 1)), Marked(Column("x", Some(COLUMN_MEMO), 2)), Some(SNAPSHOT), 0))
  }

  /** A row with a = 1 and x = 2. */
  function Sample(): Interp {
    Interp((name: string) => if name == "a" then Data(1) else Data(2),
           (op: string, l: Val, r: Val) => Sql.Null,
           (op: string, l: Val, r: Val) => Unknown,
           (fn: string, args: seq<Val>) => FirstNonNull(args))
  }

  function FirstNonNull(args: seq<Val>): Val {
    if args == [] then Sql.Null else if args[0] != Sql.Null then args[0] else FirstNonNull(args[1..])
  }

  lemma ShapedPair(l: Tree, r: Tree, memo: Option<Memo>, cid: int)
    requires Shaped(l) && Shaped(r)
    ensures var t := Coalesced(l, r, memo, cid);
            Shaped(t) && Shaped(Marked(t)) && Plain(t) == Plain(Marked(t)) == Call("coalesce", [Plain(l), Plain(r)])
  {
    var t := Coalesced(l, r, memo, cid);
    assert Shaped(t) && Shaped(Marked(t));
    assert PlainAll(t.kids) == [Plain(l), Plain(r)];
  }

  lemma FirstTransform()
    ensures Shaped(Fresh()) && AllUnmarked(Fresh()) && Transformed(Fresh(), First(), false)
  {
    var a, x := Column("a", None, -1), Column("x", None, -1);
    ShapedPair(a, x, None, -1);
    assert Transformed(a, Marked(Column("a", Some(COLUMN_MEMO), -1)), false);
    assert Transformed(x, Marked(Column("x", Some(COLUMN_MEMO), -1)), false);
  }

  /** Put back and numbered. */
  function Numbered(): Tree { Coalesced(Column("a", Some(COLUMN_MEMO), 1), Column("x", Some(COLUMN_MEMO), 2),
                    Some(SNAPSHOT), 0) }

  lemma PutBack()
    ensures var a, x := Column("a", Some(COLUMN_MEMO), -1), Column("x", Some(COLUMN_MEMO), -1);
            Back(First(), false) == Coalesced(a, x, Some(SNAPSHOT), -1)
  {
    var a, x := Column("a", Some(COLUMN_MEMO), -1), Column("x", Some(COLUMN_MEMO), -1);
    assert BackAll([Marked(a), Marked(x)], false) == [a, x];
  }

  lemma NumberAndReplace()
    ensures Number(Back(First(), false), 0) == Numbered() && Replace(Numbered(), 1, Null(None, -1)) == Some(Changed())
  {
    PutBack();
    var a, x := Column("a", Some(COLUMN_MEMO), -1), Column("x", Some(COLUMN_MEMO), -1);
    assert NodeCountAll([]) == 0 && NodeCount(a) == 1;
    assert NumberAll([x], 2) == [x.(cid := 2)];
    assert NumberAll([a, x], 1) == [a.(cid := 1), x.(cid := 2)];
    var t := Numbered();
    assert ReplaceFrom(t, 0, 1, Null(None, -1)) == ReplaceOne(t, 0, 1, Null(None, -1));
    assert t.kids[0 := Null(None, 1)] == Changed().kids;
  }

  lemma SecondTransform()
    ensures Shaped(Changed()) && AllUnmarked(Changed()) && Transformed(Changed(), Second(), false)
  {
    var n, x := Null(None, 1), Column("x", Some(COLUMN_MEMO), 2);
    ShapedPair(n, x, Some(SNAPSHOT), 0);
    assert Transformed(n, Marked(Null(Some(SameNull), 1)), false);
    assert Transformed(x, Marked(x), false);
  }

  lemma ValueOfPair(l: Expr, r: Expr)
    ensures Eval(Sample(), Call("coalesce", [l, r])) == FirstNonNull([Eval(Sample(), l), Eval(Sample(), r)])
  {
    assert EvalAll(Sample(), [l, r]) == [Eval(Sample(), l), Eval(Sample(), r)];
  }

  /** The second transform prints 1 where the changed expression has the value 2. */
  lemma SecondValue()
    ensures Shaped(Changed()) && Printable(Second())
    ensures Eval(Sample(), View(Second())) == Data(1) && Eval(Sample(), Plain(Changed())) == Data(2)
  {
    var n, x := Null(None, 1), Column("x", Some(COLUMN_MEMO), 2);
    ShapedPair(n, x, Some(SNAPSHOT), 0);
    assert Printable(Marked(Null(Some(SameNull), 1))) && Printable(Marked(x));
    assert Printable(Second());
    ValueOfPair(Literal(Unknown), Atom("x"));
    ValueOfPair(Atom("a"), Atom("x"));
    assert [Sql.Null, Data(2)][1..] == [Data(2)];
    assert View(Second()) == Case(Literal(True), Call("coalesce", [Atom("a"), Atom("x")]), Live(Second()));
  }

  /** A fresh node, its first transform, the undo, the numbering, one replacement by the NULL constant
      and the second transform: what is printed no longer has the value of the expression. */
  lemma StaleRewrite()
    ensures Shaped(Fresh()) && AllUnmarked(Fresh()) && Transformed(Fresh(), First(), false)
    ensures Replace(Number(Back(First(), false), 0), 1, Null(None, -1)) == Some(Changed())
    ensures AllUnmarked(Changed()) && Transformed(Changed(), Second(), false)
    ensures Printable(Second()) && Eval(Sample(), View(Second())) != Eval(Sample(), Plain(Changed()))
  {
    FirstTransform();
    NumberAndReplace();
    SecondTransform();
    SecondValue();
  }
}
