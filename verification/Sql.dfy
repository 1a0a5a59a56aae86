/** The part of SQL that the rewrites print: expressions, their text as a token list (layout
    white space dropped), and their value under three-valued logic. Columns, constants, operators
    and functions are interpreted by an arbitrary `Interp`, so a statement about all interpretations
    is a statement about every row of every database. */
module Sql {

  datatype Option<+T> = None | Some(value: T)

  datatype Truth = True | False | Unknown

  datatype Val = Null | Bool(b: bool) | Data(d: int)

  datatype Expr =
    | Atom(text: string)
    | Literal(truth: Truth)
    | Arith(op: string, lhs: Expr, rhs: Expr)
    | Compare(op: string, lhs: Expr, rhs: Expr)
    | Junction(disj: bool, lhs: Expr, rhs: Expr)
    | Not(inner: Expr)
    | NullTest(inner: Expr, negated: bool)
    | Case(cond: Expr, thn: Expr, els: Expr)
    | Call(fn: string, args: seq<Expr>)

  // ---- value of an expression (ISO/IEC 9075:1992, sections 6.9, 8.6 and 8.12) ----

  datatype Interp = Interp(
    atom: string -> Val,
    arith: (string, Val, Val) -> Val,
    compare: (string, Val, Val) -> Truth,
    call: (string, seq<Val>) -> Val)

  function ToTruth(v: Val): Truth {
    if v == Bool(true) then True else if v == Bool(false) then False else Unknown
  }

  function FromTruth(t: Truth): Val {
    match t case True => Bool(true) case False => Bool(false) case Unknown => Null
  }

  function NotT(a: Truth): Truth {
    match a case True => False case False => True case Unknown => Unknown
  }

  function AndT(a: Truth, b: Truth): Truth {
    if a == False || b == False then False else if a == True && b == True then True else Unknown
  }

  function OrT(a: Truth, b: Truth): Truth {
    if a == True || b == True then True else if a == False && b == False then False else Unknown
  }

  /** The truth tables, told by when a result is true and when it is false. */
  lemma TruthTables(a: Truth, b: Truth)
    ensures (NotT(a) == True <==> a == False) && (NotT(a) == False <==> a == True)
    ensures (AndT(a, b) == True <==> a == True && b == True) && (AndT(a, b) == False <==> a == False || b == False)
    ensures (OrT(a, b) == True <==> a == True || b == True) && (OrT(a, b) == False <==> a == False && b == False)
  {
  }

  function Eval(i: Interp, e: Expr): Val {
    match e
    case Atom(t) => i.atom(t)
    case Literal(t) => FromTruth(t)
    case Arith(op, l, r) => i.arith(op, Eval(i, l), Eval(i, r))
    case Compare(op, l, r) => FromTruth(i.compare(op, Eval(i, l), Eval(i, r)))
    case Junction(disj, l, r) =>
      var a, b := ToTruth(Eval(i, l)), ToTruth(Eval(i, r));
      FromTruth(if disj then OrT(a, b) else AndT(a, b))
    case Not(x) => FromTruth(NotT(ToTruth(Eval(i, x))))
    case NullTest(x, negated) => Bool((Eval(i, x) == Null) != negated)
    case Case(c, t, f) => if ToTruth(Eval(i, c)) == True then Eval(i, t) else Eval(i, f)
    case Call(fn, args) => i.call(fn, EvalAll(i, args))
  }

  function EvalAll(i: Interp, es: seq<Expr>): (vs: seq<Val>)
    ensures |vs| == |es|
    ensures forall k :: 0 <= k < |es| ==> vs[k] == Eval(i, es[k])
  {
    if es == [] then [] else [Eval(i, es[0])] + EvalAll(i, es[1..])
  }

  /** The expressions that are conditions by their outermost operator. */
  predicate IsCondition(e: Expr) {
    e.Literal? || e.Compare? || e.Junction? || e.Not? || e.NullTest?
  }

  /** `(r or (not r)) or (r is null)`: always true. */
  function Tautology(r: Expr): Expr {
    Junction(true, Junction(true, r, Not(r)), NullTest(r, false))
  }

  /** `(r and (not r)) and (r is not null)`: always false. */
  function Contradiction(r: Expr): Expr {
    Junction(false, Junction(false, r, Not(r)), NullTest(r, true))
  }

  /** The two guards the rewrites rely on have the truth value they are meant to have exactly for
      operands that are conditions or NULL; a data value would make both unknown. */
  lemma GuardsDecided(i: Interp, r: Expr)
    ensures (ToTruth(Eval(i, Tautology(r))) == True) <==> !Eval(i, r).Data?
    ensures (ToTruth(Eval(i, Contradiction(r))) == False) <==> !Eval(i, r).Data?
    ensures IsCondition(r) ==> !Eval(i, r).Data?
  {
    assert Eval(i, Junction(true, r, Not(r))) == FromTruth(OrT(ToTruth(Eval(i, r)), ToTruth(Eval(i, Not(r)))));
    assert Eval(i, Junction(false, r, Not(r))) == FromTruth(AndT(ToTruth(Eval(i, r)), ToTruth(Eval(i, Not(r)))));
  }

  lemma ConditionIsTruth(i: Interp, e: Expr)
    requires IsCondition(e)
    ensures FromTruth(ToTruth(Eval(i, e))) == Eval(i, e)
  {
  }

  // ---- text of an expression ----

  datatype Token =
    | TWord(string) | TLit(Truth) | TArith(string) | TCompare(string)
    | TAnd | TOr | TNot | TIs | TCase | TWhen | TThen | TElse | TEnd | TOpen | TClose | TComma

  type Text = seq<Token>

  function Paren(s: Text): (r: Text)
    ensures |r| == |s| + 2
  {
    [TOpen] + s + [TClose]
  }

  function CaseText(c: Text, t: Text, f: Text): (r: Text)
    ensures |r| == |c| + |t| + |f| + 11
  {
    [TCase, TWhen] + Paren(c) + [TThen] + Paren(t) + [TElse] + Paren(f) + [TEnd]
  }

  function InfixText(l: Text, op: Token, r: Text): (s: Text)
    ensures |s| == |l| + |r| + 5
  {
    Paren(l) + [op] + Paren(r)
  }

  function NullTestText(s: Text, negated: bool): (r: Text)
    ensures |r| == |s| + if negated then 5 else 4
  {
    Paren(s) + [TIs] + (if negated then [TNot] else []) + [TLit(Unknown)]
  }

  function Join(parts: seq<Text>): Text {
    if parts == [] then [] else if |parts| == 1 then parts[0]
    else parts[0] + [TComma] + Join(parts[1..])
  }

  function Render(e: Expr): Text {
    match e
    case Atom(t) => [TWord(t)]
    case Literal(t) => [TLit(t)]
    case Arith(op, l, r) => InfixText(Render(l), TArith(op), Render(r))
    case Compare(op, l, r) => InfixText(Render(l), TCompare(op), Render(r))
    case Junction(disj, l, r) => InfixText(Render(l), if disj then TOr else TAnd, Render(r))
    case Not(x) => [TNot] + Paren(Render(x))
    case NullTest(x, negated) => NullTestText(Render(x), negated)
    case Case(c, t, f) => CaseText(Render(c), Render(t), Render(f))
    case Call(fn, args) => [TWord(fn)] + Paren(Join(RenderAll(args)))
  }

  function RenderAll(es: seq<Expr>): (ts: seq<Text>)
    ensures |ts| == |es|
    ensures forall k :: 0 <= k < |es| ==> ts[k] == Render(es[k])
  {
    if es == [] then [] else [Render(es[0])] + RenderAll(es[1..])
  }

  // ---- reading the text back ----

  type Parsed<T> = Option<(T, Text)>

  function ParseParen(s: Text): (r: Parsed<Expr>)
    ensures r.Some? ==> |r.value.1| < |s|
    decreases |s|, 0
  {
    if s == [] || s[0] != TOpen then None else
    var p := ParseExpr(s[1..]);
    if p.None? || p.value.1 == [] || p.value.1[0] != TClose then None
    else Some((p.value.0, p.value.1[1..]))
  }

  predicate IsInfix(op: Token) { op.TArith? || op.TCompare? || op.TOr? || op.TAnd? }

  function Combine(op: Token, l: Expr, r: Expr): Expr
    requires IsInfix(op)
  {
    match op
    case TArith(o) => Arith(o, l, r)
    case TCompare(o) => Compare(o, l, r)
    case _ => Junction(op == TOr, l, r)
  }

  function ParseInfix(s: Text): (r: Parsed<Expr>)
    ensures r.Some? ==> |r.value.1| < |s|
    decreases |s|, 1
  {
    var p := ParseParen(s);
    if p.None? || p.value.1 == [] then None else
    var (l, rest) := p.value;
    if rest[0] == TIs then
      if |rest| > 1 && rest[1] == TLit(Unknown) then Some((NullTest(l, false), rest[2..]))
      else if |rest| > 2 && rest[1] == TNot && rest[2] == TLit(Unknown) then Some((NullTest(l, true), rest[3..]))
      else None
    else
      var q := ParseParen(rest[1..]);
      if q.None? then None else
      var (r, tail) := q.value;
      if IsInfix(rest[0]) then Some((Combine(rest[0], l, r), tail)) else None
  }

  function ParseCase(s: Text): (r: Parsed<Expr>)
    requires s != []
    ensures r.Some? ==> |r.value.1| < |s|
    decreases |s|, 1
  {
    if |s| < 2 || s[1] != TWhen then None else
    var c := ParseParen(s[2..]);
    if c.None? || c.value.1 == [] || c.value.1[0] != TThen then None else
    var t := ParseParen(c.value.1[1..]);
    if t.None? || t.value.1 == [] || t.value.1[0] != TElse then None else
    var f := ParseParen(t.value.1[1..]);
    if f.None? || f.value.1 == [] || f.value.1[0] != TEnd then None
    else Some((Case(c.value.0, t.value.0, f.value.0), f.value.1[1..]))
  }

  function ParseArgs(s: Text): (r: Parsed<seq<Expr>>)
    ensures r.Some? ==> |r.value.1| < |s|
    decreases |s|, 3
  {
    var p := ParseExpr(s);
    if p.None? || p.value.1 == [] then None else
    var (e, rest) := p.value;
    if rest[0] == TClose then Some(([e], rest[1..]))
    else if rest[0] != TComma then None
    else
      var q := ParseArgs(rest[1..]);
      if q.None? then None else Some(([e] + q.value.0, q.value.1))
  }

  function ParseExpr(s: Text): (r: Parsed<Expr>)
    ensures r.Some? ==> |r.value.1| < |s|
    decreases |s|, 2
  {
    if s == [] then None else
    match s[0]
    case TLit(t) => Some((Literal(t), s[1..]))
    case TOpen => ParseInfix(s)
    case TCase => ParseCase(s)
    case TNot =>
      var p := ParseParen(s[1..]);
      if p.None? then None else Some((Not(p.value.0), p.value.1))
    case TWord(w) =>
      if |s| == 1 || s[1] != TOpen then Some((Atom(w), s[1..]))
      else if |s| > 2 && s[2] == TClose then Some((Call(w, []), s[3..]))
      else
        var q := ParseArgs(s[2..]);
        if q.None? then None else Some((Call(w, q.value.0), q.value.1))
    case _ => None
  }

  /** What may follow an expression: not an opening parenthesis. */
  predicate Follows(rest: Text) { rest == [] || rest[0] != TOpen }

  /** Once both operands read back, the infix form does. */
  lemma ReadInfix(l: Expr, op: Token, r: Expr, rest: Text)
    requires IsInfix(op)
    requires ParseParen(Paren(Render(r)) + rest) == Some((r, rest))
    requires var more := [op] + (Paren(Render(r)) + rest);
             ParseParen(Paren(Render(l)) + more) == Some((l, more))
    ensures var s := InfixText(Render(l), op, Render(r)) + rest;
            ParseInfix(s) == Some((Combine(op, l, r), rest))
  {
    var more := [op] + (Paren(Render(r)) + rest);
    InfixSplits(Paren(Render(l)), op, Paren(Render(r)), rest);
  }

  lemma InfixSplits(x: Text, op: Token, y: Text, rest: Text)
    ensures x + [op] + y + rest == x + ([op] + (y + rest)) && ([op] + (y + rest))[1..] == y + rest
  {
  }

  lemma {:induction false} ReadParen(e: Expr, rest: Text)
    ensures ParseParen(Paren(Render(e)) + rest) == Some((e, rest))
    decreases e, 3
  {
    var s := Paren(Render(e)) + rest;
    assert s[1..] == Render(e) + ([TClose] + rest);
    ReadBack(e, [TClose] + rest);
  }

  lemma ReadArgsStep(e: Expr, et: Text, es: seq<Expr>, tail: Text, rest: Text)
    requires ParseExpr(et + ([TComma] + tail)) == Some((e, [TComma] + tail))
    requires ParseArgs(tail) == Some((es, rest))
    ensures ParseArgs(et + ([TComma] + tail)) == Some(([e] + es, rest))
  {
    assert ([TComma] + tail)[1..] == tail;
  }

  lemma ReadLastArg(e: Expr, et: Text, rest: Text)
    requires ParseExpr(et + ([TClose] + rest)) == Some((e, [TClose] + rest))
    ensures ParseArgs(et + ([TClose] + rest)) == Some(([e], rest))
  {
    assert ([TClose] + rest)[1..] == rest;
  }

  lemma {:induction false} ReadArgs(es: seq<Expr>, rest: Text)
    requires es != []
    ensures ParseArgs(Join(RenderAll(es)) + ([TClose] + rest)) == Some((es, rest))
    decreases es, 3
  {
    var e, et := es[0], Render(es[0]);
    if |es| == 1 {
      assert Join(RenderAll(es)) == et;
      ReadBack(e, [TClose] + rest);
      ReadLastArg(e, et, rest);
      assert es == [e];
    } else {
      var tail := Join(RenderAll(es[1..])) + ([TClose] + rest);
      var parts := RenderAll(es);
      assert parts[1..] == RenderAll(es[1..]);
      assert Join(parts) + ([TClose] + rest) == et + ([TComma] + tail);
      ReadBack(e, [TComma] + tail);
      ReadArgs(es[1..], rest);
      ReadArgsStep(e, et, es[1..], tail, rest);
      assert es == [e] + es[1..];
    }
  }

  /** Once the three parts read back, the CASE form does. */
  lemma ReadCaseParts(c: Expr, ct: Text, t: Expr, tt: Text, f: Expr, ft: Text, rest: Text)
    requires var s3 := [TEnd] + rest;
             var s2 := [TElse] + (Paren(ft) + s3);
             var s1 := [TThen] + (Paren(tt) + s2);
             ParseParen(Paren(ct) + s1) == Some((c, s1)) &&
             ParseParen(Paren(tt) + s2) == Some((t, s2)) &&
             ParseParen(Paren(ft) + s3) == Some((f, s3))
    ensures ParseCase(CaseText(ct, tt, ft) + rest) == Some((Case(c, t, f), rest))
  {
    CaseSplits(Paren(ct), Paren(tt), Paren(ft), rest);
  }

  lemma CaseSplits(x: Text, y: Text, z: Text, rest: Text)
    ensures var s3 := [TEnd] + rest;
            var s2 := [TElse] + (z + s3);
            var s1 := [TThen] + (y + s2);
            s1[1..] == y + s2 && s2[1..] == z + s3 && s3[1..] == rest &&
            [TCase, TWhen] + x + [TThen] + y + [TElse] + z + [TEnd] + rest == [TCase, TWhen] + (x + s1) &&
            ([TCase, TWhen] + (x + s1))[2..] == x + s1
  {
  }

  lemma {:induction false} ReadCase(e: Expr, rest: Text)
    requires e.Case?
    ensures ParseCase(Render(e) + rest) == Some((e, rest))
    decreases e, 0
  {
    var ct, tt, ft := Render(e.cond), Render(e.thn), Render(e.els);
    var s3 := [TEnd] + rest;
    var s2 := [TElse] + (Paren(ft) + s3);
    ReadParen(e.cond, [TThen] + (Paren(tt) + s2));
    ReadParen(e.thn, s2);
    ReadParen(e.els, s3);
    ReadCaseParts(e.cond, ct, e.thn, tt, e.els, ft, rest);
  }

  lemma {:induction false} ReadNullTest(e: Expr, rest: Text)
    requires e.NullTest?
    ensures ParseInfix(Render(e) + rest) == Some((e, rest))
    decreases e, 0
  {
    var more := [TIs] + (if e.negated then [TNot] else []) + [TLit(Unknown)] + rest;
    assert Render(e) + rest == Paren(Render(e.inner)) + more;
    ReadParen(e.inner, more);
  }

  lemma {:induction false} ReadCall(e: Expr, rest: Text)
    requires e.Call? && Follows(rest)
    ensures ParseExpr(Render(e) + rest) == Some((e, rest))
    decreases e, 0
  {
    var s := Render(e) + rest;
    var body := Join(RenderAll(e.args));
    assert s == [TWord(e.fn), TOpen] + body + ([TClose] + rest);
    if e.args == [] {
      assert body == [];
    } else {
      assert s[2..] == body + ([TClose] + rest);
      ArgsNotClosed(e.args, [TClose] + rest);
      ReadArgs(e.args, rest);
    }
  }

  lemma ArgsNotClosed(es: seq<Expr>, rest: Text)
    requires es != []
    ensures var s := Join(RenderAll(es)) + rest; |s| > 0 && s[0] != TClose
  {
    assert RenderAll(es)[0] == Render(es[0]);
    assert |Render(es[0])| > 0 && Render(es[0])[0] != TClose;
  }

  lemma {:induction false} ReadNot(e: Expr, rest: Text)
    requires e.Not?
    ensures ParseExpr(Render(e) + rest) == Some((e, rest))
    decreases e, 0
  {
    ReadParen(e.inner, rest);
    assert (Render(e) + rest)[1..] == Paren(Render(e.inner)) + rest;
  }

  lemma {:induction false} ReadOperands(e: Expr, l: Expr, op: Token, r: Expr, rest: Text)
    requires IsInfix(op) && l < e && r < e
    ensures ParseExpr(InfixText(Render(l), op, Render(r)) + rest) == Some((Combine(op, l, r), rest))
    decreases e, 0
  {
    ReadParen(r, rest);
    ReadParen(l, [op] + (Paren(Render(r)) + rest));
    ReadInfix(l, op, r, rest);
  }

  lemma {:induction false} ReadInfixExpr(e: Expr, rest: Text)
    requires e.Arith? || e.Compare? || e.Junction?
    ensures ParseExpr(Render(e) + rest) == Some((e, rest))
    decreases e, 1
  {
    match e {
      case Arith(op, l, r) => ReadOperands(e, l, TArith(op), r, rest);
      case Compare(op, l, r) => ReadOperands(e, l, TCompare(op), r, rest);
      case Junction(disj, l, r) => ReadOperands(e, l, if disj then TOr else TAnd, r, rest);
    }
  }

  lemma ReadWord(e: Expr, rest: Text)
    requires (e.Atom? || e.Literal?) && Follows(rest)
    ensures ParseExpr(Render(e) + rest) == Some((e, rest))
  {
    assert (Render(e) + rest)[1..] == rest;
  }

  /** Unique readability: the text of an expression determines the expression. */
  lemma {:induction false} ReadBack(e: Expr, rest: Text)
    requires Follows(rest)
    ensures ParseExpr(Render(e) + rest) == Some((e, rest))
    decreases e, 2
  {
    match e {
      case Atom(_) => ReadWord(e, rest);
      case Literal(_) => ReadWord(e, rest);
      case Arith(_, _, _) => ReadInfixExpr(e, rest);
      case Compare(_, _, _) => ReadInfixExpr(e, rest);
      case Junction(_, _, _) => ReadInfixExpr(e, rest);
      case Not(_) => ReadNot(e, rest);
      case NullTest(_, _) => ReadNullTest(e, rest);
      case Case(_, _, _) => ReadCase(e, rest);
      case Call(_, _) => ReadCall(e, rest);
    }
  }

  /** What a text means: the value of the expression it spells, if it spells one. */
  function Meaning(i: Interp, s: Text): Option<Val> {
    var p := ParseExpr(s);
    if p.Some? && p.value.1 == [] then Some(Eval(i, p.value.0)) else None
  }

  lemma MeaningOfText(i: Interp, e: Expr)
    ensures Meaning(i, Render(e)) == Some(Eval(i, e))
  {
    ReadBack(e, []);
    assert Render(e) + [] == Render(e);
  }
}
