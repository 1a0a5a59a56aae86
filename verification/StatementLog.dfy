/** The log of the statements that build a database, and reading it back. */
module StatementLog {
  import opened Sequences

  /** The writers append each statement with a semicolon and a line break. */
  function Written(queries: seq<string>): string {
    if queries == [] then "" else queries[0] + ";\n" + Written(queries[1..])
  }

  predicate LabelAt(t: string, k: int) {
    0 <= k && k + 1 < |t| && t[k] == ';' && t[k + 1] == '\n'
  }

  /** The position of the first separator, the length if there is none. */
  function Label(t: string): (p: nat)
    ensures p <= |t| && (p < |t| ==> LabelAt(t, p))
    ensures forall k :: k < p ==> !LabelAt(t, k)
  {
    if |t| < 2 then |t|
    else if LabelAt(t, 0) then 0
    else
      var p := 1 + Label(t[1..]);
      assert forall k :: k > 0 ==> (LabelAt(t, k) <==> LabelAt(t[1..], k - 1));
      p
  }

  function Parts(t: string): seq<string> {
    if Label(t) == |t| then [] else [t[..Label(t)] + ";"] + Parts(t[Label(t) + 2..])
  }

  /** What follows the last separator is not read. */
  function Unread(t: string): string {
    if Label(t) == |t| then t else Unread(t[Label(t) + 2..])
  }

  method ProcessDbrecordIntoSqls(stmts: string) returns (queue: seq<string>)
    ensures queue == Parts(stmts)
  {
    queue := [];
    var oldOff := 0;
    assert stmts[0..] == stmts;
    while true
      invariant 0 <= oldOff <= |stmts| && queue + Parts(stmts[oldOff..]) == Parts(stmts)
      decreases |stmts| - oldOff
    {
      var newOff := NextLabel(stmts, oldOff);
      NextPart(stmts, oldOff, queue);
      if newOff == |stmts| { break; }
      queue := queue + [stmts[oldOff..newOff] + ";"];
      oldOff := newOff + 2;
    }
  }

  /** std::string::find of the separator, the length if there is none. */
  function NextLabel(t: string, off: nat): nat
    requires off <= |t|
  {
    off + Label(t[off..])
  }

  lemma NextPart(t: string, off: nat, queue: seq<string>)
    requires off <= |t|
    ensures var p := NextLabel(t, off);
            off <= p <= |t| &&
            (p == |t| ==> queue + Parts(t[off..]) == queue) &&
            (p < |t| ==> p + 2 <= |t| && queue + Parts(t[off..]) == (queue + [t[off..p] + ";"]) + Parts(t[p + 2..]))
  {
    var rest := t[off..];
    var p := Label(rest);
    if p < |rest| {
      var part, parts := t[off..off + p] + ";", Parts(t[off + p + 2..]);
      SliceOfRest(t, off, p);
      assert Parts(rest) == [part] + parts;
      Assoc(queue, [part], parts);
    }
  }

  lemma SliceOfRest(t: string, off: nat, p: nat)
    requires off + p + 2 <= |t|
    ensures t[off..][..p] == t[off..off + p] && t[off..][p + 2..] == t[off + p + 2..]
  {
  }

  // ---- round trips ----

  function WithSemicolon(queries: seq<string>): (r: seq<string>)
    ensures |r| == |queries| && forall k :: 0 <= k < |r| ==> r[k] == queries[k] + ";"
  {
    if queries == [] then [] else [queries[0] + ";"] + WithSemicolon(queries[1..])
  }

  predicate HasLabel(q: string) { exists k :: 0 <= k < |q| && LabelAt(q, k) }

  /** Each statement is written with a semicolon at the end of its line. */
  lemma WrittenIs(q: string, queries: seq<string>)
    ensures Written([]) == [] && Written([q] + queries) == q + [';', '\n'] + Written(queries)
    ensures HasLabel(q) <==> exists k :: 0 < k < |q| && q[k - 1] == ';' && q[k] == '\n'
  {
    assert ([q] + queries)[1..] == queries;
    if exists k :: 0 < k < |q| && q[k - 1] == ';' && q[k] == '\n' {
      var k :| 0 < k < |q| && q[k - 1] == ';' && q[k] == '\n';
      assert LabelAt(q, k - 1);
    }
    if HasLabel(q) {
      var k :| 0 <= k < |q| && LabelAt(q, k);
      assert 0 < k + 1 < |q| && q[k + 1 - 1] == ';' && q[k + 1] == '\n';
    }
  }

  /** The semicolon that ends a statement never completes a separator with what stands before it. */
  lemma {:induction false} LabelOfWritten(q: string, rest: string)
    ensures Label(q + ";\n" + rest) == Label(q)
  {
    var t := q + ";\n" + rest;
    if q != [] {
      assert t[1..] == q[1..] + ";\n" + rest;
      LabelOfWritten(q[1..], rest);
      if |q| == 1 { assert q[1..] == []; }
    }
  }

  lemma PartsOfWritten(queries: seq<string>)
    requires queries != []
    ensures var q := queries[0];
            Label(q) == |q| ==> Parts(Written(queries)) == [q + ";"] + Parts(Written(queries[1..]))
    ensures Parts(Written(queries)) != [] && Parts(Written(queries))[0] == queries[0][..Label(queries[0])] + ";"
  {
    var q, t := queries[0], Written(queries);
    LabelOfWritten(q, Written(queries[1..]));
    Slices(q, Written(queries[1..]), Label(q));
  }

  lemma Slices(q: string, rest: string, p: nat)
    requires p <= |q|
    ensures (q + ";\n" + rest)[..p] == q[..p] && q[..|q|] == q && (q + ";\n" + rest)[|q| + 2..] == rest
  {
  }

  /** Reading the log gives back the statements that were written exactly when none of them holds a
      semicolon at the end of a line. */
  lemma {:induction false} LogReadsBackIff(queries: seq<string>)
    ensures Parts(Written(queries)) == WithSemicolon(queries) <==>
      forall k :: 0 <= k < |queries| ==> !HasLabel(queries[k])
  {
    if queries != [] {
      var q := queries[0];
      PartsOfWritten(queries);
      LogReadsBackIff(queries[1..]);
      assert HasLabel(q) <==> Label(q) < |q|;
      if Parts(Written(queries)) == WithSemicolon(queries) {
        assert |(q[..Label(q)] + ";")| == |(q + ";")|;
        assert Parts(Written(queries))[1..] == WithSemicolon(queries)[1..] == WithSemicolon(queries[1..]);
      }
    }
  }

  /** The lines a list of read statements is saved as. */
  function Lines(stmts: seq<string>): string {
    if stmts == [] then "" else stmts[0] + "\n" + Lines(stmts[1..])
  }

  /** Nothing is lost between the separators: the read statements and what follows are the text. */
  lemma {:induction false} NothingIsLost(t: string)
    ensures Lines(Parts(t)) + Unread(t) == t
    decreases |t|
  {
    var p := Label(t);
    if p < |t| {
      NothingIsLost(t[p + 2..]);
      Rejoin(t, p, Lines(Parts(t[p + 2..])), Unread(t[p + 2..]));
    }
  }

  lemma Rejoin(t: string, p: nat, x: string, y: string)
    requires p + 1 < |t| && t[p] == ';' && t[p + 1] == '\n' && x + y == t[p + 2..]
    ensures (t[..p] + ";") + "\n" + x + y == t
  {
    assert t == t[..p] + [t[p], t[p + 1]] + t[p + 2..];
    assert (t[..p] + ";") + "\n" + x + y == t[..p] + [t[p], t[p + 1]] + (x + y);
  }

  /** A list that was read, or any part of it, is read back the same after it is saved. */
  lemma {:induction false} SavedListReadsBack(queries: seq<string>)
    requires forall k :: 0 <= k < |queries| ==> !HasLabel(queries[k])
    ensures Parts(Lines(WithSemicolon(queries))) == WithSemicolon(queries)
  {
    LogReadsBackIff(queries);
    LinesAreWritten(queries);
  }

  lemma {:induction false} LinesAreWritten(queries: seq<string>)
    ensures Lines(WithSemicolon(queries)) == Written(queries)
  {
    if queries != [] {
      LinesAreWritten(queries[1..]);
      var q, rest := queries[0], Written(queries[1..]);
      assert q + ";" + "\n" == q + ";\n";
    }
  }
}
