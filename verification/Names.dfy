/** Names that must not clash: aliases unique in a statement, drawn through nested scopes, and the names
    of tables, columns and indexes. */
module Names {

  // ---- decimal numerals ----

  function Digit(n: nat): char
    requires n < 10
  {
    '0' + n as char
  }

  /** std::to_string of an unsigned number. */
  function Dec(n: nat): (s: string)
    ensures s != [] && forall k :: 0 <= k < |s| ==> '0' <= s[k] <= '9'
  {
    if n < 10 then [Digit(n)] else Dec(n / 10) + [Digit(n % 10)]
  }

  /** The number a string of decimal digits stands for. */
  function Number(s: string): int {
    if s == [] then 0 else Number(s[..|s| - 1]) * 10 + (s[|s| - 1] as int - '0' as int)
  }

  lemma {:induction false} DecReadsBack(n: nat)
    ensures Number(Dec(n)) == n
  {
    DecLast(n);
    if n < 10 {
      assert Dec(n)[..0] == [];
    } else {
      DecReadsBack(n / 10);
    }
  }

  lemma DecIsInjective(m: nat, n: nat)
    requires Dec(m) == Dec(n)
    ensures m == n
  {
    DecReadsBack(m);
    DecReadsBack(n);
  }

  lemma DecLast(n: nat)
    ensures Dec(n)[|Dec(n)| - 1] == Digit(n % 10)
    ensures |Dec(n)| == 1 <==> n < 10
    ensures n >= 10 ==> Dec(n)[..|Dec(n)| - 1] == Dec(n / 10)
  {
  }

  // ---- statement-unique identifiers ----

  function Key(prefix: string): string { prefix + "_" }

  function Uid(prefix: string, n: nat): string { Key(prefix) + Dec(n) }

  /** Prefix and counter can be read back from an identifier, whatever the prefixes look like. */
  lemma UidReadsBack(p: string, m: nat, q: string, n: nat)
    requires Uid(p, m) == Uid(q, n)
    ensures p == q && m == n
  {
    if |p| < |q| {
      LongerPrefix(p, m, q, n);
    } else if |q| < |p| {
      LongerPrefix(q, n, p, m);
    } else {
      assert p == Uid(p, m)[..|p|] == Uid(q, n)[..|q|] == q;
      assert Dec(m) == Uid(p, m)[|p| + 1..] == Uid(q, n)[|q| + 1..] == Dec(n);
      DecIsInjective(m, n);
    }
  }

  /** The underscore after the longer prefix would be a digit of the other. */
  lemma LongerPrefix(p: string, m: nat, q: string, n: nat)
    requires |p| < |q|
    ensures Uid(p, m) != Uid(q, n)
  {
    var k := |q| - |p| - 1;
    assert Uid(q, n)[|q|] == '_';
    assert |q| < |Uid(p, m)| ==> Uid(p, m)[|q|] == Dec(m)[k] != '_';
  }

  const LIMIT := 0x1_0000_0000         // unsigned int

  /** How often each prefix was used. */
  type Uses = map<string, nat>

  function Used(drawn: Uses, prefix: string): nat { if prefix in drawn then drawn[prefix] else 0 }

  ghost predicate Books(next: map<string, int>, drawn: Uses) {
    forall p {:trigger Key(p)} :: (Key(p) in next <==> p in drawn) && (p in drawn ==> next[Key(p)] == drawn[p] % LIMIT)
  }

  ghost predicate IssuedBy(drawn: Uses, s: string) {
    exists p, k :: IssuedAt(drawn, s, p, k)
  }

  predicate IssuedAt(drawn: Uses, s: string, p: string, k: nat) {
    k < Used(drawn, p) && k < LIMIT && s == Uid(p, k)
  }

  ghost predicate Recorded(drawn: Uses, issued: set<string>) {
    forall s {:trigger IssuedBy(drawn, s)} :: s in issued <==> IssuedBy(drawn, s)
  }

  lemma BooksNext(next: map<string, int>, drawn: Uses, prefix: string)
    requires Books(next, drawn)
    ensures Books(next[Key(prefix) := (Used(drawn, prefix) + 1) % LIMIT], drawn[prefix := Used(drawn, prefix) + 1])
  {
    forall p | Key(p) == Key(prefix) ensures p == prefix {
      assert p == Key(p)[..|Key(p)| - 1] == Key(prefix)[..|Key(prefix)| - 1] == prefix;
    }
  }

  /** An identifier comes a second time exactly when the counter of its prefix has gone round. */
  lemma AgainIff(drawn: Uses, prefix: string)
    ensures IssuedBy(drawn, Uid(prefix, Used(drawn, prefix) % 0x1_0000_0000)) <==>
      Used(drawn, prefix) >= 0x1_0000_0000
  {
    var c := Used(drawn, prefix);
    var id := Uid(prefix, c % LIMIT);
    if IssuedBy(drawn, id) {
      var p, k :| IssuedAt(drawn, id, p, k);
      UidReadsBack(prefix, c % LIMIT, p, k);
    }
    if c >= LIMIT { assert IssuedAt(drawn, id, prefix, c % LIMIT); }
  }

  lemma RecordedNext(drawn: Uses, issued: set<string>, prefix: string)
    requires Recorded(drawn, issued)
    ensures Recorded(drawn[prefix := Used(drawn, prefix) + 1], issued + {Uid(prefix, Used(drawn, prefix) % LIMIT)})
  {
    var c := Used(drawn, prefix);
    var later, id := drawn[prefix := c + 1], Uid(prefix, c % LIMIT);
    forall s ensures s in issued + {id} <==> IssuedBy(later, s) {
      if IssuedBy(drawn, s) {
        var p, k :| IssuedAt(drawn, s, p, k);
        assert IssuedAt(later, s, p, k);
      }
      if s == id {
        assert c % LIMIT <= c;
        assert IssuedAt(later, s, prefix, c % LIMIT);
      }
      if IssuedBy(later, s) {
        var p, k :| IssuedAt(later, s, p, k);
        if p == prefix && k == c { assert s == id; } else { assert IssuedAt(drawn, s, p, k); }
      }
    }
  }

  /** The counters of one statement; nested scopes share the object. */
  class Counters {
    var next: map<string, int>
    ghost var drawn: Uses
    ghost var issued: set<string>

    constructor ()
      ensures Valid() && issued == {} && drawn == map[]
    {
      next, drawn, issued := map[], map[], {};
    }

    ghost predicate Valid()
      reads this
    {
      Books(next, drawn) && Recorded(drawn, issued)
    }

    method Draw(prefix: string) returns (id: string)
      requires Valid()
      modifies this
      ensures Valid() && issued == old(issued) + {id}
      ensures id == Uid(prefix, Used(old(drawn), prefix) % LIMIT)
      ensures id in old(issued) <==> Used(old(drawn), prefix) >= LIMIT
      ensures drawn == old(drawn)[prefix := Used(old(drawn), prefix) + 1]
    {
      var key := Key(prefix);
      var n := if key in next then next[key] else 0;
      BooksNext(next, drawn, prefix);
      AgainIff(drawn, prefix);
      RecordedNext(drawn, issued, prefix);
      WrapsAgain(Used(drawn, prefix), n);
      id := key + Dec(n);
      next := next[key := (n + 1) % LIMIT];
      issued := issued + {id};
      drawn := drawn[prefix := Used(drawn, prefix) + 1];
    }
  }

  lemma WrapsAgain(c: nat, n: int)
    requires n == c % LIMIT
    ensures (n + 1) % LIMIT == (c + 1) % LIMIT
  {
  }

  class Scope {
    var stmtSeq: Counters?

    /** A scope without a parent has no counters until new_stmt. */
    constructor Root()
      ensures stmtSeq == null
    {
      stmtSeq := null;
    }

    constructor Nested(parent: Scope)
      ensures stmtSeq == parent.stmtSeq
    {
      stmtSeq := parent.stmtSeq;
    }

    method StmtUid(prefix: string) returns (id: string)
      requires stmtSeq != null && stmtSeq.Valid()
      modifies stmtSeq
      ensures stmtSeq.Valid() && stmtSeq.issued == old(stmtSeq.issued) + {id}
      ensures id in old(stmtSeq.issued) <==> Used(old(stmtSeq.drawn), prefix) >= LIMIT
      ensures stmtSeq.drawn == old(stmtSeq.drawn)[prefix := Used(old(stmtSeq.drawn), prefix) + 1]
    {
      id := stmtSeq.Draw(prefix);
    }

    /** Only this scope, and those nested in it later, get the new counters. */
    method NewStmt()
      modifies this
      ensures stmtSeq != null && fresh(stmtSeq) && stmtSeq.Valid() && stmtSeq.issued == {} && stmtSeq.drawn == map[]
    {
      stmtSeq := new Counters();
    }
  }

  /** Between two calls of new_stmt, identifiers drawn through any scopes that share the counters, with
      any prefixes, are pairwise different. */
  method DrawAll(counters: Counters, scopes: seq<Scope>, prefixes: seq<string>) returns (ids: seq<string>)
    requires counters.Valid() && counters.drawn == map[]
    requires |scopes| == |prefixes| <= 0x1_0000_0000 && forall k :: 0 <= k < |scopes| ==> scopes[k].stmtSeq == counters
    modifies counters
    ensures |ids| == |scopes| && forall a, b :: 0 <= a < b < |ids| ==> ids[a] != ids[b]
  {
    ids := [];
    for k := 0 to |scopes|
      invariant counters.Valid() && |ids| == k
      invariant forall p :: p in counters.drawn ==> counters.drawn[p] <= k
      invariant forall a :: 0 <= a < k ==> ids[a] in counters.issued
      invariant forall a, b :: 0 <= a < b < k ==> ids[a] != ids[b]
    {
      var id := scopes[k].StmtUid(prefixes[k]);
      ids := ids + [id];
    }
  }

  // ---- tables, columns, indexes ----

  function UpperChar(c: char): char { if 'a' <= c <= 'z' then c - 'a' + 'A' else c }

  function Upper(s: string): (u: string)
    ensures |u| == |s| && forall k :: 0 <= k < |s| ==> u[k] == UpperChar(s[k])
  {
    seq(|s|, k requires 0 <= k < |s| => UpperChar(s[k]))
  }

  predicate IsLower(c: char) { 'a' <= c <= 'z' }

  /** The same letter, upper or lower case. */
  predicate SameLetter(c: char, d: char) {
    c == d || (IsLower(c) && d == ((c as int) - 32) as char) || (IsLower(d) && c == ((d as int) - 32) as char)
  }

  /** Two names agree in upper case if and only if they agree letter by letter, case aside. */
  lemma UpperIff(s: string, t: string)
    ensures Upper(s) == Upper(t) <==> |s| == |t| && forall k :: 0 <= k < |s| ==> SameLetter(s[k], t[k])
    ensures forall k :: 0 <= k < |Upper(s)| ==> !IsLower(Upper(s)[k])
  {
    if Upper(s) == Upper(t) {
      forall k | 0 <= k < |s| ensures SameLetter(s[k], t[k]) {
        assert Upper(s)[k] == Upper(t)[k];
      }
    }
  }

  function Numbered(letter: char, i: nat): string { [letter] + Dec(i) }

  /** Different numbers give names that differ in upper case too. */
  lemma NumberedApart(letter: char, i: nat, j: nat)
    requires Upper(Numbered(letter, i)) == Upper(Numbered(letter, j))
    ensures i == j
  {
    var u, v := Upper(Numbered(letter, i)), Upper(Numbered(letter, j));
    forall k | 0 <= k < |Dec(i)| ensures Dec(i)[k] == Dec(j)[k] {
      assert u[k + 1] == UpperChar(Dec(i)[k]) == Dec(i)[k] && v[k + 1] == UpperChar(Dec(j)[k]) == Dec(j)[k];
    }
    assert |Dec(i)| == |u| - 1 == |Dec(j)|;
    assert Dec(i) == Dec(j);
    DecIsInjective(i, j);
  }

  /** So a finite set cannot hold them all. */
  lemma {:induction false} AllTaken(letter: char, existing: set<string>, n: nat)
    requires forall j :: 0 <= j < n ==> Upper(Numbered(letter, j)) in existing
    ensures n <= |existing|
  {
    if n > 0 {
      var last := Upper(Numbered(letter, n - 1));
      forall j | 0 <= j < n - 1 ensures Upper(Numbered(letter, j)) in existing - {last} {
        if Upper(Numbered(letter, j)) == last { NumberedApart(letter, j, n - 1); }
      }
      AllTaken(letter, existing - {last}, n - 1);
    }
  }

  method FirstFree(letter: char, existing: set<string>) returns (name: string, ghost i: nat)
    ensures name == Numbered(letter, i) && Upper(name) !in existing
    ensures forall j :: 0 <= j < i ==> Upper(Numbered(letter, j)) in existing
  {
    var n := 0;
    while Upper(Numbered(letter, n)) in existing
      invariant n <= |existing| && forall j :: 0 <= j < n ==> Upper(Numbered(letter, j)) in existing
      decreases |existing| - n
    {
      n := n + 1;
      AllTaken(letter, existing, n);
    }
    name, i := Numbered(letter, n), n;
  }

  /** The names of one kind of object, in upper case; those in the schema are added at the first call. */
  class NameTable {
    const letter: char
    var existing: set<string>
    var initialised: bool

    constructor (letter: char)
      ensures this.letter == letter && existing == {} && !initialised
    {
      this.letter, existing, initialised := letter, {}, false;
    }

    ghost function Taken(schema: seq<string>): set<string>
      reads this
    {
      existing + if initialised then {} else set k | 0 <= k < |schema| :: Upper(schema[k])
    }

    /** The first name that no name of the schema and no earlier name equals, upper or lower case aside;
        there always is one. */
    method UniqueName(schema: seq<string>) returns (name: string, ghost i: nat)
      modifies this
      ensures name == Numbered(letter, i) && Upper(name) !in old(Taken(schema))
      ensures forall j :: 0 <= j < i ==> Upper(Numbered(letter, j)) in old(Taken(schema))
      ensures initialised && existing == old(Taken(schema)) + {Upper(name)}
    {
      if !initialised {
        for k := 0 to |schema|
          invariant existing == old(existing) + set j | 0 <= j < k :: Upper(schema[j])
        {
          existing := existing + {Upper(schema[k])};
        }
        initialised := true;
      }
      assert existing == old(Taken(schema));
      name, i := FirstFree(letter, existing);
      existing := existing + {Upper(name)};
    }

    /** However many names are made, no two are equal, upper or lower case aside, nor equal to one of the
        schema. */
    method UniqueNames(schema: seq<string>, count: nat) returns (names: seq<string>)
      requires !initialised
      modifies this
      ensures |names| == count
      ensures forall a, b :: 0 <= a < b < count ==> Upper(names[a]) != Upper(names[b])
      ensures forall a, k :: 0 <= a < count && 0 <= k < |schema| ==> Upper(names[a]) != Upper(schema[k])
    {
      names := [];
      while |names| < count
        invariant |names| <= count && (names != [] ==> initialised)
        invariant forall a :: 0 <= a < |names| ==> Upper(names[a]) in existing
        invariant forall k :: 0 <= k < |schema| ==> Upper(schema[k]) in Taken(schema)
        invariant forall a, b :: 0 <= a < b < |names| ==> Upper(names[a]) != Upper(names[b])
        invariant forall a, k :: 0 <= a < |names| && 0 <= k < |schema| ==> Upper(names[a]) != Upper(schema[k])
      {
        var name, _ := UniqueName(schema);
        names := names + [name];
      }
    }
  }
}
