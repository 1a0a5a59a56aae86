/** The statement queue of a transaction test: three vectors in step, and the block of entries the
    instrumentor makes of each statement. */
module TxQueue {
  import opened Sequences
  import opened Words

  /** `stmt_basic_type`. */
  datatype Kind =
    | InitType | SelectRead | UpdateWrite | InsertWrite | DeleteWrite
    | BeforeWriteRead | AfterWriteRead | VersionSetRead

  datatype Usage = Usage(kind: Kind, target: string, instrumented: bool)

  /** What the names of tables begin with. */
  const TABLE_PREFIX := "t_"

  /** A statement of a transaction: the text it prints and the tables named in it, ascending. `keyed`
      says that its table has the version key column, `setsKey` that an UPDATE sets it. */
  datatype Stmt =
    | Update(text: string, tables: seq<string>, table: string, keyed: bool, setsKey: bool)
    | Delete(text: string, tables: seq<string>, table: string)
    | Insert(text: string, tables: seq<string>, table: string, keyed: bool)
    | Control(text: string)         // a string without SELECT * FROM: begin, commit, abort, placeholder
    | Query(text: string, tables: seq<string>)    // everything else reads

  /** The tables are those the scanner finds in the text. */
  predicate NamesTables(s: Stmt) { !s.Control? ==> s.tables == Scanned(s.text, TABLE_PREFIX) }

  /** An entry of the instrumented statement queue. */
  datatype Entry = Original(stmt: Stmt) | VersionRead(table: string) | BeforeRead(stmt: Stmt) | AfterRead(stmt: Stmt)

  datatype Item = Item(entry: Entry, tid: int, usage: Usage)

  datatype Raw = Raw(stmt: Stmt, tid: int)

  /** The three parallel vectors. */
  datatype Queues = Queues(stmts: seq<Entry>, tids: seq<int>, usages: seq<Usage>)

  predicate InStep(q: Queues) { |q.stmts| == |q.tids| == |q.usages| }

  function Unzip(items: seq<Item>): (q: Queues)
    ensures InStep(q) && |q.stmts| == |items|
  {
    Queues(seq(|items|, k requires 0 <= k < |items| => items[k].entry),
           seq(|items|, k requires 0 <= k < |items| => items[k].tid),
           seq(|items|, k requires 0 <= k < |items| => items[k].usage))
  }

  lemma UnzipIsInjective(a: seq<Item>, b: seq<Item>)
    requires Unzip(a) == Unzip(b)
    ensures a == b
  {
    forall k | 0 <= k < |a| ensures a[k] == b[k] {
      assert Unzip(a).stmts[k] == Unzip(b).stmts[k] && Unzip(a).tids[k] == Unzip(b).tids[k] &&
             Unzip(a).usages[k] == Unzip(b).usages[k];
    }
  }

  // ---- what the instrumentor makes of a statement ----

  function Erase(tables: seq<string>, table: string): seq<string> {
    if tables == [] then []
    else if tables[0] == table then Erase(tables[1..], table)
    else [tables[0]] + Erase(tables[1..], table)
  }

  /** The tables whose versions are read first; an INSERT skips its own. */
  function Involved(s: Stmt): seq<string> {
    match s
    case Insert(_, tables, table, _) => Erase(tables, table)
    case Control(_) => []
    case _ => s.tables
  }

  function VersionReads(tables: seq<string>, tid: int): seq<Item> {
    seq(|tables|, k requires 0 <= k < |tables| =>
      Item(VersionRead(tables[k]), tid, Usage(VersionSetRead, tables[k], true)))
  }

  function Reads(r: Raw): seq<Item> {
    VersionReads(Involved(r.stmt), r.tid) +
    if r.stmt.Update? || r.stmt.Delete? then
      [Item(BeforeRead(r.stmt), r.tid, Usage(BeforeWriteRead, r.stmt.table, true))]
    else []
  }

  function Basic(r: Raw): Item {
    Item(Original(r.stmt), r.tid,
      match r.stmt
      case Update(_, _, table, _, _) => Usage(UpdateWrite, table, false)
      case Delete(_, _, table) => Usage(DeleteWrite, table, false)
      case Insert(_, _, table, _) => Usage(InsertWrite, table, false)
      case Control(_) => Usage(InitType, "", false)
      case Query(_, _) => Usage(SelectRead, "", false))
  }

  function Tail(r: Raw): seq<Item> {
    if r.stmt.Update? || r.stmt.Insert? then [Item(AfterRead(r.stmt), r.tid, Usage(AfterWriteRead, r.stmt.table, true))]
    else []
  }

  function Block(r: Raw): seq<Item> { Reads(r) + [Basic(r)] + Tail(r) }

  function Items(raw: seq<Raw>): seq<Item> {
    if raw == [] then [] else Block(raw[0]) + Items(raw[1..])
  }

  lemma Reassociate(x: seq<Item>, y: seq<Item>, z: seq<Item>)
    ensures x + (y + z) == x + y + z
  {
  }

  lemma {:induction false} ItemsConcat(a: seq<Raw>, b: seq<Raw>)
    ensures Items(a + b) == Items(a) + Items(b)
  {
    if a == [] {
      assert a + b == b;
    } else {
      var ab := a + b;
      assert ab[0] == a[0] && ab[1..] == a[1..] + b;
      ItemsConcat(a[1..], b);
      Reassociate(Block(a[0]), Items(a[1..]), Items(b));
    }
  }

  lemma ItemsOfOne(r: Raw)
    ensures Items([r]) == Block(r)
  {
    var block := Block(r);
    assert Items([r]) == block + Items([]) == block;
  }

  /** Where the block of statement `j` lies. */
  lemma ItemsAround(raw: seq<Raw>, j: nat)
    requires j < |raw|
    ensures Items(raw) == Items(raw[..j]) + Block(raw[j]) + Items(raw[j + 1..])
    ensures Items(raw[..j + 1]) == Items(raw[..j]) + Block(raw[j])
  {
    SplitAt(raw, j);
    ItemsOfOne(raw[j]);
    ItemsConcat(raw[..j], [raw[j]]);
    ItemsConcat(raw[..j + 1], raw[j + 1..]);
  }

  lemma ItemsNext(raw: seq<Raw>, j: nat)
    requires j < |raw|
    ensures Items(raw[..j + 1]) == Items(raw[..j]) + Block(raw[j])
  {
    ItemsAround(raw, j);
  }

  /** The statement an UPDATE or INSERT cannot be instrumented for makes the constructor throw. */
  predicate Instrumentable(s: Stmt, hasEquals: bool) {
    (s.Update? ==> s.keyed && s.setsKey && hasEquals) && (s.Insert? ==> s.keyed && hasEquals)
  }

  function Zip(stmts: seq<Stmt>, tids: seq<int>): seq<Raw>
    requires |stmts| == |tids|
  {
    seq(|stmts|, k requires 0 <= k < |stmts| => Raw(stmts[k], tids[k]))
  }

  class Instrumentor {
    var finalStmtQueue: seq<Entry>
    var finalTidQueue: seq<int>
    var finalStmtUsage: seq<Usage>
    var failed: bool           // the constructor threw

    ghost function Queue(): Queues
      reads this
    {
      Queues(finalStmtQueue, finalTidQueue, finalStmtUsage)
    }

    constructor (stmts: seq<Stmt>, tids: seq<int>, hasEquals: bool)
      requires |stmts| == |tids| && forall k :: 0 <= k < |stmts| ==> NamesTables(stmts[k])
      ensures failed <==> exists k :: 0 <= k < |stmts| && !Instrumentable(stmts[k], hasEquals)
      ensures !failed <==>
        (forall k :: 0 <= k < |stmts| && stmts[k].Update? ==> stmts[k].keyed && stmts[k].setsKey && hasEquals) &&
        (forall k :: 0 <= k < |stmts| && stmts[k].Insert? ==> stmts[k].keyed && hasEquals)
      ensures !failed ==> Queue() == Unzip(Items(Zip(stmts, tids)))
    {
      finalStmtQueue, finalTidQueue, finalStmtUsage, failed := [], [], [], false;
      new;
      ghost var raw := Zip(stmts, tids);
      var i := 0;
      while i < |stmts|
        invariant 0 <= i <= |stmts| && !failed
        invariant Queue() == Unzip(Items(raw[..i]))
        invariant forall k :: 0 <= k < i ==> Instrumentable(stmts[k], hasEquals)
      {
        ItemsNext(raw, i);
        var ok := InstrumentOne(stmts[i], tids[i], hasEquals, Items(raw[..i]));
        if !ok {
          failed := true;
          return;
        }
        i := i + 1;
      }
      assert raw[..i] == raw;
    }

    method Push(e: Entry, tid: int, u: Usage, ghost items: seq<Item>)
      requires Queue() == Unzip(items)
      modifies this`finalStmtQueue, this`finalTidQueue, this`finalStmtUsage
      ensures Queue() == Unzip(items + [Item(e, tid, u)])
    {
      finalTidQueue := finalTidQueue + [tid];
      finalStmtQueue := finalStmtQueue + [e];
      finalStmtUsage := finalStmtUsage + [u];
    }

    method PushVersionReads(tables: seq<string>, tid: int, ghost items: seq<Item>)
      requires Queue() == Unzip(items)
      modifies this`finalStmtQueue, this`finalTidQueue, this`finalStmtUsage
      ensures Queue() == Unzip(items + VersionReads(tables, tid))
    {
      var k := 0;
      while k < |tables|
        invariant 0 <= k <= |tables|
        invariant Queue() == Unzip(items + VersionReads(tables, tid)[..k])
      {
        ghost var reads_ := VersionReads(tables, tid);
        Push(VersionRead(tables[k]), tid, Usage(VersionSetRead, tables[k], true), items + reads_[..k]);
        assert items + reads_[..k] + [reads_[k]] == items + reads_[..k + 1];
        k := k + 1;
      }
      assert VersionReads(tables, tid)[..k] == VersionReads(tables, tid);
    }

    /** One turn of the loop; `items` are the entries made so far. */
    method InstrumentOne(s: Stmt, tid: int, hasEquals: bool, ghost items: seq<Item>) returns (ok: bool)
      requires Queue() == Unzip(items) && NamesTables(s)
      modifies this`finalStmtQueue, this`finalTidQueue, this`finalStmtUsage
      ensures ok <==> Instrumentable(s, hasEquals)
      ensures ok ==> Queue() == Unzip(items + Block(Raw(s, tid)))
    {
      ghost var r := Raw(s, tid);
      if s.Update? && (!s.keyed || !s.setsKey || !hasEquals) { return false; }
      if s.Insert? && (!s.keyed || !hasEquals) { return false; }
      if s.Control? {
        Push(Original(s), tid, Usage(InitType, "", false), items + Reads(r));
        return true;
      }
      PushReads(s, tid, items);
      ghost var before := items + Reads(r);
      if s.Update? {
        Push(Original(s), tid, Usage(UpdateWrite, s.table, false), before);
        Push(AfterRead(s), tid, Usage(AfterWriteRead, s.table, true), before + [Basic(r)]);
      } else if s.Delete? {
        Push(Original(s), tid, Usage(DeleteWrite, s.table, false), before);
      } else if s.Insert? {
        Push(Original(s), tid, Usage(InsertWrite, s.table, false), before);
        Push(AfterRead(s), tid, Usage(AfterWriteRead, s.table, true), before + [Basic(r)]);
      } else {
        Push(Original(s), tid, Usage(SelectRead, "", false), before);
      }
      BlockFrom(items, r);
      ok := true;
    }

    /** The reads before a statement: of the versions of its tables, and of the rows it writes. */
    method PushReads(s: Stmt, tid: int, ghost items: seq<Item>)
      requires Queue() == Unzip(items) && !s.Control? && NamesTables(s)
      modifies this`finalStmtQueue, this`finalTidQueue, this`finalStmtUsage
      ensures Queue() == Unzip(items + Reads(Raw(s, tid)))
    {
      var tables := ExtractWordsBeginWith(s.text, TABLE_PREFIX);
      if s.Insert? { tables := Erase(tables, s.table); }
      assert tables == Involved(s);
      PushVersionReads(tables, tid, items);
      ghost var versions := VersionReads(tables, tid);
      if s.Update? || s.Delete? {
        Push(BeforeRead(s), tid, Usage(BeforeWriteRead, s.table, true), items + versions);
        Assoc(items, versions, [Item(BeforeRead(s), tid, Usage(BeforeWriteRead, s.table, true))]);
      } else {
        assert versions + [] == versions;
      }
    }
  }

  lemma BlockFrom(items: seq<Item>, r: Raw)
    ensures items + Reads(r) + [Basic(r)] + Tail(r) == items + Block(r)
    ensures r.stmt.Control? ==> Reads(r) == [] && items + [Basic(r)] == items + Block(r) && items + Reads(r) == items
    ensures Tail(r) == [] ==> items + Reads(r) + [Basic(r)] == items + Block(r)
  {
    Assoc(items, Reads(r), [Basic(r)]);
    Assoc(items, Reads(r) + [Basic(r)], Tail(r));
  }

  // ---- dropping what was added ----

  function Dropped(items: seq<Item>): seq<Item> {
    if items == [] then []
    else if items[0].usage.instrumented then Dropped(items[1..])
    else [items[0]] + Dropped(items[1..])
  }

  lemma {:induction false} DroppedConcat(a: seq<Item>, b: seq<Item>)
    ensures Dropped(a + b) == Dropped(a) + Dropped(b)
  {
    if a == [] {
      assert a + b == b;
    } else {
      DroppedConcat(a[1..], b);
      assert (a + b)[0] == a[0] && (a + b)[1..] == a[1..] + b;
    }
  }

  lemma {:induction false} AllDropped(a: seq<Item>)
    requires forall k :: 0 <= k < |a| ==> a[k].usage.instrumented
    ensures Dropped(a) == []
  {
    if a != [] { AllDropped(a[1..]); }
  }

  /** The statement entries of the input, each with the usage the instrumentor gives it. */
  function Basics(raw: seq<Raw>): seq<Item> {
    seq(|raw|, k requires 0 <= k < |raw| => Basic(raw[k]))
  }

  /** Dropping the instrumented entries gives the input statements back, with their transactions and
      in order. */
  lemma {:induction false} CleaningUndoesInstrumenting(raw: seq<Raw>)
    ensures Dropped(Items(raw)) == Basics(raw)
  {
    if raw != [] {
      CleaningUndoesInstrumenting(raw[1..]);
      DroppedConcat(Block(raw[0]), Items(raw[1..]));
      DroppedBlock(raw[0]);
      assert Basics(raw) == [Basic(raw[0])] + Basics(raw[1..]);
    }
  }

  lemma DroppedBlock(r: Raw)
    ensures Dropped(Block(r)) == [Basic(r)]
  {
    DroppedConcat(Reads(r) + [Basic(r)], Tail(r));
    DroppedConcat(Reads(r), [Basic(r)]);
    AllDropped(Reads(r));
    AllDropped(Tail(r));
    assert Dropped([Basic(r)]) == [Basic(r)];
  }

  /** `clean_instrument`: the loop that keeps the entries that are not instrumented. */
  method CleanInstrument(q: Queues, ghost items: seq<Item>) returns (r: Queues)
    requires q == Unzip(items)
    ensures r == Unzip(Dropped(items))
  {
    r := Queues([], [], []);
    var i := 0;
    while i < |q.stmts|
      invariant 0 <= i <= |q.stmts|
      invariant r == Unzip(Dropped(items[..i]))
    {
      assert items[..i + 1] == items[..i] + [items[i]];
      DroppedConcat(items[..i], [items[i]]);
      assert Dropped([items[i]]) == if items[i].usage.instrumented then [] else [items[i]];
      if !q.usages[i].instrumented {
        r := Queues(r.stmts + [q.stmts[i]], r.tids + [q.tids[i]], r.usages + [q.usages[i]]);
      }
      i := i + 1;
    }
    assert items[..i] == items;
  }

  // ---- the shape of a block ----

  /** What an entry added before a statement looks like. */
  predicate IsRead(u: Usage) { u.kind == BeforeWriteRead || u.kind == VersionSetRead }

  /** A block is one contiguous run of a single transaction: reads that are instrumented, one entry
      that is not, and after an UPDATE or INSERT one instrumented read. Only the last entry before
      an UPDATE or DELETE is a BEFORE_WRITE_READ. */
  lemma BlockShape(r: Raw)
    ensures forall k :: 0 <= k < |Block(r)| ==> Block(r)[k].tid == r.tid
    ensures forall k :: 0 <= k < |Reads(r)| ==> IsRead(Reads(r)[k].usage) && Reads(r)[k].usage.instrumented
    ensures forall k :: 0 <= k < |Reads(r)| ==>
      (Reads(r)[k].usage.kind == BeforeWriteRead <==> (r.stmt.Update? || r.stmt.Delete?) && k == |Reads(r)| - 1)
    ensures !IsRead(Basic(r).usage) && Basic(r).usage.kind != AfterWriteRead && !Basic(r).usage.instrumented
    ensures |Tail(r)| <= 1 && (|Tail(r)| == 1 <==> r.stmt.Update? || r.stmt.Insert?)
    ensures |Tail(r)| == 1 ==> Tail(r)[0].usage == Usage(AfterWriteRead, r.stmt.table, true)
    ensures r.stmt.Control? ==> Block(r) == [Basic(r)]
  {
  }

  lemma {:induction false} ErasedTable(tables: seq<string>, table: string, x: string)
    ensures x in Erase(tables, table) <==> x in tables && x != table
  {
    if tables != [] { ErasedTable(tables[1..], table, x); }
  }

  /** Which versions are read with a statement: of every table named in its text, for an INSERT all but
      its own. */
  lemma VersionsRead(r: Raw, x: string)
    requires NamesTables(r.stmt)
    ensures (exists k :: 0 <= k < |Block(r)| && Block(r)[k].entry == VersionRead(x)) <==>
      !r.stmt.Control? && x in Scanned(r.stmt.text, "t_") && (r.stmt.Insert? ==> x != r.stmt.table)
  {
    var tables := Involved(r.stmt);
    if r.stmt.Insert? { ErasedTable(r.stmt.tables, r.stmt.table, x); }
    var versions := VersionReads(tables, r.tid);
    if x in tables {
      var k :| 0 <= k < |tables| && tables[k] == x;
      assert Block(r)[k] == versions[k];
    }
    forall k | 0 <= k < |Block(r)| ensures Block(r)[k].entry == VersionRead(x) ==> x in tables {
      if k < |versions| { assert Block(r)[k] == versions[k]; }
    }
  }

  /** The rest of the block, kind by kind, and every version read before it. */
  lemma BlockIs(r: Raw)
    ensures var s, n := r.stmt, |Block(r)|;
            match s
            case Update(_, _, table, _, _) =>
              n >= 3 && Block(r)[n - 3..] == [
                Item(BeforeRead(s), r.tid, Usage(BeforeWriteRead, table, true)),
                Item(Original(s), r.tid, Usage(UpdateWrite, table, false)),
                Item(AfterRead(s), r.tid, Usage(AfterWriteRead, table, true))]
            case Delete(_, _, table) =>
              n >= 2 && Block(r)[n - 2..] == [
                Item(BeforeRead(s), r.tid, Usage(BeforeWriteRead, table, true)),
                Item(Original(s), r.tid, Usage(DeleteWrite, table, false))]
            case Insert(_, _, table, _) =>
              n >= 2 && Block(r)[n - 2..] == [
                Item(Original(s), r.tid, Usage(InsertWrite, table, false)),
                Item(AfterRead(s), r.tid, Usage(AfterWriteRead, table, true))]
            case Control(_) => Block(r) == [Item(Original(s), r.tid, Usage(InitType, "", false))]
            case Query(_, _) => n >= 1 && Block(r)[n - 1..] == [Item(Original(s), r.tid, Usage(SelectRead, "", false))]
    ensures forall k :: 0 <= k < |Involved(r.stmt)| ==>
      Block(r)[k] == Item(VersionRead(Involved(r.stmt)[k]), r.tid, Usage(VersionSetRead, Involved(r.stmt)[k], true))
  {
    var versions := VersionReads(Involved(r.stmt), r.tid);
    assert forall k :: 0 <= k < |versions| ==> Block(r)[k] == versions[k];
  }
}
