/** Replacing a component by id: which slot changes, when a replacement is refused, what it means
    for the query, and what it does to rewrites that were memorised before. */
module Replacement {
  import opened Sql
  import opened ExprTree
  import opened Components

  /** What a slot takes: the condition of a CASE and the operand of NOT are guarded and only take
      conditions; `equivalent_transform` also needs conditions under a bool_term, but those slots
      are not guarded. */
  datatype Slot = Any | Guarded | Junct

  function SlotOf(op: Op, k: nat): Slot {
    if (op.CaseExpr? && k == 0) || op.Negation? then Guarded else if op.BoolTerm? then Junct else Any
  }

  predicate AcceptsSlot(op: Op, k: nat, c: Tree) { SlotOf(op, k) == Guarded ==> IsBoolOp(c.op) }

  /** What `set_component_from_id` does, trying the operands in order. */
  function Replace(t: Tree, id: int, c: Tree): (r: Option<Tree>)
    ensures r.Some? ==> r.value == t.(kids := r.value.kids) && |r.value.kids| == |t.kids|
    decreases t, 1, 0
  {
    ReplaceFrom(t, 0, id, c)
  }

  function ReplaceFrom(t: Tree, k: nat, id: int, c: Tree): (r: Option<Tree>)
    requires k <= |t.kids|
    ensures r.Some? ==> r.value == t.(kids := r.value.kids) && |r.value.kids| == |t.kids|
    decreases t, 0, |t.kids| - k
  {
    if k == |t.kids| then None else
    var here := ReplaceOne(t, k, id, c);
    if here.Some? then here else ReplaceFrom(t, k + 1, id, c)
  }

  /** At operand `k`: take the slot if it carries the id and accepts the component, else go deeper. */
  function ReplaceOne(t: Tree, k: nat, id: int, c: Tree): (r: Option<Tree>)
    requires k < |t.kids|
    ensures r.Some? ==> r.value == t.(kids := r.value.kids) && |r.value.kids| == |t.kids|
    decreases t, 0, 0
  {
    if AcceptsSlot(t.op, k, c) && t.kids[k].cid == id then Some(WithKid(t, k, c.(cid := id)))
    else
      var deeper := Replace(t.kids[k], id, c);
      if deeper.Some? then Some(WithKid(t, k, deeper.value)) else None
  }

  function WithKid(t: Tree, k: nat, u: Tree): Tree
    requires k < |t.kids|
  {
    t.(kids := t.kids[k := u])
  }

  lemma SameKid(t: Tree, k: nat)
    requires k < |t.kids|
    ensures WithKid(t, k, t.kids[k]) == t
  {
    assert t.kids[k := t.kids[k]] == t.kids;
  }

  /** `id` is in operand `k` and in no other, and is not the node's own. */
  predicate OnlyIn(t: Tree, id: int, k: nat) {
    k < |t.kids| && id in Ids(t.kids[k]) &&
    forall j :: 0 <= j < |t.kids| && j != k ==> id !in Ids(t.kids[j])
  }

  /** Every node on the way to the id passes it on to exactly one operand. */
  predicate Unique(t: Tree, id: int) {
    exists k :: 0 <= k < |t.kids| && OnlyIn(t, id, k) &&
      if t.kids[k].cid == id then id !in IdsAll(t.kids[k].kids) else Unique(t.kids[k], id)
  }

  lemma Where(t: Tree, id: int) returns (k: nat)
    requires Unique(t, id)
    ensures OnlyIn(t, id, k)
    ensures if t.kids[k].cid == id then id !in IdsAll(t.kids[k].kids) else Unique(t.kids[k], id)
    ensures forall c :: Replace(t, id, c) == ReplaceAt(t, k, id, c)
  {
    k :| 0 <= k < |t.kids| && OnlyIn(t, id, k) &&
      if t.kids[k].cid == id then id !in IdsAll(t.kids[k].kids) else Unique(t.kids[k], id);
    forall c ensures Replace(t, id, c) == ReplaceAt(t, k, id, c) { ReplaceStep(t, 0, id, c, k); }
  }

  lemma {:induction false} DistinctIsUnique(t: Tree, id: int)
    requires Distinct(Ids(t)) && id in IdsAll(t.kids)
    ensures Unique(t, id)
  {
    var k := Locate(t, id);
    var kid := t.kids[k];
    ConcatDistinct([kid.cid], IdsAll(kid.kids));
    assert kid.cid in [kid.cid];
    assert OnlyIn(t, id, k);
    if kid.cid != id { DistinctIsUnique(kid, id); }
  }

  lemma {:induction false} ReplaceNeedsId(t: Tree, id: int, c: Tree)
    ensures Replace(t, id, c).Some? ==> id in IdsAll(t.kids)
    decreases t, 1, 0
  {
    ReplaceFromNeedsId(t, 0, id, c);
  }

  lemma {:induction false} ReplaceFromNeedsId(t: Tree, k: nat, id: int, c: Tree)
    requires k <= |t.kids|
    ensures ReplaceFrom(t, k, id, c).Some? ==> exists j :: k <= j < |t.kids| && id in Ids(t.kids[j])
    ensures ReplaceFrom(t, k, id, c).Some? ==> id in IdsAll(t.kids)
    decreases t, 0, |t.kids| - k
  {
    if k < |t.kids| {
      ReplaceNeedsId(t.kids[k], id, c);
      assert ReplaceOne(t, k, id, c).Some? ==> id in Ids(t.kids[k]);
      ReplaceFromNeedsId(t, k + 1, id, c);
      if id in Ids(t.kids[k]) { IdsOfKid(t.kids, k, id); }
    }
  }

  /** What happens at the operand that holds the id. */
  function ReplaceAt(t: Tree, k: nat, id: int, c: Tree): Option<Tree>
    requires k < |t.kids|
  {
    if t.kids[k].cid == id then
      if AcceptsSlot(t.op, k, c) then Some(WithKid(t, k, c.(cid := id))) else None
    else
      var deeper := Replace(t.kids[k], id, c);
      if deeper.Some? then Some(WithKid(t, k, deeper.value)) else None
  }

  lemma {:induction false} ReplaceStep(t: Tree, from: nat, id: int, c: Tree, k: nat)
    requires OnlyIn(t, id, k) && from <= k
    requires t.kids[k].cid == id ==> id !in IdsAll(t.kids[k].kids)
    ensures ReplaceFrom(t, from, id, c) == ReplaceAt(t, k, id, c)
    decreases k - from
  {
    ReplaceNeedsId(t.kids[from], id, c);
    if from < k {
      ReplaceStep(t, from + 1, id, c, k);
    } else {
      ReplaceFromNeedsId(t, k + 1, id, c);
    }
  }

  /** The slot that carries the id is of the given kind. */
  predicate InSlot(t: Tree, id: int, slot: Slot) {
    exists k :: 0 <= k < |t.kids| &&
      (if t.kids[k].cid == id then SlotOf(t.op, k) == slot else InSlot(t.kids[k], id, slot))
  }

  lemma {:induction false} SlotHasId(t: Tree, id: int, slot: Slot)
    requires InSlot(t, id, slot)
    ensures id in IdsAll(t.kids)
  {
    var k :| 0 <= k < |t.kids| &&
      (if t.kids[k].cid == id then SlotOf(t.op, k) == slot else InSlot(t.kids[k], id, slot));
    if t.kids[k].cid != id { SlotHasId(t.kids[k], id, slot); }
    IdsOfKid(t.kids, k, id);
  }

  lemma OneSlot(t: Tree, id: int, slot: Slot, k: nat)
    requires OnlyIn(t, id, k)
    ensures InSlot(t, id, slot) <==>
      if t.kids[k].cid == id then SlotOf(t.op, k) == slot else InSlot(t.kids[k], id, slot)
  {
    if InSlot(t, id, slot) {
      var j :| 0 <= j < |t.kids| &&
        (if t.kids[j].cid == id then SlotOf(t.op, j) == slot else InSlot(t.kids[j], id, slot));
      if t.kids[j].cid != id { SlotHasId(t.kids[j], id, slot); }
      assert id in Ids(t.kids[j]);
    }
  }

  /** A replacement is refused exactly when the component is no condition and the slot needs one. */
  lemma {:induction false} ReplaceSucceeds(t: Tree, id: int, c: Tree)
    requires Unique(t, id)
    ensures Replace(t, id, c).Some? <==> IsBoolOp(c.op) || !InSlot(t, id, Guarded)
  {
    var k := Where(t, id);
    OneSlot(t, id, Guarded, k);
    if t.kids[k].cid != id { ReplaceSucceeds(t.kids[k], id, c); }
  }

  /** The component with the id is the condition of a CASE or the operand of a NOT. */
  predicate IsConditionAt(t: Tree, id: int) {
    exists k :: 0 <= k < |t.kids| &&
      (if t.kids[k].cid == id then (t.op.CaseExpr? && k == 0) || t.op.Negation? else IsConditionAt(t.kids[k], id))
  }

  lemma {:induction false} ConditionIsGuarded(t: Tree, id: int)
    ensures IsConditionAt(t, id) <==> InSlot(t, id, Guarded)
  {
    forall k | 0 <= k < |t.kids| && t.kids[k].cid != id
      ensures IsConditionAt(t.kids[k], id) <==> InSlot(t.kids[k], id, Guarded)
    {
      ConditionIsGuarded(t.kids[k], id);
    }
    if IsConditionAt(t, id) {
      var k :| 0 <= k < |t.kids| &&
        (if t.kids[k].cid == id then (t.op.CaseExpr? && k == 0) || t.op.Negation? else IsConditionAt(t.kids[k], id));
      assert if t.kids[k].cid == id then SlotOf(t.op, k) == Guarded else InSlot(t.kids[k], id, Guarded);
    }
    if InSlot(t, id, Guarded) {
      var k :| 0 <= k < |t.kids| &&
        (if t.kids[k].cid == id then SlotOf(t.op, k) == Guarded else InSlot(t.kids[k], id, Guarded));
      assert if t.kids[k].cid == id then (t.op.CaseExpr? && k == 0) || t.op.Negation? else IsConditionAt(t.kids[k], id);
    }
  }

  /** A value is refused exactly there, and a condition nowhere. */
  lemma RefusedOnlyAsCondition(t: Tree, id: int, c: Tree)
    requires Unique(t, id)
    ensures c.op.CompareOp? || c.op.BoolTerm? || c.op.Negation? || c.op.NullPredicate? || c.op.BoolConst? ==>
      Replace(t, id, c).Some?
    ensures c.op.Leaf? || c.op.ArithOp? || c.op.CaseExpr? || c.op.Coalesce? || c.op.Funcall? ==>
      (Replace(t, id, c).Some? <==> !IsConditionAt(t, id))
  {
    ReplaceSucceeds(t, id, c);
    ConditionIsGuarded(t, id);
  }

  /** The shape of a successful replacement: one operand changes, the one that holds the id. */
  lemma ReplaceShape(t: Tree, id: int, c: Tree) returns (k: nat, v: Tree)
    requires Shaped(t) && Unique(t, id) && Replace(t, id, c).Some?
    ensures OnlyIn(t, id, k) && Replace(t, id, c) == Some(WithKid(t, k, v))
    ensures if t.kids[k].cid == id then v == c.(cid := id) && AcceptsSlot(t.op, k, c) && id !in IdsAll(t.kids[k].kids)
            else Unique(t.kids[k], id) && Replace(t.kids[k], id, c) == Some(v) && v.cid == t.kids[k].cid
    ensures Find(t, id) == if t.kids[k].cid == id then Some(t.kids[k]) else Find(t.kids[k], id)
    ensures Find(t, id).Some?
  {
    k := Where(t, id);
    v := Replace(t, id, c).value.kids[k];
    FindInStep(t, SearchOrder(t.op, t.marked, |t.kids|), id, k);
    FindMeetsIds(t, id);
    IdsOfKid(t.kids, k, id);
  }

  /** After a replacement the search for the id returns the new component. */
  lemma {:induction false} FindAfterReplace(t: Tree, id: int, c: Tree)
    requires Shaped(t) && Shaped(c) && Unique(t, id) && Replace(t, id, c).Some?
    ensures var u := Replace(t, id, c).value; Shaped(u) && Find(u, id) == Some(c.(cid := id))
  {
    var k, v := ReplaceShape(t, id, c);
    if t.kids[k].cid != id {
      FindAfterReplace(t.kids[k], id, c);
      FindMeetsIds(v, id);
    }
    var u := WithKid(t, k, v);
    FindInStep(u, SearchOrder(u.op, u.marked, |u.kids|), id, k);
  }

  /** Putting the component that was found back again restores the tree: nothing else moved. */
  lemma {:induction false} RestoreUndoesReplace(t: Tree, id: int, c: Tree)
    requires Shaped(t) && Unique(t, id) && Replace(t, id, c).Some? && Find(t, id).Some?
    requires id !in IdsAll(c.kids)
    requires InSlot(t, id, Guarded) ==> IsBoolOp(Find(t, id).value.op)
    ensures Replace(Replace(t, id, c).value, id, Find(t, id).value) == Some(t)
  {
    var k, v := ReplaceShape(t, id, c);
    var found := Find(t, id).value;
    OneSlot(t, id, Guarded, k);
    if t.kids[k].cid != id {
      RestoreUndoesReplace(t.kids[k], id, c);
      ReplaceNeedsId(v, id, found);
    }
    var u := WithKid(t, k, v);
    assert OnlyIn(u, id, k);
    ReplaceStep(u, 0, id, found, k);
    assert t.kids == u.kids[k := t.kids[k]];
  }

  /** A component of equal value leaves the value of the whole tree unchanged. */
  lemma {:induction false} EqualComponentKeepsMeaning(i: Interp, t: Tree, id: int, c: Tree)
    requires Shaped(t) && Shaped(c) && Unique(t, id) && Replace(t, id, c).Some? && Find(t, id).Some?
    requires Eval(i, Plain(c)) == Eval(i, Plain(Find(t, id).value))
    ensures Shaped(Replace(t, id, c).value)
    ensures Eval(i, Plain(Replace(t, id, c).value)) == Eval(i, Plain(t))
  {
    var k, v := ReplaceShape(t, id, c);
    if t.kids[k].cid != id { EqualComponentKeepsMeaning(i, t.kids[k], id, c); }
    assert Shaped(v) && Eval(i, Plain(v)) == Eval(i, Plain(t.kids[k]));
    OperandKeepsMeaning(i, t, k, v);
  }

  lemma OperandKeepsMeaning(i: Interp, t: Tree, k: nat, v: Tree)
    requires Shaped(t) && k < |t.kids| && Shaped(v) && Eval(i, Plain(v)) == Eval(i, Plain(t.kids[k]))
    ensures Shaped(WithKid(t, k, v)) && Eval(i, Plain(WithKid(t, k, v))) == Eval(i, Plain(t))
  {
    var u := WithKid(t, k, v);
    BuildCongruent(i, t.op, BaseDisj(t.op, t.disj, t.marked), PlainAll(u.kids), PlainAll(t.kids));
  }

  // ---- rewrites that were memorised before the replacement ----

  /** Some node the replacement changes keeps a snapshot of its text. */
  predicate SnapshotAbove(t: Tree, id: int) {
    (t.memo.Some? && IsSnapshot(t.memo.value)) ||
    exists k :: 0 <= k < |t.kids| && id in Ids(t.kids[k]) && t.kids[k].cid != id && SnapshotAbove(t.kids[k], id)
  }

  lemma OperandShowsInPlain(t: Tree, k: nat, v: Tree)
    requires Shaped(t) && k < |t.kids| && Shaped(v)
    ensures Shaped(WithKid(t, k, v))
    ensures Plain(WithKid(t, k, v)) == Plain(t) <==> Plain(v) == Plain(t.kids[k])
  {
    var u := WithKid(t, k, v);
    var us, ts := PlainAll(u.kids), PlainAll(t.kids);
    assert us == ts <==> us[k] == ts[k];
    BuildIsInjective(t.op, BaseDisj(t.op, t.disj, t.marked), us, ts);
  }

  lemma BuildIsInjective(op: Op, disj: bool, es: seq<Expr>, fs: seq<Expr>)
    requires |es| == |fs| && Arity(op, |es|)
    ensures Build(op, disj, es) == Build(op, disj, fs) <==> es == fs
  {
    assert |es| == 1 && es[0] == fs[0] ==> es == fs;
    assert |es| == 2 && es[0] == fs[0] && es[1] == fs[1] ==> es == fs;
    assert |es| == 3 && es[0] == fs[0] && es[1] == fs[1] && es[2] == fs[2] ==> es == fs;
  }

  /** The memorised rewrites stay up to date exactly when the replacement prints like the component
      it replaces or no node above it keeps a snapshot. */
  lemma {:induction false} ReplaceKeepsRewrites(t: Tree, id: int, c: Tree)
    requires Good(t) && Good(c) && Unique(t, id) && Replace(t, id, c).Some? && Find(t, id).Some?
    ensures var u := Replace(t, id, c).value;
            Shaped(u) && (Plain(u) == Plain(t) <==> Plain(c) == Plain(Find(t, id).value)) &&
            (Good(u) <==> (Plain(c) == Plain(Find(t, id).value) || !SnapshotAbove(t, id)))
  {
    var k, v := ReplaceShape(t, id, c);
    if t.kids[k].cid != id { ReplaceKeepsRewrites(t.kids[k], id, c); }
    OperandShowsInPlain(t, k, v);
    GoodWithKid(t, k, v);
    assert SnapshotAbove(t, id) <==>
      (t.memo.Some? && IsSnapshot(t.memo.value)) || (t.kids[k].cid != id && SnapshotAbove(t.kids[k], id));
  }

  lemma GoodWithKid(t: Tree, k: nat, v: Tree)
    requires Good(t) && k < |t.kids| && Shaped(v) && Shaped(WithKid(t, k, v))
    ensures Good(WithKid(t, k, v)) <==>
      Good(v) && (t.memo.Some? && IsSnapshot(t.memo.value) ==> Plain(WithKid(t, k, v)) == Plain(t))
  {
    var u := WithKid(t, k, v);
    assert u.kids[k] == v;
    assert forall j :: 0 <= j < |t.kids| && j != k ==> u.kids[j] == t.kids[j];
  }

  /** With a snapshot over up-to-date operands, the rewrite prints the right value exactly when the
      snapshot still has it or the random condition selects the other arm. */
  lemma SnapshotValue(i: Interp, t: Tree)
    requires Printable(t) && Shaped(t) && t.marked && IsSnapshot(t.memo.value)
    requires forall k :: 0 <= k < |t.kids| ==> Good(t.kids[k])
    ensures Eval(i, View(t)) == Eval(i, Plain(t)) <==>
      Eval(i, t.memo.value.snap) == Eval(i, Plain(t)) ||
      (ToTruth(Eval(i, t.memo.value.rb)) == True) != t.memo.value.SnapThen?
  {
    var vs, ps := ViewAll(t.kids), PlainAll(t.kids);
    forall k | 0 <= k < |t.kids| ensures Eval(i, vs[k]) == Eval(i, ps[k]) {
      RewritePreservesMeaning(i, t.kids[k]);
    }
    BuildCongruent(i, t.op, t.disj, vs, ps);
    assert Live(t) == Build(t.op, t.disj, vs) && Plain(t) == Build(t.op, t.disj, ps);
  }

  lemma {:induction false} ReplaceKeepsUnmarked(t: Tree, id: int, c: Tree)
    requires AllUnmarked(t) && AllUnmarked(c) && Replace(t, id, c).Some?
    ensures AllUnmarked(Replace(t, id, c).value)
  {
    ReplaceFromKeepsUnmarked(t, 0, id, c);
  }

  lemma {:induction false} ReplaceFromKeepsUnmarked(t: Tree, k: nat, id: int, c: Tree)
    requires AllUnmarked(t) && AllUnmarked(c) && k <= |t.kids| && ReplaceFrom(t, k, id, c).Some?
    ensures AllUnmarked(ReplaceFrom(t, k, id, c).value)
    decreases t, |t.kids| - k
  {
    if ReplaceOne(t, k, id, c).Some? {
      var v := ReplaceOne(t, k, id, c).value.kids[k];
      assert AllUnmarked(t.kids[k]);
      assert v == c.(cid := id) || Replace(t.kids[k], id, c) == Some(v);
      if v == c.(cid := id) { assert AllUnmarked(v); } else { ReplaceFromKeepsUnmarked(t.kids[k], 0, id, c); }
      assert ReplaceFrom(t, k, id, c).value.kids == t.kids[k := v];
    } else {
      ReplaceFromKeepsUnmarked(t, k + 1, id, c);
    }
  }

  /** Under that condition every later transform prints the value of the changed expression. */
  lemma TransformAfterReplace(i: Interp, t: Tree, id: int, c: Tree, w: Tree, clickhouse: bool)
    requires Good(t) && Good(c) && AllUnmarked(t) && AllUnmarked(c)
    requires Unique(t, id) && Replace(t, id, c).Some? && Find(t, id).Some?
    requires Plain(c) == Plain(Find(t, id).value) || !SnapshotAbove(t, id)
    requires Transformed(Replace(t, id, c).value, w, clickhouse)
    ensures Good(w) && Eval(i, View(w)) == Eval(i, Plain(Replace(t, id, c).value))
  {
    ReplaceKeepsRewrites(t, id, c);
    ReplaceKeepsUnmarked(t, id, c);
    TransformKeepsGood(Replace(t, id, c).value, w, clickhouse);
    RewritePreservesMeaning(i, w);
  }

  // ---- operands of a bool_term ----

  /** `equivalent_transform` of a bool_term casts its operands to conditions. */
  predicate Kinds(t: Tree)
    decreases t, 1
  {
    (t.op.BoolTerm? ==> forall k :: 0 <= k < |t.kids| ==> IsBoolOp(t.kids[k].op)) && KindsBelow(t)
  }

  predicate KindsBelow(t: Tree)
    decreases t, 0
  {
    forall k :: 0 <= k < |t.kids| ==> Kinds(t.kids[k])
  }

  lemma {:induction false} TransformKeepsKinds(t: Tree, u: Tree, clickhouse: bool)
    requires Kinds(t) && Transformed(t, u, clickhouse)
    ensures Kinds(u)
  {
    forall k | 0 <= k < |t.kids| ensures Kinds(u.kids[k]) && u.kids[k].op == t.kids[k].op {
      if !SkipsKids(t.op, clickhouse) { TransformKeepsKinds(t.kids[k], u.kids[k], clickhouse); }
    }
  }

  lemma {:induction false} BackKeepsKinds(t: Tree, clickhouse: bool)
    requires Kinds(t)
    ensures Kinds(Back(t, clickhouse))
  {
    var u := Back(t, clickhouse);
    forall k | 0 <= k < |t.kids| ensures Kinds(u.kids[k]) && u.kids[k].op == t.kids[k].op {
      if !SkipsKids(t.op, clickhouse) { BackKeepsKinds(t.kids[k], clickhouse); }
    }
  }

  lemma KindsWithKid(t: Tree, k: nat, v: Tree)
    requires Kinds(t) && k < |t.kids|
    ensures Kinds(WithKid(t, k, v)) <==> Kinds(v) && (t.op.BoolTerm? ==> IsBoolOp(v.op))
  {
    var u := WithKid(t, k, v);
    assert u.kids[k] == v;
    assert forall j :: 0 <= j < |t.kids| && j != k ==> u.kids[j] == t.kids[j];
  }

  /** A replacement leaves only conditions under every bool_term exactly when the component is a
      condition or its slot is not the operand of a bool_term: that slot is not guarded. */
  lemma {:induction false} ReplaceKeepsKinds(t: Tree, id: int, c: Tree)
    requires Shaped(t) && Kinds(t) && Kinds(c) && Unique(t, id) && Replace(t, id, c).Some?
    ensures Kinds(Replace(t, id, c).value) <==> IsBoolOp(c.op) || !InSlot(t, id, Junct)
  {
    var k, v := ReplaceShape(t, id, c);
    OneSlot(t, id, Junct, k);
    if t.kids[k].cid != id { ReplaceKeepsKinds(t.kids[k], id, c); }
    KindsWithKid(t, k, v);
  }

  /** A value is accepted as the operand of OR, and the next transform of the OR has no condition there. */
  lemma ValueUnderJunction(t: Tree, c: Tree)
    requires t == Tree(BoolTerm, true, [Const(True, 1), Const(False, 2)], None, false, 0)
    requires c == Tree(Leaf("a"), false, [], None, false, -1)
    ensures Kinds(t) && Kinds(c) && Replace(t, 1, c).Some? && !Kinds(Replace(t, 1, c).value)
  {
    assert Replace(t, 1, c) == ReplaceFrom(t, 0, 1, c) == ReplaceOne(t, 0, 1, c);
    assert Replace(t, 1, c).value.kids[0] == c.(cid := 1);
  }

  function Const(truth: Truth, cid: int): Tree { Tree(BoolConst(truth), false, [], None, false, cid) }
}
