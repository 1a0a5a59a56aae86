/** Component ids of a tree: numbering, search by id and replacement by id. */
module Components {
  import opened Sql
  import opened ExprTree

  function NodeCount(t: Tree): (n: nat)
    ensures n > 0
  {
    1 + NodeCountAll(t.kids)
  }

  function NodeCountAll(ts: seq<Tree>): nat {
    if ts == [] then 0 else NodeCount(ts[0]) + NodeCountAll(ts[1..])
  }

  /** What `set_component_id` does: the node takes the next number, then its operands in order. */
  function Number(t: Tree, id: int): Tree {
    t.(cid := id, kids := NumberAll(t.kids, id + 1))
  }

  function NumberAll(ts: seq<Tree>, id: int): (us: seq<Tree>)
    ensures |us| == |ts|
  {
    if ts == [] then [] else [Number(ts[0], id)] + NumberAll(ts[1..], id + NodeCount(ts[0]))
  }

  /** Each operand is numbered from where the operands before it stopped. */
  lemma {:induction false} NumberAllAt(ts: seq<Tree>, id: int, k: nat)
    requires k < |ts|
    ensures NumberAll(ts, id)[k] == Number(ts[k], id + NodeCountFirst(ts, k))
  {
    if k > 0 {
      NumberAllAt(ts[1..], id + NodeCount(ts[0]), k - 1);
      CountFirstStep(ts, k);
    }
  }

  /** The numbered operands, and the number each starts from. */
  ghost predicate Numbering(ts: seq<Tree>, want: seq<Tree>, at: seq<int>) {
    |want| == |ts| && |at| == |ts| + 1 &&
    forall k :: 0 <= k < |ts| ==> want[k] == Number(ts[k], at[k]) && at[k + 1] == at[k] + NodeCount(ts[k])
  }

  lemma HasNumbering(ts: seq<Tree>, id: int) returns (want: seq<Tree>, at: seq<int>)
    ensures Numbering(ts, want, at) && at[0] == id
    ensures want == NumberAll(ts, id) && at[|ts|] == id + NodeCountAll(ts)
  {
    want := NumberAll(ts, id);
    at := seq(|ts| + 1, k requires 0 <= k <= |ts| => id + NodeCountFirst(ts, k));
    forall k | 0 <= k < |ts| ensures want[k] == Number(ts[k], at[k]) { NumberAllAt(ts, id, k); }
    CountFirstAll(ts);
  }

  /** The nodes of the first `k` trees. */
  function NodeCountFirst(ts: seq<Tree>, k: nat): nat
    requires k <= |ts|
  {
    if k == 0 then 0 else NodeCountFirst(ts, k - 1) + NodeCount(ts[k - 1])
  }

  lemma {:induction false} CountFirstStep(ts: seq<Tree>, k: nat)
    requires 0 < k <= |ts|
    ensures NodeCountFirst(ts, k) == NodeCount(ts[0]) + NodeCountFirst(ts[1..], k - 1)
  {
    if k > 1 { CountFirstStep(ts, k - 1); }
  }

  lemma {:induction false} CountFirstAll(ts: seq<Tree>)
    ensures NodeCountFirst(ts, |ts|) == NodeCountAll(ts)
  {
    if ts != [] {
      CountFirstStep(ts, |ts|);
      CountFirstAll(ts[1..]);
    }
  }

  /** The ids of a tree in preorder; the first is its own. */
  function Ids(t: Tree): seq<int> { [t.cid] + IdsAll(t.kids) }

  function IdsAll(ts: seq<Tree>): seq<int> {
    if ts == [] then [] else Ids(ts[0]) + IdsAll(ts[1..])
  }

  predicate Consecutive(s: seq<int>, from: int) { forall k :: 0 <= k < |s| ==> s[k] == from + k }

  predicate Distinct(s: seq<int>) { forall j, k :: 0 <= j < k < |s| ==> s[j] != s[k] }

  /** Numbering gives consecutive ids in preorder, one for each node. */
  lemma {:induction false} NumberedInPreorder(t: Tree, id: int)
    ensures |Ids(Number(t, id))| == NodeCount(t)
    ensures Consecutive(Ids(Number(t, id)), id) && Distinct(Ids(Number(t, id)))
  {
    AllNumberedInPreorder(t.kids, id + 1);
  }

  lemma {:induction false} AllNumberedInPreorder(ts: seq<Tree>, id: int)
    ensures |IdsAll(NumberAll(ts, id))| == NodeCountAll(ts)
    ensures Consecutive(IdsAll(NumberAll(ts, id)), id)
  {
    if ts != [] {
      NumberedInPreorder(ts[0], id);
      AllNumberedInPreorder(ts[1..], id + NodeCount(ts[0]));
      assert NumberAll(ts, id)[1..] == NumberAll(ts[1..], id + NodeCount(ts[0]));
    }
  }

  // ---- search ----

  /** The operands in the order they are searched. A marked bool_term is searched through its
      De Morgan dual first, which lists the operands the other way round. */
  function SearchOrder(op: Op, marked: bool, n: nat): (order: seq<nat>)
    ensures forall j :: 0 <= j < |order| ==> order[j] < n
    ensures forall k :: 0 <= k < n ==> k in order
  {
    if op.BoolTerm? && marked && n == 2 then [1, 0, 0, 1] else UpTo(n)
  }

  function UpTo(n: nat): (s: seq<nat>)
    ensures |s| == n && forall k :: 0 <= k < n ==> s[k] == k && k in s
  {
    if n == 0 then [] else UpTo(n - 1) + [n - 1]
  }

  /** What `get_component_from_id` finds: the first proper descendant with the id. */
  function Find(t: Tree, id: int): (r: Option<Tree>)
    requires Shaped(t)
    ensures r.Some? ==> Shaped(r.value)
    decreases t, 1, 0
  {
    FindIn(t, SearchOrder(t.op, t.marked, |t.kids|), id)
  }

  function FindIn(t: Tree, order: seq<nat>, id: int): (r: Option<Tree>)
    requires Shaped(t) && forall j :: 0 <= j < |order| ==> order[j] < |t.kids|
    ensures r.Some? ==> Shaped(r.value)
    decreases t, 0, |order|
  {
    if order == [] then None else
    var kid := t.kids[order[0]];
    if kid.cid == id then Some(kid)
    else
      var deeper := Find(kid, id);
      if deeper.Some? then deeper else FindIn(t, order[1..], id)
  }

  lemma {:induction false} IdsOfKid(ts: seq<Tree>, k: nat, id: int)
    requires k < |ts| && id in Ids(ts[k])
    ensures id in IdsAll(ts)
  {
    if k > 0 { IdsOfKid(ts[1..], k - 1, id); }
  }

  lemma {:induction false} KidOfId(ts: seq<Tree>, id: int) returns (k: nat)
    requires id in IdsAll(ts)
    ensures k < |ts| && id in Ids(ts[k])
  {
    if id in Ids(ts[0]) { k := 0; } else { k := KidOfId(ts[1..], id); k := k + 1; }
  }

  /** A search succeeds exactly for the ids of proper descendants, and what it returns carries
      the id it was asked for. */
  lemma {:induction false} FindMeetsIds(t: Tree, id: int)
    requires Shaped(t)
    ensures Find(t, id).Some? <==> id in IdsAll(t.kids)
    ensures Find(t, id).Some? ==> Find(t, id).value.cid == id
    decreases t, 1, 0
  {
    var order := SearchOrder(t.op, t.marked, |t.kids|);
    FindInMeetsIds(t, order, id);
    if id in IdsAll(t.kids) {
      var k := KidOfId(t.kids, id);
      assert k in order;
    }
  }

  lemma {:induction false} FindInMeetsIds(t: Tree, order: seq<nat>, id: int)
    requires Shaped(t) && forall j :: 0 <= j < |order| ==> order[j] < |t.kids|
    ensures FindIn(t, order, id).Some? ==> id in IdsAll(t.kids) && FindIn(t, order, id).value.cid == id
    ensures (exists k :: k in order && id in Ids(t.kids[k])) ==> FindIn(t, order, id).Some?
    decreases t, 0, |order|
  {
    if order != [] {
      var kid := t.kids[order[0]];
      FindMeetsIds(kid, id);
      FindInMeetsIds(t, order[1..], id);
      if id in Ids(kid) { IdsOfKid(t.kids, order[0], id); }
    }
  }

  // ---- ids that occur once ----

  lemma ConcatDistinct(s: seq<int>, t: seq<int>)
    requires Distinct(s + t)
    ensures Distinct(s) && Distinct(t)
    ensures forall x :: x in s ==> x !in t
  {
    forall j, k | 0 <= j < |s| && 0 <= k < |t| ensures s[j] != t[k] {
      assert (s + t)[j] == s[j] && (s + t)[|s| + k] == t[k];
    }
    assert forall k :: 0 <= k < |s| ==> (s + t)[k] == s[k];
    assert forall k :: 0 <= k < |t| ==> (s + t)[|s| + k] == t[k];
  }

  lemma {:induction false} DistinctKids(ts: seq<Tree>, k: nat, id: int)
    requires Distinct(IdsAll(ts)) && k < |ts| && id in Ids(ts[k])
    ensures Distinct(Ids(ts[k]))
    ensures forall j :: 0 <= j < |ts| && j != k ==> id !in Ids(ts[j])
  {
    ConcatDistinct(Ids(ts[0]), IdsAll(ts[1..]));
    if k == 0 {
      forall j | 0 < j < |ts| ensures id !in Ids(ts[j]) {
        if id in Ids(ts[j]) { IdsOfKid(ts[1..], j - 1, id); }
      }
    } else {
      IdsOfKid(ts[1..], k - 1, id);
      DistinctKids(ts[1..], k - 1, id);
      forall j | 0 <= j < |ts| && j != k ensures id !in Ids(ts[j]) {
        if j > 0 { assert ts[j] == ts[1..][j - 1]; }
      }
    }
  }

  /** The only operand the id is in. */
  lemma Locate(t: Tree, id: int) returns (k: nat)
    requires Distinct(Ids(t)) && id in IdsAll(t.kids)
    ensures k < |t.kids| && id in Ids(t.kids[k]) && Distinct(Ids(t.kids[k])) && id != t.cid
    ensures forall j :: 0 <= j < |t.kids| && j != k ==> id !in Ids(t.kids[j])
  {
    ConcatDistinct([t.cid], IdsAll(t.kids));
    assert t.cid in [t.cid];
    k := KidOfId(t.kids, id);
    DistinctKids(t.kids, k, id);
  }

  predicate Below(u: Tree, t: Tree) {
    exists k :: 0 <= k < |t.kids| && (u == t.kids[k] || Below(u, t.kids[k]))
  }

  lemma {:induction false} BelowHasId(u: Tree, t: Tree)
    requires Below(u, t)
    ensures u.cid in IdsAll(t.kids)
  {
    var k :| 0 <= k < |t.kids| && (u == t.kids[k] || Below(u, t.kids[k]));
    if u != t.kids[k] { BelowHasId(u, t.kids[k]); }
    IdsOfKid(t.kids, k, u.cid);
  }

  /** Which operand decides a search when the id is in one operand only. */
  lemma {:induction false} FindInStep(t: Tree, order: seq<nat>, id: int, k: nat)
    requires Shaped(t) && forall j :: 0 <= j < |order| ==> order[j] < |t.kids|
    requires k in order && k < |t.kids| && id in Ids(t.kids[k])
    requires forall j :: 0 <= j < |t.kids| && j != k ==> id !in Ids(t.kids[j])
    ensures FindIn(t, order, id) == if t.kids[k].cid == id then Some(t.kids[k]) else Find(t.kids[k], id)
  {
    FindMeetsIds(t.kids[order[0]], id);
    if order[0] != k {
      FindInStep(t, order[1..], id, k);
    }
  }

  /** With distinct ids a search returns the one node that carries the id. */
  lemma {:induction false} FindIsUnique(t: Tree, id: int, u: Tree)
    requires Shaped(t) && Distinct(Ids(t))
    ensures Find(t, id) == Some(u) <==> Below(u, t) && u.cid == id
    decreases t
  {
    FindMeetsIds(t, id);
    if Below(u, t) && u.cid == id { BelowHasId(u, t); }
    if id in IdsAll(t.kids) {
      var k := Locate(t, id);
      FindInStep(t, SearchOrder(t.op, t.marked, |t.kids|), id, k);
      FindIsUnique(t.kids[k], id, u);
      if Below(u, t) && u.cid == id {
        var j :| 0 <= j < |t.kids| && (u == t.kids[j] || Below(u, t.kids[j]));
        if Below(u, t.kids[j]) { BelowHasId(u, t.kids[j]); }
        assert id in Ids(t.kids[j]);
        ConcatDistinct([t.kids[k].cid], IdsAll(t.kids[k].kids));
        assert t.kids[k].cid in [t.kids[k].cid];
      }
    }
  }
}
