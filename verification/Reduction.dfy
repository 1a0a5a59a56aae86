/** What one pass over a list can promise: a list is reduced by dropping elements, one after the other,
    as long as a test still shows a bug. */
module Reduction {
  import opened Sequences

  predicate Below(m: seq<bool>, n: seq<bool>) {
    |m| == |n| && forall j :: 0 <= j < |m| ==> m[j] ==> n[j]
  }

  /** Adding elements back to a part that shows the bug cannot hide it. */
  ghost predicate UpwardClosed<T>(s: seq<T>, bug: seq<T> -> bool) {
    forall m, n {:trigger Below(m, n)} :: |n| == |s| && Below(m, n) && bug(Sel(s, m)) ==> bug(Sel(s, n))
  }

  /** If element `p` is kept, it could not be dropped from some list that holds the part `m`. */
  ghost predicate Needed<T>(s: seq<T>, m: seq<bool>, p: nat, bug: seq<T> -> bool)
    requires |m| == |s| && p < |m|
  {
    m[p] ==> exists n {:trigger Below(m, n)} :: |n| == |s| && Below(m, n) && !bug(Sel(s, n[p := false]))
  }

  lemma BelowIsOrder(m: seq<bool>, n: seq<bool>, o: seq<bool>)
    ensures Below(m, m) && (Below(m, n) && Below(n, o) ==> Below(m, o))
  {
  }

  lemma NeededInPart<T>(s: seq<T>, m: seq<bool>, m': seq<bool>, p: nat, bug: seq<T> -> bool)
    requires |m| == |s| && p < |m| && Below(m', m) && Needed(s, m, p, bug)
    ensures Needed(s, m', p, bug)
  {
    if m'[p] {
      var n :| |n| == |s| && Below(m, n) && !bug(Sel(s, n[p := false]));
      BelowIsOrder(m', m, n);
    }
  }

  /** A needed element cannot be spared from the part either, if adding elements cannot hide the bug. */
  lemma NeededIsMinimal<T>(s: seq<T>, m: seq<bool>, p: nat, bug: seq<T> -> bool)
    requires UpwardClosed(s, bug) && |m| == |s| && p < |m| && m[p] && Needed(s, m, p, bug)
    ensures !bug(Sel(s, m[p := false]))
  {
    var n :| |n| == |s| && Below(m, n) && !bug(Sel(s, n[p := false]));
    BelowWithout(m, n, p);
  }

  lemma BelowWithout(m: seq<bool>, n: seq<bool>, p: nat)
    requires Below(m, n) && p < |m|
    ensures Below(m[p := false], n[p := false])
  {
  }

  /** No element of the list other than the fixed ones can be dropped. */
  ghost predicate OneMinimal<T>(s: seq<T>, bug: seq<T> -> bool, fixed: T -> bool) {
    forall k :: 0 <= k < |s| ==> fixed(s[k]) || !bug(Cut(s, k))
  }

  lemma AllNeededIsMinimal<T>(s: seq<T>, m: seq<bool>, bug: seq<T> -> bool, fixed: T -> bool)
    requires UpwardClosed(s, bug) && |m| == |s|
    requires forall p :: 0 <= p < |s| ==> fixed(s[p]) || Needed(s, m, p, bug)
    ensures OneMinimal(Sel(s, m), bug, fixed)
  {
    forall k | 0 <= k < |Sel(s, m)| ensures fixed(Sel(s, m)[k]) || !bug(Cut(Sel(s, m), k)) {
      var p := SelAt(s, m, k);
      SelHas(s, m, p);
      SelCut(s, m, p);
      if !fixed(s[p]) { NeededIsMinimal(s, m, p, bug); }
    }
  }

  // ---- one pass forward ----

  function ForwardPass<T>(s: seq<T>, j: nat, bug: seq<T> -> bool, fixed: T -> bool): seq<T>
    requires j <= |s|
    decreases |s| - j
  {
    if j == |s| then s
    else if !fixed(s[j]) && bug(Cut(s, j)) then ForwardPass(Cut(s, j), j, bug, fixed)
    else ForwardPass(s, j + 1, bug, fixed)
  }

  /** Element `p`, the next to be tried, is dropped or needed. */
  lemma TryNext<T>(s: seq<T>, m: seq<bool>, p: nat, bug: seq<T> -> bool, fixed: T -> bool) returns (next: seq<bool>)
    requires |m| == |s| && p < |m| && m[p]
    ensures Below(next, m) && next[p + 1..] == m[p + 1..] && (fixed(s[p]) || Needed(s, next, p, bug))
    ensures Rank(m, p) < |Sel(s, m)| && Rank(next, p + 1) <= |Sel(s, next)|
    ensures ForwardPass(Sel(s, m), Rank(m, p), bug, fixed) == ForwardPass(Sel(s, next), Rank(next, p + 1), bug, fixed)
  {
    SelHas(s, m, p);
    SelHas(s, m, p + 1);
    SelCut(s, m, p);
    var without := m[p := false];
    RankOfPrefix(m, without, p);
    SelHas(s, without, p);
    SelHas(s, without, p + 1);
    next := if !fixed(s[p]) && bug(Sel(s, without)) then without else m;
    BelowIsOrder(m, m, m);
  }

  lemma {:induction false} ForwardPassSelects<T>(s: seq<T>, m: seq<bool>, p: nat, bug: seq<T> -> bool, fixed: T -> bool)
    returns (m': seq<bool>)
    requires |m| == |s| && p <= |m| && forall k :: p <= k < |m| ==> m[k]
    requires forall k :: 0 <= k < p ==> fixed(s[k]) || Needed(s, m, k, bug)
    ensures |m'| == |s| && Rank(m, p) <= |Sel(s, m)|
    ensures ForwardPass(Sel(s, m), Rank(m, p), bug, fixed) == Sel(s, m')
    ensures forall k :: 0 <= k < |s| ==> fixed(s[k]) || Needed(s, m', k, bug)
    decreases |m| - p
  {
    SelHas(s, m, p);
    if p == |m| {
      m' := m;
    } else {
      var next := TryNext(s, m, p, bug, fixed);
      forall k | p + 1 <= k < |m| ensures next[k] {
        assert next[k] == next[p + 1..][k - p - 1] == m[p + 1..][k - p - 1];
      }
      forall k | 0 <= k < p ensures fixed(s[k]) || Needed(s, next, k, bug) {
        if !fixed(s[k]) { NeededInPart(s, m, next, k, bug); }
      }
      m' := ForwardPassSelects(s, next, p + 1, bug, fixed);
    }
  }

  /** If adding elements cannot hide the bug, a single pass forward already leaves a 1-minimal list. */
  lemma ForwardPassIsMinimal<T>(s: seq<T>, bug: seq<T> -> bool, fixed: T -> bool)
    requires UpwardClosed(s, bug)
    ensures OneMinimal(ForwardPass(s, 0, bug, fixed), bug, fixed)
  {
    var all := seq(|s|, _ => true);
    SelAll(s, all);
    var m := ForwardPassSelects(s, all, 0, bug, fixed);
    AllNeededIsMinimal(s, m, bug, fixed);
  }

  lemma {:induction false} ForwardPassShrinks<T>(s: seq<T>, j: nat, bug: seq<T> -> bool, fixed: T -> bool)
    requires j <= |s|
    ensures |ForwardPass(s, j, bug, fixed)| <= |s|
    ensures (exists k :: j <= k < |s| && !fixed(s[k]) && bug(Cut(s, k))) <==> |ForwardPass(s, j, bug, fixed)| < |s|
    decreases |s| - j
  {
    if j < |s| {
      if !fixed(s[j]) && bug(Cut(s, j)) {
        ForwardPassShrinks(Cut(s, j), j, bug, fixed);
      } else {
        ForwardPassShrinks(s, j + 1, bug, fixed);
      }
    }
  }

  // ---- one pass over the parts of a thing ----

  /** A pass over something of which numbered parts can be dropped. */
  function PartPass<A>(a: A, k: nat, num: nat, drop: (A, nat) -> A, test: A -> bool): A
    decreases num - k
  {
    if k >= num then a
    else if test(drop(a, k)) then PartPass(drop(a, k), k, num - 1, drop, test)
    else PartPass(a, k + 1, num, drop, test)
  }

  /** If what is left is determined by the list of parts, the pass is one over that list. */
  lemma {:induction false} PartPassIsForward<A, T(!new)>(s: seq<T>, k: nat, of: seq<T> -> A, ok: seq<T> -> bool,
                                                         drop: (A, nat) -> A, test: A -> bool,
                                                         bug: seq<T> -> bool, fixed: T -> bool) returns (left: seq<T>)
    requires k <= |s| && ok(s) && (forall x :: !fixed(x)) && forall r :: bug(r) == test(of(r))
    requires forall r, j: nat :: ok(r) && j < |r| ==> drop(of(r), j) == of(Cut(r, j)) && ok(Cut(r, j))
    ensures left == ForwardPass(s, k, bug, fixed) && ok(left)
    ensures PartPass(of(s), k, |s|, drop, test) == of(left)
    decreases |s| - k
  {
    if k == |s| {
      left := s;
    } else {
      assert drop(of(s), k) == of(Cut(s, k)) && ok(Cut(s, k));
      if bug(Cut(s, k)) {
        left := PartPassIsForward(Cut(s, k), k, of, ok, drop, test, bug, fixed);
      } else {
        left := PartPassIsForward(s, k + 1, of, ok, drop, test, bug, fixed);
      }
    }
  }
}
