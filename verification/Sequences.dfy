/** Facts about lists: dropping elements, taking a list apart. */
module Sequences {

  function Cut<T>(s: seq<T>, j: nat): (r: seq<T>)
    requires j < |s|
    ensures |r| == |s| - 1
    ensures forall k :: 0 <= k < |r| ==> r[k] == s[if k < j then k else k + 1]
  {
    s[..j] + s[j + 1..]
  }

  lemma InCut<T>(s: seq<T>, j: nat, k: nat) returns (k': nat)
    requires j < |s| && k < |s| && k != j
    ensures k' == (if k < j then k else k - 1) && k' < |Cut(s, j)| && Cut(s, j)[k'] == s[k]
  {
    k' := if k < j then k else k - 1;
  }

  lemma Assoc<T>(a: seq<T>, b: seq<T>, c: seq<T>)
    ensures (a + b) + c == a + (b + c)
  {
  }

  lemma SplitAt<T>(s: seq<T>, k: nat)
    requires k < |s|
    ensures s[..k + 1] == s[..k] + [s[k]] && s[..k + 1][..k] == s[..k]
    ensures s[k..] == [s[k]] + s[k + 1..] && s[k..][1..] == s[k + 1..]
    ensures s == s[..k + 1] + s[k + 1..]
  {
  }

  lemma CutAfter<T>(a: seq<T>, s: seq<T>, k: nat)
    requires k < |s|
    ensures Cut(a + s, |a| + k) == a + Cut(s, k)
  {
  }

  // ---- selections: the elements a mask keeps ----

  function Sel<T>(s: seq<T>, m: seq<bool>): seq<T>
    requires |m| == |s|
  {
    if s == [] then [] else (if m[0] then [s[0]] else []) + Sel(s[1..], m[1..])
  }

  /** How many elements before `p` are selected. */
  function Rank(m: seq<bool>, p: nat): (r: nat)
    requires p <= |m|
    ensures r <= p && ((forall j :: 0 <= j < p ==> m[j]) ==> r == p)
  {
    if p == 0 then 0 else (if m[0] then 1 else 0) + Rank(m[1..], p - 1)
  }

  lemma {:induction false} SelAll<T>(s: seq<T>, m: seq<bool>)
    requires |m| == |s| && forall j :: 0 <= j < |m| ==> m[j]
    ensures Sel(s, m) == s
  {
    if s != [] { SelAll(s[1..], m[1..]); }
  }

  lemma {:induction false} SelCut<T>(s: seq<T>, m: seq<bool>, p: nat)
    requires |m| == |s| && p < |m| && m[p]
    ensures Rank(m, p) < |Sel(s, m)| && Cut(Sel(s, m), Rank(m, p)) == Sel(s, m[p := false])
  {
    var n := m[p := false];
    if p == 0 {
      assert n[1..] == m[1..];
      assert Sel(s, m) == [s[0]] + Sel(s[1..], m[1..]);
      assert Sel(s, n) == Sel(s[1..], m[1..]);
    } else {
      SelCut(s[1..], m[1..], p - 1);
      assert n[1..] == m[1..][p - 1 := false];
      CutAfter(if m[0] then [s[0]] else [], Sel(s[1..], m[1..]), Rank(m[1..], p - 1));
    }
  }

  lemma {:induction false} SelAt<T>(s: seq<T>, m: seq<bool>, k: nat) returns (p: nat)
    requires |m| == |s| && k < |Sel(s, m)|
    ensures p < |m| && m[p] && Rank(m, p) == k
  {
    if m[0] && k == 0 {
      p := 0;
    } else {
      p := SelAt(s[1..], m[1..], if m[0] then k - 1 else k);
      p := p + 1;
    }
  }

  /** The element at `p`, if it is selected, stands after those selected before it. */
  lemma {:induction false} SelHas<T>(s: seq<T>, m: seq<bool>, p: nat)
    requires |m| == |s| && p <= |m|
    ensures Rank(m, p) <= |Sel(s, m)| && (p == |m| ==> Rank(m, p) == |Sel(s, m)|)
    ensures p < |m| && m[p] ==> Rank(m, p) < |Sel(s, m)| && Sel(s, m)[Rank(m, p)] == s[p]
    ensures p < |m| ==> Rank(m, p + 1) == Rank(m, p) + if m[p] then 1 else 0
  {
    if p > 0 { SelHas(s[1..], m[1..], p - 1); }
  }

  lemma {:induction false} RankOfPrefix(m: seq<bool>, n: seq<bool>, p: nat)
    requires |m| == |n| && p <= |m| && m[..p] == n[..p]
    ensures Rank(m, p) == Rank(n, p)
  {
    if p > 0 {
      assert m[0] == m[..p][0] == n[0];
      assert m[1..][..p - 1] == m[..p][1..] == n[1..][..p - 1];
      RankOfPrefix(m[1..], n[1..], p - 1);
    }
  }
}
