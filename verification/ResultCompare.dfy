/** Comparing the outputs of two runs: rows are hashed, the hashes of a statement sorted and compared. */
module ResultCompare {
  import opened Sequences

  type Byte = b: int | 0 <= b < 256
  type ByteString = seq<Byte>
  type OutputRow = seq<ByteString>

  const WRAP := 0x1_0000_0000_0000_0000

  type Hash = int                      // a size_t, 0 <= h < WRAP

  /** A `char` widened to `size_t`: it is signed, so bytes from 128 on are extended with ones. */
  function Widened(b: Byte): int { if b < 128 then b else WRAP - 256 + b }

  /** What a C string of the text is: up to the first NUL. */
  function CString(s: ByteString): ByteString {
    if s == [] || s[0] == 0 then [] else [s[0]] + CString(s[1..])
  }

  /** The hash without wrap-around. */
  function Polynomial(s: ByteString, start: int): int {
    if s == [] then start else Polynomial(s[..|s| - 1], start) * 131 + Widened(s[|s| - 1])
  }

  lemma {:induction false} PolynomialConcat(s: ByteString, t: ByteString, start: int)
    ensures Polynomial(s + t, start) == Polynomial(t, Polynomial(s, start))
    decreases |t|
  {
    if t == [] {
      assert s + t == s;
    } else {
      assert (s + t)[..|s + t| - 1] == s + t[..|t| - 1];
      PolynomialConcat(s, t[..|t| - 1], start);
    }
  }

  lemma StepWraps(x: int, y: int, c: int)
    requires x == y % WRAP
    ensures (x * 131 + c) % WRAP == (y * 131 + c) % WRAP
  {
    var q := y / WRAP;
    assert y == q * WRAP + x;
    MultipleWraps(x * 131 + c, q * 131);
  }

  lemma {:induction false} MultipleWraps(a: int, k: int)
    ensures (a + k * WRAP) % WRAP == a % WRAP
    decreases if k < 0 then -k else k
  {
    if k > 0 { MultipleWraps(a, k - 1); }
    if k < 0 { MultipleWraps(a, k + 1); }
  }

  /** The polynomial over the text up to its first NUL, modulo 2^64. */
  method BkdrHash(s: ByteString, start: Hash) returns (h: Hash)
    requires 0 <= start < WRAP
    ensures h == Polynomial(CString(s), start) % WRAP
  {
    h := start;
    var k := 0;
    assert s[0..] == s;
    while k < |s| && s[k] != 0
      invariant 0 <= k <= |s| && CString(s) == s[..k] + CString(s[k..])
      invariant h == Polynomial(s[..k], start) % WRAP
      decreases |s| - k
    {
      HashStep(s, start, k);
      h := (h * 131 + Widened(s[k])) % WRAP;
      k := k + 1;
    }
    assert CString(s[k..]) == [];
    assert CString(s) == s[..k];
  }

  lemma HashStep(s: ByteString, start: Hash, k: nat)
    requires k < |s| && s[k] != 0 && CString(s) == s[..k] + CString(s[k..])
    ensures CString(s) == s[..k + 1] + CString(s[k + 1..])
    ensures (Polynomial(s[..k], start) % WRAP * 131 + Widened(s[k])) % WRAP == Polynomial(s[..k + 1], start) % WRAP
  {
    SplitAt(s, k);
    StepWraps(Polynomial(s[..k], start) % WRAP, Polynomial(s[..k], start), Widened(s[k]));
    Assoc(s[..k], [s[k]], CString(s[k + 1..]));
  }

  /** The columns of a row, one after the other. */
  function Concatenated(row: OutputRow): ByteString {
    if row == [] then [] else Concatenated(row[..|row| - 1]) + CString(row[|row| - 1])
  }

  function RowHash(row: OutputRow): Hash { Polynomial(Concatenated(row), 0) % WRAP }

  method HashRow(row: OutputRow) returns (h: Hash)
    ensures h == RowHash(row)
  {
    h := 0;
    for j := 0 to |row|
      invariant h == RowHash(row[..j])
    {
      assert row[..j + 1][..j] == row[..j];
      PolynomialConcat(Concatenated(row[..j]), CString(row[j]), 0);
      PolynomialWraps(CString(row[j]), Polynomial(Concatenated(row[..j]), 0));
      h := BkdrHash(row[j], h);
    }
    assert row[..|row|] == row;
  }

  lemma {:induction false} PolynomialWraps(s: ByteString, start: int)
    ensures Polynomial(s, start % WRAP) % WRAP == Polynomial(s, start) % WRAP
  {
    if s != [] {
      var init := s[..|s| - 1];
      PolynomialWraps(init, start);
      StepWraps(Polynomial(init, start) % WRAP, Polynomial(init, start), Widened(s[|s| - 1]));
      StepWraps(Polynomial(init, start % WRAP) % WRAP, Polynomial(init, start % WRAP), Widened(s[|s| - 1]));
    }
  }

  // ---- sorted hashes ----

  predicate Ascending(s: seq<Hash>) { forall j, k :: 0 <= j < k < |s| ==> s[j] <= s[k] }

  method InsertSorted(s: seq<Hash>, h: Hash) returns (r: seq<Hash>)
    requires Ascending(s)
    ensures Ascending(r) && multiset(r) == multiset(s) + multiset{h}
  {
    var k := 0;
    while k < |s| && s[k] < h
      invariant 0 <= k <= |s| && forall j :: 0 <= j < k ==> s[j] < h
    {
      k := k + 1;
    }
    r := s[..k] + [h] + s[k..];
    Inserted(s, k, h);
  }

  lemma Inserted<T>(s: seq<T>, k: nat, x: T)
    requires k <= |s|
    ensures multiset(s[..k] + [x] + s[k..]) == multiset(s) + multiset{x}
  {
    assert s == s[..k] + s[k..];
  }

  /** Ascending lists of the same hashes are the same list. */
  lemma {:induction false} SortedOnce(s: seq<Hash>, t: seq<Hash>)
    requires Ascending(s) && Ascending(t) && multiset(s) == multiset(t)
    ensures s == t
  {
    SameLength(s, t);
    if s != [] {
      var n := |s| - 1;
      SameLast(s, t);
      SameInit(s, t);
      SortedOnce(s[..n], t[..n]);
      assert s == s[..n] + [s[n]] && t == t[..n] + [t[n]];
    }
  }

  lemma SortedIff(s: seq<Hash>, t: seq<Hash>)
    requires Ascending(s) && Ascending(t)
    ensures s == t <==> multiset(s) == multiset(t)
  {
    if multiset(s) == multiset(t) { SortedOnce(s, t); }
  }

  lemma SameLast(s: seq<Hash>, t: seq<Hash>)
    requires Ascending(s) && Ascending(t) && multiset(s) == multiset(t) && |s| == |t| > 0
    ensures s[|s| - 1] == t[|t| - 1]
  {
    assert s[|s| - 1] in multiset(t) && t[|t| - 1] in multiset(s);
    LargestIsLast(s, t[|t| - 1]);
    LargestIsLast(t, s[|s| - 1]);
  }

  lemma SameInit(s: seq<Hash>, t: seq<Hash>)
    requires multiset(s) == multiset(t) && |s| == |t| > 0 && s[|s| - 1] == t[|t| - 1]
    ensures multiset(s[..|s| - 1]) == multiset(t[..|t| - 1])
  {
    WithoutLast(s);
    WithoutLast(t);
  }

  lemma WithoutLast(s: seq<Hash>)
    requires s != []
    ensures multiset(s[..|s| - 1]) == multiset(s) - multiset{s[|s| - 1]}
  {
    assert s == s[..|s| - 1] + [s[|s| - 1]];
  }

  lemma SameLength(s: seq<Hash>, t: seq<Hash>)
    requires multiset(s) == multiset(t)
    ensures |s| == |t|
  {
    assert |multiset(s)| == |multiset(t)|;
  }

  lemma LargestIsLast(s: seq<Hash>, h: Hash)
    requires Ascending(s) && h in multiset(s)
    ensures s != [] && h <= s[|s| - 1]
  {
  }

  ghost function Hashes(rows: seq<OutputRow>): multiset<Hash> {
    if rows == [] then multiset{} else Hashes(rows[..|rows| - 1]) + multiset{RowHash(rows[|rows| - 1])}
  }

  method HashOutputToSet(rows: seq<OutputRow>) returns (hashes: seq<Hash>)
    ensures Ascending(hashes) && multiset(hashes) == Hashes(rows)
  {
    hashes := [];
    for i := 0 to |rows|
      invariant Ascending(hashes) && multiset(hashes) == Hashes(rows[..i])
    {
      assert rows[..i + 1][..i] == rows[..i];
      var h := HashRow(rows[i]);
      hashes := InsertSorted(hashes, h);
    }
    assert rows[..|rows|] == rows;
  }

  // ---- normalised output ----

  predicate IsDigit(b: Byte) { 48 <= b <= 57 }

  predicate AllDigitsOrPoints(s: ByteString) { forall k :: 0 <= k < |s| ==> IsDigit(s[k]) || s[k] == 46 }

  function Points(s: ByteString): nat {
    if s == [] then 0 else Points(s[..|s| - 1]) + if s[|s| - 1] == 46 then 1 else 0
  }

  /** An unsigned decimal numeral: digits with at most one point, and some digit. */
  predicate Numeral(s: ByteString) {
    AllDigitsOrPoints(s) && Points(s) <= 1 && exists k :: 0 <= k < |s| && IsDigit(s[k])
  }

  /** What is_number accepts: a numeral, or a sign before a numeral that starts with a digit. */
  predicate Number(s: ByteString) {
    Numeral(s) || (|s| > 1 && s[0] in [43, 45] && IsDigit(s[1]) && Numeral(s[1..]))
  }

  lemma {:induction false} NoPoints(s: ByteString)
    requires AllDigitsOrPoints(s) && Points(s) == 0
    ensures forall k :: 0 <= k < |s| ==> IsDigit(s[k])
  {
    if s != [] { NoPoints(s[..|s| - 1]); }
  }

  lemma PointsNext(s: ByteString, from: nat, i: nat)
    requires from <= i < |s|
    ensures s[from..i + 1] == s[from..i] + [s[i]]
    ensures Points(s[from..i + 1]) == Points(s[from..i]) + if s[i] == 46 then 1 else 0
  {
    var t := s[from..i + 1];
    assert t[..|t| - 1] == s[from..i];
  }

  lemma IsNumberFinds(s: ByteString)
    requires |s| > 1 && AllDigitsOrPoints(s[1..]) && Points(s) <= 1
    requires Points(s) == Points(s[1..]) + if s[0] == 46 then 1 else 0
    requires s[0] == 46 || IsDigit(s[0]) || (s[0] in [43, 45] && IsDigit(s[1]))
    ensures Number(s)
  {
    var t := s[1..];
    if s[0] in [43, 45] {
      assert IsDigit(t[0]);
    } else {
      assert forall k :: 1 <= k < |s| ==> s[k] == t[k - 1];
      if s[0] == 46 {
        NoPoints(t);
        assert IsDigit(s[1]);
      }
      assert Numeral(s);
    }
  }

  method IsNumber(s: ByteString) returns (number: bool)
    ensures number <==> Number(s)
  {
    if s == [] { return false; }
    if |s| == 1 {
      assert IsDigit(s[0]) ==> Points(s) == 0;
      return IsDigit(s[0]);
    }
    if s[0] != 46 && !IsDigit(s[0]) && s[0] != 45 && s[0] != 43 { return false; }
    if (s[0] == 43 || s[0] == 45) && !IsDigit(s[1]) { return false; }
    var ok, point := RestIsDigits(s);
    if !ok { return false; }
    if s[0] == 46 { point := point + 1; }
    PointsFirst(s);
    if point > 1 { return false; }
    number := true;
    IsNumberFinds(s);
  }

  /** The bytes after the first: digits and points, which are counted. */
  method RestIsDigits(s: ByteString) returns (ok: bool, point: nat)
    requires |s| > 1
    ensures ok <==> AllDigitsOrPoints(s[1..])
    ensures ok ==> point == Points(s[1..])
  {
    point := 0;
    for i := 1 to |s|
      invariant AllDigitsOrPoints(s[1..i]) && point == Points(s[1..i])
    {
      PointsNext(s, 1, i);
      if s[i] != 46 && !IsDigit(s[i]) {
        assert s[1..][i - 1] == s[i];
        return false, point;
      }
      if s[i] == 46 { point := point + 1; }
    }
    assert s[1..|s|] == s[1..];
    ok := true;
  }

  lemma {:induction false} PointsFirst(s: ByteString)
    requires s != []
    ensures Points(s) == Points(s[1..]) + if s[0] == 46 then 1 else 0
  {
    if |s| > 1 {
      PointsFirst(s[..|s| - 1]);
      assert s[..|s| - 1][1..] == s[1..][..|s| - 2];
    } else {
      assert s[..0] == [] && s[1..] == [];
    }
  }

  /** The contents of a float in the output are rounded; how is left open. */
  type Rounding = ByteString -> ByteString

  predicate IsFloat(s: ByteString) { Number(s) && 46 in s }

  function NormalText(s: ByteString, round: Rounding): ByteString { if IsFloat(s) then round(s) else s }

  function NormalRow(row: OutputRow, round: Rounding): OutputRow {
    seq(|row|, j requires 0 <= j < |row| => NormalText(row[j], round))
  }

  function NormalRows(rows: seq<OutputRow>, round: Rounding): seq<OutputRow> {
    seq(|rows|, i requires 0 <= i < |rows| => NormalRow(rows[i], round))
  }

  method NormalizeRow(row: OutputRow, round: Rounding) returns (r: OutputRow)
    ensures r == NormalRow(row, round)
  {
    r := row;
    for j := 0 to |row|
      invariant |r| == |row|
      invariant forall k :: 0 <= k < |row| ==> r[k] == if k < j then NormalText(row[k], round) else row[k]
    {
      var number := IsNumber(row[j]);
      if number && 46 in row[j] { r := r[j := round(row[j])]; }
    }
  }

  method NormalizeContent(rows: seq<OutputRow>, round: Rounding) returns (r: seq<OutputRow>)
    ensures r == NormalRows(rows, round)
  {
    r := rows;
    for i := 0 to |rows|
      invariant |r| == |rows|
      invariant forall k :: 0 <= k < |rows| ==> r[k] == if k < i then NormalRow(rows[k], round) else rows[k]
    {
      var row := NormalizeRow(rows[i], round);
      r := r[i := row];
    }
  }

  /** The outputs of two statements agree: the same row hashes, each as often. */
  ghost predicate SameRows(a: seq<OutputRow>, b: seq<OutputRow>, round: Rounding) {
    Hashes(NormalRows(a, round)) == Hashes(NormalRows(b, round))
  }

  ghost predicate Same(a: seq<seq<OutputRow>>, b: seq<seq<OutputRow>>, round: Rounding) {
    |a| == |b| && forall i :: 0 <= i < |a| ==> SameRows(a[i], b[i], round)
  }

  method CompareStmt(a: seq<OutputRow>, b: seq<OutputRow>, round: Rounding) returns (same: bool)
    ensures same <==> SameRows(a, b, round)
  {
    var aRows := NormalizeContent(a, round);
    var bRows := NormalizeContent(b, round);
    var aSet := HashOutputToSet(aRows);
    var bSet := HashOutputToSet(bRows);
    SortedIff(aSet, bSet);
    same := SameHashes(aSet, bSet);
  }

  method SameHashes(a: seq<Hash>, b: seq<Hash>) returns (same: bool)
    ensures same <==> a == b
  {
    if |a| != |b| { return false; }
    for j := 0 to |a|
      invariant forall k :: 0 <= k < j ==> a[k] == b[k]
    {
      if a[j] != b[j] { return false; }
    }
    same := true;
  }

  method CompareOutput(a: seq<seq<OutputRow>>, b: seq<seq<OutputRow>>, round: Rounding) returns (same: bool)
    ensures same <==> Same(a, b, round)
  {
    if |a| != |b| { return false; }
    for i := 0 to |a|
      invariant forall k :: 0 <= k < i ==> SameRows(a[k], b[k], round)
    {
      var ok := CompareStmt(a[i], b[i], round);
      if !ok { return false; }
    }
    same := true;
  }

  // ---- what is compared ----

  lemma {:induction false} HashesConcat(a: seq<OutputRow>, b: seq<OutputRow>)
    ensures Hashes(a + b) == Hashes(a) + Hashes(b)
    decreases |b|
  {
    if b == [] {
      assert a + b == a;
    } else {
      assert (a + b)[..|a + b| - 1] == a + b[..|b| - 1];
      HashesConcat(a, b[..|b| - 1]);
    }
  }

  /** The order of the rows does not matter. */
  lemma {:induction false} OrderIsIgnored(a: seq<OutputRow>, b: seq<OutputRow>, round: Rounding)
    requires multiset(a) == multiset(b)
    ensures SameRows(a, b, round)
  {
    if a == [] {
      assert |multiset(b)| == 0;
    } else {
      var n := |a| - 1;
      var k := Partner(a, b);
      RestOfRows(a, b, k);
      OrderIsIgnored(a[..n], b[..k] + b[k + 1..], round);
      NormalHashesPick(a, n, round);
      assert a[..n] + a[n + 1..] == a[..n];
      NormalHashesPick(b, k, round);
    }
  }

  lemma Partner(a: seq<OutputRow>, b: seq<OutputRow>) returns (k: nat)
    requires a != [] && multiset(a) == multiset(b)
    ensures k < |b| && b[k] == a[|a| - 1]
  {
    assert a[|a| - 1] in multiset(b);
    k :| 0 <= k < |b| && b[k] == a[|a| - 1];
  }

  lemma NormalHashesPick(b: seq<OutputRow>, k: nat, round: Rounding)
    requires k < |b|
    ensures Hashes(NormalRows(b, round)) ==
      Hashes(NormalRows(b[..k] + b[k + 1..], round)) + multiset{RowHash(NormalRow(b[k], round))}
  {
    var normal := NormalRows(b, round);
    HashesPick(normal, k);
    assert normal[..k] + normal[k + 1..] == NormalRows(b[..k] + b[k + 1..], round);
  }

  lemma RestOfRows(a: seq<OutputRow>, b: seq<OutputRow>, k: nat)
    requires a != [] && k < |b| && b[k] == a[|a| - 1] && multiset(a) == multiset(b)
    ensures multiset(a[..|a| - 1]) == multiset(b[..k] + b[k + 1..])
  {
    var init, rest := a[..|a| - 1], b[..k] + b[k + 1..];
    assert a == init + [b[k]];
    Inserted(rest, k, b[k]);
    assert rest[..k] == b[..k] && rest[k..] == b[k + 1..];
    assert b == rest[..k] + [b[k]] + rest[k..];
    Cancel(multiset(init), multiset(rest), b[k]);
  }

  lemma Cancel<T>(m: multiset<T>, n: multiset<T>, x: T)
    requires m + multiset{x} == n + multiset{x}
    ensures m == n
  {
    assert m == m + multiset{x} - multiset{x};
    assert n == n + multiset{x} - multiset{x};
  }

  lemma HashesPick(b: seq<OutputRow>, k: nat)
    requires k < |b|
    ensures Hashes(b) == Hashes(b[..k] + b[k + 1..]) + multiset{RowHash(b[k])}
  {
    SplitAt(b, k);
    HashesConcat(b[..k + 1], b[k + 1..]);
    HashesConcat(b[..k], b[k + 1..]);
  }

  /** Only the columns joined count: moving text from one column to the next is not noticed. */
  lemma ColumnSplitIsIgnored(s: ByteString, t: ByteString, u: ByteString, v: ByteString)
    requires CString(s) + CString(t) == CString(u) + CString(v)
    ensures RowHash([s, t]) == RowHash([u, v])
  {
    ConcatenatedPair(s, t);
    ConcatenatedPair(u, v);
  }

  lemma ConcatenatedPair(s: ByteString, t: ByteString)
    ensures Concatenated([s, t]) == CString(s) + CString(t)
  {
    assert [s, t][..1] == [s] && [s][..0] == [];
    assert Concatenated([s]) == Concatenated([]) + CString(s) == CString(s);
  }

  // ---- what the hashes tell apart ----

  /** 131 is odd, so it has an inverse modulo 2^64 and a step of the hash loses nothing. */
  const INVERSE := 281629680514649643

  lemma StepTellsApart(x: int, y: int, c: int)
    requires (x * 131 + c) % WRAP == (y * 131 + c) % WRAP
    ensures x % WRAP == y % WRAP
  {
    var m := (x * 131 + c) / WRAP - (y * 131 + c) / WRAP;
    assert 131 * (x - y) == m * WRAP;
    assert 131 * INVERSE == 2 * WRAP + 1;
    assert x == y + (INVERSE * m - 2 * (x - y)) * WRAP;
    MultipleWraps(y, INVERSE * m - 2 * (x - y));
  }

  lemma {:induction false} TailTellsApart(t: ByteString, x: int, y: int)
    requires Polynomial(t, x) % WRAP == Polynomial(t, y) % WRAP
    ensures x % WRAP == y % WRAP
  {
    if t != [] {
      var init := t[..|t| - 1];
      StepTellsApart(Polynomial(init, x), Polynomial(init, y), Widened(t[|t| - 1]));
      TailTellsApart(init, x, y);
    }
  }

  lemma BytesTellApart(x: int, b: Byte, c: Byte)
    requires b != c
    ensures (x * 131 + Widened(b)) % WRAP != (x * 131 + Widened(c)) % WRAP
  {
    var lo, hi := if Widened(b) < Widened(c) then b else c, if Widened(b) < Widened(c) then c else b;
    var u, v := x * 131 + Widened(lo), x * 131 + Widened(hi);
    assert 0 < v - u < WRAP;
    NotAMultiple(u, v);
  }

  lemma NotAMultiple(u: int, v: int)
    requires 0 < v - u < WRAP
    ensures u % WRAP != v % WRAP
  {
    assert u == u / WRAP * WRAP + u % WRAP && v == v / WRAP * WRAP + v % WRAP;
  }

  /** The hash of a text in terms of one of its bytes. */
  lemma HashAround(p: ByteString, b: Byte, t: ByteString)
    ensures Polynomial(p + [b] + t, 0) == Polynomial(t, Polynomial(p, 0) * 131 + Widened(b))
  {
    PolynomialConcat(p + [b], t, 0);
    PolynomialSnoc(p, b);
  }

  lemma PolynomialSnoc(p: ByteString, b: Byte)
    ensures Polynomial(p + [b], 0) == Polynomial(p, 0) * 131 + Widened(b)
  {
    assert (p + [b])[..|p + [b]| - 1] == p;
  }

  /** Two rows whose joined texts differ in exactly one byte have different hashes. */
  lemma OneByteTellsApart(r: OutputRow, s: OutputRow, k: nat)
    requires k < |Concatenated(r)| == |Concatenated(s)| && Concatenated(r)[k] != Concatenated(s)[k]
    requires forall j :: 0 <= j < |Concatenated(r)| && j != k ==> Concatenated(r)[j] == Concatenated(s)[j]
    ensures RowHash(r) != RowHash(s)
  {
    var a, b := Concatenated(r), Concatenated(s);
    var p, t := a[..k], a[k + 1..];
    assert p == b[..k] && t == b[k + 1..];
    SplitAt(a, k);
    SplitAt(b, k);
    DifferentHashes(p, a[k], b[k], t);
  }

  lemma DifferentHashes(p: ByteString, b: Byte, c: Byte, t: ByteString)
    requires b != c
    ensures Polynomial(p + [b] + t, 0) % WRAP != Polynomial(p + [c] + t, 0) % WRAP
  {
    var x := Polynomial(p, 0);
    HashAround(p, b, t);
    HashAround(p, c, t);
    BytesTellApart(x, b, c);
    if Polynomial(t, x * 131 + Widened(b)) % WRAP == Polynomial(t, x * 131 + Widened(c)) % WRAP {
      TailTellsApart(t, x * 131 + Widened(b), x * 131 + Widened(c));
    }
  }

  lemma JoinedOne(s: ByteString)
    requires 0 !in s
    ensures Concatenated([s]) == s
  {
    NoNul(s);
    assert [s][..0] == [] && Concatenated([s]) == Concatenated([]) + CString(s);
  }

  lemma {:induction false} NoNul(s: ByteString)
    requires 0 !in s
    ensures CString(s) == s
  {
    if s != [] {
      assert s[0] in s;
      NoNul(s[1..]);
    }
  }

  /** One byte hashes to its value, from 128 on extended with ones: it was a signed char. */
  lemma OneByteHash(b: Byte)
    requires b != 0
    ensures RowHash([[b]]) == if b < 128 then b else 0x1_0000_0000_0000_0000 - 256 + b
  {
    JoinedOne([b]);
    assert [b][..0] == [] && Polynomial([], 0) == 0;
  }

  /** Every further byte is added to 131 times what came before. */
  lemma TwoByteHash(a: Byte, b: Byte)
    requires 0 < a < 128 && 0 < b < 128
    ensures RowHash([[a, b]]) == 131 * a + b
  {
    JoinedOne([a, b]);
    assert [a, b][..1] == [a] && [a][..0] == [];
    assert Polynomial([a], 0) == a;
  }

  /** What stands after a NUL is not hashed. */
  lemma {:induction false} NulEndsText(s: ByteString, t: ByteString)
    requires 0 !in s
    ensures RowHash([s + [0] + t]) == RowHash([s])
  {
    NulCuts(s, t);
    NoNul(s);
    var u: ByteString := s + [0] + t;
    assert [u][..0] == [] && [s][..0] == [];
    assert Concatenated([u]) == Concatenated([]) + CString(u);
    assert Concatenated([s]) == Concatenated([]) + CString(s);
  }

  lemma {:induction false} NulCuts(s: ByteString, t: ByteString)
    requires 0 !in s
    ensures CString(s + [0] + t) == s
  {
    var u := s + [0] + t;
    if s != [] {
      assert s[0] in s && u[0] == s[0] && u[1..] == s[1..] + [0] + t;
      NulCuts(s[1..], t);
    }
  }

  /** A text without a point, or with a byte no number has, stays as it is; digits with one point among
      them are rounded. */
  lemma RoundedOnlyWithPoint(s: ByteString, round: Rounding)
    ensures 46 !in s ==> NormalText(s, round) == s
    ensures (exists k :: 0 < k < |s| && s[k] != 46 && !(48 <= s[k] <= 57)) ==> NormalText(s, round) == s
  {
    if k :| 0 < k < |s| && s[k] != 46 && !(48 <= s[k] <= 57) {
      assert !(IsDigit(s[k]) || s[k] == 46);
      if |s| > 1 { assert s[1..][k - 1] == s[k]; }
    }
  }

  lemma DecimalIsRounded(a: ByteString, b: ByteString, round: Rounding)
    requires a != [] && (forall k :: 0 <= k < |a| ==> 48 <= a[k] <= 57) && forall k :: 0 <= k < |b| ==> 48 <= b[k] <= 57
    ensures NormalText(a + [46] + b, round) == round(a + [46] + b)
  {
    var s := a + [46] + b;
    PointsOfDigits(a);
    PointsOfDigits(b);
    PointsConcat(a, [46]);
    PointsConcat(a + [46], b);
    assert [46][..0] == [] && Points([46]) == 1;
    assert IsDigit(s[0]) && s[|a|] == 46;
  }

  lemma {:induction false} PointsOfDigits(s: ByteString)
    requires forall k :: 0 <= k < |s| ==> 48 <= s[k] <= 57
    ensures Points(s) == 0
  {
    if s != [] { PointsOfDigits(s[..|s| - 1]); }
  }

  lemma {:induction false} PointsConcat(s: ByteString, t: ByteString)
    ensures Points(s + t) == Points(s) + Points(t)
    decreases |t|
  {
    if t == [] {
      assert s + t == s;
    } else {
      assert (s + t)[..|s + t| - 1] == s + t[..|t| - 1];
      PointsConcat(s, t[..|t| - 1]);
    }
  }

  /** So the comparison fails on two outputs of one row each, when the rows differ in one byte after they
      were normalised. */
  lemma OneByteIsSeen(r: OutputRow, s: OutputRow, k: nat, round: Rounding)
    requires var a, b := Concatenated(NormalRow(r, round)), Concatenated(NormalRow(s, round));
             k < |a| == |b| && a[k] != b[k] && forall j :: 0 <= j < |a| && j != k ==> a[j] == b[j]
    ensures !Same([[r]], [[s]], round)
  {
    OneByteTellsApart(NormalRow(r, round), NormalRow(s, round), k);
    OneRowHash(r, round);
    OneRowHash(s, round);
    assert RowHash(NormalRow(r, round)) in Hashes(NormalRows([r], round));
    assert RowHash(NormalRow(r, round)) !in Hashes(NormalRows([s], round));
    assert !SameRows([[r]][0], [[s]][0], round);
  }

  lemma OneRowHash(r: OutputRow, round: Rounding)
    ensures Hashes(NormalRows([r], round)) == multiset{RowHash(NormalRow(r, round))}
  {
    var rows := NormalRows([r], round);
    assert rows == [NormalRow(r, round)] && rows[..0] == [];
  }

  /** The outputs "1" and "2" differ. */
  lemma OneIsNotTwo(round: Rounding)
    ensures !Same([[[[49]]]], [[[[50]]]], round)
  {
    RoundedOnlyWithPoint([49], round);
    RoundedOnlyWithPoint([50], round);
    assert NormalRow([[49]], round) == [[49]] && NormalRow([[50]], round) == [[50]];
    JoinedOne([49]);
    JoinedOne([50]);
    OneByteIsSeen([[49]], [[50]], 0, round);
  }

  /** Outputs that compare as equal have as many statements, and each of them as many rows. */
  lemma SameSizes(a: seq<seq<OutputRow>>, b: seq<seq<OutputRow>>, round: Rounding)
    requires Same(a, b, round)
    ensures |a| == |b| && forall i :: 0 <= i < |a| ==> |a[i]| == |b[i]|
  {
    forall i | 0 <= i < |a| ensures |a[i]| == |b[i]| {
      assert SameRows(a[i], b[i], round);
      AsManyHashes(NormalRows(a[i], round));
      AsManyHashes(NormalRows(b[i], round));
    }
  }

  lemma {:induction false} AsManyHashes(rows: seq<OutputRow>)
    ensures |Hashes(rows)| == |rows|
  {
    if rows != [] { AsManyHashes(rows[..|rows| - 1]); }
  }
}
