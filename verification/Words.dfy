/** `extract_words_begin_with`: the table names in the text of a statement. */
module Words {

  predicate Occurs(str: string, begin: string, p: int) {
    0 <= p && p + |begin| <= |str| && str[p..p + |begin|] == begin
  }

  /** What may stand before a word, and what ends one. */
  predicate Opens(c: char) { c == '(' || c == ' ' || c == '\n' }

  predicate Ends(c: char) { c == ')' || c == '.' || c == ' ' || c == '\n' || c == ';' }

  predicate Starts(str: string, begin: string, p: int) {
    Occurs(str, begin, p) && (p == 0 || Opens(str[p - 1]))
  }

  /** What the scanner needs of the prefix: not empty, and no delimiter first. */
  predicate IsPrefix(begin: string) { begin != [] && !Ends(begin[0]) && !Opens(begin[0]) }

  /** The end of the word that starts at `p`. */
  function EndOf(str: string, p: nat): (q: nat)
    requires p < |str|
    ensures p < q <= |str| && (q < |str| ==> Ends(str[q])) && forall k :: p < k < q ==> !Ends(str[k])
    decreases |str| - p
  {
    if p + 1 == |str| || Ends(str[p + 1]) then p + 1 else EndOf(str, p + 1)
  }

  function Word(str: string, p: nat): string
    requires p < |str|
  {
    str[p..EndOf(str, p)]
  }

  /** A word starts at `p`, and no word that starts earlier is still going on. */
  predicate First(str: string, begin: string, p: int) {
    0 <= p < |str| && Starts(str, begin, p) && forall o :: 0 <= o < p && Starts(str, begin, o) ==> EndOf(str, o) <= p
  }

  // ---- ascending lists of words ----

  predicate Less(a: string, b: string) {
    b != [] && (a == [] || a[0] < b[0] || (a[0] == b[0] && Less(a[1..], b[1..])))
  }

  lemma {:induction false} LessIsOrder(a: string, b: string, c: string)
    ensures Less(a, b) ==> a != b
    ensures Less(a, b) && Less(b, c) ==> Less(a, c)
    ensures Less(a, b) || Less(b, a) || a == b
  {
    if a != [] && b != [] {
      LessIsOrder(a[1..], b[1..], if c == [] then [] else c[1..]);
      assert a == [a[0]] + a[1..] && b == [b[0]] + b[1..];
    }
  }

  predicate Ascending(s: seq<string>) { forall j, k :: 0 <= j < k < |s| ==> Less(s[j], s[k]) }

  /** std::set::insert. */
  function Insert(s: seq<string>, w: string): seq<string> {
    if s == [] then [w]
    else if w == s[0] then s
    else if Less(w, s[0]) then [w] + s
    else [s[0]] + Insert(s[1..], w)
  }

  lemma {:induction false} InsertHolds(s: seq<string>, w: string, x: string)
    ensures x in Insert(s, w) <==> x in s || x == w
  {
    if s != [] && w != s[0] && !Less(w, s[0]) { InsertHolds(s[1..], w, x); }
  }

  lemma {:induction false} InsertAscends(s: seq<string>, w: string)
    requires Ascending(s)
    ensures Ascending(Insert(s, w))
  {
    if s != [] && w != s[0] {
      LessIsOrder(w, s[0], []);
      if Less(w, s[0]) {
        forall k | 0 <= k < |s| ensures Less(w, s[k]) { LessIsOrder(w, s[0], s[k]); }
      } else {
        var rest := Insert(s[1..], w);
        InsertAscends(s[1..], w);
        forall k | 0 <= k < |rest| ensures Less(s[0], rest[k]) {
          InsertHolds(s[1..], w, rest[k]);
          assert rest[k] in rest;
        }
      }
    }
  }

  // ---- what the scanner finds ----

  /** The words that start first, among the first `n` positions. */
  function FirstWords(str: string, begin: string, n: nat): seq<string>
    requires n <= |str|
  {
    if n == 0 then []
    else if First(str, begin, n - 1) then Insert(FirstWords(str, begin, n - 1), Word(str, n - 1))
    else FirstWords(str, begin, n - 1)
  }

  lemma {:induction false} FirstWordsAre(str: string, begin: string, n: nat, w: string)
    requires n <= |str|
    ensures Ascending(FirstWords(str, begin, n))
    ensures w in FirstWords(str, begin, n) <==> exists p :: 0 <= p < n && First(str, begin, p) && w == Word(str, p)
  {
    if n > 0 {
      FirstWordsAre(str, begin, n - 1, w);
      var before := FirstWords(str, begin, n - 1);
      if First(str, begin, n - 1) {
        InsertAscends(before, Word(str, n - 1));
        InsertHolds(before, Word(str, n - 1), w);
      }
    }
  }

  lemma {:induction false} NoneBetween(str: string, begin: string, m: nat, n: nat)
    requires m <= n <= |str| && forall p {:trigger First(str, begin, p)} :: m <= p < n ==> !First(str, begin, p)
    ensures FirstWords(str, begin, n) == FirstWords(str, begin, m)
    decreases n
  {
    if m < n { NoneBetween(str, begin, m, n - 1); }
  }

  /** The words in the text of a statement, as the scanner returns them. */
  function Scanned(str: string, begin: string): seq<string> { FirstWords(str, begin, |str|) }

  /** std::string::find: the first occurrence from `from` on, -1 if there is none. */
  function NextOccurrence(str: string, begin: string, from: nat): (p: int)
    ensures p == -1 || (from <= p && Occurs(str, begin, p))
    ensures forall k :: from <= k && (p == -1 || k < p) ==> !Occurs(str, begin, k)
    decreases |str| - from
  {
    if from + |begin| > |str| then -1
    else if str[from..from + |begin|] == begin then from
    else if from >= |str| then -1
    else NextOccurrence(str, begin, from + 1)
  }

  /** No word that starts before `p` is still going on there. */
  ghost predicate Clear(str: string, begin: string, p: int) {
    forall o {:trigger Starts(str, begin, o)} :: 0 <= o < p && o < |str| && Starts(str, begin, o) ==> EndOf(str, o) <= p
  }

  method IntervalEnd(str: string, pos: nat) returns (q: nat)
    requires pos < |str|
    ensures q == EndOf(str, pos)
  {
    q := pos + 1;
    while q < |str| && !Ends(str[q])
      invariant pos < q <= |str| && forall k :: pos < k < q ==> !Ends(str[k])
    {
      q := q + 1;
    }
    SameEnd(str, pos, q);
  }

  lemma SameEnd(str: string, p: nat, q: nat)
    requires p < q <= |str| && (q < |str| ==> Ends(str[q])) && forall k :: p < k < q ==> !Ends(str[k])
    ensures EndOf(str, p) == q
  {
  }

  /** The scanner has done its work up to `p`. */
  ghost predicate Done(str: string, begin: string, words: seq<string>, p: int) {
    if p == -1 then words == Scanned(str, begin)
    else 0 <= p <= |str| && Clear(str, begin, p) && words == FirstWords(str, begin, p)
  }

  /** The scanner finds exactly the words that start first. */
  method ExtractWordsBeginWith(str: string, begin: string) returns (words: seq<string>)
    requires IsPrefix(begin)
    ensures words == Scanned(str, begin)
  {
    words := [];
    var pos := NextOccurrence(str, begin, 0);
    SkipTo(str, begin, words, 0, pos);
    while pos != -1
      invariant pos == -1 || (pos < |str| && Occurs(str, begin, pos))
      invariant Done(str, begin, words, pos)
      decreases if pos == -1 then 0 else |str| - pos
    {
      var from;
      words, from := TakeOrSkip(str, begin, words, pos);
      pos := NextOccurrence(str, begin, from);
      SkipTo(str, begin, words, from, pos);
    }
  }

  /** At an occurrence: a word is taken if one starts here; the scan goes on at `from`, where at the end
      of the text it finds nothing more. */
  method TakeOrSkip(str: string, begin: string, words: seq<string>, pos: nat) returns (more: seq<string>, from: nat)
    requires IsPrefix(begin) && pos < |str| && Occurs(str, begin, pos) && Done(str, begin, words, pos)
    ensures pos < from <= |str| && Done(str, begin, more, from)
  {
    if pos >= 1 && !Opens(str[pos - 1]) {
      NotAStart(str, begin, words, pos);
      return words, pos + 1;
    }
    var end := IntervalEnd(str, pos);
    TakeWord(str, begin, words, pos);
    more := Insert(words, Word(str, pos));
    from := if end == |str| then end else end + 1;
  }

  /** Nothing starts between `from` and the next occurrence. */
  lemma SkipTo(str: string, begin: string, words: seq<string>, from: nat, pos: int)
    requires begin != [] && pos == NextOccurrence(str, begin, from) && Done(str, begin, words, from)
    ensures pos == -1 || pos < |str|
    ensures Done(str, begin, words, pos)
  {
    var to := if pos == -1 then |str| else pos;
    NoneBetween(str, begin, from, to);
  }

  lemma NotAStart(str: string, begin: string, words: seq<string>, pos: nat)
    requires pos < |str| && !Starts(str, begin, pos) && Done(str, begin, words, pos)
    ensures Done(str, begin, words, pos + 1)
  {
  }

  /** The word at `pos` is taken; the words that start inside it are not first. */
  lemma TakeWord(str: string, begin: string, words: seq<string>, pos: nat)
    requires IsPrefix(begin) && pos < |str| && Starts(str, begin, pos) && Done(str, begin, words, pos)
    ensures var end := EndOf(str, pos);
            Done(str, begin, Insert(words, Word(str, pos)), if end < |str| then end + 1 else |str|)
  {
    TakenFirst(str, begin, pos);
    ClearAfter(str, begin, pos);
    NoneInside(str, begin, pos);
  }

  lemma NoneInside(str: string, begin: string, pos: nat)
    requires IsPrefix(begin) && pos < |str| && Starts(str, begin, pos)
    ensures var end := EndOf(str, pos);
            FirstWords(str, begin, if end < |str| then end + 1 else |str|) == FirstWords(str, begin, pos + 1)
  {
    var end := EndOf(str, pos);
    InsideWord(str, begin, pos);
    NoneBetween(str, begin, pos + 1, if end < |str| then end + 1 else |str|);
  }

  lemma TakenFirst(str: string, begin: string, pos: nat)
    requires pos < |str| && Starts(str, begin, pos) && Clear(str, begin, pos)
    ensures FirstWords(str, begin, pos + 1) == Insert(FirstWords(str, begin, pos), Word(str, pos))
  {
    assert First(str, begin, pos);
  }

  lemma InsideWord(str: string, begin: string, pos: nat)
    requires IsPrefix(begin) && pos < |str| && Starts(str, begin, pos)
    ensures forall p {:trigger First(str, begin, p)} :: pos < p <= EndOf(str, pos) ==> !First(str, begin, p)
  {
    var end := EndOf(str, pos);
    if end < |str| { NotAt(str, begin, end); }
  }

  lemma ClearAfter(str: string, begin: string, pos: nat)
    requires IsPrefix(begin) && pos < |str| && Starts(str, begin, pos) && Clear(str, begin, pos)
    ensures Clear(str, begin, EndOf(str, pos) + 1) && Clear(str, begin, EndOf(str, pos))
  {
    var end := EndOf(str, pos);
    if end < |str| { NotAt(str, begin, end); }
    forall o | pos < o < end && Starts(str, begin, o) ensures EndOf(str, o) == end {
      SameEnd(str, o, end);
    }
  }

  lemma NotAt(str: string, begin: string, end: nat)
    requires IsPrefix(begin) && end < |str| && Ends(str[end])
    ensures !Occurs(str, begin, end)
  {
    if end + |begin| <= |str| { assert str[end..end + |begin|][0] == str[end]; }
  }

  // ---- which words are missed ----

  /** A start that is not first follows a parenthesis inside a word that is taken, and ends with it. */
  lemma {:induction false} LaterStart(str: string, begin: string, p: nat) returns (o: nat)
    requires IsPrefix(begin) && p < |str| && Starts(str, begin, p) && !First(str, begin, p)
    ensures o < p && First(str, begin, o) && EndOf(str, o) == EndOf(str, p) > p && str[p - 1] == '('
    decreases p
  {
    o :| 0 <= o < p && Starts(str, begin, o) && EndOf(str, o) > p;
    SameEnd(str, p, EndOf(str, o));
    assert str[o] == str[o..o + |begin|][0] == begin[0];
    if !First(str, begin, o) { o := LaterStart(str, begin, o); }
  }

  /** The result is every word with the prefix if and only if each start that is not first has a word
      that also starts first somewhere. */
  lemma AllWordsIff(str: string, begin: string)
    requires begin != []
    ensures (forall p :: 0 <= p < |str| && Starts(str, begin, p) ==> Word(str, p) in Scanned(str, begin)) <==>
            (forall p :: 0 <= p < |str| && Starts(str, begin, p) && !First(str, begin, p) ==>
              exists q :: 0 <= q < |str| && First(str, begin, q) && Word(str, q) == Word(str, p))
  {
    forall p | 0 <= p < |str| ensures Word(str, p) in Scanned(str, begin) <==>
        exists q :: 0 <= q < |str| && First(str, begin, q) && Word(str, q) == Word(str, p)
    {
      FirstWordsAre(str, begin, |str|, Word(str, p));
    }
  }

  /** A text with a word that is missed: it starts after a parenthesis inside another. */
  lemma MissedWord()
    ensures Starts("t_a(t_b", "t_", 4) && Word("t_a(t_b", 4) == "t_b" && Scanned("t_a(t_b", "t_") == ["t_a(t_b"]
  {
    ScanOfOne("t_a(t_b", 0, 7);
    SameEnd("t_a(t_b", 4, 7);
  }

  /** A parenthesis glued to another name does no harm. */
  lemma FoundWord()
    ensures Scanned("f(t_a", "t_") == ["t_a"]
  {
    var f := "f(t_a";
    assert f[0..2][0] == 'f' && f[1..3][0] == '(';
    ScanOfOne(f, 2, 5);
  }

  /** A text whose only first start is `p`. */
  lemma ScanOfOne(s: string, p: nat, n: nat)
    requires p < n == |s| && Starts(s, "t_", p) && (forall k :: p < k < n ==> !Ends(s[k]))
    requires forall k :: 0 <= k < p ==> !Occurs(s, "t_", k)
    ensures Scanned(s, "t_") == [s[p..]]
  {
    SameEnd(s, p, n);
    assert First(s, "t_", p);
    NoneBetween(s, "t_", 0, p);
    InsideWord(s, "t_", p);
    NoneBetween(s, "t_", p + 1, n);
    assert Word(s, p) == s[p..];
    assert FirstWords(s, "t_", p + 1) == Insert([], Word(s, p));
  }

  // ---- the result in terms of the characters ----

  predicate Delimiter(c: char) { c in {')', '.', ' ', '\n', ';'} }

  /** A word of `str`, from `p` to `q`: it begins with the prefix, at the start of the text or after an
      opening parenthesis, a blank or a line break, and runs to the next delimiter. */
  predicate Spans(str: string, begin: string, p: int, q: int) {
    0 <= p < q <= |str| && p + |begin| <= |str| && str[p..p + |begin|] == begin &&
    (p == 0 || str[p - 1] in {'(', ' ', '\n'}) &&
    (forall k :: p < k < q ==> !Delimiter(str[k])) && (q == |str| || Delimiter(str[q]))
  }

  lemma SpansIff(str: string, begin: string, p: int, q: int)
    ensures Spans(str, begin, p, q) <==> 0 <= p < |str| && Starts(str, begin, p) && q == EndOf(str, p)
  {
    if Spans(str, begin, p, q) { SameEnd(str, p, q); }
  }

  /** The scanner finds a word exactly if it has a place in the text that no earlier word covers. */
  lemma FoundIff(str: string, begin: string, w: string)
    ensures w in Scanned(str, begin) <==>
            exists p, q :: Spans(str, begin, p, q) && w == str[p..q] && Uncovered(str, begin, p)
  {
    FirstWordsAre(str, begin, |str|, w);
    if w in Scanned(str, begin) {
      var p :| 0 <= p < |str| && First(str, begin, p) && w == Word(str, p);
      SpansIff(str, begin, p, EndOf(str, p));
      FirstIff(str, begin, p);
      assert Spans(str, begin, p, EndOf(str, p)) && w == str[p..EndOf(str, p)];
    }
    if p, q :| Spans(str, begin, p, q) && w == str[p..q] && Uncovered(str, begin, p) {
      SpansIff(str, begin, p, q);
      FirstIff(str, begin, p);
    }
  }

  ghost predicate Uncovered(str: string, begin: string, p: int) {
    forall o, e :: Spans(str, begin, o, e) && o < p ==> e <= p
  }

  lemma FirstIff(str: string, begin: string, p: int)
    requires 0 <= p < |str| && Starts(str, begin, p)
    ensures First(str, begin, p) <==> Uncovered(str, begin, p)
  {
    if First(str, begin, p) {
      forall o, e | Spans(str, begin, o, e) && o < p ensures e <= p { SpansIff(str, begin, o, e); }
    }
    if Uncovered(str, begin, p) {
      forall o | 0 <= o < p && Starts(str, begin, o) ensures EndOf(str, o) <= p {
        SpansIff(str, begin, o, EndOf(str, o));
      }
    }
  }
}
