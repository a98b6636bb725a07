/**
 * The keyword search of `content.js`: a right-to-left comparison with a
 * bad-character shift table (the Boyer-Moore bad-character rule without the
 * good-suffix rule), run on lower-cased copies of the page text and the keyword.
 */
module Search {
  import opened Text

  /** The last index below `n` at which `c` occurs in `q`, or -1. */
  function LastIndexBelow(q: string, c: char, n: nat): (r: int)
    requires n <= |q|
    ensures -1 <= r < n
    ensures r >= 0 ==> q[r] == c
    ensures forall k :: r < k < n ==> q[k] != c
  {
    if n == 0 then -1 else if q[n - 1] == c then n - 1 else LastIndexBelow(q, c, n - 1)
  }

  /**
   * `table` is the shift table of the first `n` characters of the pattern `q`:
   * exactly the characters occurring there are present, each mapped to
   * `|q| - 1 - i` for its last index `i` below `n`.
   */
  ghost predicate TablePrefix(q: string, table: map<char, int>, n: nat)
    requires n <= |q|
  {
    forall c :: (c in table <==> LastIndexBelow(q, c, n) >= 0)
      && (c in table ==> table[c] == |q| - 1 - LastIndexBelow(q, c, n))
  }

  /** The table of the whole pattern covers every character but the last. */
  ghost predicate IsBadCharTable(q: string, table: map<char, int>) {
    TablePrefix(q, table, if |q| == 0 then 0 else |q| - 1)
  }

  lemma TableStep(q: string, table: map<char, int>, i: nat)
    requires i < |q| - 1
    requires TablePrefix(q, table, i)
    ensures TablePrefix(q, table[q[i] := |q| - 1 - i], i + 1)
  {
  }

  /** `createBadCharTable`: one pass over all but the last character, later indices overwriting earlier ones. */
  method CreateBadCharTable(pattern: string) returns (table: map<char, int>)
    ensures IsBadCharTable(LowerStr(pattern), table)
  {
    var q := LowerStr(pattern);
    var m := |pattern|;
    table := map[];
    var i := 0;
    while i < m - 1
      invariant 0 <= i <= if m == 0 then 0 else m - 1
      invariant TablePrefix(q, table, i)
    {
      TableStep(q, table, i);
      table := table[q[i] := m - 1 - i];
      i := i + 1;
    }
  }

  /** Agreement at every position is an occurrence. */
  lemma AllMatch(t: string, w: string, s: int)
    requires 0 <= s && s + |w| <= |t|
    requires forall q :: 0 <= q < |w| ==> t[s + q] == w[q]
    ensures OccursAt(t, w, s)
  {
    assert t[s..s + |w|] == w;
  }

  /** No occurrence starts before `i - |w| + 1`, and `i` is past the end of `t`. */
  lemma NoneLeft(t: string, w: string, i: int)
    requires |t| <= i
    requires forall s :: 0 <= s && s + |w| - 1 < i ==> !OccursAt(t, w, s)
    ensures !IsSubstring(t, w)
  {
  }

  /** One mismatching position rules out an occurrence. */
  lemma MismatchRulesOut(t: string, w: string, s: int, q: int)
    requires 0 <= q < |w| && 0 <= s + q < |t| && t[s + q] != w[q]
    ensures !OccursAt(t, w, s)
  {
  }

  /** `Math.max(badCharTable[c] || m, m - j)`: the shift after a mismatch on text character `c` at pattern index `j`. */
  function Shift(table: map<char, int>, c: char, m: int, j: int): (r: int)
    ensures r >= m - j
    ensures r >= if c in table && table[c] != 0 then table[c] else m
    ensures r == m - j || r == (if c in table && table[c] != 0 then table[c] else m)
  {
    var bad := if c in table && table[c] != 0 then table[c] else m;
    if bad > m - j then bad else m - j
  }

  /**
   * After a mismatch at pattern index `j` of the alignment starting at `s0`, the
   * shift the code takes skips no occurrence, and moves the alignment right.
   */
  lemma ShiftIsSafe(t: string, w: string, table: map<char, int>, s0: int, j: int, shift: int)
    requires IsBadCharTable(w, table)
    requires 0 <= s0 && 0 <= j < |w| && s0 + |w| <= |t|
    requires t[s0 + j] != w[j]
    requires shift == Shift(table, t[s0 + j], |w|, j)
    ensures shift >= |w| - j
    ensures forall s :: s0 <= s && s + |w| - 1 < s0 + j + shift ==> !OccursAt(t, w, s)
  {
    var m := |w|;
    var c := t[s0 + j];
    forall s | s0 <= s && s + m - 1 < s0 + j + shift
      ensures !OccursAt(t, w, s)
    {
      var d := s - s0;
      var idx := j - d;
      if d > 0 {
        assert shift > m - j;
        assert 0 <= idx <= m - 2;
        var last := LastIndexBelow(w, c, m - 1);
        assert c in table ==> table[c] == m - 1 - last;
        assert last < idx;
      }
      MismatchRulesOut(t, w, s, idx);
    }
  }

  /**
   * The comparison loop of `searchKeyword`, on the lower-cased text `t` and
   * keyword `w` with the keyword's shift table.
   */
  method Scan(t: string, w: string, table: map<char, int>) returns (found: bool)
    requires IsBadCharTable(w, table)
    ensures found <==> IsSubstring(t, w)
  {
    var m := |w|;
    var i := m - 1;
    while i < |t|
      invariant m - 1 <= i
      invariant forall s :: 0 <= s && s + m - 1 < i ==> !OccursAt(t, w, s)
      decreases |t| - i
    {
      ghost var s0 := i - (m - 1);
      var j := m - 1;
      // characters are compared only while `s0 <= i <= s0 + m - 1 < |t|` and `0 <= j`
      while j >= 0 && t[i] == w[j]
        invariant -1 <= j <= m - 1
        invariant i == s0 + j
        invariant forall q :: j < q < m ==> t[s0 + q] == w[q]
        decreases j
      {
        i := i - 1;
        j := j - 1;
      }
      if j < 0 {
        AllMatch(t, w, s0);
        return true;
      }
      var shift := Shift(table, t[i], m, j);
      ShiftIsSafe(t, w, table, s0, j, shift);
      i := i + shift;
    }
    NoneLeft(t, w, i);
    return false;
  }

  /** `searchKeyword`: true exactly when the lower-cased keyword occurs in the lower-cased text. */
  method SearchKeyword(text: string, keyword: string) returns (found: bool)
    ensures found <==> IsSubstring(LowerStr(text), LowerStr(keyword))
  {
    var t := LowerStr(text);
    var w := LowerStr(keyword);
    LowerStrIdempotent(keyword);
    var table := CreateBadCharTable(w);
    found := Scan(t, w, table);
  }

  /** A keyword counts as found on a page when it occurs there, ignoring ASCII case. */
  predicate KeywordFound(text: string, keyword: string) {
    IsSubstring(LowerStr(text), LowerStr(keyword))
  }

  /** `keywords.some(keyword => searchKeyword(text, keyword))` */
  predicate AnyKeywordFound(text: string, keywords: seq<string>) {
    exists k | k in keywords :: KeywordFound(text, k)
  }

  /** `searchKeywords`: stops at the first keyword that is found. */
  method SearchKeywords(text: string, keywords: seq<string>) returns (found: bool)
    ensures found <==> AnyKeywordFound(text, keywords)
  {
    for i := 0 to |keywords|
      invariant forall k :: 0 <= k < i ==> !KeywordFound(text, keywords[k])
    {
      found := SearchKeyword(text, keywords[i]);
      if found {
        assert keywords[i] in keywords;
        return;
      }
    }
    found := false;
  }
}
