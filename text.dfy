// Option type shared by every module.
module Options {
  datatype Option<+T> = None | Some(value: T)
}

/**
 * The string primitives the extension relies on, as JavaScript defines them
 * for the inputs it sees: ASCII case mapping, the `\s` class (which is also the
 * set `trim` removes), `split` on one character or on `/\s+/`, `join`,
 * `startsWith`, `includes` and the two character filters used to normalise words.
 */
module Text {

  /** JavaScript's `\s` class; `String.prototype.trim` removes exactly these. */
  predicate IsSpace(c: char) {
    ('\t' <= c <= '\r') || c == ' ' || c == '\U{00A0}' || c == '\U{1680}'
    || ('\U{2000}' <= c <= '\U{200A}') || c == '\U{2028}' || c == '\U{2029}'
    || c == '\U{202F}' || c == '\U{205F}' || c == '\U{3000}' || c == '\U{FEFF}'
  }

  predicate IsLowerLetter(c: char) { 'a' <= c <= 'z' }

  predicate IsAsciiLetter(c: char) { 'a' <= c <= 'z' || 'A' <= c <= 'Z' }

  /** `toLowerCase` on one character, restricted to ASCII. */
  function Lower(c: char): (r: char)
    ensures IsLowerLetter(r) <==> IsAsciiLetter(c)
    ensures !('A' <= c <= 'Z') ==> r == c
    ensures IsSpace(r) <==> IsSpace(c)
  {
    if 'A' <= c <= 'Z' then (c as int + 32) as char else c
  }

  function LowerStr(s: string): (r: string)
    ensures |r| == |s|
    ensures forall i :: 0 <= i < |s| ==> !('A' <= r[i] <= 'Z') && (IsLowerLetter(r[i]) <==> IsAsciiLetter(s[i]))
    ensures forall i :: 0 <= i < |s| ==> !IsAsciiLetter(s[i]) ==> r[i] == s[i]
  {
    seq(|s|, i requires 0 <= i < |s| => Lower(s[i]))
  }

  lemma LowerStrIdempotent(s: string)
    ensures LowerStr(LowerStr(s)) == LowerStr(s)
  {
  }

  // ---------------------------------------------------------------- trim

  function TrimStart(s: string): (r: string)
    ensures |r| <= |s| && r == s[|s| - |r|..]
    ensures forall i :: 0 <= i < |s| - |r| ==> IsSpace(s[i])
    ensures r != [] ==> !IsSpace(r[0])
  {
    if s != [] && IsSpace(s[0]) then TrimStart(s[1..]) else s
  }

  function TrimEnd(s: string): (r: string)
    ensures |r| <= |s| && r == s[..|r|]
    ensures forall i :: |r| <= i < |s| ==> IsSpace(s[i])
    ensures r != [] ==> !IsSpace(r[|r| - 1])
  {
    if s != [] && IsSpace(s[|s| - 1]) then TrimEnd(s[..|s| - 1]) else s
  }

  /** `String.prototype.trim`: the longest slice without surrounding whitespace. */
  function Trim(s: string): (r: string)
    ensures r != [] ==> !IsSpace(r[0]) && !IsSpace(r[|r| - 1])
    ensures exists i :: && OccursAt(s, r, i)
                        && (forall k :: 0 <= k < i ==> IsSpace(s[k]))
                        && (forall k :: i + |r| <= k < |s| ==> IsSpace(s[k]))
  {
    var a := TrimStart(s);
    var r := TrimEnd(a);
    var i := |s| - |a|;
    assert OccursAt(s, r, i);
    r
  }

  /** Trimming text that has no surrounding whitespace changes nothing. */
  lemma TrimOfTrimmed(s: string)
    requires s != [] ==> !IsSpace(s[0]) && !IsSpace(s[|s| - 1])
    ensures Trim(s) == s
  {
  }

  // --------------------------------------------------------------- split

  function IndexOfChar(s: string, c: char): (i: nat)
    ensures i <= |s|
    ensures i < |s| ==> s[i] == c
    ensures forall j :: 0 <= j < i ==> s[j] != c
  {
    if s == [] then 0 else if s[0] == c then 0 else 1 + IndexOfChar(s[1..], c)
  }

  /** `s.split(sep)` for a one-character separator. */
  function SplitOn(s: string, sep: char): (parts: seq<string>)
    ensures |parts| >= 1
    ensures forall p :: p in parts ==> sep !in p
    ensures |parts| == 1 <==> sep !in s
    decreases |s|
  {
    var i := IndexOfChar(s, sep);
    if i == |s| then [s]
    else
      var rest := SplitOn(s[i + 1..], sep);
      assert s[i] == sep && s[i] in s;
      [s[..i]] + rest
  }

  /** Text without the separator splits into itself alone. */
  lemma SplitOnAbsent(s: string, sep: char)
    requires sep !in s
    ensures SplitOn(s, sep) == [s]
  {
    assert forall j :: 0 <= j < |s| ==> s[j] != sep;
  }

  /** `parts.join(sep)` for a one-character separator. */
  function Join(parts: seq<string>, sep: char): (r: string)
    ensures |parts| == 1 ==> r == parts[0]
    ensures |parts| > 1 ==> |r| > |parts[0]| && r[..|parts[0]|] == parts[0] && r[|parts[0]|] == sep
  {
    if |parts| == 0 then ""
    else if |parts| == 1 then parts[0]
    else parts[0] + [sep] + Join(parts[1..], sep)
  }

  lemma {:induction false} JoinOfSplit(s: string, sep: char)
    ensures Join(SplitOn(s, sep), sep) == s
    decreases |s|
  {
    var i := IndexOfChar(s, sep);
    if i < |s| {
      var rest := SplitOn(s[i + 1..], sep);
      SplitOnStep(s, sep);
      JoinOfSplit(s[i + 1..], sep);
      JoinCons(s[..i], rest, sep);
      SplitAround(s, i);
    }
  }

  /** Where the separator occurs, a split is the part before it followed by the split of the rest. */
  lemma SplitOnStep(s: string, sep: char)
    requires IndexOfChar(s, sep) < |s|
    ensures var i := IndexOfChar(s, sep);
      SplitOn(s, sep) == [s[..i]] + SplitOn(s[i + 1..], sep)
  {
  }

  lemma SplitAround(s: string, i: int)
    requires 0 <= i < |s|
    ensures s == s[..i] + [s[i]] + s[i + 1..]
  {
  }

  lemma JoinCons(a: string, rest: seq<string>, sep: char)
    requires |rest| >= 1
    ensures Join([a] + rest, sep) == a + [sep] + Join(rest, sep)
  {
    assert ([a] + rest)[1..] == rest;
  }

  lemma {:induction false} SplitOfJoin(parts: seq<string>, sep: char)
    requires |parts| >= 1
    requires forall p :: p in parts ==> sep !in p
    ensures SplitOn(Join(parts, sep), sep) == parts
  {
    if |parts| > 1 {
      var s := Join(parts, sep);
      var p := parts[0];
      assert s == p + [sep] + Join(parts[1..], sep);
      IndexOfCharPrefix(p, Join(parts[1..], sep), sep);
      assert s[|p| + 1..] == Join(parts[1..], sep);
      assert s[..|p|] == p;
      SplitOfJoin(parts[1..], sep);
    } else {
      assert Join(parts, sep) == parts[0];
    }
  }

  lemma IndexOfCharPrefix(p: string, rest: string, c: char)
    requires c !in p
    ensures IndexOfChar(p + [c] + rest, c) == |p|
  {
    var s := p + [c] + rest;
    forall j | 0 <= j < |p|
      ensures s[j] != c
    {
      assert s[j] == p[j] && p[j] in p;
    }
    assert s[|p|] == c;
  }

  /** `s` with every `a` replaced by `b`. */
  function ReplaceChar(s: string, a: char, b: char): (r: string)
    ensures |r| == |s|
    ensures forall i :: 0 <= i < |s| ==> r[i] == if s[i] == a then b else s[i]
  {
    if s == [] then [] else [if s[0] == a then b else s[0]] + ReplaceChar(s[1..], a, b)
  }

  /** Splitting on `sep` and joining with `c` replaces each `sep` by `c`. */
  lemma {:induction false} JoinOfSplitReplaces(s: string, sep: char, c: char)
    ensures Join(SplitOn(s, sep), c) == ReplaceChar(s, sep, c)
    decreases |s|
  {
    var i := IndexOfChar(s, sep);
    if i == |s| {
      assert SplitOn(s, sep) == [s];
      assert ReplaceChar(s, sep, c) == s;
    } else {
      var rest := SplitOn(s[i + 1..], sep);
      assert SplitOn(s, sep) == [s[..i]] + rest;
      JoinOfSplitReplaces(s[i + 1..], sep, c);
      JoinCons(s[..i], rest, c);
      ReplaceAt(s, sep, c, i);
    }
  }

  lemma ReplaceAt(s: string, a: char, b: char, i: int)
    requires 0 <= i < |s| && s[i] == a
    requires forall j :: 0 <= j < i ==> s[j] != a
    ensures ReplaceChar(s, a, b) == s[..i] + [b] + ReplaceChar(s[i + 1..], a, b)
  {
    var r := ReplaceChar(s, a, b);
    var tail := ReplaceChar(s[i + 1..], a, b);
    var t := s[..i] + [b] + tail;
    forall j | 0 <= j < |s|
      ensures r[j] == t[j]
    {
      if j > i {
        assert t[j] == tail[j - i - 1];
      }
    }
    assert r == t;
  }

  /** A joined piece contains the separator only where `Join` put it. */
  lemma {:induction false} JoinAvoids(parts: seq<string>, sep: char, c: char)
    requires c != sep
    requires forall p :: p in parts ==> c !in p
    ensures c !in Join(parts, sep)
  {
    if |parts| > 1 {
      JoinAvoids(parts[1..], sep, c);
      assert parts[0] in parts;
    } else if |parts| == 1 {
      assert parts[0] in parts;
    }
  }

  function FirstSpace(s: string): (i: nat)
    ensures i <= |s|
    ensures i < |s| ==> IsSpace(s[i])
    ensures forall j :: 0 <= j < i ==> !IsSpace(s[j])
  {
    if s == [] then 0 else if IsSpace(s[0]) then 0 else 1 + FirstSpace(s[1..])
  }

  function SpaceRunEnd(s: string, i: nat): (k: nat)
    requires i <= |s|
    ensures i <= k <= |s|
    ensures forall j :: i <= j < k ==> IsSpace(s[j])
    ensures k < |s| ==> !IsSpace(s[k])
    decreases |s| - i
  {
    if i < |s| && IsSpace(s[i]) then SpaceRunEnd(s, i + 1) else i
  }

  /** `s.split(/\s+/)`: pieces between maximal runs of whitespace. */
  function SplitWhitespace(s: string): (words: seq<string>)
    ensures |words| >= 1
    ensures forall w :: w in words ==> forall j :: 0 <= j < |w| ==> !IsSpace(w[j])
    ensures |words| == 1 <==> forall j :: 0 <= j < |s| ==> !IsSpace(s[j])
    decreases |s|
  {
    var i := FirstSpace(s);
    if i == |s| then [s]
    else
      var k := SpaceRunEnd(s, i);
      [s[..i]] + SplitWhitespace(s[k..])
  }

  // ------------------------------------------------------ search helpers

  predicate StartsWith(s: string, p: string) {
    |p| <= |s| && s[..|p|] == p
  }

  /** `w` occurs in `t` starting at index `s`. */
  predicate OccursAt(t: string, w: string, s: int) {
    0 <= s && s + |w| <= |t| && t[s..s + |w|] == w
  }

  /** `t.includes(w)`. */
  predicate IsSubstring(t: string, w: string) {
    exists s | 0 <= s <= |t| - |w| :: OccursAt(t, w, s)
  }

  /** The regular-expression replacement `replace(/^"|"$/g, '')`. */
  function StripQuotes(s: string): (r: string)
    ensures |r| <= |s|
  {
    var a := if |s| > 0 && s[0] == '"' then s[1..] else s;
    if |a| > 0 && a[|a| - 1] == '"' then a[..|a| - 1] else a
  }

  /** Quoting a field and stripping the quotes is the identity, whatever the field holds. */
  lemma StripQuotesOfQuoted(x: string)
    ensures StripQuotes(['"'] + x + ['"']) == x
  {
    var s := ['"'] + x + ['"'];
    assert s[1..] == x + ['"'];
  }

  lemma StripQuotesOfUnquoted(x: string)
    requires x != [] ==> x[0] != '"' && x[|x| - 1] != '"'
    ensures StripQuotes(x) == x
  {
  }

  // ---------------------------------------------------------- normalizers

  /** `toLowerCase().replace(/[^a-z\s]/g, '')`. */
  function NormalizePhrase(s: string): (r: string)
    ensures |r| <= |s|
    ensures forall j :: 0 <= j < |r| ==> IsLowerLetter(r[j]) || IsSpace(r[j])
  {
    if s == [] then ""
    else
      var c := Lower(s[0]);
      (if IsLowerLetter(c) || IsSpace(c) then [c] else []) + NormalizePhrase(s[1..])
  }

  /** `toLowerCase().replace(/[^a-z]/g, '')`. */
  function NormalizeLetters(s: string): (r: string)
    ensures |r| <= |s|
    ensures forall j :: 0 <= j < |r| ==> IsLowerLetter(r[j])
  {
    if s == [] then ""
    else
      var c := Lower(s[0]);
      (if IsLowerLetter(c) then [c] else []) + NormalizeLetters(s[1..])
  }

  /** On text made only of ASCII letters and whitespace, normalising only lower-cases. */
  lemma {:induction false} NormalizePhraseOfLetters(s: string)
    requires forall j :: 0 <= j < |s| ==> IsAsciiLetter(s[j]) || IsSpace(s[j])
    ensures NormalizePhrase(s) == LowerStr(s)
  {
    if s != [] {
      NormalizePhraseOfLetters(s[1..]);
      assert LowerStr(s) == [Lower(s[0])] + LowerStr(s[1..]);
    }
  }

  /** Text without whitespace is one word. */
  lemma SplitWhitespaceOfWord(s: string)
    requires forall j :: 0 <= j < |s| ==> !IsSpace(s[j])
    ensures SplitWhitespace(s) == [s]
  {
    assert FirstSpace(s) == |s|;
  }

  lemma LowerStrOfLower(s: string)
    requires forall j :: 0 <= j < |s| ==> IsLowerLetter(s[j])
    ensures LowerStr(s) == s
  {
  }

  /** A word of lower-case letters is its own lower-casing and normalisation, and one whitespace-separated word. */
  lemma LowerWord(s: string)
    requires forall j :: 0 <= j < |s| ==> IsLowerLetter(s[j])
    ensures LowerStr(s) == s && NormalizePhrase(s) == s && SplitWhitespace(s) == [s]
  {
    assert forall j :: 0 <= j < |s| ==> IsAsciiLetter(s[j]) && !IsSpace(s[j]);
    LowerStrOfLower(s);
    NormalizePhraseOfLetters(s);
    SplitWhitespaceOfWord(s);
  }

  /** A word of lower-case letters is its own letter normalisation. */
  lemma {:induction false} NormalizeLettersOfLower(s: string)
    requires forall j :: 0 <= j < |s| ==> IsLowerLetter(s[j])
    ensures NormalizeLetters(s) == s
  {
    if s != [] {
      NormalizeLettersOfLower(s[1..]);
      assert s == [s[0]] + s[1..];
    }
  }
}
