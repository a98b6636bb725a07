/**
 * The match cascade of `content.js` (`findMatches`): for the normalised
 * selection it tries, in order, the underscore-joined multi-word key, the exact
 * key, the stemmed key, a translation containing the text, a one-vowel
 * correction of the stem (`correctStemmedWord`) and finally a greedy
 * segmentation of the text into known keys (`findPartialMatches`). The stemmer
 * is a parameter.
 */
module Matcher {
  import opened Options
  import opened Text
  import opened OrderedMaps
  import opened Dictionaries

  datatype MatchType = Exact | Stemmed | Translation | Corrected | Partial

  /** `{ type, words, entries }` */
  datatype Match = Match(kind: MatchType, words: seq<string>, entries: seq<Entry>)

  // ------------------------------------------------- correctStemmedWord

  const Vowels: string := "aeiou"

  /** The index of the first vowel from index `i` on whose addition to `stem` gives a key, or `|Vowels|`. */
  function CorrectionIndex(stem: string, d: Index, i: nat): (j: nat)
    requires i <= |Vowels|
    ensures i <= j <= |Vowels|
    ensures j < |Vowels| ==> stem + [Vowels[j]] in d.items
    ensures forall l :: i <= l < j ==> stem + [Vowels[l]] !in d.items
    decreases |Vowels| - i
  {
    if i == |Vowels| || stem + [Vowels[i]] in d.items then i else CorrectionIndex(stem, d, i + 1)
  }

  /** `stem + v` for the first `v` of a, e, i, o, u that makes a key, or nothing. */
  function CorrectStem(stem: string, d: Index): (r: Option<string>)
    ensures r.None? <==> forall j :: 0 <= j < |Vowels| ==> stem + [Vowels[j]] !in d.items
    ensures r.Some? ==> r.value in d.items
    ensures r.Some? ==> |r.value| == |stem| + 1 && r.value[..|stem|] == stem && r.value[|stem|] in Vowels
  {
    var j := CorrectionIndex(stem, d, 0);
    if j == |Vowels| then None
    else
      var c := stem + [Vowels[j]];
      assert c[..|stem|] == stem;
      Some(c)
  }

  /** The correction is the first vowel, in the order a, e, i, o, u, that gives a key. */
  lemma CorrectStemFirst(stem: string, d: Index, j: int)
    requires 0 <= j < |Vowels| && stem + [Vowels[j]] in d.items
    requires forall l :: 0 <= l < j ==> stem + [Vowels[l]] !in d.items
    ensures CorrectStem(stem, d) == Some(stem + [Vowels[j]])
  {
    var k := CorrectionIndex(stem, d, 0);
    assert !(k < j) && !(j < k);
  }

  /** `correctStemmedWord`: the loop over the vowels. */
  method CorrectStemmedWord(stemmedWord: string, d: Index) returns (r: Option<string>)
    ensures r == CorrectStem(stemmedWord, d)
  {
    for i := 0 to |Vowels|
      invariant forall l :: 0 <= l < i ==> stemmedWord + [Vowels[l]] !in d.items
    {
      var correctedWord := stemmedWord + [Vowels[i]];
      if correctedWord in d.items {
        CorrectStemFirst(stemmedWord, d, i);
        return Some(correctedWord);
      }
    }
    return None;
  }

  // ------------------------------------------------------ translation step

  /** `entry.translationEntry.toLowerCase().includes(t)` */
  predicate TranslationContains(e: Entry, t: string) {
    IsSubstring(LowerStr(e.translationEntry), t)
  }

  /** The index of the first entry from `k` on whose translation contains `t`, or `|es|`. */
  function ContainingIndex(es: seq<Entry>, t: string, k: nat): (i: nat)
    requires k <= |es|
    ensures k <= i <= |es|
    ensures i < |es| ==> TranslationContains(es[i], t)
    ensures forall j :: k <= j < i ==> !TranslationContains(es[j], t)
    decreases |es| - k
  {
    if k == |es| || TranslationContains(es[k], t) then k else ContainingIndex(es, t, k + 1)
  }

  /** `es.find(entry => TranslationContains(entry, t))` */
  function FirstContaining(es: seq<Entry>, t: string): (r: Option<Entry>)
    ensures r.None? <==> forall i :: 0 <= i < |es| ==> !TranslationContains(es[i], t)
    ensures r.Some? ==> r.value in es && TranslationContains(r.value, t)
  {
    var i := ContainingIndex(es, t, 0);
    if i == |es| then None else Some(es[i])
  }

  /** The entry found is the first one whose translation contains the text. */
  lemma FirstContainingFirst(es: seq<Entry>, t: string, i: int)
    requires 0 <= i < |es| && TranslationContains(es[i], t)
    requires forall j :: 0 <= j < i ==> !TranslationContains(es[j], t)
    ensures FirstContaining(es, t) == Some(es[i])
  {
    var k := ContainingIndex(es, t, 0);
    assert !(k < i) && !(i < k);
  }

  // --------------------------------------------------- findPartialMatches

  /** `word.endsWith('s') ? word.slice(0, -1) : word` */
  function StripS(w: string): string {
    if |w| > 0 && w[|w| - 1] == 's' then w[..|w| - 1] else w
  }

  /** `remainingText.startsWith(stemmedWord) && stemmedWord.length >= 4` */
  predicate Fits(w: string, rem: string) {
    StartsWith(rem, StripS(w)) && |StripS(w)| >= 4
  }

  /** The index of the first candidate from `k` on that fits the remaining text, or `|words|`. */
  function FitIndex(words: seq<string>, rem: string, k: nat): (i: nat)
    requires k <= |words|
    ensures k <= i <= |words|
    ensures i < |words| ==> Fits(words[i], rem)
    ensures forall j :: k <= j < i ==> !Fits(words[j], rem)
    decreases |words| - k
  {
    if k == |words| || Fits(words[k], rem) then k else FitIndex(words, rem, k + 1)
  }

  /** The candidate the inner `for` loop stops at is the first one that fits. */
  lemma FitIndexAt(words: seq<string>, rem: string, k: int)
    requires 0 <= k < |words| && Fits(words[k], rem)
    requires forall j :: 0 <= j < k ==> !Fits(words[j], rem)
    ensures FitIndex(words, rem, 0) == k
  {
    var i := FitIndex(words, rem, 0);
    assert !(i < k) && !(k < i);
  }

  /** The keys the greedy loop records, at most `budget` of them. */
  function Greedy(words: seq<string>, rem: string, budget: nat): (r: seq<string>)
    ensures |r| <= budget
    decreases budget
  {
    if |rem| == 0 || budget == 0 then []
    else
      var i := FitIndex(words, rem, 0);
      if i == |words| then [] else [words[i]] + Greedy(words, rem[|StripS(words[i])|..], budget - 1)
  }

  /** The text the greedy loop leaves unconsumed. */
  function GreedyRest(words: seq<string>, rem: string, budget: nat): string
    decreases budget
  {
    if |rem| == 0 || budget == 0 then rem
    else
      var i := FitIndex(words, rem, 0);
      if i == |words| then rem else GreedyRest(words, rem[|StripS(words[i])|..], budget - 1)
  }

  /** The stripped forms of `ws`, concatenated. */
  function Stripped(ws: seq<string>): string {
    if ws == [] then [] else StripS(ws[0]) + Stripped(ws[1..])
  }

  /** One round of the loop: the first fitting key is recorded and its stripped form consumed. */
  lemma GreedyUnfold(words: seq<string>, rem: string, budget: nat, i: nat)
    requires |rem| != 0 && budget != 0 && i == FitIndex(words, rem, 0) && i < |words|
    ensures |StripS(words[i])| <= |rem| && rem[..|StripS(words[i])|] == StripS(words[i])
    ensures Greedy(words, rem, budget) == [words[i]] + Greedy(words, rem[|StripS(words[i])|..], budget - 1)
    ensures GreedyRest(words, rem, budget) == GreedyRest(words, rem[|StripS(words[i])|..], budget - 1)
  {
  }

  lemma SplitsStep(w: string, rem: string, ws: seq<string>, rest: string)
    requires |StripS(w)| <= |rem| && rem[..|StripS(w)|] == StripS(w)
    requires Stripped(ws) + rest == rem[|StripS(w)|..]
    ensures Stripped([w] + ws) + rest == rem
  {
    assert ([w] + ws)[1..] == ws;
    var a, b := StripS(w), Stripped(ws);
    assert (a + b) + rest == a + (b + rest);
    assert rem[..|a|] + rem[|a|..] == rem;
  }

  /** The recorded keys' stripped forms, followed by the remainder, make up the text. */
  lemma {:induction false} GreedySplits(words: seq<string>, rem: string, budget: nat)
    ensures Stripped(Greedy(words, rem, budget)) + GreedyRest(words, rem, budget) == rem
    decreases budget
  {
    if |rem| != 0 && budget != 0 {
      var i := FitIndex(words, rem, 0);
      if i < |words| {
        var w := words[i];
        var n := |StripS(w)|;
        GreedyUnfold(words, rem, budget, i);
        GreedySplits(words, rem[n..], budget - 1);
        SplitsStep(w, rem, Greedy(words, rem[n..], budget - 1), GreedyRest(words, rem[n..], budget - 1));
      } else {
        GreedyDone(words, rem, budget);
      }
    } else {
      GreedyDone(words, rem, budget);
    }
  }

  lemma GreedyDone(words: seq<string>, rem: string, budget: nat)
    requires |rem| == 0 || budget == 0 || FitIndex(words, rem, 0) == |words|
    ensures Greedy(words, rem, budget) == [] && GreedyRest(words, rem, budget) == rem
  {
  }

  /** Every recorded key is a candidate whose stripped form has at least four characters. */
  lemma {:induction false} GreedyWords(words: seq<string>, rem: string, budget: nat)
    ensures forall w :: w in Greedy(words, rem, budget) ==> w in words && |StripS(w)| >= 4
    decreases budget
  {
    if |rem| != 0 && budget != 0 {
      var i := FitIndex(words, rem, 0);
      if i < |words| {
        GreedyWords(words, rem[|StripS(words[i])|..], budget - 1);
      }
    }
  }

  // ------------------------------------------------------------ the sort

  /** Longer keys come first. */
  predicate DescendingLength(s: seq<string>) {
    forall i, j :: 0 <= i < j < |s| ==> |s[i]| >= |s[j]|
  }

  /** `s.filter(w => w.length === n)` */
  function OfLength(s: seq<string>, n: nat): seq<string> {
    if s == [] then [] else (if |s[0]| == n then [s[0]] else []) + OfLength(s[1..], n)
  }

  /** Place `w` before the first key of `s` that is no longer than it. */
  function InsertByLength(w: string, s: seq<string>): seq<string> {
    if s == [] || |s[0]| <= |w| then [w] + s else [s[0]] + InsertByLength(w, s[1..])
  }

  /** `keys.sort((a, b) => b.length - a.length)`: a stable sort, longest first. */
  function SortByLength(ks: seq<string>): seq<string> {
    if ks == [] then [] else InsertByLength(ks[0], SortByLength(ks[1..]))
  }

  lemma {:induction false} InsertPermutes(w: string, s: seq<string>)
    ensures multiset(InsertByLength(w, s)) == multiset(s) + multiset{w}
  {
    if !(s == [] || |s[0]| <= |w|) {
      InsertPermutes(w, s[1..]);
      assert s == [s[0]] + s[1..];
    }
  }

  lemma {:induction false} InsertDescending(w: string, s: seq<string>)
    requires DescendingLength(s)
    ensures DescendingLength(InsertByLength(w, s))
  {
    if !(s == [] || |s[0]| <= |w|) {
      var rest := InsertByLength(w, s[1..]);
      InsertDescending(w, s[1..]);
      InsertPermutes(w, s[1..]);
      forall i | 0 <= i < |rest| ensures |rest[i]| <= |s[0]| {
        assert rest[i] in multiset(rest);
        if rest[i] != w {
          assert rest[i] in multiset(s[1..]);
          var k :| 0 <= k < |s[1..]| && s[1..][k] == rest[i];
          assert s[k + 1] == rest[i];
        }
      }
      var r := [s[0]] + rest;
      forall i, j | 0 <= i < j < |r| ensures |r[i]| >= |r[j]| {
        if i > 0 {
          assert r[i] == rest[i - 1] && r[j] == rest[j - 1];
        } else {
          assert r[j] == rest[j - 1];
        }
      }
    }
  }

  /** The sort is a permutation of the keys. */
  lemma {:induction false} SortPermutes(ks: seq<string>)
    ensures multiset(SortByLength(ks)) == multiset(ks)
  {
    if ks != [] {
      SortPermutes(ks[1..]);
      InsertPermutes(ks[0], SortByLength(ks[1..]));
      assert ks == [ks[0]] + ks[1..];
    }
  }

  /** The sort puts longer keys first. */
  lemma {:induction false} SortDescending(ks: seq<string>)
    ensures DescendingLength(SortByLength(ks))
  {
    if ks != [] {
      SortDescending(ks[1..]);
      InsertDescending(ks[0], SortByLength(ks[1..]));
    }
  }

  lemma {:induction false} InsertOfLength(w: string, s: seq<string>, n: nat)
    ensures OfLength(InsertByLength(w, s), n) == (if |w| == n then [w] else []) + OfLength(s, n)
  {
    if s == [] || |s[0]| <= |w| {
      assert ([w] + s)[1..] == s;
    } else {
      var rest := InsertByLength(w, s[1..]);
      assert ([s[0]] + rest)[1..] == rest;
      InsertOfLength(w, s[1..], n);
    }
  }

  /** The sort is stable: the keys of each length keep their order. */
  lemma {:induction false} SortStable(ks: seq<string>, n: nat)
    ensures OfLength(SortByLength(ks), n) == OfLength(ks, n)
  {
    if ks != [] {
      SortStable(ks[1..], n);
      InsertOfLength(ks[0], SortByLength(ks[1..]), n);
    }
  }

  /** The first fitting candidate in a longest-first list is a longest fitting candidate. */
  lemma FitIndexLongest(words: seq<string>, rem: string, k: int)
    requires DescendingLength(words)
    requires 0 <= k < |words| && Fits(words[k], rem)
    ensures FitIndex(words, rem, 0) < |words| && |words[k]| <= |words[FitIndex(words, rem, 0)]|
  {
  }

  // ------------------------------------------------ the partial step

  /** The greedy segmentation `findPartialMatches` runs: longest keys first, three keys at most. */
  function Segments(d: Index, t: string): seq<string> {
    Greedy(SortByLength(d.keys), t, 3)
  }

  /** A partial result per recorded key, when two or three keys were recorded. */
  function PartialResults(d: Index, ws: seq<string>): seq<Match> {
    if 1 < |ws| <= 3 && (forall w :: w in ws ==> |w| >= 4)
    then PartialList(d, ws)
    else []
  }

  /** `ws.map(word => ({ type: 'partial', words: [word], entries: d[word] }))` */
  function PartialList(d: Index, ws: seq<string>): (r: seq<Match>)
    ensures |r| == |ws|
    ensures forall i :: 0 <= i < |ws| ==> r[i] == Match(Partial, [ws[i]], Get(d, ws[i]))
  {
    if ws == [] then [] else [Match(Partial, [ws[0]], Get(d, ws[0]))] + PartialList(d, ws[1..])
  }

  /** `findPartialMatches(t)` on the index `d`. */
  function PartialMatches(d: Index, t: string): seq<Match> {
    PartialResults(d, Segments(d, t))
  }

  /** Recording the first fitting key keeps the loop on the greedy segmentation. */
  lemma GreedyAdvance(words: seq<string>, rem: string, matched: seq<string>, k: nat, target: seq<string>)
    requires |rem| > 0 && |matched| < 3 && k == FitIndex(words, rem, 0) && k < |words|
    requires matched + Greedy(words, rem, 3 - |matched|) == target
    ensures |StripS(words[k])| <= |rem|
    ensures (matched + [words[k]]) + Greedy(words, rem[|StripS(words[k])|..], 3 - |matched + [words[k]]|) == target
  {
    GreedyUnfold(words, rem, 3 - |matched|, k);
  }

  /** The inner `for (const word of words)` loop: the index of the first key that fits, or `|words|`. */
  method FindFitting(words: seq<string>, remainingText: string) returns (k: nat)
    ensures k == FitIndex(words, remainingText, 0)
  {
    k := 0;
    while k < |words|
      invariant k <= |words|
      invariant forall j :: 0 <= j < k ==> !Fits(words[j], remainingText)
    {
      var stemmedWord := StripS(words[k]);
      if StartsWith(remainingText, stemmedWord) && |stemmedWord| >= 4 {
        FitIndexAt(words, remainingText, k);
        return;
      }
      k := k + 1;
    }
  }

  /** `findPartialMatches`: the `while` loop over the remaining text and the `for` loop over the sorted keys. */
  method FindPartialMatches(d: Index, normalizedText: string) returns (results: seq<Match>)
    ensures results == PartialMatches(d, normalizedText)
  {
    var words := SortByLength(d.keys);
    var matchedWords: seq<string> := [];
    var remainingText := normalizedText;
    while |remainingText| > 0 && |matchedWords| < 3
      invariant |matchedWords| <= 3
      invariant matchedWords + Greedy(words, remainingText, 3 - |matchedWords|) == Greedy(words, normalizedText, 3)
      decreases 3 - |matchedWords|
    {
      var k := FindFitting(words, remainingText);
      var matchFound := k < |words|;
      if matchFound {
        GreedyAdvance(words, remainingText, matchedWords, k, Greedy(words, normalizedText, 3));
        matchedWords := matchedWords + [words[k]];
        remainingText := remainingText[|StripS(words[k])|..];
      }
      if !matchFound {
        GreedyDone(words, remainingText, 3 - |matchedWords|);
        break;
      }
    }
    GreedyDone(words, remainingText, 3 - |matchedWords|);
    results := PartialResults(d, matchedWords);
  }

  /** The partial step never gives exactly one result. */
  lemma PartialNeverSingle(d: Index, t: string)
    requires Valid(d)
    ensures |PartialMatches(d, t)| != 1
  {
    PartialShape(d, t);
  }

  /**
   * `findPartialMatches` returns nothing or two to three partial results; each
   * names one key, whose stripped form has at least four characters, with that
   * key's entries; and the stripped forms, in order, begin the text.
   */
  lemma PartialShape(d: Index, t: string)
    requires Valid(d)
    ensures var r := PartialMatches(d, t);
      r == [] || 2 <= |r| <= 3
    ensures var r := PartialMatches(d, t);
      forall i :: 0 <= i < |r| ==>
        (r[i].kind == Partial && |r[i].words| == 1 && r[i].words[0] in d.items
         && |StripS(r[i].words[0])| >= 4 && r[i].entries == d.items[r[i].words[0]])
    ensures var r := PartialMatches(d, t);
      r != [] ==>
        (|r| == |Segments(d, t)| && StartsWith(t, Stripped(Segments(d, t)))
         && forall i :: 0 <= i < |r| ==> r[i].words == [Segments(d, t)[i]])
  {
    var words := SortByLength(d.keys);
    var ws := Segments(d, t);
    GreedyWords(words, t, 3);
    GreedySplits(words, t, 3);
    SortPermutes(d.keys);
    forall w | w in ws ensures w in d.items && |StripS(w)| >= 4 {
      assert w in multiset(words);
      assert w in multiset(d.keys);
    }
    var rest := GreedyRest(words, t, 3);
    assert t[..|Stripped(ws)|] == Stripped(ws);
  }

  // --------------------------------------------------------- the cascade

  /** The first step: every word of a multi-word selection has four letters or more and their underscore join is a key. */
  predicate PhraseHit(d: Index, t: string) {
    var words := SplitWhitespace(t);
    |words| > 1 && (forall w :: w in words ==> |w| >= 4) && Join(words, '_') in d.items
  }

  /** `findMatches(selectedText)` on the index `d` with the stemmer `stem`. */
  function Matches(d: Index, selectedText: string, stem: string -> string): seq<Match>
    requires Valid(d)
  {
    var t := NormalizePhrase(selectedText);
    var words := SplitWhitespace(t);
    if PhraseHit(d, t) then [Match(Exact, words, d.items[Join(words, '_')])]
    else if t in d.items then [Match(Exact, [t], d.items[t])]
    else
      var s := stem(t);
      if s in d.items then [Match(Stemmed, [t], d.items[s])]
      else match FirstContaining(Flatten(d), t)
        case Some(e) => [Match(Translation, [t], [e])]
        case None =>
          match CorrectStem(s, d)
          case Some(c) => [Match(Corrected, [t], d.items[c])]
          case None => PartialMatches(d, t)
  }

  /**
   * `findMatches` as the script runs it. The cascade is the one `Matches`
   * states; this method exists so that the correction step and the partial
   * step run as the loops `CorrectStemmedWord` and `FindPartialMatches`.
   */
  method FindMatches(d: Index, selectedText: string, stem: string -> string) returns (matches: seq<Match>)
    requires Valid(d)
    ensures matches == Matches(d, selectedText, stem)
  {
    var normalizedText := NormalizePhrase(selectedText);
    var words := SplitWhitespace(normalizedText);
    if |words| > 1 && forall w :: w in words ==> |w| >= 4 {
      var phrase := Join(words, '_');
      if phrase in d.items {
        return [Match(Exact, words, d.items[phrase])];
      }
    }
    if normalizedText in d.items {
      return [Match(Exact, [normalizedText], d.items[normalizedText])];
    }
    var stemmedWord := stem(normalizedText);
    if stemmedWord in d.items {
      return [Match(Stemmed, [normalizedText], d.items[stemmedWord])];
    }
    var matchingEntry := FirstContaining(Flatten(d), normalizedText);
    if matchingEntry.Some? {
      return [Match(Translation, [normalizedText], [matchingEntry.value])];
    }
    var correctedWord := CorrectStemmedWord(stemmedWord, d);
    if correctedWord.Some? {
      return [Match(Corrected, [normalizedText], d.items[correctedWord.value])];
    }
    matches := FindPartialMatches(d, normalizedText);
  }

  // ------------------------------------------------- precedence lemmas

  /** Either exactly one non-partial result, or exactly the partial step's output. */
  lemma MatchesOneOrPartial(d: Index, selectedText: string, stem: string -> string)
    requires Valid(d)
    ensures var r := Matches(d, selectedText, stem);
      (|r| == 1 && r[0].kind != Partial) || r == PartialMatches(d, NormalizePhrase(selectedText))
  {
  }

  /** A key equal to the whole normalised text gives an exact result, and the stemmer is never consulted. */
  lemma KeyIsExact(d: Index, selectedText: string, stem: string -> string, other: string -> string)
    requires Valid(d) && NormalizePhrase(selectedText) in d.items
    ensures var r := Matches(d, selectedText, stem);
      |r| == 1 && r[0].kind == Exact
    ensures Matches(d, selectedText, stem) == Matches(d, selectedText, other)
    ensures var t := NormalizePhrase(selectedText);
      !PhraseHit(d, t) ==> Matches(d, selectedText, stem) == [Match(Exact, [t], d.items[t])]
  {
  }

  /** A single-word selection that is a key is that key's exact match. */
  lemma SingleWordExact(d: Index, selectedText: string, stem: string -> string)
    requires Valid(d)
    requires var t := NormalizePhrase(selectedText); t in d.items && |SplitWhitespace(t)| == 1
    ensures var t := NormalizePhrase(selectedText);
      Matches(d, selectedText, stem) == [Match(Exact, [t], d.items[t])]
  {
  }

  /** A stemmed result means neither the phrase nor the text is a key, and carries the stem's entries. */
  lemma StemmedMeans(d: Index, selectedText: string, stem: string -> string)
    requires Valid(d)
    requires var r := Matches(d, selectedText, stem); |r| == 1 && r[0].kind == Stemmed
    ensures var t := NormalizePhrase(selectedText); var r := Matches(d, selectedText, stem);
      && !PhraseHit(d, t) && t !in d.items && stem(t) in d.items
      && r[0].entries == d.items[stem(t)] && r[0].words == [t]
  {
    var t := NormalizePhrase(selectedText);
    PartialNeverSingle(d, t);
    assert !PhraseHit(d, t) && t !in d.items;
    assert stem(t) in d.items;
  }

  /**
   * A translation result means no key step succeeded, and carries the first
   * entry, in key order and then list order, whose translation contains the text.
   */
  lemma TranslationMeans(d: Index, selectedText: string, stem: string -> string)
    requires Valid(d)
    requires var r := Matches(d, selectedText, stem); |r| == 1 && r[0].kind == Translation
    ensures var t := NormalizePhrase(selectedText); var r := Matches(d, selectedText, stem);
      && !PhraseHit(d, t) && t !in d.items && stem(t) !in d.items
      && |r[0].entries| == 1 && FirstContaining(Flatten(d), t) == Some(r[0].entries[0])
  {
    var t := NormalizePhrase(selectedText);
    PartialNeverSingle(d, t);
    assert !PhraseHit(d, t) && t !in d.items;
    assert stem(t) !in d.items;
    var f := FirstContaining(Flatten(d), t);
    assert f.Some? && Matches(d, selectedText, stem) == [Match(Translation, [t], [f.value])];
  }

  /** A corrected result means no key or translation step succeeded, and carries a vowel correction's entries. */
  lemma CorrectedMeans(d: Index, selectedText: string, stem: string -> string)
    requires Valid(d)
    requires var r := Matches(d, selectedText, stem); |r| == 1 && r[0].kind == Corrected
    ensures var t := NormalizePhrase(selectedText); var r := Matches(d, selectedText, stem);
      && !PhraseHit(d, t) && t !in d.items && stem(t) !in d.items
      && (forall e :: e in Flatten(d) ==> !TranslationContains(e, t))
      && CorrectStem(stem(t), d).Some? && r[0].entries == d.items[CorrectStem(stem(t), d).value]
  {
    var t := NormalizePhrase(selectedText);
    PartialNeverSingle(d, t);
    assert !PhraseHit(d, t) && t !in d.items;
    assert stem(t) !in d.items;
  }

  /** Partial results are given only when every earlier step failed. */
  lemma PartialMeans(d: Index, selectedText: string, stem: string -> string)
    requires Valid(d)
    requires Matches(d, selectedText, stem) != [] && Matches(d, selectedText, stem)[0].kind == Partial
    ensures var t := NormalizePhrase(selectedText);
      && !PhraseHit(d, t) && t !in d.items && stem(t) !in d.items
      && (forall e :: e in Flatten(d) ==> !TranslationContains(e, t))
      && CorrectStem(stem(t), d).None?
      && Matches(d, selectedText, stem) == PartialMatches(d, t)
  {
  }
}
