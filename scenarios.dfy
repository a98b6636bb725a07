/**
 * Concrete runs of the match cascade on small indexes: a stemmed lookup after
 * loading one CSV row, a vowel correction, and the two behaviours of the
 * partial step that its code fixes (a short key is never a segment, and an
 * unmatched remainder is dropped).
 */
module Scenarios {
  import opened Options
  import opened Text
  import opened OrderedMaps
  import opened RowIndex
  import opened DictionaryList
  import opened Dictionaries
  import opened Activation
  import opened BackgroundScript
  import opened Matcher

  /** The row `run,To move fast` parses into its two fields. */
  lemma RunRowParses(row: string, w: string, tr: string)
    requires w == "run" && tr == "To move fast" && row == w + [','] + tr
    ensures ParseRow(row) == Some(Row(w, tr))
  {
    assert forall j :: 0 <= j < |tr| ==> tr[j] != ',';
    SplitOnAbsent(tr, ',');
    assert Unpadded(tr);
    assert forall j :: 0 <= j < |w| ==> w[j] != ',';
    StripQuotesOfUnquoted(tr);
    ParseRowOfFormatted(w, tr);
  }

  /** The same text, read as a whole CSV file, is one row. */
  lemma RunRowIsOneRow(row: string, w: string, tr: string)
    requires w == "run" && tr == "To move fast" && row == w + [','] + tr
    ensures Rows(row) == [row]
  {
    assert |row| == 16;
    forall j | 0 <= j < |row| ensures row[j] != '\n' {
      if j < 3 { assert row[j] == w[j]; } else if j > 3 { assert row[j] == tr[j - 4]; }
    }
    assert row[0] == 'r' && row[15] == 't';
    TrimOfTrimmed(row);
    SplitOnAbsent(row, '\n');
  }

  /** `run` is already normalised and has no space, so it is its only key. */
  lemma RunVariations(w: string)
    requires w == "run"
    ensures Variations(NormalizePhrase(w)) == [w]
  {
    LowerWord(w);
    assert ' ' !in w;
  }

  /** Loading the single row `run,To move fast` files its entry under `run` and nothing else. */
  lemma RunIndex(row: string, w: string, tr: string, name: string)
    requires w == "run" && tr == "To move fast" && row == w + [','] + tr
    ensures LoadIndex(row, name) == OMap([w], map[w := [Entry(w, tr, name)]])
  {
    RunVariations(w);
    RunRowIsOneRow(row, w, tr);
    RunRowParses(row, w, tr);
    var e := Entry(w, tr, name);
    var x := Parsed([w], e);
    assert Parser(name)(row) == Some(x);
    assert [row][..0] == [];
    assert Build([row], Parser(name)) == AddRow(Empty(), Some(x));
    assert PushAll(Empty(), [w], e) == Push(PushAll(Empty(), [], e), w, e);
    PushIntoEmpty(w, e);
  }

  /** One push into the empty object makes a one-key object. */
  lemma PushIntoEmpty<V>(k: string, v: V)
    ensures Push(Empty(), k, v) == OMap([k], map[k := [v]])
  {
    var r := Push(Empty(), k, v);
    assert r.keys == [k];
    assert r.items.Keys == {k} && r.items[k] == [v];
    assert r.items == map[k := [v]];
  }

  /** Installing `default` alone stores it unfiltered, which is what filtering by `default` gives. */
  lemma RunFiltered(row: string, w: string, tr: string, n: string)
    requires w == "run" && tr == "To move fast" && row == w + [','] + tr && n == DefaultName
    ensures Filtered(Put(Empty(), n, LoadIndex(row, n)), [n]) == LoadIndex(row, n)
  {
    var d := LoadIndex(row, n);
    var ds := Put(Empty(), n, d);
    InstallDefaultCoherent(row, n, ds, [DictRecord(n, true, None)], d);
    assert EnabledNames([DictRecord(n, true, None)]) == [n];
  }

  /** An enabled dictionary with an empty keyword list is active on every page. */
  lemma DefaultAlwaysActive(n: string, pageText: string)
    ensures ActiveDictionaries([DictRecord(n, true, Some([]))], pageText) == [n]
  {
    var r := DictRecord(n, true, Some([]));
    assert IsActive(r, pageText);
    assert [r][1..] == [];
  }

  /** On the index of `run` alone, `running` is not a key but its stem is. */
  lemma StemmedOnOneKey(d: Index, e: Entry, t: string, stem: string -> string)
    requires e.word == "run" && d == OMap([e.word], map[e.word := [e]])
    requires t == "running" && stem(t) == e.word
    ensures Matches(d, t, stem) == [Match(Stemmed, [t], [e])]
  {
    LowerWord(t);
    assert |t| != |e.word|;
    assert d.items.Keys == {e.word};
  }

  /**
   * With only `default` listed, enabled and without keywords, every page
   * activates it, and the selection `running` under a stemmer that reduces it to
   * `run` gives one stemmed match carrying the row's entry.
   */
  lemma RunningIsStemmed(row: string, w: string, tr: string, n: string, pageText: string, stem: string -> string)
    requires w == "run" && tr == "To move fast" && row == w + [','] + tr && n == DefaultName
    requires stem("running") == w
    ensures ActiveDictionaries([DictRecord(n, true, Some([]))], pageText) == [n]
    ensures Matches(Filtered(Put(Empty(), n, LoadIndex(row, n)), [n]), "running", stem)
      == [Match(Stemmed, ["running"], [Entry(w, tr, n)])]
  {
    DefaultAlwaysActive(n, pageText);
    RunFiltered(row, w, tr, n);
    RunIndex(row, w, tr, n);
    StemmedOnOneKey(LoadIndex(row, n), Entry(w, tr, n), "running", stem);
  }

  /** An index with one key lists that key's entries as all its entries. */
  lemma MakeIndex(d: Index, e: Entry, w: string)
    requires d == OMap([w], map[w := [e]])
    ensures Valid(d) && Flatten(d) == [e]
  {
    assert Values(d) == [[e]];
    assert Concat([[e]]) == [e] + Concat<Entry>([]);
  }

  /** `membuat` is its own lower-casing. */
  lemma MembuatIsLower(tr: string)
    requires tr == "membuat"
    ensures LowerStr(tr) == tr
  {
    LowerStrOfLower(tr);
  }

  /** `making` does not occur in `membuat`. */
  lemma MakingNotInMembuat(tr: string, t: string)
    requires tr == "membuat" && t == "making"
    ensures !IsSubstring(tr, t)
  {
    forall s | 0 <= s <= |tr| - |t|
      ensures !OccursAt(tr, t, s)
    {
      if s == 0 {
        assert tr[s..s + |t|][1] != t[1];
      } else {
        assert tr[s..s + |t|][0] != t[0];
      }
    }
  }

  /** The translation of `make` does not contain `making`, so the translation step finds nothing. */
  lemma MembuatNotInMaking(e: Entry, t: string)
    requires e.translationEntry == "membuat" && t == "making"
    ensures FirstContaining([e], t) == None
  {
    MembuatIsLower(e.translationEntry);
    MakingNotInMembuat(e.translationEntry, t);
    assert !TranslationContains(e, t);
  }

  /** Of `maka` and `make`, only `make` is a key, so the stem `mak` is corrected to it. */
  lemma MakCorrected(stem: string, w: string, d: Index)
    requires stem == "mak" && w == "make" && d.items.Keys == {w}
    ensures CorrectStem(stem, d) == Some(w)
  {
    assert Vowels[0] == 'a' && Vowels[1] == 'e';
    assert (stem + ['a'])[3] != w[3];
    assert stem + ['e'] == w;
    CorrectStemFirst(stem, d, 1);
  }

  /** With the key `make` and the stem `mak`, the correction step answers `making` with the entries of `make`. */
  lemma MakingIsCorrected(d: Index, e: Entry, t: string, stem: string -> string)
    requires e == Entry("make", "membuat", "default") && d == OMap([e.word], map[e.word := [e]])
    requires t == "making" && stem(t) == "mak"
    ensures Matches(d, t, stem) == [Match(Corrected, [t], [e])]
  {
    MakeIndex(d, e, e.word);
    MembuatNotInMaking(e, t);
    MakCorrected(stem(t), e.word, d);
    LowerWord(t);
    assert !PhraseHit(d, t);
    assert t !in d.items && stem(t) !in d.items;
  }

  /**
   * With the keys `cat` and `fish`, `catfish` has no partial segmentation: `cat`
   * is shorter than four characters and `fish` does not begin the text.
   */
  lemma CatfishHasNoSegments()
    ensures var d: Index := OMap(["cat", "fish"], map["cat" := [], "fish" := []]);
      Segments(d, "catfish") == [] && PartialMatches(d, "catfish") == []
  {
    var d: Index := OMap(["cat", "fish"], map["cat" := [], "fish" := []]);
    assert SortByLength(["cat", "fish"]) == ["fish", "cat"];
    assert !Fits("fish", "catfish");
    assert !Fits("cat", "catfish");
    assert FitIndex(["fish", "cat"], "catfish", 0) == 2;
  }

  /**
   * With the keys `kucing` and `ikan`, `kucingikanxyz` is answered with two
   * partial results although `xyz` is left over.
   */
  lemma PartialDropsRemainder()
    ensures var d: Index := OMap(["kucing", "ikan"], map["kucing" := [], "ikan" := []]);
      && Segments(d, "kucingikanxyz") == ["kucing", "ikan"]
      && GreedyRest(SortByLength(d.keys), "kucingikanxyz", 3) == "xyz"
      && |PartialMatches(d, "kucingikanxyz")| == 2
  {
    var d: Index := OMap(["kucing", "ikan"], map["kucing" := [], "ikan" := []]);
    var words := ["kucing", "ikan"];
    assert SortByLength(words) == words;
    assert Fits("kucing", "kucingikanxyz");
    assert FitIndex(words, "kucingikanxyz", 0) == 0;
    var rest := "kucingikanxyz"[6..];
    assert rest == "ikanxyz";
    assert !Fits("kucing", rest) && Fits("ikan", rest);
    assert FitIndex(words, rest, 0) == 1;
    assert rest[4..] == "xyz";
    assert !Fits("kucing", "xyz") && !Fits("ikan", "xyz");
    assert FitIndex(words, "xyz", 0) == 2;
    GreedyUnfold(words, "kucingikanxyz", 3, 0);
    GreedyUnfold(words, rest, 2, 1);
    GreedyDone(words, "xyz", 1);
  }
}
