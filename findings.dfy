/**
 * Both CSV loaders create a key's array with `if (!d[v]) d[v] = []` and then
 * push onto it. On an empty object the test is false for the name
 * `constructor`, which every object inherits, so no array is made and `push`
 * is called on the inherited function, which throws. The one-row file
 * `constructor,x` shows it for either loader; the corrected loop, which the
 * rest of the model uses, files the row under `constructor`.
 */
module Findings {
  import opened Options
  import opened Text
  import opened OrderedMaps
  import opened RowIndex
  import opened Dictionaries
  import opened LegacyContent

  predicate LowerWordOf(s: string) {
    s != [] && forall j :: 0 <= j < |s| ==> IsLowerLetter(s[j])
  }

  /** A row `w,tr` of two lower-case words is the only row of the file made of it. */
  lemma LetterRowIsOneRow(w: string, tr: string)
    requires LowerWordOf(w) && LowerWordOf(tr)
    ensures Rows(w + [','] + tr) == [w + [','] + tr]
  {
    var row := w + [','] + tr;
    forall j | 0 <= j < |row| ensures row[j] != '\n' {
      if j < |w| {
        assert row[j] == w[j];
      } else if j > |w| {
        assert row[j] == tr[j - |w| - 1];
      }
    }
    assert row[0] == w[0] && row[|row| - 1] == tr[|tr| - 1];
    TrimOfTrimmed(row);
    SplitOnAbsent(row, '\n');
  }

  /** A lower-case word has no comma, no quote and no padding. */
  lemma PlainWord(s: string)
    requires LowerWordOf(s)
    ensures ',' !in s && Unpadded(s) && StripQuotes(s) == s && CleanField(s) == s
  {
    assert forall j :: 0 <= j < |s| ==> s[j] != ',';
    TrimOfTrimmed(s);
    StripQuotesOfUnquoted(s);
  }

  /** The background loader splits `w,tr` into the word `w` and the translation `tr`. */
  lemma LetterRowParses(w: string, tr: string)
    requires LowerWordOf(w) && LowerWordOf(tr)
    ensures ParseRow(w + [','] + tr) == Some(Row(w, tr))
  {
    PlainWord(w);
    PlainWord(tr);
    SplitOnAbsent(tr, ',');
    ParseRowOfFormatted(w, tr);
  }

  /** A lower-case word is filed under itself alone. */
  lemma LetterWordVariations(w: string)
    requires LowerWordOf(w)
    ensures Variations(NormalizePhrase(w)) == [w]
  {
    LowerWord(w);
    assert forall j :: 0 <= j < |w| ==> w[j] != ' ';
  }

  /** The background loader reads `w,tr` as the entry of `w`, filed under `w` alone. */
  lemma LetterRowContribution(w: string, tr: string, name: string)
    requires LowerWordOf(w) && LowerWordOf(tr)
    ensures Contribution(w + [','] + tr, name) == Some(Parsed([w], Entry(w, tr, name)))
  {
    LetterRowParses(w, tr);
    LetterWordVariations(w);
  }

  /** The legacy loader reads `w,tr` as the translation `tr`, filed under `w` and `w` plus `s`. */
  lemma LegacyLetterRow(w: string, tr: string)
    requires LowerWordOf(w) && LowerWordOf(tr)
    ensures LegacyContribution(w + [','] + tr) == Some(Parsed([w, w + ['s']], LegacyEntry(tr, None, None)))
  {
    PlainWord(w);
    PlainWord(tr);
    LegacyRowOfFields(w, tr);
    NormalizeLettersOfLower(w);
  }

  /** `loadDictionary` in the background throws on `constructor,x`; the corrected loader files its entry. */
  lemma ConstructorRowThrows(w: string, tr: string, name: string)
    requires w == "constructor" && tr == "x"
    ensures BuildAsWritten(Rows(w + [','] + tr), Parser(name)) == None
    ensures Entry(w, tr, name) in Get(LoadIndex(w + [','] + tr, name), w)
  {
    var row := w + [','] + tr;
    assert LowerWordOf(w) && LowerWordOf(tr);
    LetterRowIsOneRow(w, tr);
    LetterRowContribution(w, tr, name);
    assert Parser(name)(row) == Some(Parsed([w], Entry(w, tr, name)));
    OneInheritedRow(row, Parser(name));
  }

  /** The legacy `loadDictionary` throws on `constructor,x`; the corrected loader files its entry. */
  lemma LegacyConstructorRowThrows(w: string, tr: string)
    requires w == "constructor" && tr == "x"
    ensures BuildAsWritten(Rows(w + [','] + tr), LegacyContribution) == None
    ensures LegacyEntry(tr, None, None) in Get(LoadLegacy(w + [','] + tr), w)
  {
    var row := w + [','] + tr;
    assert LowerWordOf(w) && LowerWordOf(tr);
    LetterRowIsOneRow(w, tr);
    LegacyLetterRow(w, tr);
    OneInheritedRow(row, LegacyContribution);
  }
}
