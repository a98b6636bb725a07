/**
 * The single-dictionary content script of `src/content.js`: its CSV loader,
 * which files each accepted row's entry under the row's normalised word and
 * that word with an `s` appended, and its double-click lookup, which tries the
 * normalised selection, then its stem, and otherwise shows nothing. The fetch
 * of the bundled file and the popup's markup are not modelled; the CSV text,
 * the selection and the stemmer are parameters.
 */
module LegacyContent {
  import opened Options
  import opened Text
  import opened OrderedMaps
  import opened RowIndex

  /** `{ translation, pronunciation, meaning }`; a field the row does not have is `undefined` (`None`). */
  datatype LegacyEntry = LegacyEntry(translation: string, pronunciation: Option<string>, meaning: Option<string>)

  /** The loader's object: normalised key to the entries filed under it, in insertion order. */
  type LegacyIndex = OMap<seq<LegacyEntry>>

  // ------------------------------------------------------------ CSV rows

  /** `item.trim().replace(/^"|"$/g, '')` */
  function CleanField(item: string): string {
    StripQuotes(Trim(item))
  }

  /** The field bound to position `i` of `const [word, translation, pronunciation, meaning] = fields`. */
  function FieldAt(fields: seq<string>, i: nat): (r: Option<string>)
    ensures r.Some? <==> i < |fields|
    ensures r.Some? ==> r.value == CleanField(fields[i])
  {
    if i < |fields| then Some(CleanField(fields[i])) else None
  }

  /** An accepted row: its word and the entry it contributes. */
  datatype LegacyRow = LegacyRow(word: string, entry: LegacyEntry)

  /** `row.split(',')` cleaned field by field; the row is accepted when `word && translation`. */
  function ParseLegacyRow(row: string): (r: Option<LegacyRow>)
    ensures r.Some? ==> r.value.word != [] && r.value.entry.translation != []
  {
    var fields := SplitOn(row, ',');
    var word := CleanField(fields[0]);
    var translation := FieldAt(fields, 1);
    if word != [] && translation.Some? && translation.value != [] then
      Some(LegacyRow(word, LegacyEntry(translation.value, FieldAt(fields, 2), FieldAt(fields, 3))))
    else None
  }

  /** A row without a comma has no translation and is skipped. */
  lemma LegacyRowOneField(row: string)
    requires ',' !in row
    ensures ParseLegacyRow(row) == None
  {
    assert SplitOn(row, ',') == [row];
  }

  /**
   * A row of two comma-free fields is read as those fields, cleaned, and has
   * neither pronunciation nor meaning; it is accepted exactly when both cleaned
   * fields are non-empty.
   */
  lemma LegacyRowOfFields(w: string, tr: string)
    requires ',' !in w && ',' !in tr
    ensures ParseLegacyRow(w + [','] + tr) ==
      if CleanField(w) != [] && CleanField(tr) != [] then
        Some(LegacyRow(CleanField(w), LegacyEntry(CleanField(tr), None, None)))
      else None
  {
    var fields := SplitOn(w + [','] + tr, ',');
    SplitTwo(w, tr);
    assert FieldAt(fields, 1) == Some(CleanField(tr));
    assert FieldAt(fields, 2) == None && FieldAt(fields, 3) == None;
  }

  /** Two comma-free fields joined by a comma split back into those fields. */
  lemma SplitTwo(w: string, tr: string)
    requires ',' !in w && ',' !in tr
    ensures SplitOn(w + [','] + tr, ',') == [w, tr]
  {
    var row := w + [','] + tr;
    IndexOfCharPrefix(w, tr, ',');
    SplitOnStep(row, ',');
    assert row[..|w|] == w;
    assert row[|w| + 1..] == tr;
    SplitOnAbsent(tr, ',');
  }

  /** `[normalizedWord, `${normalizedWord}s`]` */
  function PluralVariations(n: string): (r: seq<string>)
    ensures |r| == 2 && r[0] == n && r[1] == n + ['s']
  {
    [n, n + ['s']]
  }

  /** What one row contributes: its entry, under its word with everything but `a`-`z` removed, and that word's plural. */
  function LegacyContribution(row: string): Option<Parsed<LegacyEntry>> {
    match ParseLegacyRow(row)
    case None => None
    case Some(x) => Some(Parsed(PluralVariations(NormalizeLetters(x.word)), x.entry))
  }

  /** The object `loadDictionary` resolves with for the CSV text `csv`. */
  function LoadLegacy(csv: string): (d: LegacyIndex)
    ensures Valid(d) && NoEmptyLists(d)
  {
    Build(Rows(csv), LegacyContribution)
  }

  /** The row loop of `loadDictionary`. */
  method LoadDictionary(csv: string) returns (dictionary: LegacyIndex)
    ensures dictionary == LoadLegacy(csv)
  {
    var rows := SplitOn(Trim(csv), '\n');
    dictionary := BuildIndex(rows, LegacyContribution);
  }

  /** The normalised word of the `i`-th row, when that row is accepted. */
  function NormalizedWordOf(rows: seq<string>, i: nat): string
    requires i < |rows| && ParseLegacyRow(rows[i]).Some?
  {
    NormalizeLetters(ParseLegacyRow(rows[i]).value.word)
  }

  /** The `i`-th row is accepted and `k` is its normalised word, with or without one appended `s`. */
  predicate RowKey(rows: seq<string>, i: int, k: string) {
    && 0 <= i < |rows| && ParseLegacyRow(rows[i]).Some?
    && (k == NormalizedWordOf(rows, i) || k == NormalizedWordOf(rows, i) + ['s'])
  }

  /**
   * The loaded object holds a key exactly when it is an accepted row's
   * normalised word, with or without one appended `s`.
   */
  lemma LegacyKeys(csv: string, k: string)
    ensures k in LoadLegacy(csv).items <==> exists i :: RowKey(Rows(csv), i, k)
  {
    var rows := Rows(csv);
    BuildContents(rows, LegacyContribution, k);
    if k in LoadLegacy(csv).items {
      var i :| 0 <= i < |rows| && LegacyContribution(rows[i]).Some? && k in LegacyContribution(rows[i]).value.variations;
      ContributionKey(rows, i, k);
    }
    if exists i :: RowKey(rows, i, k) {
      var i :| RowKey(rows, i, k);
      ContributionKey(rows, i, k);
      assert Registers(rows, LegacyContribution, k);
    }
  }

  /** A row contributes under `k` exactly when `k` is one of its two keys. */
  lemma ContributionKey(rows: seq<string>, i: int, k: string)
    requires 0 <= i < |rows|
    ensures (LegacyContribution(rows[i]).Some? && k in LegacyContribution(rows[i]).value.variations) <==> RowKey(rows, i, k)
  {
  }

  /** Every key of the loaded object is made of the letters `a` to `z` only. */
  lemma LegacyKeyLetters(csv: string, k: string)
    requires k in LoadLegacy(csv).items
    ensures forall j :: 0 <= j < |k| ==> IsLowerLetter(k[j])
  {
    LegacyKeys(csv, k);
    var rows := Rows(csv);
    var i :| RowKey(rows, i, k);
    RowKeyLetters(rows, i, k);
  }

  /** Either key of an accepted row is made of the letters `a` to `z` only. */
  lemma RowKeyLetters(rows: seq<string>, i: int, k: string)
    requires RowKey(rows, i, k)
    ensures forall j :: 0 <= j < |k| ==> IsLowerLetter(k[j])
  {
    var n := NormalizedWordOf(rows, i);
    assert forall j :: 0 <= j < |n| ==> IsLowerLetter(n[j]);
    if k != n {
      assert k == n + ['s'];
      forall j | 0 <= j < |k| ensures IsLowerLetter(k[j]) {
        if j < |n| { assert k[j] == n[j]; }
      }
    }
  }

  /** Each accepted row's entry is filed under the row's normalised word and under its plural. */
  lemma LegacyEntryFiled(csv: string, i: int)
    requires 0 <= i < |Rows(csv)| && ParseLegacyRow(Rows(csv)[i]).Some?
    ensures var x := ParseLegacyRow(Rows(csv)[i]).value;
      var n := NormalizeLetters(x.word);
      && x.entry in Get(LoadLegacy(csv), n)
      && x.entry in Get(LoadLegacy(csv), n + ['s'])
  {
    var rows := Rows(csv);
    var x := ParseLegacyRow(rows[i]).value;
    var n := NormalizeLetters(x.word);
    assert LegacyContribution(rows[i]) == Some(Parsed([n, n + ['s']], x.entry));
    FiledUnderHas(rows, LegacyContribution, i, n);
    FiledUnderHas(rows, LegacyContribution, i, n + ['s']);
    BuildContents(rows, LegacyContribution, n);
    BuildContents(rows, LegacyContribution, n + ['s']);
  }

  /** Every entry of the loaded object is an accepted row's entry, filed under that row's word or its plural. */
  lemma LegacyEntryFrom(csv: string, k: string, e: LegacyEntry)
    requires e in Get(LoadLegacy(csv), k)
    ensures exists i :: RowKey(Rows(csv), i, k) && ParseLegacyRow(Rows(csv)[i]).value.entry == e
  {
    var rows := Rows(csv);
    BuildContents(rows, LegacyContribution, k);
    FiledUnderFrom(rows, LegacyContribution, k, e);
    var i :| 0 <= i < |rows| && LegacyContribution(rows[i]).Some? && LegacyContribution(rows[i]).value.entry == e
      && k in LegacyContribution(rows[i]).value.variations;
    ContributionKey(rows, i, k);
  }

  // -------------------------------------------------------------- lookup

  /** The popup `createPopup(entries, word, stemmedPart)` is asked for; `stemmedPart` is `null` after an exact hit. */
  datatype LegacyPopup = LegacyPopup(entries: seq<LegacyEntry>, word: string, stemmedPart: Option<string>)

  /** `selection.toString().trim().toLowerCase().replace(/[^a-z]/g, '')` */
  function SelectionKey(selection: string): (r: string)
    ensures forall j :: 0 <= j < |r| ==> IsLowerLetter(r[j])
  {
    NormalizeLetters(Trim(selection))
  }

  /** `s.slice(n)` for a non-negative `n`: empty once `n` passes the end. */
  function SliceFrom(s: string, n: nat): (r: string)
    ensures n <= |s| ==> s == s[..n] + r
    ensures n >= |s| ==> r == []
  {
    if n <= |s| then s[n..] else []
  }

  /** The double-click handler: the key itself, or else its stem, or no popup. */
  function LegacyLookup(d: LegacyIndex, selection: string, stem: string -> string): (r: Option<LegacyPopup>)
    ensures r.Some? <==> SelectionKey(selection) in d.items || stem(SelectionKey(selection)) in d.items
    ensures r.Some? ==> r.value.word == Trim(selection)
    ensures r.Some? && r.value.stemmedPart.None? ==>
      SelectionKey(selection) in d.items && r.value.entries == d.items[SelectionKey(selection)]
    ensures r.Some? && r.value.stemmedPart.Some? ==>
      var t := SelectionKey(selection);
      && t !in d.items && stem(t) in d.items
      && r.value.entries == d.items[stem(t)]
      && (|stem(t)| <= |t| ==> t == t[..|stem(t)|] + r.value.stemmedPart.value)
  {
    var selectedText := SelectionKey(selection);
    if selectedText in d.items then
      Some(LegacyPopup(d.items[selectedText], Trim(selection), None))
    else
      var stemmedWord := stem(selectedText);
      if stemmedWord in d.items then
        Some(LegacyPopup(d.items[stemmedWord], Trim(selection), Some(SliceFrom(selectedText, |stemmedWord|))))
      else None
  }

  /** A selection that is a key is answered with that key's entries whatever the stemmer, which is never consulted. */
  lemma LegacyExactWins(d: LegacyIndex, selection: string, stem: string -> string, other: string -> string)
    requires SelectionKey(selection) in d.items
    ensures LegacyLookup(d, selection, stem) == LegacyLookup(d, selection, other)
    ensures LegacyLookup(d, selection, stem) == Some(LegacyPopup(d.items[SelectionKey(selection)], Trim(selection), None))
  {
  }

  /**
   * Selecting the plural of an accepted row's word finds that row's entry
   * directly, because the loader filed it under the plural as well.
   */
  lemma LegacyPluralFound(csv: string, i: int, selection: string, stem: string -> string)
    requires 0 <= i < |Rows(csv)| && ParseLegacyRow(Rows(csv)[i]).Some?
    requires SelectionKey(selection) == NormalizedWordOf(Rows(csv), i) + ['s']
    ensures var r := LegacyLookup(LoadLegacy(csv), selection, stem);
      && r.Some? && r.value.stemmedPart.None?
      && ParseLegacyRow(Rows(csv)[i]).value.entry in r.value.entries
  {
    LegacyEntryFiled(csv, i);
  }
}
