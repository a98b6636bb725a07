/**
 * The page side of `content.js`: the two values the script keeps at module
 * level (the filtered index `dictionary` and the records `dictionaryList`),
 * how they are refreshed, and what a double click does with the selection.
 * The debounce, the mutation observer and the popup's markup are not
 * modelled; the page's text and the selection are parameters, and the reply
 * to `getFilteredDictionary` is the background's answer computed in place.
 */
module ContentScript {
  import opened Options
  import opened Text
  import opened OrderedMaps
  import opened DictionaryList
  import opened Dictionaries
  import opened Activation
  import opened BackgroundScript
  import opened Matcher

  /** `selectedText.length !== 0 && /^[a-zA-Z\s]+$/.test(selectedText)` */
  predicate IsValidSelection(s: string) {
    s != [] && forall j :: 0 <= j < |s| ==> IsAsciiLetter(s[j]) || IsSpace(s[j])
  }

  /** On a valid selection the normalisation of `findMatches` drops nothing: it only lower-cases. */
  lemma ValidSelectionNormalizes(s: string)
    requires IsValidSelection(s)
    ensures NormalizePhrase(s) == LowerStr(s)
    ensures |NormalizePhrase(s)| == |s|
  {
    NormalizePhraseOfLetters(s);
  }

  /** What a double click shows. */
  datatype Popup =
    | NoPopup
    | SinglePopup(entries: seq<Entry>, selectedText: string, shouldHighlight: bool)
    | CombinationPopup(words: seq<string>, selectedText: string)

  /** `matches.map(m => m.words[0])` */
  function FirstWords(ms: seq<Match>): (r: seq<string>)
    requires forall i :: 0 <= i < |ms| ==> ms[i].words != []
    ensures |r| == |ms| && forall i :: 0 <= i < |ms| ==> r[i] == ms[i].words[0]
  {
    seq(|ms|, i requires 0 <= i < |ms| => ms[i].words[0])
  }

  /** Several results are the partial step's: two or three single keys, each long enough to be a segment. */
  lemma SeveralArePartial(d: Index, selectedText: string, stem: string -> string)
    requires Valid(d) && |Matches(d, selectedText, stem)| > 1
    ensures var r := Matches(d, selectedText, stem);
      && |r| <= 3
      && forall i :: 0 <= i < |r| ==>
        |r[i].words| == 1 && r[i].words[0] in d.items && |StripS(r[i].words[0])| >= 4
  {
    MatchesOneOrPartial(d, selectedText, stem);
    PartialShape(d, NormalizePhrase(selectedText));
  }

  /**
   * `handleDoubleClick` on the index `d`: an invalid selection is ignored, one
   * result opens its popup (highlighted for a stemmed or translation result),
   * several open the combination popup of their words.
   */
  function DoubleClickPopup(d: Index, selection: string, stem: string -> string): (p: Popup)
    requires Valid(d)
    ensures p != NoPopup ==> IsValidSelection(Trim(selection))
    ensures p.SinglePopup? ==> p.selectedText == Trim(selection)
    ensures p.CombinationPopup? ==>
      && p.selectedText == Trim(selection)
      && 2 <= |p.words| <= 3
      && forall i :: 0 <= i < |p.words| ==> p.words[i] in d.items && |StripS(p.words[i])| >= 4
  {
    var selectedText := Trim(selection);
    if !IsValidSelection(selectedText) then NoPopup
    else
      var matches := Matches(d, selectedText, stem);
      if |matches| == 0 then NoPopup
      else if |matches| == 1 then
        SinglePopup(matches[0].entries, selectedText, matches[0].kind == Stemmed || matches[0].kind == Translation)
      else
        SeveralArePartial(d, selectedText, stem);
        CombinationPopup(FirstWords(matches), selectedText)
  }

  /**
   * Double-clicking a single word whose lower-casing is a key opens that key's
   * entries without highlighting, whatever the stemmer does.
   */
  lemma DoubleClickOnKey(d: Index, selection: string, stem: string -> string)
    requires Valid(d)
    requires var s := Trim(selection);
      IsValidSelection(s) && (forall j :: 0 <= j < |s| ==> !IsSpace(s[j])) && LowerStr(s) in d.items
    ensures var s := Trim(selection);
      DoubleClickPopup(d, selection, stem) == SinglePopup(d.items[LowerStr(s)], s, false)
  {
    var s := Trim(selection);
    ValidSelectionNormalizes(s);
    var t := LowerStr(s);
    assert forall j :: 0 <= j < |t| ==> !IsSpace(t[j]);
    SplitWhitespaceOfWord(t);
    SingleWordExact(d, s, stem);
  }

  /** The entries of the index the background answers with all belong to the requested dictionaries. */
  lemma AnsweredEntriesRequested(dictionaries: OMap<Index>, active: seq<string>, k: string, e: Entry)
    requires StoreValid(dictionaries)
    requires e in Get(Filtered(dictionaries, active), k)
    ensures e.dictionaryName in active
  {
    ValuesValid(dictionaries);
    var merged := MergeAll(OwnValues(dictionaries));
    FilterContents(merged, active, k);
    KeepMembers(Get(merged, k), active, e);
  }

  class Page {
    var dictionary: Index
    var dictionaryList: seq<DictRecord>

    ghost predicate Ready()
      reads this
    {
      Valid(dictionary)
    }

    /** `let dictionary = {}; let dictionaryList = [];` */
    constructor()
      ensures Ready()
      ensures dictionary == Empty() && dictionaryList == []
    {
      dictionary := Empty();
      dictionaryList := [];
    }

    /**
     * `loadDictionaryList`: `dictionaryList = result.dictionaryList || []`. The
     * debounced update it then requests is `UpdateActiveDictionaries`.
     */
    method LoadDictionaryList(stored: Option<seq<DictRecord>>)
      requires Ready()
      modifies this
      ensures Ready()
      ensures dictionaryList == (if stored.Some? then stored.value else [])
      ensures dictionary == old(dictionary)
    {
      dictionaryList := if stored.Some? then stored.value else [];
    }

    /**
     * `updateActiveDictionaries`: the names active on a page whose body text is
     * `bodyText`, and the index the background answers with for them.
     */
    method UpdateActiveDictionaries(bodyText: string, background: Background) returns (active: seq<string>)
      requires Ready() && background.Consistent()
      modifies this
      ensures Ready()
      ensures active == ActiveDictionaries(dictionaryList, VisibleText(bodyText))
      ensures dictionaryList == old(dictionaryList)
      ensures dictionary == Filtered(background.dictionaries, active)
    {
      var visibleText := VisibleText(bodyText);
      active := ComputeActiveDictionaries(dictionaryList, visibleText);
      var filtered := background.GetFilteredDictionary(active);
      dictionary := filtered;
    }

    /** `handleDoubleClick` on the current index. */
    method HandleDoubleClick(selection: string, stem: string -> string) returns (p: Popup)
      requires Ready()
      ensures p == DoubleClickPopup(dictionary, selection, stem)
    {
      var selectedText := Trim(selection);
      if !IsValidSelection(selectedText) {
        return NoPopup;
      }
      var matches := FindMatches(dictionary, selectedText, stem);
      if |matches| == 0 {
        p := NoPopup;
      } else if |matches| == 1 {
        p := SinglePopup(matches[0].entries, selectedText, matches[0].kind == Stemmed || matches[0].kind == Translation);
      } else {
        SeveralArePartial(dictionary, selectedText, stem);
        p := CombinationPopup(FirstWords(matches), selectedText);
      }
    }
  }
}
