/**
 * Which dictionaries a page activates (`updateActiveDictionaries` in
 * `content.js`): an enabled dictionary without keywords is always active, one
 * with keywords only when at least one of them occurs in the page's visible
 * text. The debounce and the observer that trigger the update are not modelled;
 * the page text is a parameter.
 */
module Activation {
  import opened Options
  import opened Text
  import opened Search
  import opened DictionaryList

  /** The number of characters of the page the keywords are looked for in. */
  const VisibleLimit := 10000

  /** `document.body.innerText.slice(0, 10000)`, with the body's text as a parameter. */
  function VisibleText(bodyText: string): (r: string)
    ensures |r| == if |bodyText| <= VisibleLimit then |bodyText| else VisibleLimit
    ensures r == bodyText[..|r|]
  {
    if |bodyText| <= VisibleLimit then bodyText else bodyText[..VisibleLimit]
  }

  /** `dict.enabled && (!dict.keywords || dict.keywords.length === 0 || searchKeywords(visibleText, dict.keywords))` */
  predicate IsActive(d: DictRecord, text: string) {
    d.enabled && (d.keywords.None? || |d.keywords.value| == 0 || AnyKeywordFound(text, d.keywords.value))
  }

  /** `dictionaryList.filter(dict => IsActive(dict, text)).map(dict => dict.name)` */
  function ActiveDictionaries(list: seq<DictRecord>, text: string): (r: seq<string>)
    ensures |r| <= |list|
    ensures forall n :: n in r <==> exists i :: 0 <= i < |list| && list[i].name == n && IsActive(list[i], text)
  {
    if list == [] then []
    else
      var rest := ActiveDictionaries(list[1..], text);
      assert forall i :: 0 < i < |list| ==> list[i] == list[1..][i - 1];
      (if IsActive(list[0], text) then [list[0].name] else []) + rest
  }

  /** Splitting the list splits the result: active names come out in list order. */
  lemma {:induction false} ActiveAppend(a: seq<DictRecord>, b: seq<DictRecord>, text: string)
    ensures ActiveDictionaries(a + b, text) == ActiveDictionaries(a, text) + ActiveDictionaries(b, text)
  {
    if a != [] {
      assert (a + b)[1..] == a[1..] + b;
      ActiveAppend(a[1..], b, text);
    } else {
      assert a + b == b;
    }
  }

  /** Only enabled dictionaries are active, and without keywords every enabled one is. */
  lemma {:induction false} ActiveWithinEnabled(list: seq<DictRecord>, text: string)
    ensures forall n :: n in ActiveDictionaries(list, text) ==> n in EnabledNames(list)
    ensures (forall i :: 0 <= i < |list| ==> list[i].keywords.None?) ==> ActiveDictionaries(list, text) == EnabledNames(list)
  {
    if list != [] {
      ActiveWithinEnabled(list[1..], text);
    }
  }

  /** The filter as the content script runs it, looking each dictionary's keywords up in turn. */
  method ComputeActiveDictionaries(list: seq<DictRecord>, text: string) returns (active: seq<string>)
    ensures active == ActiveDictionaries(list, text)
  {
    active := [];
    for i := 0 to |list|
      invariant active == ActiveDictionaries(list[..i], text)
    {
      var d := list[i];
      var keep := d.enabled;
      if keep && d.keywords.Some? && |d.keywords.value| != 0 {
        keep := SearchKeywords(text, d.keywords.value);
      }
      ActiveAppend(list[..i], [d], text);
      assert list[..i + 1] == list[..i] + [d];
      if keep {
        active := active + [d.name];
      }
    }
    assert list[..|list|] == list;
  }
}
