/**
 * The background script's view of `chrome.storage.local`: the index of every
 * loaded dictionary by name (`dictionaries`), the records of those dictionaries
 * (`dictionaryList`) and the merged index of the enabled ones (`dictionary`).
 * Each message handler is a method that reads and rewrites these three values;
 * the storage round trip and the messages sent afterwards are not modelled.
 */
module BackgroundScript {
  import opened Options
  import opened Text
  import opened OrderedMaps
  import opened RowIndex
  import opened DictionaryList
  import opened Dictionaries

  /** The name the bundled dictionary is installed under. */
  const DefaultName: string := "default"

  /** Every stored index is a well-formed object. */
  ghost predicate StoreValid(dictionaries: OMap<Index>) {
    && Valid(dictionaries)
    && forall n :: n in dictionaries.items ==> Valid(dictionaries.items[n])
  }

  lemma ValuesValid(dictionaries: OMap<Index>)
    requires StoreValid(dictionaries)
    ensures forall i :: 0 <= i < |OwnValues(dictionaries)| ==> Valid(OwnValues(dictionaries)[i])
  {
  }

  /**
   * `filterDictionary(Object.values(dictionaries).reduce(mergeDictionaries, {}), names)`:
   * the index the background answers with for the dictionaries `names`.
   */
  function Filtered(dictionaries: OMap<Index>, names: seq<string>): Index
    requires Valid(dictionaries)
  {
    FilterIndex(MergeAll(OwnValues(dictionaries)), names)
  }

  /**
   * The invariant every handler keeps: the list names exactly the stored
   * dictionaries, once each, and the stored `dictionary` is the filter of the
   * merged indexes by the enabled names.
   */
  ghost predicate Coherent(dictionaries: OMap<Index>, list: seq<DictRecord>, dictionary: Index) {
    && StoreValid(dictionaries)
    && UniqueNames(list)
    && (forall n :: n in dictionaries.items <==> n in Names(list))
    && dictionary == Filtered(dictionaries, EnabledNames(list))
  }

  lemma NamesSnoc(list: seq<DictRecord>, d: DictRecord, n: string)
    ensures n in Names(list + [d]) <==> n in Names(list) || n == d.name
  {
    var r := list + [d];
    if n in Names(r) {
      var i :| 0 <= i < |r| && Names(r)[i] == n;
      if i < |list| {
        assert Names(list)[i] == n;
      }
    }
    if n in Names(list) {
      var i :| 0 <= i < |list| && Names(list)[i] == n;
      assert Names(r)[i] == n;
    }
    assert Names(r)[|list|] == d.name;
  }

  /** Loading keeps every stored index well formed. */
  lemma LoadStoreValid(dictionaries: OMap<Index>, name: string, d: Index)
    requires StoreValid(dictionaries) && Valid(d)
    ensures StoreValid(Put(dictionaries, name, d))
  {
  }

  /** Loading keeps the store coherent. */
  lemma LoadCoherent(dictionaries: OMap<Index>, list: seq<DictRecord>, dictionary: Index, name: string, d: Index,
                     ds: OMap<Index>, l: seq<DictRecord>, filtered: Index)
    requires Coherent(dictionaries, list, dictionary) && Valid(d)
    requires ds == Put(dictionaries, name, d) && l == AddIfAbsent(list, name)
    requires StoreValid(ds) && filtered == Filtered(ds, EnabledNames(l))
    ensures Coherent(ds, l, filtered)
  {
    AddIfAbsentUnique(list, name);
    forall n ensures n in ds.items <==> n in Names(l) {
      if name !in Names(list) {
        NamesSnoc(list, DictRecord(name, true, None), n);
      }
    }
  }

  /** Toggling keeps the store coherent. */
  lemma ToggleCoherent(dictionaries: OMap<Index>, list: seq<DictRecord>, dictionary: Index, name: string)
    requires Coherent(dictionaries, list, dictionary)
    ensures var l := Toggle(list, name); Coherent(dictionaries, l, Filtered(dictionaries, EnabledNames(l)))
  {
    ToggleNames(list, name);
  }

  /** Removing keeps the store coherent. */
  lemma RemoveCoherent(dictionaries: OMap<Index>, list: seq<DictRecord>, dictionary: Index, name: string)
    requires Coherent(dictionaries, list, dictionary)
    ensures var ds := Remove(dictionaries, name);
      var l := RemoveNamed(list, name);
      Coherent(ds, l, Filtered(ds, EnabledNames(l)))
  {
    RemoveNamedNames(list, name);
  }

  /** Updating keywords keeps the store coherent without recomputing `dictionary`. */
  lemma SetKeywordsCoherent(dictionaries: OMap<Index>, list: seq<DictRecord>, dictionary: Index, name: string, keywords: seq<string>)
    requires Coherent(dictionaries, list, dictionary)
    ensures Coherent(dictionaries, SetKeywords(list, name, keywords), dictionary)
  {
    SetKeywordsEnabledNames(list, name, keywords);
  }

  /**
   * On install the `default` index is stored as the merged dictionary without
   * filtering; it is the filtered one all the same, because all its entries
   * belong to `default` and none of its lists is empty.
   */
  lemma InstallCoherent(name: string, d: Index)
    requires Valid(d) && NoEmptyLists(d)
    requires forall k, e :: k in d.items && e in d.items[k] ==> e.dictionaryName == name
    ensures Coherent(Put(Empty(), name, d), [DictRecord(name, true, None)], d)
  {
    var l := [DictRecord(name, true, None)];
    assert EnabledNames(l) == [name];
    assert Names(l) == [name];
    InstallFiltered(name, d);
  }

  /** The one-dictionary store, merged and filtered by that dictionary's name, is its index. */
  lemma InstallFiltered(name: string, d: Index)
    requires Valid(d) && NoEmptyLists(d)
    requires forall k, e :: k in d.items && e in d.items[k] ==> e.dictionaryName == name
    ensures Filtered(Put(Empty(), name, d), [name]) == d
  {
    OwnValuesSingle(name, d);
    assert [d][..0] == [];
    assert MergeAll([d]) == Merge(Empty(), d);
    MergeIntoEmpty(d);
    FilterKeepsAll(d, [name]);
  }

  /** The store the install handler writes is coherent. */
  lemma InstallDefaultCoherent(defaultCsv: string, name: string, ds: OMap<Index>, list: seq<DictRecord>, d: Index)
    requires d == LoadIndex(defaultCsv, name)
    requires ds == Put(Empty(), name, d) && list == [DictRecord(name, true, None)]
    ensures Coherent(ds, list, d)
  {
    forall k, e | k in d.items && e in d.items[k]
      ensures e.dictionaryName == name
    {
      LoadedEntryFrom(defaultCsv, name, k, e);
    }
    InstallCoherent(name, d);
  }

  // ------------------------------------------- the loops of the script

  /** The loader, running the row loop. */
  method ParseDictionary(csv: string, name: string) returns (d: Index)
    ensures d == LoadIndex(csv, name)
  {
    var rows := SplitOn(Trim(csv), '\n');
    d := BuildIndex(rows, Parser(name));
  }

  /** The merge loop of `mergeDictionaries`, over `Object.entries(newEntries)`. */
  method MergeDictionaries(existing: Index, newEntries: Index) returns (merged: Index)
    requires Valid(newEntries)
    ensures merged == Merge(existing, newEntries)
  {
    merged := existing;
    for i := 0 to |newEntries.keys|
      invariant merged == MergePrefix(existing, newEntries, i)
    {
      var key := newEntries.keys[i];
      var value := newEntries.items[key];
      if key in merged.items {
        merged := Put(merged, key, merged.items[key] + value);
      } else {
        merged := Put(merged, key, value);
      }
    }
  }

  /** The `reduce` over the stored indexes. */
  method MergeAllDictionaries(ds: seq<Index>) returns (merged: Index)
    requires forall i :: 0 <= i < |ds| ==> Valid(ds[i])
    ensures merged == MergeAll(ds)
  {
    merged := Empty();
    for i := 0 to |ds|
      invariant merged == MergeAll(ds[..i])
    {
      assert ds[..i + 1][..i] == ds[..i];
      merged := MergeDictionaries(merged, ds[i]);
    }
    assert ds[..|ds|] == ds;
  }

  /** One turn of the loop of `filterDictionary`: keep the enabled entries of one key, dropping the key when none is left. */
  method FilterKey(filtered: Index, dictionary: Index, enabledDicts: seq<string>, i: nat) returns (r: Index)
    requires Valid(dictionary) && i < |dictionary.keys|
    requires filtered == FilterPrefix(dictionary, enabledDicts, i)
    ensures r == FilterPrefix(dictionary, enabledDicts, i + 1)
  {
    FilterPrefixNext(dictionary, enabledDicts, i);
    var key := dictionary.keys[i];
    var kept := KeepEntries(dictionary.items[key], enabledDicts);
    r := Put(filtered, key, kept);
    if |kept| == 0 {
      r := Remove(r, key);
    }
  }

  /** The filter loop of `filterDictionary`, over `Object.entries(dictionary)`. */
  method FilterDictionary(dictionary: Index, enabledDicts: seq<string>) returns (filtered: Index)
    requires Valid(dictionary)
    ensures filtered == FilterIndex(dictionary, enabledDicts)
  {
    filtered := Empty();
    for i := 0 to |dictionary.keys|
      invariant filtered == FilterPrefix(dictionary, enabledDicts, i)
    {
      filtered := FilterKey(filtered, dictionary, enabledDicts, i);
    }
  }

  /** Merging the stored indexes in `Object.values` order, then filtering the result by `names`. */
  method FilterStored(dictionaries: OMap<Index>, names: seq<string>) returns (filtered: Index)
    requires StoreValid(dictionaries)
    ensures filtered == Filtered(dictionaries, names)
  {
    ValuesValid(dictionaries);
    var merged := MergeAllDictionaries(OwnValues(dictionaries));
    filtered := FilterDictionary(merged, names);
  }

  /** The store the install handler writes: the bundled dictionary alone, enabled. */
  method InstallDefault(defaultCsv: string, name: string) returns (dictionaries: OMap<Index>, dictionaryList: seq<DictRecord>, dictionary: Index)
    ensures Coherent(dictionaries, dictionaryList, dictionary)
    ensures dictionaries == Put(Empty(), name, LoadIndex(defaultCsv, name))
    ensures dictionaryList == [DictRecord(name, true, None)]
    ensures dictionary == LoadIndex(defaultCsv, name)
  {
    var defaultDictionary := ParseDictionary(defaultCsv, name);
    dictionaries := Put(Empty(), name, defaultDictionary);
    dictionaryList := [DictRecord(name, true, None)];
    dictionary := defaultDictionary;
    InstallDefaultCoherent(defaultCsv, name, dictionaries, dictionaryList, dictionary);
  }

  class Background {
    var dictionaries: OMap<Index>
    var dictionaryList: seq<DictRecord>
    var dictionary: Index

    ghost predicate Consistent()
      reads this
    {
      Coherent(dictionaries, dictionaryList, dictionary)
    }

    /** An empty store: `result.dictionaries || {}` and `result.dictionaryList || []`. */
    constructor()
      ensures Consistent()
      ensures dictionaries == Empty() && dictionaryList == [] && dictionary == Empty()
    {
      dictionaries := Empty();
      dictionaryList := [];
      dictionary := Empty();
    }

    /** The `getFilteredDictionary` action: the merged index of the stored dictionaries, filtered by `activeDictionaries`. */
    method GetFilteredDictionary(activeDictionaries: seq<string>) returns (filtered: Index)
      requires StoreValid(dictionaries)
      ensures filtered == Filtered(dictionaries, activeDictionaries)
    {
      filtered := FilterStored(dictionaries, activeDictionaries);
    }

    /** The `loadDictionary` action: store the parsed index under `name`, list it if new, and recompute `dictionary`. */
    method LoadDictionary(csvContent: string, name: string)
      requires Consistent()
      modifies this
      ensures Consistent()
      ensures dictionaries == Put(old(dictionaries), name, LoadIndex(csvContent, name))
      ensures dictionaryList == AddIfAbsent(old(dictionaryList), name)
      ensures dictionary == Filtered(dictionaries, EnabledNames(dictionaryList))
    {
      var newEntries := ParseDictionary(csvContent, name);
      LoadStoreValid(dictionaries, name, newEntries);
      var ds := Put(dictionaries, name, newEntries);
      var list := dictionaryList;
      if name !in Names(list) {
        list := list + [DictRecord(name, true, None)];
      }
      var d := FilterStored(ds, EnabledNames(list));
      LoadCoherent(dictionaries, dictionaryList, dictionary, name, newEntries, ds, list, d);
      Store(ds, list, d);
    }

    /** The `toggleDictionary` action. */
    method ToggleDictionary(name: string)
      requires Consistent()
      modifies this
      ensures Consistent()
      ensures dictionaries == old(dictionaries)
      ensures dictionaryList == Toggle(old(dictionaryList), name)
      ensures dictionary == Filtered(dictionaries, EnabledNames(dictionaryList))
    {
      ToggleCoherent(dictionaries, dictionaryList, dictionary, name);
      dictionaryList := Toggle(dictionaryList, name);
      dictionary := GetFilteredDictionary(EnabledNames(dictionaryList));
    }

    /** The `removeDictionary` action. */
    method RemoveDictionary(name: string)
      requires Consistent()
      modifies this
      ensures Consistent()
      ensures dictionaries == Remove(old(dictionaries), name)
      ensures dictionaryList == RemoveNamed(old(dictionaryList), name)
      ensures dictionary == Filtered(dictionaries, EnabledNames(dictionaryList))
    {
      RemoveCoherent(dictionaries, dictionaryList, dictionary, name);
      dictionaries := Remove(dictionaries, name);
      dictionaryList := RemoveNamed(dictionaryList, name);
      dictionary := GetFilteredDictionary(EnabledNames(dictionaryList));
    }

    /** The `updateKeywords` action: only the list is rewritten. */
    method UpdateKeywords(name: string, keywords: seq<string>)
      requires Consistent()
      modifies this
      ensures Consistent()
      ensures dictionaries == old(dictionaries) && dictionary == old(dictionary)
      ensures dictionaryList == SetKeywords(old(dictionaryList), name, keywords)
    {
      SetKeywordsCoherent(dictionaries, dictionaryList, dictionary, name, keywords);
      dictionaryList := SetKeywords(dictionaryList, name, keywords);
    }

    /** The install handler: without a stored `default` dictionary, the store is reset to it alone. */
    method OnInstalled(defaultCsv: string)
      requires Consistent()
      modifies this
      ensures Consistent()
      ensures DefaultName in old(dictionaries.items) ==>
        dictionaries == old(dictionaries) && dictionaryList == old(dictionaryList) && dictionary == old(dictionary)
      ensures DefaultName !in old(dictionaries.items) ==>
        && dictionaries == Put(Empty(), DefaultName, LoadIndex(defaultCsv, DefaultName))
        && dictionaryList == [DictRecord(DefaultName, true, None)]
        && dictionary == LoadIndex(defaultCsv, DefaultName)
    {
      if DefaultName !in dictionaries.items {
        var ds, list, d := InstallDefault(defaultCsv, DefaultName);
        Store(ds, list, d);
      }
    }

    /** Replaces the three stored values by a coherent triple. */
    method Store(ds: OMap<Index>, list: seq<DictRecord>, d: Index)
      requires Coherent(ds, list, d)
      modifies this
      ensures Consistent()
      ensures dictionaries == ds && dictionaryList == list && dictionary == d
    {
      dictionaries, dictionaryList, dictionary := ds, list, d;
    }
  }
}
