/**
 * The dictionary index of `src/background.js`: parsing the rows of a CSV file
 * into entries filed under normalised keys, merging the indexes of several
 * dictionaries (`mergeDictionaries`) and keeping only the entries of the
 * enabled dictionaries (`filterDictionary`).
 */
module Dictionaries {
  import opened Options
  import opened Text
  import opened OrderedMaps
  import opened RowIndex

  /** One translation: `{ word, translationEntry, dictionaryName }`. */
  datatype Entry = Entry(word: string, translationEntry: string, dictionaryName: string)

  /** An index: normalised key to the entries filed under it, keys in insertion order. */
  type Index = OMap<seq<Entry>>

  // ------------------------------------------------------------ CSV rows

  /** Text without whitespace at either end, as `trim` leaves it. */
  predicate Unpadded(s: string) {
    s != [] ==> !IsSpace(s[0]) && !IsSpace(s[|s| - 1])
  }

  /** `.map(item => item.trim())` */
  function TrimAll(ps: seq<string>): (r: seq<string>)
    ensures |r| == |ps|
    ensures forall i :: 0 <= i < |ps| ==> r[i] == Trim(ps[i]) && Unpadded(r[i])
  {
    if ps == [] then [] else [Trim(ps[0])] + TrimAll(ps[1..])
  }

  lemma {:induction false} TrimAllOfUnpadded(ps: seq<string>)
    requires forall p :: p in ps ==> Unpadded(p)
    ensures TrimAll(ps) == ps
  {
    if ps != [] {
      assert ps[0] in ps;
      TrimOfTrimmed(ps[0]);
      TrimAllOfUnpadded(ps[1..]);
    }
  }

  /** The two fields of an accepted row. */
  datatype Row = Row(word: string, translationEntry: string)

  /**
   * `const [word, ...translationParts] = row.split(',').map(item => item.trim())`,
   * `translationEntry = translationParts.join(',').replace(/^"|"$/g, '')`, and the
   * row is accepted when `word && translationEntry`.
   */
  function ParseRow(row: string): (r: Option<Row>)
    ensures r.Some? ==> r.value.word != [] && Unpadded(r.value.word) && r.value.translationEntry != []
  {
    var fields := TrimAll(SplitOn(row, ','));
    var word := fields[0];
    var translationEntry := StripQuotes(Join(fields[1..], ','));
    if word != [] && translationEntry != [] then Some(Row(word, translationEntry)) else None
  }

  /**
   * A row written as `word,translation` is read back as that word and that
   * translation with one pair of surrounding quotes removed, provided the word
   * has no comma and neither field has padding around its commas.
   */
  lemma ParseRowOfFormatted(w: string, tr: string)
    requires w != [] && ',' !in w && Unpadded(w)
    requires forall p :: p in SplitOn(tr, ',') ==> Unpadded(p)
    requires StripQuotes(tr) != []
    ensures ParseRow(w + [','] + tr) == Some(Row(w, StripQuotes(tr)))
  {
    var row := w + [','] + tr;
    IndexOfCharPrefix(w, tr, ',');
    assert row[..|w|] == w;
    assert row[|w| + 1..] == tr;
    var parts := [w] + SplitOn(tr, ',');
    assert SplitOn(row, ',') == parts;
    TrimAllOfUnpadded(parts);
    assert parts[1..] == SplitOn(tr, ',');
    JoinOfSplit(tr, ',');
  }

  /** A row without a comma has no translation and is skipped. */
  lemma ParseRowOneField(row: string)
    requires ',' !in row
    ensures ParseRow(row) == None
  {
    assert SplitOn(row, ',') == [row];
  }

  /**
   * The keys a normalised word is filed under: the word itself and, for a
   * phrase, the phrase with its spaces turned into underscores (`split(' ')` then
   * `join('_')`).
   */
  function Variations(n: string): (r: seq<string>)
    ensures |r| == (if ' ' in n then 2 else 1) && r[0] == n
    ensures |r| == 2 ==> r[1] == ReplaceChar(n, ' ', '_')
  {
    var words := SplitOn(n, ' ');
    if |words| > 1 then
      JoinOfSplitReplaces(n, ' ', '_');
      [n, Join(words, '_')]
    else [n]
  }

  /** What one row of dictionary `name` contributes to its index. */
  function Contribution(row: string, name: string): Option<Parsed<Entry>> {
    match ParseRow(row)
    case None => None
    case Some(x) => Some(Parsed(Variations(NormalizePhrase(x.word)), Entry(x.word, x.translationEntry, name)))
  }

  function Parser(name: string): string -> Option<Parsed<Entry>> {
    row => Contribution(row, name)
  }

  /** The index the loader builds from the CSV text of dictionary `name`. */
  function LoadIndex(csv: string, name: string): (d: Index)
    ensures Valid(d) && NoEmptyLists(d)
  {
    Build(Rows(csv), Parser(name))
  }

  /** A variation of a normalised word starts with a letter, whitespace or an underscore, never a digit. */
  lemma VariationNotArrayIndex(n: string, k: string)
    requires forall j :: 0 <= j < |n| ==> IsLowerLetter(n[j]) || IsSpace(n[j])
    requires k in Variations(n)
    ensures !IsArrayIndex(k)
  {
    var v := Variations(n);
    if k != [] {
      if k == v[0] {
        assert k[0] == n[0];
      } else {
        assert |v| == 2 && k == ReplaceChar(n, ' ', '_');
      }
      assert !('0' <= k[0] <= '9');
    }
  }

  /**
   * No key of a loaded index is an array index, so `Object.keys`,
   * `Object.values` and `Object.entries` list an index's keys in insertion order.
   */
  lemma LoadedKeyNotArrayIndex(csv: string, name: string, k: string)
    requires k in LoadIndex(csv, name).items
    ensures !IsArrayIndex(k)
  {
    LoadedKeys(csv, name, k);
    var rows := Rows(csv);
    var i :| 0 <= i < |rows| && ParseRow(rows[i]).Some? && k in Variations(NormalizePhrase(ParseRow(rows[i]).value.word));
    VariationNotArrayIndex(NormalizePhrase(ParseRow(rows[i]).value.word), k);
  }

  /** An index holds a key exactly when an accepted row's normalised word, or its underscore form, is that key. */
  lemma LoadedKeys(csv: string, name: string, k: string)
    ensures k in LoadIndex(csv, name).items <==>
      exists i :: 0 <= i < |Rows(csv)| && ParseRow(Rows(csv)[i]).Some?
        && k in Variations(NormalizePhrase(ParseRow(Rows(csv)[i]).value.word))
  {
    var rows := Rows(csv);
    BuildContents(rows, Parser(name), k);
    if k in LoadIndex(csv, name).items {
      var i :| 0 <= i < |rows| && Parser(name)(rows[i]).Some? && k in Parser(name)(rows[i]).value.variations;
      assert Parser(name)(rows[i]) == Contribution(rows[i], name);
      assert ParseRow(rows[i]).Some? && k in Variations(NormalizePhrase(ParseRow(rows[i]).value.word));
    }
    if exists i :: 0 <= i < |rows| && ParseRow(rows[i]).Some? && k in Variations(NormalizePhrase(ParseRow(rows[i]).value.word)) {
      var i :| 0 <= i < |rows| && ParseRow(rows[i]).Some? && k in Variations(NormalizePhrase(ParseRow(rows[i]).value.word));
      assert Parser(name)(rows[i]) == Contribution(rows[i], name);
      assert Registers(rows, Parser(name), k);
    }
  }

  /** Each accepted row's entry is filed under its normalised word and, for a phrase, also under the underscore form. */
  lemma LoadedEntry(csv: string, name: string, i: int)
    requires 0 <= i < |Rows(csv)| && ParseRow(Rows(csv)[i]).Some?
    ensures var x := ParseRow(Rows(csv)[i]).value;
      var n := NormalizePhrase(x.word);
      && Entry(x.word, x.translationEntry, name) in Get(LoadIndex(csv, name), n)
      && (' ' in n ==> Entry(x.word, x.translationEntry, name) in Get(LoadIndex(csv, name), ReplaceChar(n, ' ', '_')))
  {
    var x := ParseRow(Rows(csv)[i]).value;
    var vs := Variations(NormalizePhrase(x.word));
    LoadedUnder(csv, name, i, vs[0]);
    if |vs| == 2 {
      LoadedUnder(csv, name, i, vs[1]);
    }
  }

  /** An accepted row's entry is filed under each of its keys. */
  lemma LoadedUnder(csv: string, name: string, i: int, k: string)
    requires 0 <= i < |Rows(csv)| && ParseRow(Rows(csv)[i]).Some?
    requires k in Variations(NormalizePhrase(ParseRow(Rows(csv)[i]).value.word))
    ensures var x := ParseRow(Rows(csv)[i]).value;
      Entry(x.word, x.translationEntry, name) in Get(LoadIndex(csv, name), k)
  {
    var rows := Rows(csv);
    var x := ParseRow(rows[i]).value;
    var p := Parser(name);
    assert p(rows[i]) == Some(Parsed(Variations(NormalizePhrase(x.word)), Entry(x.word, x.translationEntry, name)));
    FiledUnderHas(rows, p, i, k);
    BuildContents(rows, p, k);
    assert LoadIndex(csv, name) == Build(rows, p);
  }

  /** Every entry of a loaded index belongs to the dictionary it was loaded as and comes from an accepted row. */
  lemma LoadedEntryFrom(csv: string, name: string, k: string, e: Entry)
    requires e in Get(LoadIndex(csv, name), k)
    ensures e.dictionaryName == name
    ensures exists i :: 0 <= i < |Rows(csv)| && ParseRow(Rows(csv)[i]).Some? && e == Entry(ParseRow(Rows(csv)[i]).value.word, ParseRow(Rows(csv)[i]).value.translationEntry, name)
  {
    var rows := Rows(csv);
    BuildContents(rows, Parser(name), k);
    FiledUnderFrom(rows, Parser(name), k, e);
    var i :| 0 <= i < |rows| && Parser(name)(rows[i]).Some? && Parser(name)(rows[i]).value.entry == e
      && k in Parser(name)(rows[i]).value.variations;
    assert Parser(name)(rows[i]) == Contribution(rows[i], name);
  }

  // ------------------------------------------------------------- merging

  /** `merged[key] ? [...merged[key], ...value] : value`, stored under `key`. */
  function MergeKey(m: Index, k: string, v: seq<Entry>): (r: Index)
    ensures Valid(m) ==> Valid(r)
  {
    if k in m.items then Put(m, k, m.items[k] + v) else Put(m, k, v)
  }

  /** Merging one key appends to that key's list, adds the key last if it is new, and touches nothing else. */
  lemma MergeKeyContents(m: Index, k: string, v: seq<Entry>, x: string)
    ensures MergeKey(m, k, v).keys == if k in m.items then m.keys else m.keys + [k]
    ensures x in MergeKey(m, k, v).items <==> x in m.items || x == k
    ensures Get(MergeKey(m, k, v), x) == Get(m, x) + (if x == k then v else [])
  {
  }

  /** The keys of `ks` that `m` does not hold, in order. */
  function NewKeys(m: Index, ks: seq<string>): seq<string>
    decreases |ks|
  {
    if ks == [] then []
    else NewKeys(m, ks[..|ks| - 1]) + (if ks[|ks| - 1] in m.items then [] else [ks[|ks| - 1]])
  }

  /** The merge loop after the first `n` keys of `b`. */
  function MergePrefix(a: Index, b: Index, n: nat): (r: Index)
    requires n <= |b.keys|
    ensures Valid(a) ==> Valid(r)
  {
    if n == 0 then a
    else MergeKey(MergePrefix(a, b, n - 1), b.keys[n - 1], Get(b, b.keys[n - 1]))
  }

  /** `mergeDictionaries(a, b)` */
  function Merge(a: Index, b: Index): Index {
    MergePrefix(a, b, |b.keys|)
  }

  lemma {:induction false} MergePrefixItems(a: Index, b: Index, n: nat, k: string)
    requires Valid(b) && n <= |b.keys|
    ensures k in MergePrefix(a, b, n).items <==> k in a.items || k in b.keys[..n]
    ensures Get(MergePrefix(a, b, n), k) == Get(a, k) + (if k in b.keys[..n] then Get(b, k) else [])
    decreases n, 1
  {
    if n == 0 {
      assert b.keys[..0] == [];
    } else if k == b.keys[n - 1] {
      MergePrefixItemsLast(a, b, n);
    } else {
      MergePrefixItemsOther(a, b, n, k);
    }
  }

  /** The step of `MergePrefixItems` for the key merged last. */
  lemma {:induction false} MergePrefixItemsLast(a: Index, b: Index, n: nat)
    requires Valid(b) && 0 < n <= |b.keys|
    ensures var k := b.keys[n - 1];
      && k in MergePrefix(a, b, n).items
      && Get(MergePrefix(a, b, n), k) == Get(a, k) + Get(b, k)
    decreases n, 0
  {
    var k := b.keys[n - 1];
    assert b.keys[..n][..n - 1] == b.keys[..n - 1];
    assert k !in b.keys[..n - 1];
    var m := MergePrefix(a, b, n - 1);
    MergePrefixItems(a, b, n - 1, k);
    assert Get(m, k) == Get(a, k) + [];
    MergeKeyContents(m, k, Get(b, k), k);
  }

  /** The step of `MergePrefixItems` for any other key. */
  lemma {:induction false} MergePrefixItemsOther(a: Index, b: Index, n: nat, k: string)
    requires Valid(b) && 0 < n <= |b.keys| && k != b.keys[n - 1]
    ensures k in MergePrefix(a, b, n).items <==> k in a.items || k in b.keys[..n]
    ensures Get(MergePrefix(a, b, n), k) == Get(a, k) + (if k in b.keys[..n] then Get(b, k) else [])
    decreases n, 0
  {
    var k' := b.keys[n - 1];
    assert b.keys[..n][..n - 1] == b.keys[..n - 1];
    var m := MergePrefix(a, b, n - 1);
    MergeKeyContents(m, k', Get(b, k'), k);
    InSnoc(b.keys[..n], k);
    MergePrefixItems(a, b, n - 1, k);
    assert (k in b.keys[..n]) == (k in b.keys[..n - 1]);
  }

  lemma {:induction false} MergePrefixKeys(a: Index, b: Index, n: nat)
    requires Valid(b) && n <= |b.keys|
    ensures MergePrefix(a, b, n).keys == a.keys + NewKeys(a, b.keys[..n])
  {
    if n > 0 {
      var k' := b.keys[n - 1];
      assert b.keys[..n][..n - 1] == b.keys[..n - 1];
      assert k' !in b.keys[..n - 1];
      MergePrefixKeys(a, b, n - 1);
      MergePrefixItems(a, b, n - 1, k');
      MergeKeyContents(MergePrefix(a, b, n - 1), k', Get(b, k'), k');
    }
  }

  /**
   * Merging keeps every key of either side, in `a`'s order then `b`'s, and
   * under each key puts `a`'s entries before `b`'s.
   */
  lemma MergeContents(a: Index, b: Index, k: string)
    requires Valid(a) && Valid(b)
    ensures Valid(Merge(a, b))
    ensures Merge(a, b).keys == a.keys + NewKeys(a, b.keys)
    ensures k in Merge(a, b).items <==> k in a.items || k in b.items
    ensures Get(Merge(a, b), k) == Get(a, k) + Get(b, k)
  {
    MergePrefixKeys(a, b, |b.keys|);
    MergePrefixItems(a, b, |b.keys|, k);
    assert b.keys[..|b.keys|] == b.keys;
  }

  lemma {:induction false} NewKeysOfEmpty(ks: seq<string>)
    ensures NewKeys(Empty(), ks) == ks
  {
    if ks != [] {
      NewKeysOfEmpty(ks[..|ks| - 1]);
      assert ks == ks[..|ks| - 1] + [ks[|ks| - 1]];
    }
  }

  /** Merging into `{}` gives back the index itself. */
  lemma MergeIntoEmpty(d: Index)
    requires Valid(d)
    ensures Merge(Empty(), d) == d
  {
    var r := Merge(Empty(), d);
    MergeIntoEmptyItems(d);
    MergeContents(Empty(), d, "");
    NewKeysOfEmpty(d.keys);
    assert r.keys == d.keys;
  }

  lemma MergeIntoEmptyItems(d: Index)
    requires Valid(d)
    ensures Merge(Empty(), d).items == d.items
  {
    var r := Merge(Empty(), d);
    forall k | k in d.items
      ensures k in r.items && r.items[k] == d.items[k]
    {
      MergeContents(Empty(), d, k);
    }
    forall k | k in r.items
      ensures k in d.items
    {
      MergeContents(Empty(), d, k);
    }
  }

  /** `Object.values(dictionaries).reduce(mergeDictionaries, {})` */
  function MergeAll(ds: seq<Index>): (r: Index)
    ensures Valid(r)
    decreases |ds|
  {
    if ds == [] then Empty() else Merge(MergeAll(ds[..|ds| - 1]), ds[|ds| - 1])
  }

  /** Reference definition: the entries the indexes hold under `k`, index by index. */
  function EntriesUnder(ds: seq<Index>, k: string): seq<Entry>
    decreases |ds|
  {
    if ds == [] then [] else EntriesUnder(ds[..|ds| - 1], k) + Get(ds[|ds| - 1], k)
  }

  /** The merged index holds a key exactly when some index does. */
  lemma {:induction false} MergeAllHas(ds: seq<Index>, k: string)
    requires forall i :: 0 <= i < |ds| ==> Valid(ds[i])
    ensures k in MergeAll(ds).items <==> exists i :: 0 <= i < |ds| && k in ds[i].items
    decreases |ds|
  {
    if ds != [] {
      var init := ds[..|ds| - 1];
      var last := ds[|ds| - 1];
      assert forall i :: 0 <= i < |init| ==> init[i] == ds[i];
      MergeAllHas(init, k);
      MergeContents(MergeAll(init), last, k);
      SomeIndexHolds(ds, init, k);
    }
  }

  /** Some index of `ds` holds `k` exactly when one before the last does or the last does. */
  lemma SomeIndexHolds(ds: seq<Index>, init: seq<Index>, k: string)
    requires ds != [] && init == ds[..|ds| - 1]
    ensures (exists i :: 0 <= i < |ds| && k in ds[i].items)
      <==> (exists i :: 0 <= i < |init| && k in init[i].items) || k in ds[|ds| - 1].items
  {
    if exists i :: 0 <= i < |ds| && k in ds[i].items {
      var i :| 0 <= i < |ds| && k in ds[i].items;
      if i < |init| {
        assert k in init[i].items;
      }
    }
    if exists i :: 0 <= i < |init| && k in init[i].items {
      var i :| 0 <= i < |init| && k in init[i].items;
      assert k in ds[i].items;
    }
  }

  /** Under each key the merged index holds the indexes' entries in index order. */
  lemma {:induction false} MergeAllGet(ds: seq<Index>, k: string)
    requires forall i :: 0 <= i < |ds| ==> Valid(ds[i])
    ensures Get(MergeAll(ds), k) == EntriesUnder(ds, k)
    decreases |ds|
  {
    if ds != [] {
      var init := ds[..|ds| - 1];
      var last := ds[|ds| - 1];
      assert forall i :: 0 <= i < |init| ==> init[i] == ds[i];
      MergeAllGet(init, k);
      MergePrefixItems(MergeAll(init), last, |last.keys|, k);
      assert last.keys[..|last.keys|] == last.keys;
    }
  }

  // ----------------------------------------------------------- filtering

  /** `entries.filter(entry => enabledDicts.includes(entry.dictionaryName))` */
  function KeepEntries(es: seq<Entry>, names: seq<string>): (r: seq<Entry>)
    ensures |r| <= |es|
  {
    if es == [] then [] else (if es[0].dictionaryName in names then [es[0]] else []) + KeepEntries(es[1..], names)
  }

  /** Filtering keeps exactly the entries of the enabled dictionaries. */
  lemma {:induction false} KeepMembers(es: seq<Entry>, names: seq<string>, e: Entry)
    ensures e in KeepEntries(es, names) <==> e in es && e.dictionaryName in names
  {
    if es != [] {
      KeepMembers(es[1..], names, e);
      assert es == [es[0]] + es[1..];
    }
  }

  /** Filtering works piece by piece, so kept entries stay in their original order. */
  lemma {:induction false} KeepAppend(a: seq<Entry>, b: seq<Entry>, names: seq<string>)
    ensures KeepEntries(a + b, names) == KeepEntries(a, names) + KeepEntries(b, names)
  {
    if a == [] {
      assert a + b == b;
    } else {
      var head := if a[0].dictionaryName in names then [a[0]] else [];
      assert (a + b)[0] == a[0];
      assert (a + b)[1..] == a[1..] + b;
      assert KeepEntries(a + b, names) == head + KeepEntries(a[1..] + b, names);
      KeepAppend(a[1..], b, names);
      assert KeepEntries(a, names) == head + KeepEntries(a[1..], names);
      assert head + (KeepEntries(a[1..], names) + KeepEntries(b, names))
        == (head + KeepEntries(a[1..], names)) + KeepEntries(b, names);
    }
  }

  /** When every entry's dictionary is enabled, filtering keeps the list as it is. */
  lemma {:induction false} KeepAll(es: seq<Entry>, names: seq<string>)
    requires forall e :: e in es ==> e.dictionaryName in names
    ensures KeepEntries(es, names) == es
  {
    if es != [] {
      assert es[0] in es;
      KeepAll(es[1..], names);
    }
  }

  /** `filtered[key] = kept; if (kept.length === 0) delete filtered[key];` */
  function FilterStep(m: Index, k: string, kept: seq<Entry>): (r: Index)
    requires Valid(m)
    ensures Valid(r)
  {
    var m' := Put(m, k, kept);
    if |kept| == 0 then Remove(m', k) else m'
  }

  /** The filter loop after the first `n` keys of `d`. */
  function FilterPrefix(d: Index, names: seq<string>, n: nat): (r: Index)
    requires n <= |d.keys|
    ensures Valid(r)
  {
    if n == 0 then Empty()
    else FilterStep(FilterPrefix(d, names, n - 1), d.keys[n - 1], KeepEntries(Get(d, d.keys[n - 1]), names))
  }

  /** `filterDictionary(d, names)` */
  function FilterIndex(d: Index, names: seq<string>): Index {
    FilterPrefix(d, names, |d.keys|)
  }

  /** The keys of `ks` under which `d` holds an entry of an enabled dictionary, in order. */
  function KeptKeys(d: Index, ks: seq<string>, names: seq<string>): seq<string>
    decreases |ks|
  {
    if ks == [] then []
    else
      var k := ks[|ks| - 1];
      KeptKeys(d, ks[..|ks| - 1], names) + (if KeepEntries(Get(d, k), names) != [] then [k] else [])
  }

  /** One filter step on a key not yet seen: the key is added last when something is kept, and nothing else changes. */
  lemma FilterStepContents(m: Index, k: string, kept: seq<Entry>, x: string)
    requires Valid(m) && k !in m.items
    ensures FilterStep(m, k, kept).keys == if kept == [] then m.keys else m.keys + [k]
    ensures x in FilterStep(m, k, kept).items <==> x in m.items || (x == k && kept != [])
    ensures Get(FilterStep(m, k, kept), x) == if x == k then kept else Get(m, x)
  {
    if kept == [] {
      RemoveAfterPut(m, k, kept);
    }
  }

  lemma {:induction false} FilterPrefixItems(d: Index, names: seq<string>, n: nat, k: string)
    requires Valid(d) && n <= |d.keys|
    ensures k in FilterPrefix(d, names, n).items <==> k in d.keys[..n] && KeepEntries(Get(d, k), names) != []
    ensures Get(FilterPrefix(d, names, n), k) == if k in d.keys[..n] then KeepEntries(Get(d, k), names) else []
  {
    if n == 0 {
      assert d.keys[..0] == [];
    } else {
      var k' := d.keys[n - 1];
      assert d.keys[..n][..n - 1] == d.keys[..n - 1];
      assert k' !in d.keys[..n - 1];
      var m := FilterPrefix(d, names, n - 1);
      var kept := KeepEntries(Get(d, k'), names);
      FilterPrefixItems(d, names, n - 1, k');
      FilterStepContents(m, k', kept, k);
      InSnoc(d.keys[..n], k);
      if k == k' {
        assert k in d.keys[..n];
      } else {
        FilterPrefixItems(d, names, n - 1, k);
        assert (k in d.keys[..n]) == (k in d.keys[..n - 1]);
      }
    }
  }

  lemma {:induction false} FilterPrefixKeys(d: Index, names: seq<string>, n: nat)
    requires Valid(d) && n <= |d.keys|
    ensures FilterPrefix(d, names, n).keys == KeptKeys(d, d.keys[..n], names)
  {
    if n == 0 {
      assert d.keys[..0] == [];
    } else {
      var k' := d.keys[n - 1];
      assert d.keys[..n][..n - 1] == d.keys[..n - 1];
      assert k' !in d.keys[..n - 1];
      var m := FilterPrefix(d, names, n - 1);
      FilterPrefixKeys(d, names, n - 1);
      FilterPrefixItems(d, names, n - 1, k');
      FilterStepContents(m, k', KeepEntries(Get(d, k'), names), k');
    }
  }

  /**
   * Filtering keeps, under each key, exactly the entries of the enabled
   * dictionaries in their original order, drops the keys left with none, and
   * keeps the remaining keys in their original order.
   */
  lemma FilterContents(d: Index, names: seq<string>, k: string)
    requires Valid(d)
    ensures Valid(FilterIndex(d, names))
    ensures FilterIndex(d, names).keys == KeptKeys(d, d.keys, names)
    ensures Get(FilterIndex(d, names), k) == KeepEntries(Get(d, k), names)
    ensures k in FilterIndex(d, names).items <==> k in d.items && KeepEntries(Get(d, k), names) != []
  {
    FilterPrefixKeys(d, names, |d.keys|);
    FilterPrefixItems(d, names, |d.keys|, k);
    assert d.keys[..|d.keys|] == d.keys;
  }

  /** A filtered index never holds an empty list, and holds only keys of the original. */
  lemma FilterShape(d: Index, names: seq<string>)
    requires Valid(d)
    ensures NoEmptyLists(FilterIndex(d, names))
    ensures FilterIndex(d, names).items.Keys <= d.items.Keys
  {
    var r := FilterIndex(d, names);
    forall k | k in r.items
      ensures r.items[k] != [] && k in d.items
    {
      FilterContents(d, names, k);
    }
  }

  lemma {:induction false} KeptKeysAll(d: Index, ks: seq<string>, names: seq<string>)
    requires forall i :: 0 <= i < |ks| ==> KeepEntries(Get(d, ks[i]), names) != []
    ensures KeptKeys(d, ks, names) == ks
  {
    if ks != [] {
      var init := ks[..|ks| - 1];
      assert forall i :: 0 <= i < |init| ==> init[i] == ks[i];
      KeptKeysAll(d, init, names);
      assert ks == init + [ks[|ks| - 1]];
    }
  }

  /** Filtering an index whose entries all belong to enabled dictionaries changes nothing. */
  lemma FilterKeepsAll(d: Index, names: seq<string>)
    requires Valid(d) && NoEmptyLists(d)
    requires forall k, e :: k in d.items && e in d.items[k] ==> e.dictionaryName in names
    ensures FilterIndex(d, names) == d
  {
    forall k | k in d.items
      ensures KeepEntries(Get(d, k), names) == d.items[k]
    {
      KeepAll(d.items[k], names);
    }
    FilterKeepsAllKeys(d, names);
    FilterKeepsAllItems(d, names);
  }

  lemma FilterKeepsAllKeys(d: Index, names: seq<string>)
    requires Valid(d) && NoEmptyLists(d)
    requires forall k :: k in d.items ==> KeepEntries(Get(d, k), names) == d.items[k]
    ensures FilterIndex(d, names).keys == d.keys
  {
    KeptEveryKey(d, names);
    KeptKeysAll(d, d.keys, names);
    FilterPrefixKeys(d, names, |d.keys|);
    assert d.keys[..|d.keys|] == d.keys;
  }

  lemma KeptEveryKey(d: Index, names: seq<string>)
    requires Valid(d) && NoEmptyLists(d)
    requires forall k :: k in d.items ==> KeepEntries(Get(d, k), names) == d.items[k]
    ensures forall i :: 0 <= i < |d.keys| ==> KeepEntries(Get(d, d.keys[i]), names) != []
  {
    forall i | 0 <= i < |d.keys|
      ensures KeepEntries(Get(d, d.keys[i]), names) != []
    {
      var k := d.keys[i];
      assert k in d.items;
    }
  }

  lemma FilterKeepsAllItems(d: Index, names: seq<string>)
    requires Valid(d) && NoEmptyLists(d)
    requires forall k :: k in d.items ==> KeepEntries(Get(d, k), names) == d.items[k]
    ensures FilterIndex(d, names).items == d.items
  {
    var r := FilterIndex(d, names);
    forall k
      ensures (k in r.items <==> k in d.items) && (k in d.items ==> r.items[k] == d.items[k])
    {
      FilterContents(d, names, k);
    }
  }

  /** One more round of the filter loop is one more filter step. */
  lemma FilterPrefixNext(d: Index, names: seq<string>, i: nat)
    requires Valid(d) && i < |d.keys|
    ensures d.keys[i] in d.items
    ensures FilterPrefix(d, names, i + 1)
      == FilterStep(FilterPrefix(d, names, i), d.keys[i], KeepEntries(d.items[d.keys[i]], names))
  {
  }
}
