/**
 * A JavaScript object used as a dictionary: its own string keys in insertion
 * order together with their values. Every key of a word index consists of
 * letters, whitespace and underscores, so none of them is an array index and
 * insertion order is exactly the order `Object.keys`/`Object.values`/
 * `Object.entries` report for an index (`Values`, `Flatten`). The names of the
 * stored dictionaries come from file names and may be array indices such as
 * `2024`; `OwnValues` lists those in JavaScript's own-property order.
 */
module OrderedMaps {

  datatype OMap<V> = OMap(keys: seq<string>, items: map<string, V>)

  /** The keys are listed once each, and they are exactly the map's domain. */
  ghost predicate Valid<V>(m: OMap<V>) {
    && (forall i, j :: 0 <= i < j < |m.keys| ==> m.keys[i] != m.keys[j])
    && (forall k :: k in m.items <==> k in m.keys)
  }

  /** `{}` */
  function Empty<V>(): (m: OMap<V>)
    ensures Valid(m) && m.keys == [] && m.items == map[]
  {
    OMap([], map[])
  }

  /** `m[k] = v`: a new key goes last, an existing key keeps its place. */
  function Put<V>(m: OMap<V>, k: string, v: V): (r: OMap<V>)
    ensures Valid(m) ==> Valid(r)
    ensures r.items == m.items[k := v]
    ensures r.keys == if k in m.items then m.keys else m.keys + [k]
  {
    OMap(if k in m.items then m.keys else m.keys + [k], m.items[k := v])
  }

  function Without(ks: seq<string>, k: string): (r: seq<string>)
    ensures forall x :: x in r <==> x in ks && x != k
    ensures k !in ks ==> r == ks
  {
    if ks == [] then []
    else (if ks[0] == k then [] else [ks[0]]) + Without(ks[1..], k)
  }

  lemma {:induction false} WithoutDistinct(ks: seq<string>, k: string)
    requires forall i, j :: 0 <= i < j < |ks| ==> ks[i] != ks[j]
    ensures forall i, j :: 0 <= i < j < |Without(ks, k)| ==> Without(ks, k)[i] != Without(ks, k)[j]
  {
    if ks != [] {
      var tail := ks[1..];
      assert forall i, j :: 0 <= i < j < |tail| ==> tail[i] != tail[j] by {
        forall i, j | 0 <= i < j < |tail| ensures tail[i] != tail[j] {
          assert tail[i] == ks[i + 1] && tail[j] == ks[j + 1];
        }
      }
      WithoutDistinct(tail, k);
      var rest := Without(tail, k);
      assert ks[0] !in tail by {
        forall j | 0 <= j < |tail| ensures tail[j] != ks[0] {
          assert tail[j] == ks[j + 1];
        }
      }
      if ks[0] != k {
        var r := [ks[0]] + rest;
        assert Without(ks, k) == r;
        forall i, j | 0 <= i < j < |r| ensures r[i] != r[j] {
          assert r[j] == rest[j - 1] && rest[j - 1] in rest && rest[j - 1] in tail;
          if i > 0 {
            assert r[i] == rest[i - 1];
          }
        }
      } else {
        assert Without(ks, k) == rest;
      }
    }
  }

  /** `delete m[k]`: the key leaves the order, the other keys keep theirs. */
  function Remove<V>(m: OMap<V>, k: string): (r: OMap<V>)
    requires Valid(m)
    ensures Valid(r)
    ensures r.items == m.items - {k}
    ensures r.keys == Without(m.keys, k)
  {
    WithoutDistinct(m.keys, k);
    OMap(Without(m.keys, k), m.items - {k})
  }

  /** Assigning a fresh key and deleting it again leaves the object as it was. */
  lemma RemoveAfterPut<V>(m: OMap<V>, k: string, v: V)
    requires Valid(m) && k !in m.items
    ensures Remove(Put(m, k, v), k) == m
  {
    var p := Put(m, k, v);
    assert p.keys == m.keys + [k];
    assert k !in m.keys;
    WithoutAppend(m.keys, k);
    var r := Remove(p, k);
    assert r.keys == m.keys;
    assert r.items == m.items by {
      assert r.items == m.items[k := v] - {k};
    }
  }

  lemma {:induction false} WithoutAppend(ks: seq<string>, k: string)
    requires k !in ks
    ensures Without(ks + [k], k) == ks
  {
    if ks != [] {
      assert (ks + [k])[1..] == ks[1..] + [k];
      WithoutAppend(ks[1..], k);
    }
  }

  // ------------------------------------------- objects whose values are lists

  /** `m[k] || []` for an object whose values are all arrays. */
  function Get<V>(m: OMap<seq<V>>, k: string): seq<V> {
    if k in m.items then m.items[k] else []
  }

  /** No key holds an empty list. */
  ghost predicate NoEmptyLists<V>(m: OMap<seq<V>>) {
    forall k :: k in m.items ==> m.items[k] != []
  }

  /** `if (!m[k]) m[k] = []; m[k].push(v);` */
  function Push<V>(m: OMap<seq<V>>, k: string, v: V): (r: OMap<seq<V>>)
    ensures Valid(m) ==> Valid(r)
    ensures NoEmptyLists(m) ==> NoEmptyLists(r)
    ensures r.items.Keys == m.items.Keys + {k}
    ensures Get(r, k) == Get(m, k) + [v]
    ensures forall x :: x != k ==> Get(r, x) == Get(m, x)
    ensures r.keys == if k in m.items then m.keys else m.keys + [k]
  {
    Put(m, k, Get(m, k) + [v])
  }

  /** `Object.values(m)` */
  function Values<V>(m: OMap<V>): (vs: seq<V>)
    requires Valid(m)
    ensures |vs| == |m.keys|
    ensures forall i :: 0 <= i < |m.keys| ==> vs[i] == m.items[m.keys[i]]
  {
    seq(|m.keys|, i requires 0 <= i < |m.keys| => m.items[m.keys[i]])
  }

  function Concat<V>(ls: seq<seq<V>>): seq<V> {
    if ls == [] then [] else ls[0] + Concat(ls[1..])
  }

  /** `Object.values(m).flat()`: every entry, in key order and then list order. */
  function Flatten<V>(m: OMap<seq<V>>): seq<V>
    requires Valid(m)
  {
    Concat(Values(m))
  }

  // ------------------------------------------------ JavaScript property order

  /** The number a string of decimal digits spells (a non-digit counts as 0). */
  function DigitsValue(s: string): nat {
    if s == [] then 0
    else
      var c := s[|s| - 1];
      DigitsValue(s[..|s| - 1]) * 10 + (if '0' <= c <= '9' then c as int - '0' as int else 0)
  }

  /**
   * An array index: the canonical decimal spelling of an integer below
   * 2^32 - 1 (digits only, no leading zero except in "0" itself; every
   * spelling of nine digits or fewer is below the bound).
   */
  predicate IsArrayIndex(s: string) {
    && s != []
    && (forall i :: 0 <= i < |s| ==> '0' <= s[i] <= '9')
    && (s[0] == '0' ==> |s| == 1)
    && (|s| < 10 || (|s| == 10 && DigitsValue(s) < 0xFFFF_FFFF))
  }

  /** The array-index keys of `ks`, in order. */
  function IndexKeys(ks: seq<string>): seq<string> {
    if ks == [] then [] else (if IsArrayIndex(ks[0]) then [ks[0]] else []) + IndexKeys(ks[1..])
  }

  /** The other keys of `ks`, in order. */
  function OtherKeys(ks: seq<string>): seq<string> {
    if ks == [] then [] else (if IsArrayIndex(ks[0]) then [] else [ks[0]]) + OtherKeys(ks[1..])
  }

  lemma {:induction false} SplitKeysPermutes(ks: seq<string>)
    ensures multiset(IndexKeys(ks)) + multiset(OtherKeys(ks)) == multiset(ks)
  {
    if ks != [] {
      SplitKeysPermutes(ks[1..]);
      assert ks == [ks[0]] + ks[1..];
    }
  }

  /** The keys in ascending order of `value`. */
  predicate Ascending(ks: seq<string>, value: string -> nat) {
    forall i, j :: 0 <= i < j < |ks| ==> value(ks[i]) <= value(ks[j])
  }

  /** Insert `k` before the first key of larger value. */
  function InsertBy(k: string, s: seq<string>, value: string -> nat): seq<string> {
    if s == [] || value(k) <= value(s[0]) then [k] + s
    else [s[0]] + InsertBy(k, s[1..], value)
  }

  lemma {:induction false} InsertByPermutes(k: string, s: seq<string>, value: string -> nat)
    ensures multiset(InsertBy(k, s, value)) == multiset{k} + multiset(s)
  {
    if s != [] && value(k) > value(s[0]) {
      InsertByPermutes(k, s[1..], value);
      assert s == [s[0]] + s[1..];
    }
  }

  /** Every key of `InsertBy(k, s, value)` is `k` or a key of `s`. */
  lemma InsertByFrom(k: string, s: seq<string>, value: string -> nat, x: string)
    requires x in InsertBy(k, s, value)
    ensures x == k || x in s
  {
    InsertByPermutes(k, s, value);
    assert x in multiset(InsertBy(k, s, value));
  }

  lemma {:induction false} InsertByAscending(k: string, s: seq<string>, value: string -> nat)
    requires Ascending(s, value)
    ensures Ascending(InsertBy(k, s, value), value)
  {
    if s != [] && value(k) > value(s[0]) {
      var t := InsertBy(k, s[1..], value);
      InsertByAscending(k, s[1..], value);
      var r := [s[0]] + t;
      forall j | 0 < j < |r| ensures value(s[0]) <= value(r[j]) {
        InsertByFrom(k, s[1..], value, t[j - 1]);
        if t[j - 1] != k {
          var m :| 0 <= m < |s[1..]| && s[1..][m] == t[j - 1];
          assert s[m + 1] == t[j - 1];
        }
      }
      forall i, j | 0 <= i < j < |r| ensures value(r[i]) <= value(r[j]) {
        if i > 0 {
          assert r[i] == t[i - 1] && r[j] == t[j - 1];
        }
      }
    }
  }

  /** Insertion sort by `value`. */
  function SortBy(ks: seq<string>, value: string -> nat): (r: seq<string>)
    ensures multiset(r) == multiset(ks)
    ensures Ascending(r, value)
  {
    if ks == [] then []
    else
      var t := SortBy(ks[1..], value);
      InsertByPermutes(ks[0], t, value);
      InsertByAscending(ks[0], t, value);
      assert ks == [ks[0]] + ks[1..];
      InsertBy(ks[0], t, value)
  }

  /**
   * The order `Object.keys`/`Object.values` list an object's own string keys:
   * the array indices first in ascending numeric order, then the other keys in
   * insertion order.
   */
  function PropertyOrder(ks: seq<string>): (r: seq<string>)
    ensures |r| == |ks|
    ensures forall k :: k in r ==> k in ks
  {
    SplitKeysPermutes(ks);
    var r := SortBy(IndexKeys(ks), DigitsValue) + OtherKeys(ks);
    assert multiset(r) == multiset(ks);
    assert |r| == |multiset(r)| == |multiset(ks)| == |ks|;
    forall k | k in r ensures k in ks {
      assert k in multiset(r);
    }
    r
  }

  /**
   * Property order lists every key once: it is a permutation of insertion
   * order whose array-index prefix is in ascending numeric order.
   */
  lemma PropertyOrderPermutes(ks: seq<string>)
    ensures multiset(PropertyOrder(ks)) == multiset(ks)
    ensures var n := |IndexKeys(ks)|;
      && n <= |ks|
      && Ascending(PropertyOrder(ks)[..n], DigitsValue)
      && PropertyOrder(ks)[n..] == OtherKeys(ks)
  {
    SplitKeysPermutes(ks);
    var sorted := SortBy(IndexKeys(ks), DigitsValue);
    assert |sorted| == |multiset(sorted)| == |IndexKeys(ks)|;
    assert PropertyOrder(ks)[..|sorted|] == sorted;
  }

  /** `Object.values(m)` for keys that may be array indices. */
  function OwnValues<V>(m: OMap<V>): (vs: seq<V>)
    requires Valid(m)
    ensures |vs| == |m.keys|
    ensures forall i :: 0 <= i < |vs| ==>
      PropertyOrder(m.keys)[i] in m.items && vs[i] == m.items[PropertyOrder(m.keys)[i]]
  {
    var order := PropertyOrder(m.keys);
    seq(|order|, i requires 0 <= i < |order| => m.items[order[i]])
  }

  lemma {:induction false} NoIndexKeys(ks: seq<string>)
    requires forall k :: k in ks ==> !IsArrayIndex(k)
    ensures IndexKeys(ks) == [] && OtherKeys(ks) == ks
  {
    if ks != [] {
      NoIndexKeys(ks[1..]);
    }
  }

  /** Without array-index keys, property order is insertion order. */
  lemma OwnValuesInInsertionOrder<V>(m: OMap<V>)
    requires Valid(m)
    requires forall k :: k in m.keys ==> !IsArrayIndex(k)
    ensures OwnValues(m) == Values(m)
  {
    NoIndexKeys(m.keys);
  }

  /** An object with one key lists just that key's value. */
  lemma OwnValuesSingle<V>(k: string, v: V)
    ensures OwnValues(Put(Empty(), k, v)) == [v]
  {
    var m := Put(Empty<V>(), k, v);
    assert m.keys == [k];
    var order := PropertyOrder(m.keys);
    assert |order| == 1 && order[0] in [k];
  }

  /** A non-index key stored before an index key is listed after it. */
  lemma IndexKeyBefore(a: string, b: string)
    requires !IsArrayIndex(a) && IsArrayIndex(b)
    ensures PropertyOrder([a, b]) == [b, a]
  {
    assert [a, b][1..] == [b] && [b][1..] == [];
    assert IndexKeys([b]) == [b] && OtherKeys([b]) == [];
    assert IndexKeys([a, b]) == [b] && OtherKeys([a, b]) == [a];
    assert SortBy([b], DigitsValue) == [b];
  }

  /**
   * An array-index key stored after another key is listed before it: the
   * store `{english: …, "2024": …}` lists `2024` first.
   */
  lemma ArrayIndexKeyFirst(a: string, b: string)
    requires a == "english" && b == "2024"
    ensures PropertyOrder([a, b]) == [b, a]
  {
    assert !IsArrayIndex(a) by { assert !('0' <= a[0] <= '9'); }
    assert IsArrayIndex(b) by {
      assert b[0] == '2' && b[1] == '0' && b[2] == '2' && b[3] == '4';
    }
    IndexKeyBefore(a, b);
  }
}

/**
 * The row loop that both CSV loaders share: each accepted row contributes one
 * entry under each of its variations, `if (!d[v]) d[v] = []; d[v].push(entry)`.
 * What a row contributes (its parse, its variations, its entry) is a parameter,
 * so the same loop serves the named-dictionary loader of `src/background.js`
 * and the single-dictionary loader of `src/content.js`.
 */
module RowIndex {
  import opened Options
  import opened Text
  import opened OrderedMaps

  /** `csv.trim().split('\n')` */
  function Rows(csv: string): seq<string> {
    SplitOn(Trim(csv), '\n')
  }

  /** What one CSV row contributes: the keys it is stored under and its entry. */
  datatype Parsed<V> = Parsed(variations: seq<string>, entry: V)

  /** Pushing one entry under each key of `ks`, in order. */
  function PushAll<V>(m: OMap<seq<V>>, ks: seq<string>, v: V): (r: OMap<seq<V>>)
    ensures Valid(m) ==> Valid(r)
    ensures NoEmptyLists(m) ==> NoEmptyLists(r)
    decreases |ks|
  {
    if ks == [] then m else Push(PushAll(m, ks[..|ks| - 1], v), ks[|ks| - 1], v)
  }

  /** The copies of `v` that pushing it under each key of `ks` files under `k`. */
  function Copies<V>(ks: seq<string>, k: string, v: V): seq<V>
    decreases |ks|
  {
    if ks == [] then [] else Copies(ks[..|ks| - 1], k, v) + (if ks[|ks| - 1] == k then [v] else [])
  }

  lemma {:induction false} PushAllContents<V>(m: OMap<seq<V>>, ks: seq<string>, v: V, k: string)
    ensures Get(PushAll(m, ks, v), k) == Get(m, k) + Copies(ks, k, v)
    ensures k in PushAll(m, ks, v).items <==> k in m.items || k in ks
    decreases |ks|
  {
    if ks != [] {
      var init := ks[..|ks| - 1];
      var last := ks[|ks| - 1];
      PushAllContents(m, init, v, k);
      PushAllGetStep(m, ks, v, k);
      PushAllHasStep(m, ks, v, k);
    }
  }

  lemma PushAllGetStep<V>(m: OMap<seq<V>>, ks: seq<string>, v: V, k: string)
    requires ks != []
    requires Get(PushAll(m, ks[..|ks| - 1], v), k) == Get(m, k) + Copies(ks[..|ks| - 1], k, v)
    ensures Get(PushAll(m, ks, v), k) == Get(m, k) + Copies(ks, k, v)
  {
    var init := ks[..|ks| - 1];
    var last := ks[|ks| - 1];
    var prev := PushAll(m, init, v);
    var extra := if last == k then [v] else [];
    assert PushAll(m, ks, v) == Push(prev, last, v);
    PushGet(prev, last, v, k);
    assert Copies(ks, k, v) == Copies(init, k, v) + extra;
    var a, b := Get(m, k), Copies(init, k, v);
    assert (a + b) + extra == a + (b + extra);
  }

  lemma PushAllHasStep<V>(m: OMap<seq<V>>, ks: seq<string>, v: V, k: string)
    requires ks != []
    requires k in PushAll(m, ks[..|ks| - 1], v).items <==> k in m.items || k in ks[..|ks| - 1]
    ensures k in PushAll(m, ks, v).items <==> k in m.items || k in ks
  {
    var prev := PushAll(m, ks[..|ks| - 1], v);
    assert PushAll(m, ks, v) == Push(prev, ks[|ks| - 1], v);
    PushGet(prev, ks[|ks| - 1], v, k);
    InSnoc(ks, k);
  }

  lemma PushGet<V>(m: OMap<seq<V>>, k0: string, v: V, k: string)
    ensures Get(Push(m, k0, v), k) == Get(m, k) + (if k0 == k then [v] else [])
    ensures k in Push(m, k0, v).items <==> k in m.items || k == k0
  {
  }

  lemma InSnoc(ks: seq<string>, k: string)
    requires ks != []
    ensures k in ks <==> k in ks[..|ks| - 1] || k == ks[|ks| - 1]
  {
    assert ks == ks[..|ks| - 1] + [ks[|ks| - 1]];
  }

  /** Adding one row, if the row is accepted. */
  function AddRow<V>(m: OMap<seq<V>>, p: Option<Parsed<V>>): (r: OMap<seq<V>>)
    ensures Valid(m) ==> Valid(r)
    ensures NoEmptyLists(m) ==> NoEmptyLists(r)
  {
    match p
    case None => m
    case Some(x) => PushAll(m, x.variations, x.entry)
  }

  /** The object the row loop has built after the rows `rows`, starting from `{}`. */
  function Build<V>(rows: seq<string>, parse: string -> Option<Parsed<V>>): (m: OMap<seq<V>>)
    ensures Valid(m) && NoEmptyLists(m)
    decreases |rows|
  {
    if rows == [] then Empty()
    else AddRow(Build(rows[..|rows| - 1], parse), parse(rows[|rows| - 1]))
  }

  /** Reference definition: the entries filed under `k`, row by row. */
  function FiledUnder<V>(rows: seq<string>, parse: string -> Option<Parsed<V>>, k: string): seq<V>
    decreases |rows|
  {
    if rows == [] then []
    else
      FiledUnder(rows[..|rows| - 1], parse, k)
      + match parse(rows[|rows| - 1])
        case None => []
        case Some(x) => Copies(x.variations, k, x.entry)
  }

  /** Some accepted row among `rows` lists `k` as one of its variations. */
  ghost predicate Registers<V>(rows: seq<string>, parse: string -> Option<Parsed<V>>, k: string) {
    exists i :: 0 <= i < |rows| && parse(rows[i]).Some? && k in parse(rows[i]).value.variations
  }

  lemma RegistersSnoc<V>(rows: seq<string>, parse: string -> Option<Parsed<V>>, k: string)
    requires rows != []
    ensures var last := parse(rows[|rows| - 1]);
      Registers(rows, parse, k) <==>
        Registers(rows[..|rows| - 1], parse, k) || (last.Some? && k in last.value.variations)
  {
    var init := rows[..|rows| - 1];
    if Registers(rows, parse, k) {
      var i :| 0 <= i < |rows| && parse(rows[i]).Some? && k in parse(rows[i]).value.variations;
      if i < |init| {
        assert rows[i] == init[i];
      }
    }
    if Registers(init, parse, k) {
      var i :| 0 <= i < |init| && parse(init[i]).Some? && k in parse(init[i]).value.variations;
      assert rows[i] == init[i];
    }
  }

  /**
   * The built object holds a key exactly when some accepted row registers it, and
   * under each key it holds that key's entries in row order.
   */
  lemma {:induction false} BuildContents<V>(rows: seq<string>, parse: string -> Option<Parsed<V>>, k: string)
    ensures Get(Build(rows, parse), k) == FiledUnder(rows, parse, k)
    ensures k in Build(rows, parse).items <==> Registers(rows, parse, k)
    decreases |rows|
  {
    if rows != [] {
      var init := rows[..|rows| - 1];
      BuildContents(init, parse, k);
      RegistersSnoc(rows, parse, k);
      var prev := Build(init, parse);
      match parse(rows[|rows| - 1])
      case None =>
      case Some(x) =>
        PushAllContents(prev, x.variations, x.entry, k);
    }
  }

  /** Pushing under `ks` files copies of `v` under `k` exactly when `k` is among `ks`, and nothing else. */
  lemma {:induction false} CopiesOf<V>(ks: seq<string>, k: string, v: V)
    ensures v in Copies(ks, k, v) <==> k in ks
    ensures forall e :: e in Copies(ks, k, v) ==> e == v
    decreases |ks|
  {
    if ks != [] {
      CopiesOf(ks[..|ks| - 1], k, v);
      InSnoc(ks, k);
    }
  }

  /** Every entry filed under `k` is the entry of an accepted row that registers `k`. */
  lemma {:induction false} FiledUnderFrom<V>(rows: seq<string>, parse: string -> Option<Parsed<V>>, k: string, e: V)
    requires e in FiledUnder(rows, parse, k)
    ensures exists i :: 0 <= i < |rows| && parse(rows[i]).Some? && parse(rows[i]).value.entry == e && k in parse(rows[i]).value.variations
    decreases |rows|
  {
    var init := rows[..|rows| - 1];
    var last := rows[|rows| - 1];
    if e in FiledUnder(init, parse, k) {
      FiledUnderFrom(init, parse, k, e);
      var i :| 0 <= i < |init| && parse(init[i]).Some? && parse(init[i]).value.entry == e
        && k in parse(init[i]).value.variations;
      assert rows[i] == init[i];
    } else {
      var x := parse(last).value;
      CopiesOf(x.variations, k, x.entry);
      assert parse(rows[|rows| - 1]).Some?;
    }
  }

  /** The entry of an accepted row is filed under each of its variations. */
  lemma {:induction false} FiledUnderHas<V>(rows: seq<string>, parse: string -> Option<Parsed<V>>, i: int, k: string)
    requires 0 <= i < |rows| && parse(rows[i]).Some? && k in parse(rows[i]).value.variations
    ensures parse(rows[i]).value.entry in FiledUnder(rows, parse, k)
    decreases |rows|
  {
    var init := rows[..|rows| - 1];
    var x := parse(rows[i]).value;
    if i == |rows| - 1 {
      CopiesOf(x.variations, k, x.entry);
    } else {
      assert init[i] == rows[i];
      FiledUnderHas(init, parse, i, k);
    }
  }

  /** The row loop: `for (const row of rows) { ... for (const variation of variations) ... }`. */
  method BuildIndex<V>(rows: seq<string>, parse: string -> Option<Parsed<V>>) returns (m: OMap<seq<V>>)
    ensures m == Build(rows, parse)
  {
    m := Empty();
    for i := 0 to |rows|
      invariant Valid(m) && m == Build(rows[..i], parse)
    {
      assert rows[..i + 1][..i] == rows[..i];
      var p := parse(rows[i]);
      if p.Some? {
        var vs := p.value.variations;
        ghost var before := m;
        for j := 0 to |vs|
          invariant Valid(m) && m == PushAll(before, vs[..j], p.value.entry)
        {
          assert vs[..j + 1][..j] == vs[..j];
          m := Push(m, vs[j], p.value.entry);
        }
        assert vs[..|vs|] == vs;
      }
    }
    assert rows[..|rows|] == rows;
  }

  // ------------------------------------------------ the loop as written

  /**
   * The names an empty JavaScript object answers truthily without owning them
   * (`Object.prototype` members whose names can be keys here).
   */
  const InheritedNames: set<string> := {"constructor", "__proto__"}

  /**
   * `if (!d[v]) d[v] = []; d[v].push(entry)` as the code runs it: for an inherited
   * name the test is false, no array is made, and `push` is called on the inherited
   * value, which throws (`None`).
   */
  function PushAsWritten<V>(m: OMap<seq<V>>, k: string, v: V): Option<OMap<seq<V>>>
  {
    if k !in m.items && k in InheritedNames then None else Some(Push(m, k, v))
  }

  function PushAllAsWritten<V>(m: OMap<seq<V>>, ks: seq<string>, v: V): (r: Option<OMap<seq<V>>>)
    ensures Valid(m) && r.Some? ==> Valid(r.value)
    decreases |ks|
  {
    if ks == [] then Some(m)
    else
      match PushAllAsWritten(m, ks[..|ks| - 1], v)
      case None => None
      case Some(m') => PushAsWritten(m', ks[|ks| - 1], v)
  }

  function BuildAsWritten<V>(rows: seq<string>, parse: string -> Option<Parsed<V>>): (r: Option<OMap<seq<V>>>)
    ensures r.Some? ==> Valid(r.value)
    decreases |rows|
  {
    if rows == [] then Some(Empty())
    else
      match BuildAsWritten(rows[..|rows| - 1], parse)
      case None => None
      case Some(m) =>
        match parse(rows[|rows| - 1])
        case None => Some(m)
        case Some(x) => PushAllAsWritten(m, x.variations, x.entry)
  }

  /** Where no row registers an inherited name, the code as written builds the corrected object. */
  lemma {:induction false} BuildAsWrittenAgrees<V>(rows: seq<string>, parse: string -> Option<Parsed<V>>)
    requires forall k :: k in InheritedNames ==> !Registers(rows, parse, k)
    ensures BuildAsWritten(rows, parse) == Some(Build(rows, parse))
    decreases |rows|
  {
    if rows != [] {
      var init := rows[..|rows| - 1];
      forall k | k in InheritedNames ensures !Registers(init, parse, k) {
        RegistersSnoc(rows, parse, k);
      }
      BuildAsWrittenAgrees(init, parse);
      var last := rows[|rows| - 1];
      match parse(last)
      case None =>
      case Some(x) =>
        forall k | k in x.variations ensures k !in InheritedNames {
          RegistersSnoc(rows, parse, k);
        }
        PushAllAsWrittenAgrees(Build(init, parse), x.variations, x.entry);
    }
  }

  lemma {:induction false} PushAllAsWrittenAgrees<V>(m: OMap<seq<V>>, ks: seq<string>, v: V)
    requires forall k :: k in ks ==> k !in InheritedNames
    ensures PushAllAsWritten(m, ks, v) == Some(PushAll(m, ks, v))
    decreases |ks|
  {
    if ks != [] {
      PushAllAsWrittenAgrees(m, ks[..|ks| - 1], v);
      assert ks[|ks| - 1] in ks;
    }
  }

  /** Once the first key pushed is an inherited name the object lacks, the code as written throws. */
  lemma {:induction false} PushAllAsWrittenThrows<V>(m: OMap<seq<V>>, ks: seq<string>, v: V)
    requires ks != [] && ks[0] !in m.items && ks[0] in InheritedNames
    ensures PushAllAsWritten(m, ks, v) == None
    decreases |ks|
  {
    if |ks| > 1 {
      var init := ks[..|ks| - 1];
      assert init[0] == ks[0];
      PushAllAsWrittenThrows(m, init, v);
    } else {
      assert ks[..0] == [];
    }
  }

  /**
   * One accepted row whose first key is an inherited name: the loop as written
   * throws, where the corrected loop files the row's entry under that name.
   */
  lemma OneInheritedRow<V>(row: string, parse: string -> Option<Parsed<V>>)
    requires parse(row).Some? && parse(row).value.variations != []
    requires parse(row).value.variations[0] in InheritedNames
    ensures BuildAsWritten([row], parse) == None
    ensures parse(row).value.entry in Get(Build([row], parse), parse(row).value.variations[0])
  {
    var x := parse(row).value;
    var e: OMap<seq<V>> := Empty();
    assert [row][..0] == [];
    assert BuildAsWritten([row], parse) == PushAllAsWritten(e, x.variations, x.entry);
    PushAllAsWrittenThrows(e, x.variations, x.entry);
    assert Build([row], parse) == PushAll(e, x.variations, x.entry);
    PushAllContents(e, x.variations, x.entry, x.variations[0]);
    CopiesOf(x.variations, x.variations[0], x.entry);
  }
}
