/**
 * The stored `dictionaryList`: one record per loaded dictionary, in load order,
 * with its name, whether it is enabled and the keywords that activate it. The
 * updates are the ones the background script applies (load, toggle, remove,
 * update keywords); each one is a value-to-value function here.
 */
module DictionaryList {
  import opened Options

  /** `{name, enabled, keywords}`; `keywords` is absent until the user sets it. */
  datatype DictRecord = DictRecord(name: string, enabled: bool, keywords: Option<seq<string>>)

  /** `dictionaryList.map(dict => dict.name)` */
  function Names(list: seq<DictRecord>): (r: seq<string>)
    ensures |r| == |list|
    ensures forall i :: 0 <= i < |list| ==> r[i] == list[i].name
  {
    if list == [] then [] else [list[0].name] + Names(list[1..])
  }

  /** No two records share a name. */
  predicate UniqueNames(list: seq<DictRecord>) {
    forall i, j :: 0 <= i < j < |list| ==> list[i].name != list[j].name
  }

  /** `dictionaryList.filter(dict => dict.enabled).map(dict => dict.name)` */
  function EnabledNames(list: seq<DictRecord>): (r: seq<string>)
    ensures |r| <= |list|
    ensures forall n :: n in r <==> exists i :: 0 <= i < |list| && list[i].enabled && list[i].name == n
  {
    if list == [] then []
    else
      var rest := EnabledNames(list[1..]);
      assert forall i :: 0 < i < |list| ==> list[i] == list[1..][i - 1];
      (if list[0].enabled then [list[0].name] else []) + rest
  }

  /** The load action: `if (!dictionaryList.some(dict => dict.name === name)) dictionaryList.push({name, enabled: true})`. */
  function AddIfAbsent(list: seq<DictRecord>, name: string): (r: seq<DictRecord>)
    ensures name in Names(r)
    ensures name in Names(list) ==> r == list
    ensures name !in Names(list) ==> r == list + [DictRecord(name, true, None)]
  {
    if name in Names(list) then list
    else
      var r := list + [DictRecord(name, true, None)];
      assert Names(r)[|list|] == name;
      r
  }

  /** The toggle action: each record with that name has `enabled` flipped; the others are left alone. */
  function Toggle(list: seq<DictRecord>, name: string): (r: seq<DictRecord>)
    ensures |r| == |list|
    ensures forall i :: 0 <= i < |list| ==> r[i].name == list[i].name && r[i].keywords == list[i].keywords
    ensures forall i :: 0 <= i < |list| ==> (r[i].enabled <==> (list[i].enabled != (list[i].name == name)))
  {
    if list == [] then []
    else
      var d := list[0];
      [if d.name == name then d.(enabled := !d.enabled) else d] + Toggle(list[1..], name)
  }

  /** The update-keywords action: each record with that name gets the new keywords; the others are left alone. */
  function SetKeywords(list: seq<DictRecord>, name: string, keywords: seq<string>): (r: seq<DictRecord>)
    ensures |r| == |list|
    ensures forall i :: 0 <= i < |list| ==> r[i].name == list[i].name && r[i].enabled == list[i].enabled
    ensures forall i :: 0 <= i < |list| ==> r[i].keywords == if list[i].name == name then Some(keywords) else list[i].keywords
  {
    if list == [] then []
    else
      var d := list[0];
      [if d.name == name then d.(keywords := Some(keywords)) else d] + SetKeywords(list[1..], name, keywords)
  }

  /** The remove action: `dictionaryList.filter(dict => dict.name !== name)`. */
  function RemoveNamed(list: seq<DictRecord>, name: string): (r: seq<DictRecord>)
    ensures |r| <= |list|
    ensures forall i :: 0 <= i < |r| ==> r[i].name != name
  {
    if list == [] then []
    else (if list[0].name != name then [list[0]] else []) + RemoveNamed(list[1..], name)
  }

  /** A record survives removal exactly when it was listed under another name. */
  lemma {:induction false} RemoveNamedMembers(list: seq<DictRecord>, name: string, d: DictRecord)
    ensures d in RemoveNamed(list, name) <==> d in list && d.name != name
  {
    if list != [] {
      RemoveNamedMembers(list[1..], name, d);
      assert list == [list[0]] + list[1..];
    }
  }

  /** `filter` works record by record: removal from a concatenation is the concatenation of the removals. */
  lemma {:induction false} RemoveNamedAppend(a: seq<DictRecord>, b: seq<DictRecord>, name: string)
    ensures RemoveNamed(a + b, name) == RemoveNamed(a, name) + RemoveNamed(b, name)
  {
    if a == [] {
      assert a + b == b;
    } else {
      var ab := a + b;
      assert ab[0] == a[0] && ab[1..] == a[1..] + b;
      var h := if a[0].name != name then [a[0]] else [];
      var ra, rb, rt := RemoveNamed(a[1..], name), RemoveNamed(b, name), RemoveNamed(a[1..] + b, name);
      RemoveNamedAppend(a[1..], b, name);
      assert rt == ra + rb;
      assert RemoveNamed(ab, name) == h + rt;
      assert RemoveNamed(a, name) == h + ra;
      assert h + (ra + rb) == (h + ra) + rb;
    }
  }

  /** One record is kept exactly when its name differs; so the kept records stay in list order. */
  lemma RemoveNamedOne(d: DictRecord, name: string)
    ensures RemoveNamed([d], name) == if d.name != name then [d] else []
  {
    assert [d][1..] == [];
  }

  /** A name that is not listed removes nothing. */
  lemma {:induction false} RemoveNamedAbsent(list: seq<DictRecord>, name: string)
    requires name !in Names(list)
    ensures RemoveNamed(list, name) == list
  {
    if list != [] {
      assert Names(list)[0] == list[0].name;
      assert name !in Names(list[1..]) by {
        forall i | 0 <= i < |list[1..]| ensures Names(list[1..])[i] != name {
          assert Names(list)[i + 1] == list[i + 1].name;
        }
      }
      RemoveNamedAbsent(list[1..], name);
    }
  }

  // ------------------------------------------------------------------ lemmas

  /** Loading keeps names unique. */
  lemma AddIfAbsentUnique(list: seq<DictRecord>, name: string)
    requires UniqueNames(list)
    ensures UniqueNames(AddIfAbsent(list, name))
  {
    if name !in Names(list) {
      forall i | 0 <= i < |list| ensures list[i].name != name {
        assert Names(list)[i] == list[i].name;
      }
    }
  }

  /** Toggling twice restores the list. */
  lemma ToggleTwice(list: seq<DictRecord>, name: string)
    ensures Toggle(Toggle(list, name), name) == list
  {
    var r := Toggle(Toggle(list, name), name);
    assert forall i :: 0 <= i < |list| ==> r[i] == list[i];
  }

  /** Toggling leaves whether any other dictionary is enabled as it was. */
  lemma ToggleOthers(list: seq<DictRecord>, name: string, n: string)
    requires n != name
    ensures n in EnabledNames(Toggle(list, name)) <==> n in EnabledNames(list)
  {
    var r := Toggle(list, name);
    if n in EnabledNames(r) {
      var i :| 0 <= i < |r| && r[i].enabled && r[i].name == n;
      assert list[i].enabled;
    }
    if n in EnabledNames(list) {
      var i :| 0 <= i < |list| && list[i].enabled && list[i].name == n;
      assert r[i].enabled;
    }
  }

  lemma SameName(list: seq<DictRecord>, i: int, j: int)
    requires UniqueNames(list)
    requires 0 <= i < |list| && 0 <= j < |list| && list[i].name == list[j].name
    ensures i == j
  {
  }

  /** Toggling a listed dictionary flips whether it is enabled. */
  lemma ToggleNamed(list: seq<DictRecord>, name: string, k: int)
    requires UniqueNames(list) && 0 <= k < |list| && list[k].name == name
    ensures name in EnabledNames(Toggle(list, name)) <==> !list[k].enabled
    ensures name in EnabledNames(list) <==> list[k].enabled
  {
    var r := Toggle(list, name);
    if name in EnabledNames(r) {
      var i :| 0 <= i < |r| && r[i].enabled && r[i].name == name;
      SameName(list, i, k);
    }
    if name in EnabledNames(list) {
      var i :| 0 <= i < |list| && list[i].enabled && list[i].name == name;
      SameName(list, i, k);
    }
    if list[k].enabled {
      assert name in EnabledNames(list);
    } else {
      assert r[k].enabled && r[k].name == name;
    }
  }

  /** Updating keywords leaves the set of enabled dictionaries, in order, as it was. */
  lemma {:induction false} SetKeywordsEnabledNames(list: seq<DictRecord>, name: string, keywords: seq<string>)
    ensures EnabledNames(SetKeywords(list, name, keywords)) == EnabledNames(list)
    ensures Names(SetKeywords(list, name, keywords)) == Names(list)
  {
    if list != [] {
      SetKeywordsEnabledNames(list[1..], name, keywords);
      assert SetKeywords(list, name, keywords)[1..] == SetKeywords(list[1..], name, keywords);
    }
  }

  /** Toggling leaves the names, in order, as they were. */
  lemma {:induction false} ToggleNames(list: seq<DictRecord>, name: string)
    ensures Names(Toggle(list, name)) == Names(list)
  {
    if list != [] {
      ToggleNames(list[1..], name);
      assert Toggle(list, name)[1..] == Toggle(list[1..], name);
    }
  }

  /** Removing drops exactly the named record from the names, and keeps names unique. */
  lemma RemoveNamedNames(list: seq<DictRecord>, name: string)
    requires UniqueNames(list)
    ensures UniqueNames(RemoveNamed(list, name))
    ensures forall n :: n in Names(RemoveNamed(list, name)) <==> n in Names(list) && n != name
  {
    RemoveNamedUnique(list, name);
    forall n ensures n in Names(RemoveNamed(list, name)) <==> n in Names(list) && n != name {
      RemoveNamedName(list, name, n);
    }
  }

  lemma RemoveNamedName(list: seq<DictRecord>, name: string, n: string)
    ensures n in Names(RemoveNamed(list, name)) <==> n in Names(list) && n != name
  {
    if n in Names(RemoveNamed(list, name)) {
      RemovedNameWasListed(list, name, n);
    }
    if n in Names(list) && n != name {
      ListedNameStays(list, name, n);
    }
  }

  lemma RemovedNameWasListed(list: seq<DictRecord>, name: string, n: string)
    requires n in Names(RemoveNamed(list, name))
    ensures n in Names(list) && n != name
  {
    var r := RemoveNamed(list, name);
    var i :| 0 <= i < |r| && Names(r)[i] == n;
    RemoveNamedMembers(list, name, r[i]);
    var j :| 0 <= j < |list| && list[j] == r[i];
    assert Names(list)[j] == n;
  }

  lemma ListedNameStays(list: seq<DictRecord>, name: string, n: string)
    requires n in Names(list) && n != name
    ensures n in Names(RemoveNamed(list, name))
  {
    var r := RemoveNamed(list, name);
    var j :| 0 <= j < |list| && Names(list)[j] == n;
    RemoveNamedMembers(list, name, list[j]);
    var i :| 0 <= i < |r| && r[i] == list[j];
    assert Names(r)[i] == n;
  }

  lemma {:induction false} RemoveNamedUnique(list: seq<DictRecord>, name: string)
    requires UniqueNames(list)
    ensures UniqueNames(RemoveNamed(list, name))
  {
    if list != [] {
      var r := RemoveNamed(list, name);
      var rest := RemoveNamed(list[1..], name);
      assert UniqueNames(list[1..]) by {
        forall i, j | 0 <= i < j < |list[1..]| ensures list[1..][i].name != list[1..][j].name {
          assert list[1..][i] == list[i + 1] && list[1..][j] == list[j + 1];
        }
      }
      RemoveNamedUnique(list[1..], name);
      if list[0].name != name {
        forall i | 0 <= i < |rest| ensures rest[i].name != list[0].name {
          RemoveNamedMembers(list[1..], name, rest[i]);
          var j :| 0 <= j < |list[1..]| && list[1..][j] == rest[i];
          assert list[j + 1] == rest[i];
        }
        assert r == [list[0]] + rest;
      } else {
        assert r == rest;
      }
    }
  }
}
