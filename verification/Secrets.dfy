/**
 The secrets manager (internal/secrets/manager.go) within one session: the keychain
 probe has answered, and its answer decides which backend is written. The two
 backends and the index kept as text inside one of them behave as one map.
 */
module Secrets {
  import opened Sequences
  import opened Text
  import opened Sorting

  const INDEX_KEY: string := "_keys_index"

  type Entries = map<string, string>

  datatype Outcome = Ok | Failed
  datatype Reading = Found(value: string) | NotFound | ReadFailed

  // ---- the index as text ------------------------------------------------------------------

  /** The keys an index entry names. */
  function KeysIn(index: string): set<string>
  {
    set k | k in Split(index, ',') && k != ""
  }

  /** A key the index can hold. */
  predicate Indexable(key: string)
  {
    key != "" && ',' !in key
  }

  lemma KeysInAreIndexable(index: string, key: string)
    requires key in KeysIn(index)
    ensures Indexable(key)
  {
    SplitPieces(index, ',');
  }

  /** A key the index can hold stands for itself; another one for its pieces. */
  lemma KeysInIndexable(key: string)
    requires Indexable(key)
    ensures KeysIn(key) == {key}
  {
    SplitJoin([key], ',');
  }

  lemma KeysInAppend(a: string, b: string)
    ensures KeysIn(a + "," + b) == KeysIn(a) + KeysIn(b)
  {
    SplitAppend(a, b, ',');
    assert a + "," + b == a + [','] + b;
  }

  /** What is read back from the keys joined. */
  function ReadBack(keys: seq<string>): set<string>
  {
    set x, k | x in keys && k in KeysIn(x) :: k
  }

  lemma {:induction false} KeysOfJoin(keys: seq<string>)
    ensures KeysIn(Join(keys, ",")) == ReadBack(keys)
  {
    hide KeysIn;
    if keys == [] {
      NoKeys();
    } else if |keys| == 1 {
      assert keys == [keys[0]];
    } else {
      var n := |keys| - 1;
      KeysOfJoin(keys[..n]);
      KeysInAppend(Join(keys[..n], ","), keys[n]);
      assert keys == keys[..n] + [keys[n]];
      assert ReadBack(keys) == ReadBack(keys[..n]) + KeysIn(keys[n]);
    }
  }

  lemma NoKeys()
    ensures KeysIn("") == {}
  {
    assert Split("", ',') == [""];
  }

  /** The text of an index that names these keys: sorted, so that there is one text for each set of keys. */
  ghost predicate IndexOfKeys(text: string, keys: set<string>)
  {
    exists list :: Elems(list) == keys && NoDup(list) && Ascending(list) && text == Join(list, ",")
  }

  lemma {:induction false} SameElements(a: seq<string>, b: seq<string>)
    requires Elems(a) == Elems(b) && NoDup(a) && NoDup(b)
    ensures multiset(a) == multiset(b)
  {
    hide Elems;
    OnceEach(a);
    OnceEach(b);
    assert forall x :: multiset(a)[x] == multiset(b)[x];
  }

  lemma {:induction false} OnceEach(s: seq<string>)
    requires NoDup(s)
    ensures forall x :: multiset(s)[x] == if x in Elems(s) then 1 else 0
  {
    if s != [] {
      var n := |s| - 1;
      OnceEach(s[..n]);
      assert s == s[..n] + [s[n]];
    }
  }

  lemma AscendingIsSorted(list: seq<string>)
    requires Ascending(list)
    ensures Sorted(list)
  {
    forall i, j | 0 <= i < j < |list|
      ensures StrLe(list[i], list[j])
    {
      StrLeIsByteLe(list[i], list[j]);
    }
  }

  /** Writing the same keys again gives the same text. */
  lemma IndexIsStable(a: string, b: string, keys: set<string>)
    requires IndexOfKeys(a, keys) && IndexOfKeys(b, keys)
    ensures a == b
  {
    hide Elems, Ascending, Join;
    var l :| Elems(l) == keys && NoDup(l) && Ascending(l) && a == Join(l, ",");
    var m :| Elems(m) == keys && NoDup(m) && Ascending(m) && b == Join(m, ",");
    SameElements(l, m);
    AscendingIsSorted(l);
    AscendingIsSorted(m);
    SortedUnique(l, m);
  }

  lemma SortedIsIndex(list: seq<string>, keys: set<string>)
    requires Elems(list) == keys && NoDup(list)
    ensures IndexOfKeys(Join(Sort(list), ","), keys)
  {
    SortSorted(list);
    SortedIsAscending(Sort(list));
    SortNoDup(list);
    forall x
      ensures x in Sort(list) <==> x in list
    {
      SortElements(list, x);
    }
    hide Sort, Ascending, Join;
    assert Elems(Sort(list)) == keys;
  }

  function Lookup(entries: Entries, key: string): string
  {
    if key in entries then entries[key] else ""
  }

  function IndexText(available: bool, keychain: Entries, file: Entries): string
  {
    if available && INDEX_KEY in keychain then keychain[INDEX_KEY] else Lookup(file, INDEX_KEY)
  }

  /** The secrets held, wherever they are. */
  function Held(available: bool, keychain: Entries, file: Entries): Entries
  {
    (if available then file + keychain else file) - {INDEX_KEY}
  }

  class Manager {
    var keychain: Entries
    var file: Entries
    const available: bool

    ghost function Live(): Entries
      reads this
    {
      Held(available, keychain, file)
    }

    /** The index names exactly the secrets held. */
    ghost predicate Valid()
      reads this
    {
      KeysIn(IndexText(available, keychain, file)) == Live().Keys
    }

    /** A session starts with an empty keychain and a fallback file whose index, if it has one, is right. */
    constructor (probeAnswered: bool, stored: Entries)
      requires KeysIn(Lookup(stored, INDEX_KEY)) == stored.Keys - {INDEX_KEY}
      ensures Valid() && available == probeAnswered && keychain == map[] && file == stored
      ensures Live() == stored - {INDEX_KEY}
    {
      keychain, file, available := map[], stored, probeAnswered;
      new;
      assert file + keychain == file;
    }

    /** getRaw for the index: the active backend's text, the file's if the keychain has none. */
    method GetRawIndex() returns (index: string)
      ensures index == IndexText(available, keychain, file)
    {
      if available {
        if INDEX_KEY in keychain {
          return keychain[INDEX_KEY];
        }
      }
      if INDEX_KEY in file {
        index := file[INDEX_KEY];
      } else {
        index := "";
      }
    }

    method SetRawIndex(index: string)
      modifies this
      ensures available ==> file == old(file) && keychain == old(keychain)[INDEX_KEY := index]
      ensures !available ==> keychain == old(keychain) && file == old(file)[INDEX_KEY := index]
      ensures Live() == old(Live()) && IndexText(available, keychain, file) == index
    {
      if available {
        keychain := keychain[INDEX_KEY := index];
        return;
      }
      file := file[INDEX_KEY := index];
    }

    /** Rewrites the index entry, and nothing else, to name the key or no longer to name it. */
    method UpdateIndex(key: string, remove: bool)
      requires key != INDEX_KEY
      modifies this
      ensures Live() == old(Live())
      ensures available ==> file == old(file)
      ensures var before := KeysIn(old(IndexText(available, keychain, file)));
              var after := KeysIn(IndexText(available, keychain, file));
              after == if remove then before - {key} else before + KeysIn(key)
      ensures var before := KeysIn(old(IndexText(available, keychain, file)));
              var after := IndexText(available, keychain, file);
              if (key in before) == remove
              then IndexOfKeys(after, if remove then before - {key} else before + {key})
              else after == old(IndexText(available, keychain, file))
    {
      hide Held, IndexText, KeysIn, Join, Sort, IndexOfKeys;
      var index := GetRawIndex();
      var keys := ReadKeys(index);
      var changed := false;
      if remove {
        if key in keys {
          keys := keys - {key};
          changed := true;
        }
      } else if key !in keys {
        keys := keys + {key};
        changed := true;
      }
      if key in KeysIn(index) {
        KeysInAreIndexable(index, key);
        KeysInIndexable(key);
      }
      if !changed {
        return;
      }
      var list := Listed(keys);
      var sorted := Sort(list);
      SortedKeys(index, key, keys, list);
      SortedIsIndex(list, keys);
      SetRawIndex(Join(sorted, ","));
    }

    method Set(key: string, value: string, fails: bool) returns (outcome: Outcome)
      modifies this
      ensures outcome == if fails then Failed else Ok
      ensures fails ==> keychain == old(keychain) && file == old(file)
      ensures available ==> file == old(file)
      ensures !fails && key != INDEX_KEY ==> Live() == old(Live())[key := value]
      ensures !fails && key != INDEX_KEY ==>
                KeysIn(IndexText(available, keychain, file)) ==
                  KeysIn(old(IndexText(available, keychain, file))) + KeysIn(key)
      ensures !fails && key != INDEX_KEY ==>
                var before := KeysIn(old(IndexText(available, keychain, file)));
                if key in before then IndexText(available, keychain, file) == old(IndexText(available, keychain, file))
                else IndexOfKeys(IndexText(available, keychain, file), before + {key})
      ensures !fails && key != INDEX_KEY && old(Valid()) ==> (Valid() <==> Indexable(key))
    {
      hide KeysIn, IndexOfKeys, Indexable;
      if fails {
        return Failed;
      }
      if available {
        keychain := keychain[key := value];
      } else {
        file := file[key := value];
      }
      if key != INDEX_KEY {
        assert Live() == old(Live())[key := value];
        assert IndexText(available, keychain, file) == old(IndexText(available, keychain, file));
        UpdateIndex(key, false);
        if Indexable(key) {
          KeysInIndexable(key);
        } else if key in KeysIn(IndexText(available, keychain, file)) {
          KeysInAreIndexable(IndexText(available, keychain, file), key);
        }
      }
      outcome := Ok;
    }

    method Get(key: string, fails: bool) returns (r: Reading)
      ensures fails <==> r.ReadFailed?
      ensures !fails && key != INDEX_KEY ==> r == if key in Live() then Found(Live()[key]) else NotFound
      ensures !fails && key == INDEX_KEY ==>
                IndexText(available, keychain, file) == match r case Found(text) => text case NotFound => ""
    {
      if fails {
        return ReadFailed;
      }
      if available {
        if key in keychain {
          return Found(keychain[key]);
        }
      }
      if key in file {
        return Found(file[key]);
      }
      r := NotFound;
    }

    /** The keys of the secrets held, each once. */
    method List() returns (keys: seq<string>)
      ensures NoDup(keys)
      ensures Elems(keys) == KeysIn(IndexText(available, keychain, file)) + file.Keys - {INDEX_KEY}
      ensures Valid() ==> Elems(keys) == Live().Keys
    {
      var index := Get(INDEX_KEY, false);
      var keySet := ReadKeys(if index.Found? then index.value else "");
      keySet := keySet + file.Keys;
      keys := Listed(keySet - {INDEX_KEY});
    }

    method Delete(key: string, fails: bool) returns (outcome: Outcome)
      modifies this
      ensures outcome.Failed? <==> fails && (available || key in old(file))
      ensures outcome.Failed? ==> keychain == old(keychain) && file == old(file)
      ensures outcome.Ok? && key != INDEX_KEY ==> Live() == old(Live()) - {key}
      ensures outcome.Ok? && key != INDEX_KEY ==>
                var before := KeysIn(old(IndexText(available, keychain, file)));
                if key in before then IndexOfKeys(IndexText(available, keychain, file), before - {key})
                else IndexText(available, keychain, file) == old(IndexText(available, keychain, file))
      ensures outcome.Ok? && key != INDEX_KEY && old(Valid()) ==> Valid()
    {
      hide KeysIn, IndexOfKeys;
      if available {
        if fails {
          return Failed;
        }
        keychain := keychain - {key};
      }
      if key in file {
        if fails {
          return Failed;
        }
        file := file - {key};
      }
      if key != INDEX_KEY {
        assert Live() == old(Live()) - {key};
        assert IndexText(available, keychain, file) == old(IndexText(available, keychain, file));
        UpdateIndex(key, true);
      }
      outcome := Ok;
    }

    /** A whole session of writes and deletions. */
    method Run(ops: seq<Op>)
      requires Valid() && forall op :: op in ops ==> Ordinary(op)
      modifies this
      ensures Valid() && Live() == Replay(old(Live()), ops)
      ensures available && (forall op :: op in ops ==> op.Write?) ==> file == old(file)
    {
      for i := 0 to |ops|
        invariant Valid() && Live() == Replay(old(Live()), ops[..i])
        invariant available && (forall op :: op in ops ==> op.Write?) ==> file == old(file)
      {
        assert ops[i] in ops;
        assert ops[..i + 1][..i] == ops[..i];
        match ops[i]
        case Write(key, value, fails) => var _ := Set(key, value, fails);
        case Remove(key) => var _ := Delete(key, false);
      }
      assert ops[..|ops|] == ops;
    }
  }

  /** The loop by which updateIndexLocked and List read an index. */
  method ReadKeys(index: string) returns (keys: set<string>)
    ensures keys == KeysIn(index)
  {
    var pieces := Split(index, ',');
    keys := {};
    for i := 0 to |pieces|
      invariant keys == set k | k in pieces[..i] && k != ""
    {
      if pieces[i] != "" {
        keys := keys + {pieces[i]};
      }
    }
    assert pieces[..|pieces|] == pieces;
  }

  /** The elements of a set in any order. */
  method Listed(keys: set<string>) returns (list: seq<string>)
    ensures Elems(list) == keys && NoDup(list)
  {
    list := [];
    var rest := keys;
    while rest != {}
      invariant Elems(list) + rest == keys && Elems(list) !! rest && NoDup(list)
    {
      var k :| k in rest;
      rest := rest - {k};
      assert Elems(list + [k]) == Elems(list) + {k};
      list := list + [k];
    }
  }

  lemma ReadBackOf(list: seq<string>, others: set<string>, key: string)
    requires Elems(list) - {key} == others && forall x :: x in others ==> KeysIn(x) == {x}
    ensures ReadBack(list) == others + if key in list then KeysIn(key) else {}
  {
    hide KeysIn;
    forall x
      ensures x in list <==> x in others || (x == key && key in list)
    {
      assert x in Elems(list) <==> x in list;
    }
    forall k | k in others
      ensures k in ReadBack(list)
    {
      assert k in list && k in KeysIn(k);
    }
  }

  /** Sorting and joining the keys of an index and one more reads back as those and the pieces of that one. */
  lemma SortedKeys(index: string, key: string, keys: set<string>, list: seq<string>)
    requires KeysIn(index) - {key} <= keys <= KeysIn(index) + {key} && Elems(list) == keys
    ensures KeysIn(Join(Sort(list), ",")) == KeysIn(index) - {key} + if key in keys then KeysIn(key) else {}
  {
    var sorted := Sort(list);
    KeysOfJoin(sorted);
    forall x
      ensures x in sorted <==> x in keys
    {
      SortElements(list, x);
      assert x in Elems(list) <==> x in list;
    }
    assert Elems(sorted) == keys;
    forall x | x in KeysIn(index)
      ensures KeysIn(x) == {x}
    {
      KeysInAreIndexable(index, x);
      KeysInIndexable(x);
    }
    hide KeysIn, Sort, Join, Elems, ReadBack;
    assert keys - {key} == KeysIn(index) - {key};
    ReadBackOf(sorted, KeysIn(index) - {key}, key);
  }

  lemma CommaKeyIsTwoKeys()
    ensures KeysIn("a,b") == {"a", "b"} && !Indexable("a,b")
  {
    SplitJoin(["a", "b"], ',');
    assert ["a", "b"][..1] == ["a"];
    assert Join(["a"], ",") == "a";
    assert Join(["a", "b"], ",") == "a,b";
    assert "a,b"[1] == ',';
  }

  lemma OneKeyIndex(key: string)
    ensures IndexOfKeys(key, {key})
  {
    var list := [key];
    assert Elems(list) == {key} && NoDup(list) && Ascending(list) && Join(list, ",") == key;
  }

  /** A secret whose key holds a comma can be read, and is listed under the pieces of its key instead. */
  method CommaKeyIsListedInPieces() returns (reading: Reading, keys: seq<string>, index: string)
    ensures reading == Found("v") && Elems(keys) == {"a", "b"} && index == "a,b"
  {
    NoKeys();
    CommaKeyIsTwoKeys();
    var m := new Manager(true, map[]);
    assert IndexText(m.available, m.keychain, m.file) == "";
    hide KeysIn;
    var _ := m.Set("a,b", "v", false);
    reading := m.Get("a,b", false);
    keys := m.List();
    assert "a" != INDEX_KEY && "b" != INDEX_KEY;
    OneKeyIndex("a,b");
    IndexIsStable(IndexText(m.available, m.keychain, m.file), "a,b", {"a,b"});
    index := if "_keys_index" in m.keychain then m.keychain["_keys_index"] else "";
  }

  // ---- whole sessions ------------------------------------------------------------------------

  datatype Op = Write(key: string, value: string, fails: bool) | Remove(key: string)

  predicate Ordinary(op: Op)
  {
    op.key != INDEX_KEY && (op.Write? ==> Indexable(op.key))
  }

  /** The map a session leaves. */
  function Replay(held: Entries, ops: seq<Op>): Entries
  {
    if ops == [] then held
    else
      var before := Replay(held, ops[..|ops| - 1]);
      match ops[|ops| - 1]
      case Write(key, value, fails) => if fails then before else before[key := value]
      case Remove(key) => before - {key}
  }

  predicate Touches(op: Op, key: string)
  {
    op.key == key && !(op.Write? && op.fails)
  }

  /** What the last operation on a key did is what a session leaves of it. */
  lemma {:induction false} LastOperationDecides(held: Entries, ops: seq<Op>, i: nat, key: string)
    requires i < |ops| && Touches(ops[i], key)
    requires forall j :: i < j < |ops| ==> !Touches(ops[j], key)
    ensures ops[i].Write? ==> key in Replay(held, ops) && Replay(held, ops)[key] == ops[i].value
    ensures ops[i].Remove? ==> key !in Replay(held, ops)
  {
    if i < |ops| - 1 {
      LastOperationDecides(held, ops[..|ops| - 1], i, key);
    }
  }

  /** A key no operation touched is held as it was. */
  lemma {:induction false} UntouchedIsKept(held: Entries, ops: seq<Op>, key: string)
    requires forall op :: op in ops ==> !Touches(op, key)
    ensures key in Replay(held, ops) <==> key in held
    ensures key in held ==> Replay(held, ops)[key] == held[key]
  {
    if ops != [] {
      assert ops[|ops| - 1] in ops;
      UntouchedIsKept(held, ops[..|ops| - 1], key);
    }
  }
}
