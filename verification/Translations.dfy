/** Translation trees: nested lookup by dotted key, enumeration of keys, and
    flattening, over the dictionaries that json.load gives. */
module Translations {
  import opened Options
  import opened Splitting

  /** A JSON value; a list, number or boolean is a scalar here. Dictionary items keep
      their order. */
  datatype Value = Null | Scalar(text: string) | Dict(items: seq<(string, Value)>)

  type Items = seq<(string, Value)>

  /** Keys of a dictionary are distinct, at every level. */
  predicate Proper(v: Value) {
    v.Dict? ==>
      && (forall i, j :: 0 <= i < j < |v.items| ==> v.items[i].0 != v.items[j].0)
      && forall i :: 0 <= i < |v.items| ==> Proper(v.items[i].1)
  }

  /** Keys are not empty and hold no dot, at every level. */
  predicate PlainKeys(v: Value) {
    v.Dict? ==> forall i :: 0 <= i < |v.items| ==>
      v.items[i].0 != "" && Without(v.items[i].0, '.') && PlainKeys(v.items[i].1)
  }

  predicate NoNulls(v: Value) {
    !v.Null? && (v.Dict? ==> forall i :: 0 <= i < |v.items| ==> NoNulls(v.items[i].1))
  }

  function Find(items: Items, key: string): (r: Option<Value>)
    ensures r.Some? ==> exists i :: 0 <= i < |items| && items[i] == (key, r.value)
    ensures r.None? ==> forall i :: 0 <= i < |items| ==> items[i].0 != key
  {
    if items == [] then None
    else if items[0].0 == key then
      assert items[0] == (key, items[0].1);
      Some(items[0].1)
    else
      var r := Find(items[1..], key);
      if r.Some? then
        var i :| 0 <= i < |items[1..]| && items[1..][i] == (key, r.value);
        assert items[i + 1] == (key, r.value);
        r
      else r
  }

  lemma FindDistinct(v: Value, i: nat)
    requires v.Dict? && Proper(v) && i < |v.items|
    ensures Find(v.items, v.items[i].0) == Some(v.items[i].1)
  {}

  /** Following a list of names down from `v`. */
  function Walk(v: Value, names: seq<string>): Option<Value>
    decreases |names|
  {
    if names == [] then Some(v)
    else if !v.Dict? then None
    else
      var child := Find(v.items, names[0]);
      if child.None? then None else Walk(child.value, names[1..])
  }

  function Names(key: string): (names: seq<string>)
    ensures names != []
  {
    SplitAt(key, '.')
  }

  /** What get_nested_value returns: Null stands for Python's None, found or not. */
  function NestedValue(data: Value, key: string): Value
    requires data.Dict?
  {
    var direct := Find(data.items, key);
    if direct.Some? then direct.value
    else
      var nested := Walk(data, Names(key));
      if nested.Some? then nested.value else Null
  }

  method GetNestedValue(data: Value, key: string) returns (r: Value)
    requires data.Dict?
    ensures r == NestedValue(data, key)
  {
    var direct := Find(data.items, key);
    if direct.Some? { return direct.value; }
    var keys := Names(key);
    var current := data;
    for i := 0 to |keys|
      invariant Walk(current, keys[i..]) == Walk(data, keys)
    {
      assert keys[i..][1..] == keys[i + 1..];
      if current.Dict? && Find(current.items, keys[i]).Some? {
        current := Find(current.items, keys[i]).value;
      } else {
        return Null;
      }
    }
    return current;
  }

  /** The whole key wins over the walk, dots or not: in a flat file every key has its own
      value, and what is no key has none, unless its first name leads into a dictionary. */
  lemma WholeKeyFirst(items: Items, key: string)
    requires Proper(Dict(items))
    ensures forall i :: 0 <= i < |items| && items[i].0 == key ==> NestedValue(Dict(items), key) == items[i].1
    ensures (forall i :: 0 <= i < |items| ==> items[i].0 != key && !items[i].1.Dict?) ==>
              NestedValue(Dict(items), key) == Null
    ensures (forall i :: 0 <= i < |items| ==> items[i].0 != key) ==>
              NestedValue(Dict(items), key) ==
                if Walk(Dict(items), Names(key)).Some? then Walk(Dict(items), Names(key)).value else Null
  {
    forall i | 0 <= i < |items| && items[i].0 == key ensures NestedValue(Dict(items), key) == items[i].1 {
      FindDistinct(Dict(items), i);
    }
    if forall i :: 0 <= i < |items| ==> items[i].0 != key && !items[i].1.Dict? {
      var names := Names(key);
      PartsOfKey(key);
      var child := Find(items, names[0]);
      if child.Some? && |names| > 1 { assert names[1..] != [] && Walk(child.value, names[1..]) == None; }
    }
  }

  lemma PartsOfKey(key: string)
    ensures |Names(key)| == 1 ==> Names(key)[0] == key
  {
    JoinOfParts(key, '.');
  }

  // Dotted keys below a prefix.

  /** f"{prefix}.{k}" if prefix else k */
  function Extend(prefix: string, k: string): string {
    if prefix == "" then k else prefix + "." + k
  }

  predicate Fits(prefix: string, key: string) { prefix == "" || prefix + "." <= key }

  function Rest(prefix: string, key: string): string
    requires Fits(prefix, key)
  {
    if prefix == "" then key else key[|prefix| + 1..]
  }

  /** The part of `key` below `prefix` starts with the name `k`. */
  lemma FitsBelow(prefix: string, k: string, key: string)
    requires k != "" && Without(k, '.')
    ensures Fits(Extend(prefix, k), key) <==>
      Fits(prefix, key) && |Names(Rest(prefix, key))| > 1 && Names(Rest(prefix, key))[0] == k
    ensures Fits(Extend(prefix, k), key) ==>
      Names(Rest(prefix, key)) == [k] + Names(Rest(Extend(prefix, k), key))
    ensures key == Extend(prefix, k) <==> Fits(prefix, key) && Names(Rest(prefix, key)) == [k]
  {
    SplitWhole(k, '.');
    if Fits(prefix, key) {
      var rest := Rest(prefix, key);
      assert key == if prefix == "" then rest else prefix + "." + rest;
      NamesBelow(k, rest);
      FitsInSteps(prefix, k, key);
    } else {
      NotFitsInSteps(prefix, k, key);
    }
  }

  lemma NamesBelow(k: string, rest: string)
    requires Without(k, '.')
    ensures k + "." <= rest <==> |Names(rest)| > 1 && Names(rest)[0] == k
    ensures k + "." <= rest ==> Names(rest) == [k] + Names(rest[|k| + 1..])
    ensures rest == k <==> Names(rest) == [k]
  {
    SplitWhole(k, '.');
    JoinOfParts(rest, '.');
    if k + "." <= rest {
      assert rest == k + ['.'] + rest[|k| + 1..];
      SplitConcat(k, rest[|k| + 1..], '.');
    }
  }

  lemma FitsInSteps(prefix: string, k: string, key: string)
    requires Fits(prefix, key) && k != ""
    ensures Fits(Extend(prefix, k), key) <==> k + "." <= Rest(prefix, key)
    ensures Fits(Extend(prefix, k), key) ==> Rest(Extend(prefix, k), key) == Rest(prefix, key)[|k| + 1..]
    ensures key == Extend(prefix, k) <==> Rest(prefix, key) == k
  {
    if prefix != "" {
      var rest := Rest(prefix, key);
      assert key == prefix + "." + rest;
      assert Extend(prefix, k) + "." == prefix + "." + (k + ".");
      CancelFront(prefix + ".", k + ".", rest);
    }
  }

  lemma CancelFront(front: string, a: string, b: string)
    ensures front + a <= front + b <==> a <= b
    ensures front + a == front + b <==> a == b
  {
    assert (front + a)[|front|..] == a && (front + b)[|front|..] == b;
    if front + a <= front + b {
      assert a == (front + b)[|front|..|front| + |a|];
    }
  }

  lemma NotFitsInSteps(prefix: string, k: string, key: string)
    requires !Fits(prefix, key) && k != ""
    ensures !Fits(Extend(prefix, k), key) && key != Extend(prefix, k)
  {
    assert prefix + "." <= Extend(prefix, k) + ".";
  }

  // Which item a walk goes through.

  /** The walk from `v` goes through its item `i` and arrives. */
  predicate Via(v: Value, i: nat, names: seq<string>) {
    v.Dict? && i < |v.items| && names != [] && v.items[i].0 == names[0] && Walk(v.items[i].1, names[1..]).Some?
  }

  lemma WalkGoesVia(v: Value, names: seq<string>)
    requires v.Dict? && Proper(v) && names != []
    ensures Walk(v, names).Some? <==> exists i :: 0 <= i < |v.items| && Via(v, i, names)
    ensures forall i :: 0 <= i < |v.items| && v.items[i].0 == names[0] ==>
              Walk(v, names) == Walk(v.items[i].1, names[1..])
  {
    forall i | 0 <= i < |v.items| && v.items[i].0 == names[0]
      ensures Walk(v, names) == Walk(v.items[i].1, names[1..])
    {
      FindDistinct(v, i);
    }
    if Walk(v, names).Some? {
      var i :| 0 <= i < |v.items| && v.items[i] == (names[0], Find(v.items, names[0]).value);
      assert Via(v, i, names);
    }
  }

  // get_all_keys_from_dict

  /** The keys from the first `n` items of `v`. */
  function KeysUpTo(v: Value, n: nat, prefix: string): set<string>
    requires v.Dict? && n <= |v.items|
    decreases v, n
  {
    if n == 0 then {}
    else
      var (k, child) := v.items[n - 1];
      var key := Extend(prefix, k);
      KeysUpTo(v, n - 1, prefix) + {key} + (if child.Dict? then KeysUpTo(child, |child.items|, key) else {})
  }

  function AllKeys(v: Value, prefix: string): set<string>
    requires v.Dict?
  {
    KeysUpTo(v, |v.items|, prefix)
  }

  method GetAllKeysFromDict(data: Value, prefix: string) returns (keys: set<string>)
    requires data.Dict?
    ensures keys == AllKeys(data, prefix)
    decreases data
  {
    keys := {};
    for i := 0 to |data.items|
      invariant keys == KeysUpTo(data, i, prefix)
    {
      var (key, value) := data.items[i];
      if prefix != "" {
        var currentKey := prefix + "." + key;
        keys := keys + {currentKey};
        if value.Dict? {
          var more := GetAllKeysFromDict(value, currentKey);
          keys := keys + more;
        }
      } else {
        keys := keys + {key};
        if value.Dict? {
          var more := GetAllKeysFromDict(value, key);
          keys := keys + more;
        }
      }
    }
  }

  lemma {:induction false} KeysUpToAreWalks(v: Value, n: nat, prefix: string, key: string)
    requires v.Dict? && n <= |v.items| && Proper(v) && PlainKeys(v)
    ensures key in KeysUpTo(v, n, prefix) <==>
      Fits(prefix, key) && exists i :: 0 <= i < n && Via(v, i, Names(Rest(prefix, key)))
    decreases v, n
  {
    hide Extend, Rest, Fits, Names, Walk, Via;
    if n > 0 {
      var (k, child) := v.items[n - 1];
      var below := Extend(prefix, k);
      KeysUpToAreWalks(v, n - 1, prefix, key);
      FitsBelow(prefix, k, key);
      if child.Dict? {
        KeysUpToAreWalks(child, |child.items|, below, key);
        if Fits(below, key) { WalkGoesVia(child, Names(Rest(below, key))); }
      }
      if Fits(prefix, key) {
        ViaItem(v, n - 1, Names(Rest(prefix, key)));
      }
    }
  }

  /** A walk via an item either ends there or goes on inside a dictionary. */
  lemma ViaItem(v: Value, i: nat, names: seq<string>)
    requires v.Dict? && i < |v.items| && names != []
    ensures var (k, child) := v.items[i];
      Via(v, i, names) <==>
        names == [k] || (|names| > 1 && names[0] == k && child.Dict? && Walk(child, names[1..]).Some?)
  {
    if names[0] == v.items[i].0 { assert names == [names[0]] + names[1..]; }
  }

  /** The enumeration of a tree's keys is exactly the set of keys that lead somewhere. */
  lemma AllKeysAreWalks(v: Value, key: string)
    requires v.Dict? && Proper(v) && PlainKeys(v)
    ensures key in AllKeys(v, "") <==> Walk(v, Names(key)).Some?
  {
    assert Rest("", key) == key;
    KeysUpToAreWalks(v, |v.items|, "", key);
    WalkGoesVia(v, Names(key));
  }

  /** No key is empty, at any level. */
  predicate NoEmptyKeys(v: Value) {
    v.Dict? ==> forall i :: 0 <= i < |v.items| ==> v.items[i].0 != "" && NoEmptyKeys(v.items[i].1)
  }

  /** The key that stands for a list of names below a prefix, whatever dots they hold. */
  predicate Joins(prefix: string, names: seq<string>, key: string) { key == Extend(prefix, JoinWith(names, '.')) }

  /** A walk via one of the first `n` items arrives, and its names join to the key. */
  ghost predicate JoinsUpTo(v: Value, n: nat, prefix: string, key: string) {
    exists i, names :: 0 <= i < n && Via(v, i, names) && Joins(prefix, names, key)
  }

  lemma {:induction false} KeysUpToAreJoins(v: Value, n: nat, prefix: string, key: string)
    requires v.Dict? && n <= |v.items| && Proper(v) && NoEmptyKeys(v)
    ensures key in KeysUpTo(v, n, prefix) <==> JoinsUpTo(v, n, prefix, key)
    decreases v, n
  {
    hide Extend, Walk, Via, Joins;
    if n > 0 {
      var (k, child) := v.items[n - 1];
      KeysUpToAreJoins(v, n - 1, prefix, key);
      if child.Dict? { KeysUpToAreJoins(child, |child.items|, Extend(prefix, k), key); }
      JoinsOfItem(v, n - 1, prefix, key);
    }
  }

  /** Via one item a key joins the item's name alone, or that and names below it. */
  lemma JoinsOfItem(v: Value, i: nat, prefix: string, key: string)
    requires v.Dict? && i < |v.items| && Proper(v) && NoEmptyKeys(v)
    ensures var (k, child) := v.items[i];
      (exists names :: Via(v, i, names) && Joins(prefix, names, key)) <==>
        || key == Extend(prefix, k)
        || (child.Dict? && JoinsUpTo(child, |child.items|, Extend(prefix, k), key))
  {
    hide *;
    var (k, child) := v.items[i];
    if names :| Via(v, i, names) && Joins(prefix, names, key) { JoinsGoOn(v, i, prefix, names, key); }
    if key == Extend(prefix, k) { JoinsWithOne(v, i, prefix); }
    if child.Dict? && JoinsUpTo(child, |child.items|, Extend(prefix, k), key) {
      var more := JoinsFromBelow(v, i, prefix, key);
    }
  }

  lemma JoinsWithOne(v: Value, i: nat, prefix: string)
    requires v.Dict? && i < |v.items|
    ensures Via(v, i, [v.items[i].0]) && Joins(prefix, [v.items[i].0], Extend(prefix, v.items[i].0))
  {
    assert [v.items[i].0][1..] == [];
  }

  lemma JoinsGoOn(v: Value, i: nat, prefix: string, names: seq<string>, key: string)
    requires v.Dict? && i < |v.items| && Proper(v) && NoEmptyKeys(v) && Via(v, i, names) && Joins(prefix, names, key)
    ensures var (k, child) := v.items[i];
      key == Extend(prefix, k) || (child.Dict? && JoinsUpTo(child, |child.items|, Extend(prefix, k), key))
  {
    hide Extend, Walk;
    var (k, child) := v.items[i];
    ViaItem(v, i, names);
    if names == [k] {
      assert JoinWith([k], '.') == k;
    } else {
      var more := names[1..];
      assert names == [k] + more;
      WalkGoesVia(child, more);
      JoinOfMore(prefix, k, more);
    }
  }

  lemma JoinsFromBelow(v: Value, i: nat, prefix: string, key: string) returns (names: seq<string>)
    requires v.Dict? && i < |v.items| && Proper(v) && NoEmptyKeys(v)
    requires var (k, child) := v.items[i];
      child.Dict? && JoinsUpTo(child, |child.items|, Extend(prefix, k), key)
    ensures Via(v, i, names) && Joins(prefix, names, key)
  {
    hide Extend, Walk;
    var (k, child) := v.items[i];
    var j, more :| 0 <= j < |child.items| && Via(child, j, more) && Joins(Extend(prefix, k), more, key);
    names := [k] + more;
    WalkGoesVia(child, more);
    JoinOfMore(prefix, k, more);
    assert names[1..] == more;
    ViaItem(v, i, names);
  }

  lemma JoinOfMore(prefix: string, k: string, more: seq<string>)
    requires k != "" && more != []
    ensures Extend(prefix, JoinWith([k] + more, '.')) == Extend(Extend(prefix, k), JoinWith(more, '.'))
  {
    assert ([k] + more)[1..] == more;
    assert JoinWith([k] + more, '.') == k + "." + JoinWith(more, '.');
  }

  /** Flat files and nested ones: the enumeration is exactly the names that lead
      somewhere, joined by dots, whether or not the names hold dots themselves. */
  lemma AllKeysAreJoins(v: Value, key: string)
    requires v.Dict? && Proper(v) && NoEmptyKeys(v)
    ensures key in AllKeys(v, "") <==>
      exists names :: names != [] && Walk(v, names).Some? && key == JoinWith(names, '.')
  {
    KeysUpToAreJoins(v, |v.items|, "", key);
    if key in AllKeys(v, "") {
      var i, names :| 0 <= i < |v.items| && Via(v, i, names) && Joins("", names, key);
      WalkGoesVia(v, names);
    }
    if names :| names != [] && Walk(v, names).Some? && key == JoinWith(names, '.') {
      WalkGoesVia(v, names);
      var i :| 0 <= i < |v.items| && Via(v, i, names);
      assert Joins("", names, key);
    }
  }

  /** For plain keys the direct look at the top level finds nothing else. */
  lemma DirectIsWalk(v: Value, key: string)
    requires v.Dict? && PlainKeys(v)
    ensures Find(v.items, key).Some? ==> Walk(v, Names(key)) == Find(v.items, key)
  {
    var direct := Find(v.items, key);
    if direct.Some? {
      var i :| 0 <= i < |v.items| && v.items[i] == (key, direct.value);
      SplitWhole(key, '.');
      assert Walk(direct.value, [key][1..]) == Some(direct.value);
    }
  }

  lemma {:induction false} WalkKeepsNoNulls(v: Value, names: seq<string>)
    requires NoNulls(v) && Walk(v, names).Some?
    ensures NoNulls(Walk(v, names).value)
    decreases |names|
  {
    if names != [] {
      var child := Find(v.items, names[0]).value;
      var i :| 0 <= i < |v.items| && v.items[i] == (names[0], child);
      WalkKeepsNoNulls(child, names[1..]);
    }
  }

  /** Without null values the enumerated keys are exactly those that
      get_nested_value finds. */
  lemma AllKeysAreFound(v: Value, key: string)
    requires v.Dict? && Proper(v) && PlainKeys(v) && NoNulls(v)
    ensures key in AllKeys(v, "") <==> NestedValue(v, key) != Null
  {
    AllKeysAreWalks(v, key);
    DirectIsWalk(v, key);
    if Walk(v, Names(key)).Some? { WalkKeepsNoNulls(v, Names(key)); }
  }

  // flatten_json

  function FlattenUpTo(y: Value, n: nat, prefix: string): map<string, Value>
    requires y.Dict? && n <= |y.items|
    decreases y, n, 0
  {
    if n == 0 then map[]
    else
      var (k, child) := y.items[n - 1];
      FlattenUpTo(y, n - 1, prefix) + Flatten(child, Extend(prefix, k))
  }

  function Flatten(y: Value, prefix: string): map<string, Value>
    decreases y, if y.Dict? then |y.items| else 0, 1
  {
    if y.Dict? then FlattenUpTo(y, |y.items|, prefix) else map[prefix := y]
  }

  method FlattenJson(y: Value, prefix: string) returns (out: map<string, Value>)
    ensures out == Flatten(y, prefix)
    decreases y
  {
    out := map[];
    if y.Dict? {
      for i := 0 to |y.items|
        invariant out == FlattenUpTo(y, i, prefix)
      {
        var (k, v) := y.items[i];
        var newKey := if prefix != "" then prefix + "." + k else k;
        var flat := FlattenJson(v, newKey);
        out := out + flat;
      }
    } else {
      out := out[prefix := y];
    }
  }

  /** The leaf that a walk arrives at. */
  function LeafAt(v: Value, names: seq<string>): Option<Value> {
    var end := Walk(v, names);
    if end.Some? && !end.value.Dict? then end else None
  }

  function Get(flat: map<string, Value>, key: string): Option<Value> {
    if key in flat then Some(flat[key]) else None
  }

  /** What the first `n` items give for a key. */
  ghost predicate GivenUpTo(y: Value, n: nat, names: seq<string>, r: Option<Value>)
    requires y.Dict? && n <= |y.items| && names != []
  {
    (forall i :: 0 <= i < n && y.items[i].0 == names[0] ==> r == LeafAt(y.items[i].1, names[1..]))
    && ((forall i :: 0 <= i < n ==> y.items[i].0 != names[0]) ==> r == None)
  }

  lemma {:induction false} FlattenedUpTo(y: Value, n: nat, prefix: string, key: string)
    requires y.Dict? && n <= |y.items| && Proper(y) && PlainKeys(y)
    ensures if Fits(prefix, key)
      then GivenUpTo(y, n, Names(Rest(prefix, key)), Get(FlattenUpTo(y, n, prefix), key))
      else key !in FlattenUpTo(y, n, prefix)
    decreases y, n
  {
    hide Extend, Rest, Fits, Names, LeafAt;
    if n > 0 {
      var (k, child) := y.items[n - 1];
      var below := Extend(prefix, k);
      FlattenedUpTo(y, n - 1, prefix, key);
      if child.Dict? {
        FlattenedUpTo(child, |child.items|, below, key);
        if Fits(below, key) { GivenIsLeaf(child, Names(Rest(below, key)), Get(Flatten(child, below), key)); }
      }
      ChildGives(child, prefix, k, key);
    }
  }

  /** What one flattened item gives for a key. */
  lemma ChildGives(child: Value, prefix: string, k: string, key: string)
    requires k != "" && Without(k, '.')
    requires child.Dict? ==>
      if Fits(Extend(prefix, k), key)
      then Get(Flatten(child, Extend(prefix, k)), key) == LeafAt(child, Names(Rest(Extend(prefix, k), key)))
      else key !in Flatten(child, Extend(prefix, k))
    ensures Get(Flatten(child, Extend(prefix, k)), key) ==
      if Fits(prefix, key) && Names(Rest(prefix, key))[0] == k then LeafAt(child, Names(Rest(prefix, key))[1..])
      else None
  {
    hide Extend, Rest, Fits, Names, FlattenUpTo;
    FitsBelow(prefix, k, key);
    if Fits(prefix, key) {
      var names := Names(Rest(prefix, key));
      assert names[0] == k ==> names == [k] + names[1..];
    }
  }

  lemma GivenIsLeaf(y: Value, names: seq<string>, r: Option<Value>)
    requires y.Dict? && Proper(y) && names != [] && GivenUpTo(y, |y.items|, names, r)
    ensures r == LeafAt(y, names)
  {
    WalkGoesVia(y, names);
    if i :| 0 <= i < |y.items| && y.items[i].0 == names[0] {
      assert r == LeafAt(y.items[i].1, names[1..]);
    }
  }

  /** For every key, lookup in the flat dictionary is nested lookup in the tree where
      that is a leaf, and nothing otherwise. */
  lemma FlattenKeepsLeaves(y: Value, key: string)
    requires y.Dict? && Proper(y) && PlainKeys(y)
    ensures Get(Flatten(y, ""), key) == LeafAt(y, Names(key))
    ensures key in Flatten(y, "") ==> NestedValue(y, key) == Flatten(y, "")[key]
  {
    FlattenedUpTo(y, |y.items|, "", key);
    GivenIsLeaf(y, Names(key), Get(Flatten(y, ""), key));
    DirectIsWalk(y, key);
  }

  /** Flat items: all leaves. */
  predicate FlatItems(items: Items) { forall i :: 0 <= i < |items| ==> !items[i].1.Dict? }

  function MapOf(items: Items): map<string, Value> {
    if items == [] then map[] else MapOf(items[..|items| - 1])[items[|items| - 1].0 := items[|items| - 1].1]
  }

  predicate HoldsLeaves(flat: map<string, Value>) { forall k :: k in flat ==> !flat[k].Dict? }

  lemma {:induction false} FlattenedHoldsLeaves(y: Value, prefix: string)
    ensures HoldsLeaves(Flatten(y, prefix))
    decreases y, if y.Dict? then |y.items| else 0, 1
  {
    if y.Dict? { ItemsHoldLeaves(y, |y.items|, prefix); }
  }

  lemma {:induction false} ItemsHoldLeaves(y: Value, n: nat, prefix: string)
    requires y.Dict? && n <= |y.items|
    ensures HoldsLeaves(FlattenUpTo(y, n, prefix))
    decreases y, n, 0
  {
    if n > 0 {
      ItemsHoldLeaves(y, n - 1, prefix);
      FlattenedHoldsLeaves(y.items[n - 1].1, Extend(prefix, y.items[n - 1].0));
    }
  }

  lemma {:induction false} MapOfAt(items: Items, n: nat, i: nat)
    requires i < n <= |items|
    requires forall i, j :: 0 <= i < j < |items| ==> items[i].0 != items[j].0
    ensures items[i].0 in MapOf(items[..n]) && MapOf(items[..n])[items[i].0] == items[i].1
    decreases n
  {
    assert items[..n][..n - 1] == items[..n - 1] && items[..n][n - 1] == items[n - 1];
    if i < n - 1 { MapOfAt(items, n - 1, i); }
  }

  lemma {:induction false} FlattenFlat(items: Items, n: nat)
    requires n <= |items| && FlatItems(items)
    ensures FlattenUpTo(Dict(items), n, "") == MapOf(items[..n])
    decreases n
  {
    if n > 0 {
      FlattenFlat(items, n - 1);
      assert items[..n][..n - 1] == items[..n - 1] && items[..n][n - 1] == items[n - 1];
      assert Extend("", items[n - 1].0) == items[n - 1].0;
    }
  }

  /** Flattening a flattened dictionary, listed in any order, changes nothing. */
  lemma FlattenIdempotent(y: Value, items: Items)
    requires y.Dict? && MapOf(items) == Flatten(y, "")
    requires forall i, j :: 0 <= i < j < |items| ==> items[i].0 != items[j].0
    ensures Flatten(Dict(items), "") == Flatten(y, "")
  {
    assert items[..|items|] == items;
    FlattenedHoldsLeaves(y, "");
    forall i | 0 <= i < |items| ensures !items[i].1.Dict? {
      MapOfAt(items, |items|, i);
    }
    FlattenFlat(items, |items|);
  }
}
