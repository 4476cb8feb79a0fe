/**
  The configuration store `Dida\Config`: an insertion-ordered array from
  string keys to values, read and written key by key, by dotted group, in
  bulk from other arrays and from a loaded configuration file.

  Two checks the class calls are not defined by it: the key check run on
  every key given to the constructor, which is the predicate `checkKey`
  passed to the constructor, and the lock check run by remove, which is
  the flag `locked` (set once, when the store is made).
 */
module DidaConfig {
  import opened PhpStrings
  import opened PhpArrays
  import opened PhpSort
  import opened ConfigGroups
  import opened Wrappers

  class Config {
    /** `$items`, the stored entries. */
    var items: Assoc
    /** Whether the lock that guards remove is engaged. */
    var locked: bool

    predicate Valid()
      reads this
    {
      items.WellFormed()
    }

    /** `new Config($items)`: every initial key passes the key check. */
    constructor (init: Assoc, checkKey: Key -> bool, isLocked: bool)
      requires init.WellFormed()
      requires forall k :: k in init.keys ==> checkKey(k)
      ensures Valid() && items == init && locked == isLocked
    {
      items := init;
      locked := isLocked;
    }

    /** `has($key)` */
    function Has(key: Key): (b: bool)
      requires Valid()
      reads this
      ensures b <==> key in items.keys
    {
      key in items.vals
    }

    /** `get($key, $default)` */
    function Get(key: Key, default: Value): (v: Value)
      requires Valid()
      reads this
      ensures key in items.keys ==> v == items.vals[key]
      ensures key !in items.keys ==> v == default
    {
      if Has(key) then items.vals[key] else default
    }

    /** `keys()`: the stored keys in order, each once, exactly those `has`
        reports. */
    function Keys(): (ks: seq<Key>)
      requires Valid()
      reads this
      ensures Distinct(ks)
      ensures forall k :: k in ks <==> Has(k)
    {
      items.keys
    }

    /** `set($key, $value)`: the key now holds the value; an existing key
        keeps its position, a new one goes last; nothing else changes. */
    method Set(key: Key, value: Value)
      requires Valid()
      modifies this`items
      ensures Valid() && items == Put(old(items), key, value)
      ensures Has(key) && forall d :: Get(key, d) == value
      ensures forall k :: k != key ==> (Has(k) <==> old(Has(k))) && Get(k, VNull) == old(Get(k, VNull))
      ensures old(Has(key)) ==> items.keys == old(items.keys)
      ensures !old(Has(key)) ==> items.keys == old(items.keys) + [key]
    {
      items := Put(items, key, value);
    }

    /** `remove($key)` with the lock not engaged: the key is gone, every
        other entry and the order of the rest are as before. */
    method Remove(key: Key)
      requires Valid() && !locked
      modifies this`items
      ensures Valid() && items == Unset(old(items), key)
      ensures !Has(key)
      ensures items.keys == Without(old(items.keys), {key})
      ensures forall k :: k != key ==> (Has(k) <==> old(Has(k))) && Get(k, VNull) == old(Get(k, VNull))
      ensures !old(Has(key)) ==> items == old(items)
    {
      if !Has(key) {
        UnsetAbsent(items, key);
      }
      items := Unset(items, key);
    }

    /** `clear()` */
    method Clear()
      requires Valid()
      modifies this`items
      ensures Valid() && items == Empty()
      ensures forall k :: !Has(k)
    {
      items := Empty();
    }

    /** `getGroupItems($group)`: the value search of `array_keys` followed
        by the `strncmp` prefix test, as written. */
    method GetGroupItems(group: string) returns (r: Assoc)
      requires Valid()
      ensures r == GroupItems(items, group)
      ensures forall x :: x in r.vals <==>
        x in items.vals && GroupPrefix(group) <= x && items.vals[x] == VStr(GroupPrefix(group))
      ensures forall x :: x in r.vals ==> r.vals[x] == items.vals[x]
    {
      var find := group + ".";
      var len := |find|;
      var keys := SearchKeys(items.keys, items.vals, VStr(find));
      r := Empty();
      var i := 0;
      while i < |keys|
        invariant 0 <= i <= |keys|
        invariant forall k :: k in KeysWithPrefix(keys[..i], find) ==> k in items.vals
        invariant r == Collect(items, KeysWithPrefix(keys[..i], find))
      {
        var key := keys[i];
        var hit := Strncmp(find, key, len) == 0;
        assert hit <==> find <= key by { StrncmpPrefixTest(find, key); }
        CollectPrefixedStep(items, keys, find, i);
        if hit {
          r := Put(r, key, items.vals[key]);
        }
        i := i + 1;
      }
      assert keys[..i] == keys;
      GroupItemsSpec(items, group);
    }

    /** `groupUnpack($group, $items)`: every entry k of m is stored under
        `group.k`. */
    method GroupUnpack(group: string, m: Assoc)
      requires Valid() && m.WellFormed()
      modifies this`items
      ensures Valid() && items == ConfigGroups.GroupUnpack(old(items), group, m)
      ensures forall k :: k in m.vals ==> Has(group + "." + k) && Get(group + "." + k, VNull) == m.vals[k]
      ensures forall x :: x in old(items.vals) && !(group + "." <= x && x[|group| + 1..] in m.vals) ==>
        Has(x) && Get(x, VNull) == old(items.vals[x])
    {
      var i := 0;
      while i < |m.keys|
        invariant 0 <= i <= |m.keys| && Valid()
        invariant items == PutAll(old(items), Prepend(GroupPrefix(group)), m.keys[..i], m.vals)
      {
        var key := m.keys[i];
        PutAllStep(old(items), Prepend(GroupPrefix(group)), m.keys, m.vals, i);
        items := Put(items, group + "." + key, m.vals[key]);
        i := i + 1;
      }
      assert m.keys[..i] == m.keys;
      GroupUnpackSpec(old(items), group, m);
    }

    /** `groupPack($group)`: the group items with `group.` cut off each key. */
    method GroupPack(group: string) returns (r: Assoc)
      requires Valid()
      ensures r == ConfigGroups.GroupPack(items, group)
      ensures forall k :: k in r.vals <==> GroupPrefix(group) + k in GroupItems(items, group).vals
      ensures forall k :: k in r.vals ==> Has(GroupPrefix(group) + k) && r.vals[k] == Get(GroupPrefix(group) + k, VNull)
    {
      r := Empty();
      var found := GetGroupItems(group);
      var i := 0;
      while i < |found.keys|
        invariant 0 <= i <= |found.keys|
        invariant found.WellFormed() && StripReady(found, i)
        invariant r == PutAll(Empty(), DropFirst(|group| + 1), found.keys[..i], found.vals)
      {
        var key := found.keys[i];
        var newkey := if |group| + 1 <= |key| then key[|group| + 1..] else "";
        StripStep(|group| + 1, found, i);
        r := Put(r, newkey, found.vals[key]);
        i := i + 1;
      }
      assert found.keys[..i] == found.keys;
      GroupPackSpec(items, group);
    }

    /** `groupClear($group)`: unsets every key getGroupItems reports. */
    method GroupClear(group: string)
      requires Valid()
      modifies this`items
      ensures Valid() && items == ConfigGroups.GroupClear(old(items), group)
      ensures forall x :: Has(x) <==> old(Has(x)) && x !in GroupItems(old(items), group).vals
      ensures forall x :: Has(x) ==> Get(x, VNull) == old(Get(x, VNull))
      ensures GroupItems(items, group) == Empty()
    {
      var found := GetGroupItems(group);
      assert KeySet(found.keys[..0]) == {};
      RemoveNothing(items);
      var i := 0;
      while i < |found.keys|
        invariant 0 <= i <= |found.keys|
        invariant items == RemoveKeys(old(items), KeySet(found.keys[..i]))
      {
        UnsetStep(old(items), found.keys, i);
        items := Unset(items, found.keys[i]);
        i := i + 1;
      }
      assert found.keys[..i] == found.keys;
      assert KeySet(found.keys) == found.vals.Keys;
      GroupClearSpec(old(items), group);
    }

    /** `batchSet($configs, $defaults)` */
    method BatchSet(configs: Assoc, defaults: Assoc)
      requires Valid() && configs.WellFormed() && defaults.WellFormed()
      modifies this`items
      ensures Valid() && items == ArrayMerge(old(items), ArrayMerge(defaults, configs))
      ensures forall x :: Has(x) <==> old(Has(x)) || x in defaults.vals || x in configs.vals
      ensures forall x :: x in configs.vals ==> Get(x, VNull) == configs.vals[x]
      ensures forall x :: x in defaults.vals && x !in configs.vals ==> Get(x, VNull) == defaults.vals[x]
      ensures forall x :: old(Has(x)) && x !in defaults.vals && x !in configs.vals ==>
        Get(x, VNull) == old(Get(x, VNull))
      ensures Keys() == old(Keys()) + Without(defaults.keys, KeySet(old(Keys())))
        + Without(configs.keys, KeySet(old(Keys())) + KeySet(defaults.keys))
    {
      var merged := ArrayMerge(defaults, configs);
      BatchSetSpec(items, configs, defaults);
      items := ArrayMerge(items, merged);
    }

    /** `sortKeys()` */
    method SortKeys()
      requires Valid()
      modifies this`items
      ensures Valid() && items == KSort(old(items))
      ensures StrictlyAscending(Keys())
      ensures items.vals == old(items.vals)
    {
      items := KSort(items);
    }

    /** `load($filepath, $group)` after the file has been read: `source`
        is what the file returned (None when there is no file). An absent
        or empty array is refused; otherwise each entry k is stored under
        `group.k`, or under k itself when group is `''` or not a string. */
    method Load(source: Option<Assoc>, group: Value) returns (ok: bool)
      requires Valid()
      requires source.Some? ==> source.value.WellFormed()
      modifies this`items
      ensures Valid()
      ensures ok <==> source.Some? && source.value.keys != []
      ensures !ok ==> items == old(items)
      ensures ok && group.VStr? && group.s != "" ==>
        items == ConfigGroups.GroupUnpack(old(items), group.s, source.value)
      ensures ok && !(group.VStr? && group.s != "") ==> items == ArrayMerge(old(items), source.value)
    {
      if source.None? || source.value.keys == [] {
        return false;
      }
      var m := source.value;
      var groupname := if group == VStr("") || !group.VStr? then "" else group.s + ".";
      var i := 0;
      while i < |m.keys|
        invariant 0 <= i <= |m.keys| && Valid()
        invariant items == PutAll(old(items), Prepend(groupname), m.keys[..i], m.vals)
      {
        var key := m.keys[i];
        PutAllStep(old(items), Prepend(groupname), m.keys, m.vals, i);
        items := Put(items, groupname + key, m.vals[key]);
        i := i + 1;
      }
      assert m.keys[..i] == m.keys;
      return true;
    }

    /** `merge($src)`: every key of src, in src's order, is set to src's
        value; merging a store into itself changes nothing. */
    method Merge(src: Config)
      requires Valid() && src.Valid()
      modifies this`items
      ensures Valid() && items == ArrayMerge(old(items), old(src.items))
      ensures forall x :: Has(x) <==> old(Has(x)) || old(src.Has(x))
      ensures forall x :: old(src.Has(x)) ==> Get(x, VNull) == old(src.Get(x, VNull))
      ensures forall x :: old(Has(x)) && !old(src.Has(x)) ==> Get(x, VNull) == old(Get(x, VNull))
      ensures Keys() == old(Keys()) + Without(old(src.Keys()), KeySet(old(Keys())))
    {
      var keys := src.Keys();
      ghost var from := src.items;
      assert keys == from.keys;
      var i := 0;
      while i < |keys|
        invariant 0 <= i <= |keys| && Valid()
        invariant src.Valid() && (src != this ==> src.items == from)
        invariant src != this ==> items == PutAll(old(items), Prepend(""), keys[..i], from.vals)
        invariant src == this ==> items == old(items)
      {
        var key := keys[i];
        var value := src.Get(key, VNull);
        if src == this {
          PutSameValue(items, key);
        } else {
          PutAllStep(old(items), Prepend(""), keys, from.vals, i);
          assert Rekey(Prepend(""), key) == key && value == from.vals[key];
        }
        items := Put(items, key, value);
        i := i + 1;
      }
      if src == this {
        ArrayMergeSelf(from);
      } else {
        assert keys[..i] == keys;
      }
      ArrayMergeSpec(old(items), from);
    }
  }

  /** `get($key, $default)` falls back to the default exactly for keys the
      store does not hold: a held key gives its stored value whatever the
      default, so it cannot return two different defaults. */
  lemma GetFallsBack(c: Config, key: Key, d1: Value, d2: Value)
    requires c.Valid() && d1 != d2
    ensures !c.Has(key) <==> c.Get(key, d1) == d1 && c.Get(key, d2) == d2
  {
  }

  /** batchSet gives configs priority over defaults and defaults over the
      stored values, keeps every stored key in front in its old order,
      and adds exactly the keys of the two arrays. */
  lemma BatchSetSpec(a: Assoc, configs: Assoc, defaults: Assoc)
    requires a.WellFormed() && configs.WellFormed() && defaults.WellFormed()
    ensures var r := ArrayMerge(a, ArrayMerge(defaults, configs));
      && (forall x :: x in r.vals <==> x in a.vals || x in defaults.vals || x in configs.vals)
      && (forall x :: x in configs.vals ==> r.vals[x] == configs.vals[x])
      && (forall x :: x in defaults.vals && x !in configs.vals ==> r.vals[x] == defaults.vals[x])
      && (forall x :: x in a.vals && x !in defaults.vals && x !in configs.vals ==> r.vals[x] == a.vals[x])
      && |a.keys| <= |r.keys| && r.keys[..|a.keys|] == a.keys
      && r.keys == a.keys + Without(defaults.keys, KeySet(a.keys))
           + Without(configs.keys, KeySet(a.keys) + KeySet(defaults.keys))
  {
    var inner := ArrayMerge(defaults, configs);
    ArrayMergeSpec(defaults, configs);
    ArrayMergeSpec(a, inner);
    var rest := Without(configs.keys, KeySet(defaults.keys));
    WithoutAppend(defaults.keys, rest, KeySet(a.keys));
    WithoutWithout(configs.keys, KeySet(defaults.keys), KeySet(a.keys));
    assert KeySet(defaults.keys) + KeySet(a.keys) == KeySet(a.keys) + KeySet(defaults.keys);
  }
}
