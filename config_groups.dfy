/**
  Dotted groups of configuration keys.  A key belongs to group g when it
  starts with `g.`; getGroupItems, groupPack, groupUnpack and groupClear
  of Dida\Config select, strip, add and remove such keys.  The selection
  is modelled as src/Dida/Config.php writes it: `array_keys` is called in
  its search form, so an entry is selected only when its VALUE is the
  string `g.` as well.  The Intended* functions give the prefix-only
  selection the rest of the class evidently expects, with its round trip.
 */
module ConfigGroups {
  import opened PhpStrings
  import opened PhpArrays

  /** `$group . '.'` */
  function GroupPrefix(g: string): (p: string)
    ensures |p| == |g| + 1 && g <= p && p[|g|] == '.'
  {
    g + "."
  }

  /** `foreach ($ks as $key) { $return[$key] = $a[$key]; }` starting from
      an empty array. */
  function Collect(a: Assoc, ks: seq<Key>): (r: Assoc)
    requires a.WellFormed()
    requires forall k :: k in ks ==> k in a.vals
    ensures r.WellFormed()
  {
    PutAll(Empty(), Prepend(""), ks, a.vals)
  }

  /** Collecting distinct keys yields exactly those entries, in that order. */
  lemma CollectSpec(a: Assoc, ks: seq<Key>)
    requires a.WellFormed() && Distinct(ks)
    requires forall k :: k in ks ==> k in a.vals
    ensures var r := Collect(a, ks);
      && r.keys == ks
      && (forall x :: x in r.vals <==> x in ks)
      && (forall x :: x in r.vals ==> r.vals[x] == a.vals[x])
  {
    PrependInjective("", ks);
    PrependEmptyImage(ks);
    PutAllFresh(Empty(), Prepend(""), ks, a.vals);
    PutAllDomain(Empty(), Prepend(""), ks, a.vals);
    PutAllValues(Empty(), Prepend(""), ks, a.vals);
    var r := Collect(a, ks);
    forall x | x in r.vals ensures r.vals[x] == a.vals[x] {
      var i :| 0 <= i < |ks| && ks[i] == x;
      assert Rekey(Prepend(""), ks[i]) == x;
    }
  }

  /** Collecting all of an array's keys rebuilds the array. */
  lemma CollectAll(a: Assoc)
    requires a.WellFormed()
    ensures Collect(a, a.keys) == a
  {
    CollectSpec(a, a.keys);
    assert Collect(a, a.keys).vals == a.vals;
  }

  // ---------------------------------------------------------------------
  // getGroupItems, as written
  // ---------------------------------------------------------------------

  /** The keys getGroupItems keeps: those whose value is identical to
      `g.` (the search form of `array_keys`) and that start with `g.`. */
  function GroupKeys(a: Assoc, g: string): (r: seq<Key>)
    ensures forall x :: x in r <==>
      x in a.keys && x in a.vals && a.vals[x] == VStr(GroupPrefix(g)) && GroupPrefix(g) <= x
    ensures Distinct(a.keys) ==> Distinct(r)
  {
    KeysWithPrefix(SearchKeys(a.keys, a.vals, VStr(GroupPrefix(g))), GroupPrefix(g))
  }

  /** What `getGroupItems($g)` returns. */
  function GroupItems(a: Assoc, g: string): (r: Assoc)
    requires a.WellFormed()
    ensures r.WellFormed()
  {
    Collect(a, GroupKeys(a, g))
  }

  /** getGroupItems returns a sub-array of the store: every selected key
      starts with `g.`, keeps its stored value, and that value is the
      string `g.`; every entry of that shape is selected. */
  lemma GroupItemsSpec(a: Assoc, g: string)
    requires a.WellFormed()
    ensures var r := GroupItems(a, g);
      && (forall x :: x in r.vals <==>
            x in a.vals && GroupPrefix(g) <= x && a.vals[x] == VStr(GroupPrefix(g)))
      && (forall x :: x in r.vals ==> r.vals[x] == a.vals[x])
  {
    CollectSpec(a, GroupKeys(a, g));
  }

  /** One round of getGroupItems' loop over the candidate keys: a key that
      starts with `find` is added to the result, any other is skipped. */
  lemma CollectPrefixedStep(a: Assoc, cands: seq<Key>, find: string, i: nat)
    requires a.WellFormed() && i < |cands|
    requires forall k :: k in cands ==> k in a.vals
    ensures forall k :: k in KeysWithPrefix(cands[..i], find) ==> k in a.vals
    ensures forall k :: k in KeysWithPrefix(cands[..i + 1], find) ==> k in a.vals
    ensures Collect(a, KeysWithPrefix(cands[..i + 1], find)) ==
      if find <= cands[i] then Put(Collect(a, KeysWithPrefix(cands[..i], find)), cands[i], a.vals[cands[i]])
      else Collect(a, KeysWithPrefix(cands[..i], find))
  {
    var key := cands[i];
    assert cands[..i + 1] == cands[..i] + [key];
    assert forall k :: k in cands[..i + 1] ==> k in cands;
    KeysWithPrefixSnoc(cands[..i], key, find);
    var ks := KeysWithPrefix(cands[..i], find);
    if find <= key {
      PutAllSnoc(Empty(), Prepend(""), ks, key, a.vals);
      assert Rekey(Prepend(""), key) == key;
    }
  }

  /** `mb_substr($key, mb_strlen($group) + 1)` applied to every key of an
      array of group items, values unchanged. */
  function StripGroup(g: string, items: Assoc): (r: Assoc)
    requires items.WellFormed()
    ensures r.WellFormed()
  {
    PutAll(Empty(), DropFirst(|g| + 1), items.keys, items.vals)
  }

  /** On keys that all start with `g.`, stripping is exact: suffix k is a
      key of the result iff `g.k` was one, it carries that entry's value,
      and the suffixes come in the order of the original keys. */
  lemma StripGroupSpec(g: string, items: Assoc)
    requires items.WellFormed()
    requires forall x :: x in items.vals ==> GroupPrefix(g) <= x
    ensures var r := StripGroup(g, items);
      && r.keys == Image(DropFirst(|g| + 1), items.keys)
      && (forall k :: k in r.vals <==> GroupPrefix(g) + k in items.vals)
      && (forall k :: k in r.vals ==> r.vals[k] == items.vals[GroupPrefix(g) + k])
  {
    StripGroupOrder(g, items);
    StripGroupDomain(g, items);
    StripGroupValues(g, items);
  }

  lemma StripGroupOrder(g: string, items: Assoc)
    requires items.WellFormed()
    requires forall x :: x in items.vals ==> GroupPrefix(g) <= x
    ensures StripGroup(g, items).keys == Image(DropFirst(|g| + 1), items.keys)
  {
    DropFirstInjective(GroupPrefix(g), items.keys);
    PutAllFresh(Empty(), DropFirst(|g| + 1), items.keys, items.vals);
  }

  lemma StripGroupDomain(g: string, items: Assoc)
    requires items.WellFormed()
    requires forall x :: x in items.vals ==> GroupPrefix(g) <= x
    ensures forall k :: k in StripGroup(g, items).vals <==> GroupPrefix(g) + k in items.vals
  {
    PutAllDomain(Empty(), DropFirst(|g| + 1), items.keys, items.vals);
    DropFirstImage(GroupPrefix(g), items.keys);
  }

  lemma StripGroupValues(g: string, items: Assoc)
    requires items.WellFormed()
    requires forall x :: x in items.vals ==> GroupPrefix(g) <= x
    ensures forall k :: k in StripGroup(g, items).vals ==>
      GroupPrefix(g) + k in items.vals && StripGroup(g, items).vals[k] == items.vals[GroupPrefix(g) + k]
  {
    var p := GroupPrefix(g);
    var f := DropFirst(|p|);
    var ks := items.keys;
    var r := StripGroup(g, items);
    assert forall i :: 0 <= i < |ks| ==> r.vals[Rekey(f, ks[i])] == items.vals[ks[i]] by {
      DropFirstInjective(p, ks);
      PutAllValues(Empty(), f, ks, items.vals);
    }
    StripGroupDomain(g, items);
    forall k | k in r.vals ensures p + k in items.vals && r.vals[k] == items.vals[p + k] {
      var i :| 0 <= i < |ks| && ks[i] == p + k;
      StripPrefixed(p, k);
      assert Rekey(f, ks[i]) == k;
    }
  }

  lemma StripPrefixed(p: string, k: Key)
    ensures Rekey(DropFirst(|p|), p + k) == k
  {
    assert (p + k)[|p|..] == k;
  }

  /** The keys of `items` before position i all have entries. */
  predicate StripReady(items: Assoc, i: nat)
  {
    i <= |items.keys| && forall k :: k in items.keys[..i] ==> k in items.vals
  }

  /** One round of groupPack's loop: the i-th item is stored under its key
      with the first n characters cut off (`mb_substr` gives `''` past
      the end). */
  lemma StripStep(n: nat, items: Assoc, i: nat)
    requires items.WellFormed() && i < |items.keys|
    ensures StripReady(items, i) && StripReady(items, i + 1)
    ensures PutAll(Empty(), DropFirst(n), items.keys[..i + 1], items.vals) ==
      Put(PutAll(Empty(), DropFirst(n), items.keys[..i], items.vals),
          if n <= |items.keys[i]| then items.keys[i][n..] else "", items.vals[items.keys[i]])
  {
    PutAllStep(Empty(), DropFirst(n), items.keys, items.vals, i);
    assert forall k :: k in items.keys[..i + 1] ==> k in items.keys;
  }

  /** What `groupPack($g)` returns. */
  function GroupPack(a: Assoc, g: string): (r: Assoc)
    requires a.WellFormed()
    ensures r.WellFormed()
  {
    StripGroup(g, GroupItems(a, g))
  }

  /** groupPack reports suffix k exactly when `g.k` is a selected group
      item, and gives it the stored value of `g.k`. */
  lemma GroupPackSpec(a: Assoc, g: string)
    requires a.WellFormed()
    ensures var r := GroupPack(a, g);
      && (forall k :: k in r.vals <==> GroupPrefix(g) + k in GroupItems(a, g).vals)
      && (forall k :: k in r.vals ==>
            GroupPrefix(g) + k in a.vals && r.vals[k] == a.vals[GroupPrefix(g) + k])
  {
    GroupItemsSpec(a, g);
    StripGroupSpec(g, GroupItems(a, g));
  }

  // ---------------------------------------------------------------------
  // groupUnpack and groupClear
  // ---------------------------------------------------------------------

  /** What `groupUnpack($g, $m)` leaves in the store. */
  function GroupUnpack(a: Assoc, g: string, m: Assoc): (r: Assoc)
    requires a.WellFormed() && m.WellFormed()
    ensures r.WellFormed()
  {
    PutAll(a, Prepend(GroupPrefix(g)), m.keys, m.vals)
  }

  /** After groupUnpack every `g.k` holds m's value for k, and every key
      not of that form is unchanged. */
  lemma GroupUnpackSpec(a: Assoc, g: string, m: Assoc)
    requires a.WellFormed() && m.WellFormed()
    ensures var r := GroupUnpack(a, g, m);
      && (forall k :: k in m.vals ==> GroupPrefix(g) + k in r.vals && r.vals[GroupPrefix(g) + k] == m.vals[k])
      && (forall x :: x in r.vals <==> x in a.vals || (GroupPrefix(g) <= x && x[|g| + 1..] in m.vals))
      && (forall x :: x in a.vals && !(GroupPrefix(g) <= x && x[|g| + 1..] in m.vals) ==> r.vals[x] == a.vals[x])
  {
    var p := GroupPrefix(g);
    UnpackWrites(a, g, m);
    PrependImage(p, m.keys);
    PutAllDomain(a, Prepend(p), m.keys, m.vals);
    PutAllKeepsOthers(a, Prepend(p), m.keys, m.vals);
  }

  lemma UnpackWrites(a: Assoc, g: string, m: Assoc)
    requires a.WellFormed() && m.WellFormed()
    ensures forall k :: k in m.vals ==>
      GroupPrefix(g) + k in GroupUnpack(a, g, m).vals && GroupUnpack(a, g, m).vals[GroupPrefix(g) + k] == m.vals[k]
  {
    var p := GroupPrefix(g);
    var r := GroupUnpack(a, g, m);
    assert forall i :: 0 <= i < |m.keys| ==>
        Rekey(Prepend(p), m.keys[i]) in r.vals && r.vals[Rekey(Prepend(p), m.keys[i])] == m.vals[m.keys[i]] by {
      PrependInjective(p, m.keys);
      PutAllValues(a, Prepend(p), m.keys, m.vals);
    }
    forall k | k in m.vals ensures p + k in r.vals && r.vals[p + k] == m.vals[k] {
      var i :| 0 <= i < |m.keys| && m.keys[i] == k;
      assert Rekey(Prepend(p), m.keys[i]) == p + k;
    }
  }

  /** What `groupClear($g)` leaves in the store. */
  function GroupClear(a: Assoc, g: string): (r: Assoc)
    requires a.WellFormed()
    ensures r.WellFormed()
  {
    RemoveKeys(a, GroupItems(a, g).vals.Keys)
  }

  /** groupClear removes exactly the entries getGroupItems reports, keeps
      all others with their values, and leaves the group empty. */
  lemma GroupClearSpec(a: Assoc, g: string)
    requires a.WellFormed()
    ensures var r := GroupClear(a, g);
      && (forall x :: x in r.vals <==> x in a.vals && x !in GroupItems(a, g).vals)
      && (forall x :: x in r.vals ==> r.vals[x] == a.vals[x])
      && GroupItems(r, g) == Empty()
  {
    var r := GroupClear(a, g);
    GroupItemsSpec(a, g);
    GroupItemsSpec(r, g);
    var after := GroupItems(r, g);
    assert after.vals == map[];
    NoValuesIsEmpty(after);
  }

  // ---------------------------------------------------------------------
  // Round trip of groupUnpack and groupPack
  // ---------------------------------------------------------------------

  /** When no key of a starts with `g.`, unpacking m appends the keys
      `g.k` at the end, in m's order. */
  lemma UnpackFreshKeys(a: Assoc, g: string, m: Assoc)
    requires a.WellFormed() && m.WellFormed()
    requires forall x :: x in a.vals ==> !(GroupPrefix(g) <= x)
    ensures GroupUnpack(a, g, m).keys == a.keys + Image(Prepend(GroupPrefix(g)), m.keys)
  {
    var p := GroupPrefix(g);
    PrependInjective(p, m.keys);
    forall i | 0 <= i < |m.keys| ensures Rekey(Prepend(p), m.keys[i]) !in a.vals {
      assert p <= p + m.keys[i];
    }
    PutAllFresh(a, Prepend(p), m.keys, m.vals);
  }

  /** Prefixing distinct keys keeps them distinct. */
  lemma PrependDistinct(p: string, ks: seq<Key>)
    requires Distinct(ks)
    ensures Distinct(Image(Prepend(p), ks))
  {
    PrependInjective(p, ks);
  }

  /** Every key written by a prefixing copy starts with the prefix. */
  lemma PrependAllPrefixed(p: string, ks: seq<Key>)
    ensures forall x :: x in Image(Prepend(p), ks) ==> p <= x
  {
    PrependImage(p, ks);
  }

  /** The value filter commutes with the prefixing copy: the keys of the
      unpacked group whose value is v are the prefixed keys of m whose
      value is v. */
  lemma {:induction false} SearchKeysPrefixed(p: string, ks: seq<Key>, vals: map<Key, Value>, src: map<Key, Value>, v: Value)
    requires forall i :: 0 <= i < |ks| ==> ks[i] in src && p + ks[i] in vals && vals[p + ks[i]] == src[ks[i]]
    ensures SearchKeys(Image(Prepend(p), ks), vals, v) == Image(Prepend(p), SearchKeys(ks, src, v))
    decreases |ks|
  {
    if ks != [] {
      var n := |ks| - 1;
      var init := ks[..n];
      var last := ks[n];
      assert ks == init + [last];
      assert SearchKeys(Image(Prepend(p), init), vals, v) == Image(Prepend(p), SearchKeys(init, src, v)) by {
        assert forall i :: 0 <= i < |init| ==> init[i] == ks[i];
        SearchKeysPrefixed(p, init, vals, src, v);
      }
      ImageSnoc(Prepend(p), init, last);
      SearchKeysSnoc(Image(Prepend(p), init), p + last, vals, v);
      SearchKeysSnoc(init, last, src, v);
      ImageSnoc(Prepend(p), SearchKeys(init, src, v), last);
    }
  }

  /** The prefixed copies of selected keys of m sit in the store b. */
  lemma PrefixedInStore(b: Assoc, g: string, m: Assoc, sel: seq<Key>)
    requires forall k :: k in sel ==> k in m.vals
    requires forall k :: k in m.vals ==> GroupPrefix(g) + k in b.vals && b.vals[GroupPrefix(g) + k] == m.vals[k]
    ensures forall x :: x in Image(Prepend(GroupPrefix(g)), sel) ==> x in b.vals && GroupPrefix(g) <= x
  {
    var im := Image(Prepend(GroupPrefix(g)), sel);
    forall x | x in im ensures x in b.vals && GroupPrefix(g) <= x {
      var i :| 0 <= i < |im| && im[i] == x;
      assert sel[i] in sel;
    }
  }

  lemma PackOfPrefixedKeys(b: Assoc, g: string, m: Assoc, sel: seq<Key>)
    requires b.WellFormed() && Distinct(sel)
    requires forall k :: k in sel ==> k in m.vals
    requires forall k :: k in m.vals ==> GroupPrefix(g) + k in b.vals && b.vals[GroupPrefix(g) + k] == m.vals[k]
    ensures forall x :: x in Image(Prepend(GroupPrefix(g)), sel) ==> x in b.vals
    ensures Collect(b, Image(Prepend(GroupPrefix(g)), sel)).keys == Image(Prepend(GroupPrefix(g)), sel)
    ensures StripGroup(g, Collect(b, Image(Prepend(GroupPrefix(g)), sel))).keys == sel
  {
    var p := GroupPrefix(g);
    var im := Image(Prepend(p), sel);
    PrefixedInStore(b, g, m, sel);
    PrependDistinct(p, sel);
    CollectSpec(b, im);
    StripGroupOrder(g, Collect(b, im));
    DropAfterPrepend(p, sel);
  }

  lemma PackOfPrefixedValues(b: Assoc, g: string, m: Assoc, sel: seq<Key>)
    requires b.WellFormed() && Distinct(sel)
    requires forall k :: k in sel ==> k in m.vals
    requires forall k :: k in m.vals ==> GroupPrefix(g) + k in b.vals && b.vals[GroupPrefix(g) + k] == m.vals[k]
    ensures forall x :: x in Image(Prepend(GroupPrefix(g)), sel) ==> x in b.vals
    ensures forall k :: k in StripGroup(g, Collect(b, Image(Prepend(GroupPrefix(g)), sel))).vals ==>
      k in m.vals && StripGroup(g, Collect(b, Image(Prepend(GroupPrefix(g)), sel))).vals[k] == m.vals[k]
  {
    var p := GroupPrefix(g);
    var im := Image(Prepend(p), sel);
    PrefixedInStore(b, g, m, sel);
    var items := Collect(b, im);
    PrependDistinct(p, sel);
    CollectSpec(b, im);
    StripGroupValues(g, items);
    var r := StripGroup(g, items);
    forall k | k in r.vals ensures k in m.vals && r.vals[k] == m.vals[k] {
      assert p + k in im;
      PrependImage(p, sel);
      StripPrefixed(p, k);
    }
  }

  /** Packing the group after unpacking a selection `sel` of m's keys into
      a store gives back exactly those entries of m, in sel's order. */
  lemma PackOfPrefixed(b: Assoc, g: string, m: Assoc, sel: seq<Key>)
    requires b.WellFormed() && m.WellFormed() && Distinct(sel)
    requires forall k :: k in sel ==> k in m.vals
    requires forall k :: k in m.vals ==> GroupPrefix(g) + k in b.vals && b.vals[GroupPrefix(g) + k] == m.vals[k]
    ensures forall x :: x in Image(Prepend(GroupPrefix(g)), sel) ==> x in b.vals
    ensures StripGroup(g, Collect(b, Image(Prepend(GroupPrefix(g)), sel))) == Collect(m, sel)
  {
    PackOfPrefixedKeys(b, g, m, sel);
    PackOfPrefixedValues(b, g, m, sel);
    CollectSpec(m, sel);
    SameEntries(StripGroup(g, Collect(b, Image(Prepend(GroupPrefix(g)), sel))), Collect(m, sel));
  }

  /** Two arrays with the same keys in the same order and the same values
      are equal. */
  lemma SameEntries(r: Assoc, c: Assoc)
    requires r.WellFormed() && c.WellFormed() && r.keys == c.keys
    requires forall k :: k in r.vals ==> k in c.vals && r.vals[k] == c.vals[k]
    ensures r == c
  {
    assert r.vals == c.vals;
  }

  /** As written, the selected keys of a store into which m was unpacked
      (with no `g.` keys before) are the prefixed keys of m whose value is
      the string `g.`. */
  lemma UnpackedGroupKeys(a: Assoc, g: string, m: Assoc)
    requires a.WellFormed() && m.WellFormed()
    requires forall x :: x in a.vals ==> !(GroupPrefix(g) <= x)
    ensures GroupKeys(GroupUnpack(a, g, m), g) ==
      Image(Prepend(GroupPrefix(g)), SearchKeys(m.keys, m.vals, VStr(GroupPrefix(g))))
  {
    var p := GroupPrefix(g);
    var v := VStr(p);
    var b := GroupUnpack(a, g, m);
    var sel := SearchKeys(m.keys, m.vals, v);
    var old_sel := SearchKeys(a.keys, b.vals, v);
    var new_sel := SearchKeys(Image(Prepend(p), m.keys), b.vals, v);
    UnpackedSearch(a, g, m);
    UnpackedSearchPrefixed(a, g, m);
    assert forall x :: x in old_sel ==> !(p <= x);
    assert forall x :: x in new_sel ==> p <= x by {
      PrependAllPrefixed(p, sel);
    }
    PrefixSplit(old_sel, new_sel, p);
  }

  /** After unpacking m into a store without `g.` keys, the value search
      finds the store's old matches followed by matches among the `g.k`. */
  lemma UnpackedSearch(a: Assoc, g: string, m: Assoc)
    requires a.WellFormed() && m.WellFormed()
    requires forall x :: x in a.vals ==> !(GroupPrefix(g) <= x)
    ensures var b := GroupUnpack(a, g, m);
      var v := VStr(GroupPrefix(g));
      SearchKeys(b.keys, b.vals, v)
        == SearchKeys(a.keys, b.vals, v) + SearchKeys(Image(Prepend(GroupPrefix(g)), m.keys), b.vals, v)
  {
    var b := GroupUnpack(a, g, m);
    var im := Image(Prepend(GroupPrefix(g)), m.keys);
    assert b.keys == a.keys + im by {
      UnpackFreshKeys(a, g, m);
    }
    SearchKeysAppend(a.keys, im, b.vals, VStr(GroupPrefix(g)));
  }

  /** The matches among the `g.k` are the prefixed matches of m. */
  lemma UnpackedSearchPrefixed(a: Assoc, g: string, m: Assoc)
    requires a.WellFormed() && m.WellFormed()
    ensures var v := VStr(GroupPrefix(g));
      SearchKeys(Image(Prepend(GroupPrefix(g)), m.keys), GroupUnpack(a, g, m).vals, v)
        == Image(Prepend(GroupPrefix(g)), SearchKeys(m.keys, m.vals, v))
  {
    var p := GroupPrefix(g);
    UnpackWrites(a, g, m);
    SearchKeysPrefixed(p, m.keys, GroupUnpack(a, g, m).vals, m.vals, VStr(p));
  }

  /** The prefix filter of a list whose first part has no key with the
      prefix and whose second part has only such keys is the second part. */
  lemma PrefixSplit(s: seq<Key>, t: seq<Key>, p: string)
    requires forall x :: x in s ==> !(p <= x)
    requires forall x :: x in t ==> p <= x
    ensures KeysWithPrefix(s + t, p) == t
  {
    KeysWithPrefixAppend(s, t, p);
    KeysWithPrefixNone(s, p);
    KeysWithPrefixAll(t, p);
  }

  /** As written, packing the group after unpacking m into a store with no
      `g.` keys returns only the entries of m whose value is the string
      `g.` (in m's order), not m itself. */
  lemma PackAfterUnpack(a: Assoc, g: string, m: Assoc)
    requires a.WellFormed() && m.WellFormed()
    requires forall x :: x in a.vals ==> !(GroupPrefix(g) <= x)
    ensures GroupPack(GroupUnpack(a, g, m), g) == Collect(m, SearchKeys(m.keys, m.vals, VStr(GroupPrefix(g))))
  {
    UnpackedGroupKeys(a, g, m);
    UnpackWrites(a, g, m);
    PackOfPrefixed(GroupUnpack(a, g, m), g, m, SearchKeys(m.keys, m.vals, VStr(GroupPrefix(g))));
  }

  // ---------------------------------------------------------------------
  // The prefix-only selection the class evidently intends
  // ---------------------------------------------------------------------

  /** The keys that start with `g.`, whatever their value. */
  function IntendedGroupKeys(a: Assoc, g: string): seq<Key>
  {
    KeysWithPrefix(a.keys, GroupPrefix(g))
  }

  function IntendedGroupItems(a: Assoc, g: string): (r: Assoc)
    requires a.WellFormed()
    ensures r.WellFormed()
  {
    Collect(a, IntendedGroupKeys(a, g))
  }

  /** The prefix-only selection returns every entry whose key starts with
      `g.`, with its stored value, and no other. */
  lemma IntendedGroupItemsSpec(a: Assoc, g: string)
    requires a.WellFormed()
    ensures var r := IntendedGroupItems(a, g);
      && (forall x :: x in r.vals <==> x in a.vals && GroupPrefix(g) <= x)
      && (forall x :: x in r.vals ==> r.vals[x] == a.vals[x])
  {
    CollectSpec(a, IntendedGroupKeys(a, g));
  }

  function IntendedGroupPack(a: Assoc, g: string): (r: Assoc)
    requires a.WellFormed()
    ensures r.WellFormed()
  {
    StripGroup(g, IntendedGroupItems(a, g))
  }

  /** With the prefix-only selection, packing after unpacking m into a
      store with no `g.` keys gives back m exactly, order included. */
  lemma IntendedPackAfterUnpack(a: Assoc, g: string, m: Assoc)
    requires a.WellFormed() && m.WellFormed()
    requires forall x :: x in a.vals ==> !(GroupPrefix(g) <= x)
    ensures IntendedGroupPack(GroupUnpack(a, g, m), g) == m
  {
    var p := GroupPrefix(g);
    var b := GroupUnpack(a, g, m);
    var im := Image(Prepend(p), m.keys);
    assert IntendedGroupKeys(b, g) == im by {
      UnpackFreshKeys(a, g, m);
      KeysWithPrefixAppend(a.keys, im, p);
      KeysWithPrefixNone(a.keys, p);
      PrependAllPrefixed(p, m.keys);
      KeysWithPrefixAll(im, p);
    }
    UnpackWrites(a, g, m);
    PackOfPrefixed(b, g, m, m.keys);
    CollectAll(m);
  }

  /** The case that shows the difference: after setting `db.host`,
      `db.port` and `other` to ordinary strings, the code as written finds
      no item in group `db`, while the prefix-only selection finds both
      `db.` keys. */
  lemma GroupItemsIgnoresOrdinaryValues()
    ensures var a := Assoc(["db.host", "db.port", "other"],
                           map["db.host" := VStr("x"), "db.port" := VStr("5432"), "other" := VStr("y")]);
      && a.WellFormed()
      && GroupItems(a, "db") == Empty()
      && IntendedGroupItems(a, "db").keys == ["db.host", "db.port"]
  {
    var a := Assoc(["db.host", "db.port", "other"],
                   map["db.host" := VStr("x"), "db.port" := VStr("5432"), "other" := VStr("y")]);
    var p := GroupPrefix("db");
    ExampleStrings();
    assert a.WellFormed();
    assert GroupKeys(a, "db") == [] by {
      var found := SearchKeys(a.keys, a.vals, VStr(p));
      NothingFound(found);
    }
    assert IntendedGroupKeys(a, "db") == ["db.host", "db.port"] by {
      assert a.keys == ["db.host", "db.port"] + ["other"];
      KeysWithPrefixAppend(["db.host", "db.port"], ["other"], p);
      KeysWithPrefixAll(["db.host", "db.port"], p);
      KeysWithPrefixNone(["other"], p);
    }
    CollectSpec(a, ["db.host", "db.port"]);
  }

  lemma ExampleStrings()
    ensures GroupPrefix("db") == "db."
    ensures "db." <= "db.host" && "db." <= "db.port" && !("db." <= "other")
    ensures "db." != "x" && "db." != "5432" && "db." != "y"
  {
    assert ("db" + ".")[2] == '.';
    assert "db.host"[..3] == "db.";
    assert "db.port"[..3] == "db.";
    assert "other"[0] == 'o';
  }

  lemma NothingFound(s: seq<Key>)
    requires forall x :: x !in s
    ensures s == []
  {
    if s != [] {
      HeadIn(s);
    }
  }
}
