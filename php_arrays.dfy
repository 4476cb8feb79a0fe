/**
  PHP arrays with string keys, as the configuration store uses them:
  an ordered association in which every key occurs once.  The functions
  here model the array operations the store calls: element assignment,
  `unset`, `array_keys` in its search form, `array_merge` and the
  `foreach` loops that copy entries under rewritten keys.
 */
module PhpArrays {

  /** Every key is a string.  PHP stores a key such as "1", a decimal
      integer written as a string, as the integer 1; this model keeps every
      such key as a string, which PHP would not do. */
  type Key = string

  /** A stored configuration value.  PHP values are dynamically typed.  A
      nested array is an `Assoc` of its own, keys and order included; a
      float, an object or any other PHP value is known only by an identity,
      as the store never inspects one beyond a strict comparison. */
  datatype Value =
    | VNull
    | VBool(b: bool)
    | VInt(i: int)
    | VStr(s: string)
    | VArray(arr: Assoc)
    | VOther(id: nat)

  predicate Distinct(ks: seq<Key>)
  {
    forall i, j :: 0 <= i < j < |ks| ==> ks[i] != ks[j]
  }

  /** Dropping the last key of a list without repeats leaves a list without
      repeats that does not hold that key. */
  lemma DistinctInit(ks: seq<Key>)
    requires Distinct(ks) && ks != []
    ensures Distinct(ks[..|ks| - 1]) && ks[|ks| - 1] !in ks[..|ks| - 1]
  {
  }

  lemma HeadIn(ks: seq<Key>)
    requires ks != []
    ensures ks[0] in ks
  {
  }

  /** A PHP array: `keys` is the iteration order, `vals` the contents. */
  datatype Assoc = Assoc(keys: seq<Key>, vals: map<Key, Value>)
  {
    predicate WellFormed()
    {
      && Distinct(keys)
      && (forall k :: k in keys ==> k in vals)
      && (forall k :: k in vals ==> k in keys)
    }
  }

  /** `[]` */
  function Empty(): (r: Assoc)
    ensures r.WellFormed() && r.keys == [] && r.vals == map[]
  {
    Assoc([], map[])
  }

  /** An array with no entries is the empty array. */
  lemma NoValuesIsEmpty(a: Assoc)
    requires a.WellFormed() && a.vals == map[]
    ensures a == Empty()
  {
    if a.keys != [] {
      HeadIn(a.keys);
      assert false;
    }
  }

  /** `$a[$k] = $v`: an existing key keeps its position and takes the
      new value; a new key is appended at the end. */
  function Put(a: Assoc, k: Key, v: Value): (r: Assoc)
    requires a.WellFormed()
    ensures r.WellFormed()
    ensures k in r.vals && r.vals[k] == v
  {
    if k in a.vals then Assoc(a.keys, a.vals[k := v])
    else Assoc(a.keys + [k], a.vals[k := v])
  }

  /** After `$a[$k] = $v` every other key is present exactly when it was
      before, with its old value; an existing key keeps its position and a
      new key goes last. */
  lemma PutSpec(a: Assoc, k: Key, v: Value)
    requires a.WellFormed()
    ensures var r := Put(a, k, v);
      && (forall x :: x != k ==> (x in r.vals <==> x in a.vals))
      && (forall x :: x != k && x in a.vals ==> r.vals[x] == a.vals[x])
      && (k in a.vals ==> r.keys == a.keys)
      && (k !in a.vals ==> r.keys == a.keys + [k])
  {
  }

  /** Writing back the value a key already has changes nothing. */
  lemma PutSameValue(a: Assoc, k: Key)
    requires a.WellFormed() && k in a.vals
    ensures Put(a, k, a.vals[k]) == a
  {
    assert a.vals[k := a.vals[k]] == a.vals;
  }

  // ---------------------------------------------------------------------
  // Order-preserving filters over key lists
  // ---------------------------------------------------------------------

  /** The keys of ks that are not in gone, in their original order. */
  function Without(ks: seq<Key>, gone: set<Key>): (r: seq<Key>)
    ensures forall x :: x in r <==> x in ks && x !in gone
    ensures Distinct(ks) ==> Distinct(r)
    decreases |ks|
  {
    if ks == [] then []
    else
      var rest := Without(ks[..|ks| - 1], gone);
      var last := ks[|ks| - 1];
      assert forall x :: x in ks[..|ks| - 1] ==> x in ks;
      if last in gone then rest else rest + [last]
  }

  /** `array_keys($a, $v, true)`: the keys whose value is identical to v,
      in the array's order. */
  function SearchKeys(ks: seq<Key>, vals: map<Key, Value>, v: Value): (r: seq<Key>)
    ensures forall x :: x in r <==> x in ks && x in vals && vals[x] == v
    ensures Distinct(ks) ==> Distinct(r)
    decreases |ks|
  {
    if ks == [] then []
    else
      var rest := SearchKeys(ks[..|ks| - 1], vals, v);
      var last := ks[|ks| - 1];
      assert forall x :: x in ks[..|ks| - 1] ==> x in ks;
      if last in vals && vals[last] == v then rest + [last] else rest
  }

  /** The keys of ks that start with p, in their original order. */
  function KeysWithPrefix(ks: seq<Key>, p: string): (r: seq<Key>)
    ensures forall x :: x in r <==> x in ks && p <= x
    ensures Distinct(ks) ==> Distinct(r)
    decreases |ks|
  {
    if ks == [] then []
    else
      var rest := KeysWithPrefix(ks[..|ks| - 1], p);
      var last := ks[|ks| - 1];
      assert forall x :: x in ks[..|ks| - 1] ==> x in ks;
      assert Distinct(ks) ==> last !in ks[..|ks| - 1] by {
        if Distinct(ks) { DistinctInit(ks); }
      }
      if p <= last then rest + [last] else rest
  }

  lemma {:induction false} WithoutAppend(s: seq<Key>, t: seq<Key>, gone: set<Key>)
    ensures Without(s + t, gone) == Without(s, gone) + Without(t, gone)
    decreases |t|
  {
    if t != [] {
      var n := |t| - 1;
      assert (s + t)[..|s + t| - 1] == s + t[..n];
      WithoutAppend(s, t[..n], gone);
    } else {
      assert s + t == s;
    }
  }

  lemma {:induction false} WithoutNothing(s: seq<Key>, gone: set<Key>)
    requires forall x :: x in s ==> x !in gone
    ensures Without(s, gone) == s
    decreases |s|
  {
    if s != [] {
      var n := |s| - 1;
      WithoutNothing(s[..n], gone);
      assert s == s[..n] + [s[n]];
    }
  }

  lemma {:induction false} WithoutWithout(s: seq<Key>, a: set<Key>, b: set<Key>)
    ensures Without(Without(s, a), b) == Without(s, a + b)
    decreases |s|
  {
    if s != [] {
      var n := |s| - 1;
      WithoutWithout(s[..n], a, b);
      var rest := Without(s[..n], a);
      if s[n] !in a {
        assert (rest + [s[n]])[..|rest + [s[n]]| - 1] == rest;
      }
    }
  }

  lemma {:induction false} SearchKeysAppend(s: seq<Key>, t: seq<Key>, vals: map<Key, Value>, v: Value)
    ensures SearchKeys(s + t, vals, v) == SearchKeys(s, vals, v) + SearchKeys(t, vals, v)
    decreases |t|
  {
    if t != [] {
      var n := |t| - 1;
      var init := t[..n];
      var x := t[n];
      assert t == init + [x];
      assert s + t == (s + init) + [x];
      SearchKeysAppend(s, init, vals, v);
      SearchKeysSnoc(s + init, x, vals, v);
      SearchKeysSnoc(init, x, vals, v);
    } else {
      assert s + t == s;
    }
  }

  lemma {:induction false} KeysWithPrefixAppend(s: seq<Key>, t: seq<Key>, p: string)
    ensures KeysWithPrefix(s + t, p) == KeysWithPrefix(s, p) + KeysWithPrefix(t, p)
    decreases |t|
  {
    if t != [] {
      var n := |t| - 1;
      var init := t[..n];
      var x := t[n];
      assert t == init + [x];
      assert s + t == (s + init) + [x];
      KeysWithPrefixAppend(s, init, p);
      KeysWithPrefixSnoc(s + init, x, p);
      KeysWithPrefixSnoc(init, x, p);
    } else {
      assert s + t == s;
    }
  }


  /** array_keys' value search, one element further. */
  lemma SearchKeysSnoc(s: seq<Key>, x: Key, vals: map<Key, Value>, v: Value)
    ensures SearchKeys(s + [x], vals, v) ==
      SearchKeys(s, vals, v) + (if x in vals && vals[x] == v then [x] else [])
  {
    assert (s + [x])[..|s|] == s;
  }

  /** The prefix filter, one element further. */
  lemma KeysWithPrefixSnoc(s: seq<Key>, x: Key, p: string)
    ensures KeysWithPrefix(s + [x], p) == KeysWithPrefix(s, p) + (if p <= x then [x] else [])
  {
    assert (s + [x])[..|s|] == s;
  }

  /** A list whose keys all start with p passes the prefix filter whole. */
  lemma {:induction false} KeysWithPrefixAll(s: seq<Key>, p: string)
    requires forall x :: x in s ==> p <= x
    ensures KeysWithPrefix(s, p) == s
    decreases |s|
  {
    if s != [] {
      var n := |s| - 1;
      assert forall x :: x in s[..n] ==> x in s;
      KeysWithPrefixAll(s[..n], p);
      assert s[n] in s;
      assert s == s[..n] + [s[n]];
    }
  }

  /** A list in which no key starts with p passes nothing. */
  lemma {:induction false} KeysWithPrefixNone(s: seq<Key>, p: string)
    requires forall x :: x in s ==> !(p <= x)
    ensures KeysWithPrefix(s, p) == []
    decreases |s|
  {
    if s != [] {
      var n := |s| - 1;
      assert forall x :: x in s[..n] ==> x in s;
      KeysWithPrefixNone(s[..n], p);
      assert s[n] in s;
    }
  }

  // ---------------------------------------------------------------------
  // Removing entries
  // ---------------------------------------------------------------------

  /** `unset($a[$k])` for every key k of gone: the remaining entries keep
      their values and their relative order. */
  function RemoveKeys(a: Assoc, gone: set<Key>): (r: Assoc)
    requires a.WellFormed()
    ensures r.WellFormed()
    ensures forall x :: x in r.vals <==> x in a.vals && x !in gone
    ensures forall x :: x in r.vals ==> r.vals[x] == a.vals[x]
  {
    Assoc(Without(a.keys, gone), a.vals - gone)
  }

  /** `unset($a[$k])` */
  function Unset(a: Assoc, k: Key): (r: Assoc)
    requires a.WellFormed()
    ensures r.WellFormed()
    ensures k !in r.vals
    ensures forall x :: x != k ==> (x in r.vals <==> x in a.vals)
    ensures forall x :: x in r.vals ==> r.vals[x] == a.vals[x]
    ensures r.keys == Without(a.keys, {k})
  {
    RemoveKeys(a, {k})
  }

  /** Unsetting a key the array does not hold leaves it as it is. */
  lemma UnsetAbsent(a: Assoc, k: Key)
    requires a.WellFormed() && k !in a.vals
    ensures Unset(a, k) == a
  {
    WithoutNothing(a.keys, {k});
    assert a.vals - {k} == a.vals;
  }

  /** Removing the key at position i of a list without repeats closes
      the gap and keeps every other key in its order. */
  lemma {:induction false} WithoutAt(s: seq<Key>, i: nat)
    requires Distinct(s) && i < |s|
    ensures Without(s, {s[i]}) == s[..i] + s[i + 1..]
    decreases |s|
  {
    var n := |s| - 1;
    if i == n {
      WithoutAtLast(s);
    } else {
      var init := s[..n];
      assert init[i] == s[i];
      DistinctInit(s);
      WithoutAt(init, i);
      WithoutAtInner(s, i);
    }
  }

  lemma WithoutAtLast(s: seq<Key>)
    requires Distinct(s) && s != []
    ensures Without(s, {s[|s| - 1]}) == s[..|s| - 1]
  {
    DistinctInit(s);
    WithoutNothing(s[..|s| - 1], {s[|s| - 1]});
  }

  lemma WithoutAtInner(s: seq<Key>, i: nat)
    requires i < |s| - 1 && s[|s| - 1] != s[i]
    requires Without(s[..|s| - 1], {s[i]}) == s[..|s| - 1][..i] + s[..|s| - 1][i + 1..]
    ensures Without(s, {s[i]}) == s[..i] + s[i + 1..]
  {
    SpliceSnoc(s, i);
  }

  lemma SpliceSnoc(s: seq<Key>, i: nat)
    requires i < |s| - 1
    ensures s[..|s| - 1][..i] + s[..|s| - 1][i + 1..] + [s[|s| - 1]] == s[..i] + s[i + 1..]
  {
    var n := |s| - 1;
    assert s[..n][..i] == s[..i];
    assert s[..n][i + 1..] + [s[n]] == s[i + 1..];
  }

  /** Unsetting the key at position i closes the gap: every other key
      keeps its relative order and its value. */
  lemma UnsetAt(a: Assoc, i: nat)
    requires a.WellFormed() && i < |a.keys|
    ensures var r := Unset(a, a.keys[i]);
      && r.keys == a.keys[..i] + a.keys[i + 1..]
      && a.keys[i] !in r.vals
      && forall x :: x in r.vals ==> r.vals[x] == a.vals[x]
  {
    WithoutAt(a.keys, i);
  }

  /** Unsetting twice is unsetting the union. */
  lemma RemoveKeysTwice(a: Assoc, x: set<Key>, y: set<Key>)
    requires a.WellFormed()
    ensures RemoveKeys(RemoveKeys(a, x), y) == RemoveKeys(a, x + y)
  {
    WithoutWithout(a.keys, x, y);
    assert a.vals - x - y == a.vals - (x + y);
  }

  /** The keys of a list, as a set. */
  function KeySet(ks: seq<Key>): (r: set<Key>)
    ensures forall k :: k in r <==> k in ks
  {
    set k | k in ks
  }

  /** Removing no key changes nothing. */
  lemma RemoveNothing(a: Assoc)
    requires a.WellFormed()
    ensures RemoveKeys(a, {}) == a
  {
    WithoutNothing(a.keys, {});
    assert a.vals - {} == a.vals;
  }

  /** One round of a loop that unsets the keys of ks in turn. */
  lemma UnsetStep(a: Assoc, ks: seq<Key>, i: nat)
    requires a.WellFormed() && i < |ks|
    ensures Unset(RemoveKeys(a, KeySet(ks[..i])), ks[i]) == RemoveKeys(a, KeySet(ks[..i + 1]))
  {
    KeySetSnoc(ks, i);
    RemoveKeysTwice(a, KeySet(ks[..i]), {ks[i]});
  }

  lemma KeySetSnoc(ks: seq<Key>, i: nat)
    requires i < |ks|
    ensures KeySet(ks[..i + 1]) == KeySet(ks[..i]) + {ks[i]}
  {
    assert ks[..i + 1] == ks[..i] + [ks[i]];
  }

  // ---------------------------------------------------------------------
  // Copying entries under rewritten keys
  // ---------------------------------------------------------------------

  /** How a copying loop rewrites each source key. */
  datatype Rename =
    | Prepend(p: string)   // `$prefix . $key`
    | DropFirst(n: nat)    // `mb_substr($key, $n)`

  function Rekey(f: Rename, k: Key): (r: Key)
    ensures f.DropFirst? ==> |r| == if f.n <= |k| then |k| - f.n else 0
    ensures f.Prepend? ==> |r| == |f.p| + |k|
  {
    match f
    case Prepend(p) => p + k
    case DropFirst(n) => if n <= |k| then k[n..] else ""
  }

  /** What a rewritten key is made of: `p.k` starts with p and continues
      with k; `mb_substr(k, n)` is what follows the first n characters of
      k, and empty when k is shorter than n. */
  lemma RekeySpec(f: Rename, k: Key)
    ensures f.Prepend? ==> Rekey(f, k)[..|f.p|] == f.p && Rekey(f, k)[|f.p|..] == k
    ensures f.DropFirst? && f.n <= |k| ==> k[..f.n] + Rekey(f, k) == k
    ensures f.DropFirst? && |k| < f.n ==> Rekey(f, k) == ""
  {
  }

  /** The rewritten keys, in the order of ks. */
  function Image(f: Rename, ks: seq<Key>): (r: seq<Key>)
    ensures |r| == |ks| && forall i :: 0 <= i < |ks| ==> r[i] == Rekey(f, ks[i])
  {
    seq(|ks|, i requires 0 <= i < |ks| => Rekey(f, ks[i]))
  }

  /** No two distinct keys of ks are rewritten to the same key. */
  predicate InjectiveOn(f: Rename, ks: seq<Key>)
  {
    forall i, j :: 0 <= i < |ks| && 0 <= j < |ks| && Rekey(f, ks[i]) == Rekey(f, ks[j]) ==> ks[i] == ks[j]
  }

  /** `foreach ($ks as $k) { $a[f($k)] = $vals[$k]; }` */
  function PutAll(a: Assoc, f: Rename, ks: seq<Key>, vals: map<Key, Value>): (r: Assoc)
    requires a.WellFormed()
    requires forall k :: k in ks ==> k in vals
    ensures r.WellFormed()
    decreases |ks|
  {
    if ks == [] then a
    else
      var n := |ks| - 1;
      assert forall k :: k in ks[..n] ==> k in ks;
      Put(PutAll(a, f, ks[..n], vals), Rekey(f, ks[n]), vals[ks[n]])
  }

  /** One more loop iteration is one more element assignment. */
  lemma PutAllStep(a: Assoc, f: Rename, ks: seq<Key>, vals: map<Key, Value>, i: nat)
    requires a.WellFormed()
    requires forall k :: k in ks ==> k in vals
    requires i < |ks|
    ensures forall k :: k in ks[..i] ==> k in vals
    ensures PutAll(a, f, ks[..i + 1], vals) == Put(PutAll(a, f, ks[..i], vals), Rekey(f, ks[i]), vals[ks[i]])
  {
    assert forall k :: k in ks[..i] ==> k in ks;
    assert ks[..i + 1][..i] == ks[..i];
  }

  lemma ImageInit(f: Rename, ks: seq<Key>)
    requires ks != []
    ensures Image(f, ks) == Image(f, ks[..|ks| - 1]) + [Rekey(f, ks[|ks| - 1])]
  {
  }

  lemma ImageSnoc(f: Rename, s: seq<Key>, x: Key)
    ensures Image(f, s + [x]) == Image(f, s) + [Rekey(f, x)]
  {
  }

  /** Copying one more key is one more element assignment. */
  lemma PutAllSnoc(a: Assoc, f: Rename, ks: seq<Key>, x: Key, vals: map<Key, Value>)
    requires a.WellFormed()
    requires forall k :: k in ks ==> k in vals
    requires x in vals
    ensures forall k :: k in ks + [x] ==> k in vals
    ensures PutAll(a, f, ks + [x], vals) == Put(PutAll(a, f, ks, vals), Rekey(f, x), vals[x])
  {
    assert (ks + [x])[..|ks|] == ks;
  }

  lemma InjectiveInit(f: Rename, ks: seq<Key>)
    requires ks != [] && InjectiveOn(f, ks)
    ensures InjectiveOn(f, ks[..|ks| - 1])
  {
    var init := ks[..|ks| - 1];
    forall i, j | 0 <= i < |init| && 0 <= j < |init| && Rekey(f, init[i]) == Rekey(f, init[j])
      ensures init[i] == init[j]
    {
      assert init[i] == ks[i] && init[j] == ks[j];
    }
  }

  /** The copy holds a's keys and the rewritten keys, and nothing else. */
  lemma {:induction false} PutAllDomain(a: Assoc, f: Rename, ks: seq<Key>, vals: map<Key, Value>)
    requires a.WellFormed()
    requires forall k :: k in ks ==> k in vals
    ensures forall x :: x in PutAll(a, f, ks, vals).vals <==> x in a.vals || x in Image(f, ks)
    decreases |ks|
  {
    if ks != [] {
      var n := |ks| - 1;
      assert forall k :: k in ks[..n] ==> k in ks;
      PutAllDomain(a, f, ks[..n], vals);
      ImageInit(f, ks);
    }
  }

  /** An entry of a that no rewritten key hits keeps its value. */
  lemma {:induction false} PutAllKeepsOthers(a: Assoc, f: Rename, ks: seq<Key>, vals: map<Key, Value>)
    requires a.WellFormed()
    requires forall k :: k in ks ==> k in vals
    ensures forall x :: x in a.vals && x !in Image(f, ks) ==>
      x in PutAll(a, f, ks, vals).vals && PutAll(a, f, ks, vals).vals[x] == a.vals[x]
    decreases |ks|
  {
    if ks != [] {
      var n := |ks| - 1;
      assert forall k :: k in ks[..n] ==> k in ks;
      PutAllKeepsOthers(a, f, ks[..n], vals);
      ImageInit(f, ks);
    }
  }

  /** Each rewritten key carries the value copied from its source key. */
  lemma PutAllValues(a: Assoc, f: Rename, ks: seq<Key>, vals: map<Key, Value>)
    requires a.WellFormed()
    requires forall k :: k in ks ==> k in vals
    requires InjectiveOn(f, ks)
    ensures forall i :: 0 <= i < |ks| ==>
      Rekey(f, ks[i]) in PutAll(a, f, ks, vals).vals && PutAll(a, f, ks, vals).vals[Rekey(f, ks[i])] == vals[ks[i]]
  {
    forall i | 0 <= i < |ks|
      ensures Rekey(f, ks[i]) in PutAll(a, f, ks, vals).vals
      ensures PutAll(a, f, ks, vals).vals[Rekey(f, ks[i])] == vals[ks[i]]
    {
      PutAllValueAt(a, f, ks, vals, i);
    }
  }

  lemma {:induction false} PutAllValueAt(a: Assoc, f: Rename, ks: seq<Key>, vals: map<Key, Value>, i: nat)
    requires a.WellFormed()
    requires forall k :: k in ks ==> k in vals
    requires InjectiveOn(f, ks) && i < |ks|
    ensures Rekey(f, ks[i]) in PutAll(a, f, ks, vals).vals
    ensures PutAll(a, f, ks, vals).vals[Rekey(f, ks[i])] == vals[ks[i]]
    decreases |ks|
  {
    var n := |ks| - 1;
    var init := ks[..n];
    var x := ks[n];
    assert ks == init + [x];
    assert forall k :: k in init ==> k in ks;
    PutAllSnoc(a, f, init, x, vals);
    var prev := PutAll(a, f, init, vals);
    if i < n && Rekey(f, ks[i]) != Rekey(f, x) {
      assert init[i] == ks[i];
      assert Rekey(f, init[i]) in prev.vals && prev.vals[Rekey(f, init[i])] == vals[init[i]] by {
        InjectiveInit(f, ks);
        PutAllValueAt(a, f, init, vals, i);
      }
      PutKeeps(prev, Rekey(f, x), vals[x], Rekey(f, ks[i]));
    } else if i < n {
      InjectiveAt(f, ks, i, n);
    }
  }

  lemma InjectiveAt(f: Rename, ks: seq<Key>, i: nat, j: nat)
    requires InjectiveOn(f, ks) && i < |ks| && j < |ks| && Rekey(f, ks[i]) == Rekey(f, ks[j])
    ensures ks[i] == ks[j]
  {
  }

  /** Writing key k leaves a different key's entry alone. */
  lemma PutKeeps(b: Assoc, k: Key, v: Value, x: Key)
    requires b.WellFormed() && x in b.vals && x != k
    ensures x in Put(b, k, v).vals && Put(b, k, v).vals[x] == b.vals[x]
  {
  }

  /** a's keys keep their positions at the front of the copy. */
  lemma {:induction false} PutAllKeepsOrder(a: Assoc, f: Rename, ks: seq<Key>, vals: map<Key, Value>)
    requires a.WellFormed()
    requires forall k :: k in ks ==> k in vals
    ensures var r := PutAll(a, f, ks, vals); |a.keys| <= |r.keys| && r.keys[..|a.keys|] == a.keys
    decreases |ks|
  {
    if ks != [] {
      var n := |ks| - 1;
      assert forall k :: k in ks[..n] ==> k in ks;
      PutAllKeepsOrder(a, f, ks[..n], vals);
      var prev := PutAll(a, f, ks[..n], vals);
      PutKeepsOrder(prev, Rekey(f, ks[n]), vals[ks[n]]);
      PrefixOfPrefix(Put(prev, Rekey(f, ks[n]), vals[ks[n]]).keys, prev.keys, a.keys);
    }
  }

  /** Writing a key never moves the keys already there. */
  lemma PutKeepsOrder(b: Assoc, k: Key, v: Value)
    requires b.WellFormed()
    ensures |b.keys| <= |Put(b, k, v).keys| && Put(b, k, v).keys[..|b.keys|] == b.keys
  {
  }

  lemma PrefixOfPrefix(s: seq<Key>, t: seq<Key>, u: seq<Key>)
    requires |u| <= |t| <= |s| && s[..|t|] == t && t[..|u|] == u
    ensures s[..|u|] == u
  {
    assert s[..|u|] == s[..|t|][..|u|];
  }

  /** What the copying loop leaves behind: the rewritten keys carry the
      copied values, every other entry of a is untouched, and a's keys
      keep their positions at the front. */
  lemma PutAllSpec(a: Assoc, f: Rename, ks: seq<Key>, vals: map<Key, Value>)
    requires a.WellFormed()
    requires forall k :: k in ks ==> k in vals
    requires InjectiveOn(f, ks)
    ensures var r := PutAll(a, f, ks, vals);
      && (forall x :: x in r.vals <==> x in a.vals || x in Image(f, ks))
      && (forall x :: x in a.vals && x !in Image(f, ks) ==> r.vals[x] == a.vals[x])
      && (forall i :: 0 <= i < |ks| ==> r.vals[Rekey(f, ks[i])] == vals[ks[i]])
      && |a.keys| <= |r.keys| && r.keys[..|a.keys|] == a.keys
  {
    PutAllDomain(a, f, ks, vals);
    PutAllKeepsOthers(a, f, ks, vals);
    PutAllValues(a, f, ks, vals);
    PutAllKeepsOrder(a, f, ks, vals);
  }

  /** With distinct source keys and an injective rewrite, the last
      rewritten key differs from all earlier ones. */
  lemma ImageLastFresh(f: Rename, ks: seq<Key>)
    requires ks != [] && Distinct(ks) && InjectiveOn(f, ks)
    ensures Rekey(f, ks[|ks| - 1]) !in Image(f, ks[..|ks| - 1])
  {
  }

  /** When every rewritten key is new to a and ks has no repeats, the
      rewritten keys are appended to a's in the order of ks. */
  lemma {:induction false} PutAllFresh(a: Assoc, f: Rename, ks: seq<Key>, vals: map<Key, Value>)
    requires a.WellFormed()
    requires forall k :: k in ks ==> k in vals
    requires Distinct(ks) && InjectiveOn(f, ks)
    requires forall i :: 0 <= i < |ks| ==> Rekey(f, ks[i]) !in a.vals
    ensures PutAll(a, f, ks, vals).keys == a.keys + Image(f, ks)
    decreases |ks|
  {
    if ks != [] {
      var n := |ks| - 1;
      var init := ks[..n];
      assert forall k :: k in init ==> k in ks;
      assert PutAll(a, f, init, vals).keys == a.keys + Image(f, init) by {
        forall i | 0 <= i < |init| ensures Rekey(f, init[i]) !in a.vals {
          assert init[i] == ks[i];
        }
        InjectiveInit(f, ks);
        DistinctInit(ks);
        PutAllFresh(a, f, init, vals);
      }
      assert Rekey(f, ks[n]) !in PutAll(a, f, init, vals).vals by {
        PutAllDomain(a, f, init, vals);
        ImageLastFresh(f, ks);
      }
      PutAllFreshStep(a, f, ks, vals);
    }
  }

  lemma PutAllFreshStep(a: Assoc, f: Rename, ks: seq<Key>, vals: map<Key, Value>)
    requires a.WellFormed() && ks != []
    requires forall k :: k in ks ==> k in vals
    requires forall k :: k in ks[..|ks| - 1] ==> k in vals
    requires PutAll(a, f, ks[..|ks| - 1], vals).keys == a.keys + Image(f, ks[..|ks| - 1])
    requires Rekey(f, ks[|ks| - 1]) !in PutAll(a, f, ks[..|ks| - 1], vals).vals
    ensures PutAll(a, f, ks, vals).keys == a.keys + Image(f, ks)
  {
    ImageInit(f, ks);
  }

  /** When every rewritten key is already in a, no key moves. */
  lemma {:induction false} PutAllExisting(a: Assoc, f: Rename, ks: seq<Key>, vals: map<Key, Value>)
    requires a.WellFormed()
    requires forall k :: k in ks ==> k in vals
    requires forall i :: 0 <= i < |ks| ==> Rekey(f, ks[i]) in a.vals
    ensures PutAll(a, f, ks, vals).keys == a.keys
    decreases |ks|
  {
    if ks != [] {
      var n := |ks| - 1;
      var init := ks[..n];
      assert forall k :: k in init ==> k in ks;
      assert forall i :: 0 <= i < |init| ==> Rekey(f, init[i]) in a.vals by {
        forall i | 0 <= i < |init| ensures Rekey(f, init[i]) in a.vals {
          assert init[i] == ks[i];
        }
      }
      PutAllExisting(a, f, init, vals);
      PutAllDomain(a, f, init, vals);
    }
  }

  /** Prepending a fixed prefix never merges two keys. */
  lemma PrependInjective(p: string, ks: seq<Key>)
    ensures InjectiveOn(Prepend(p), ks)
  {
    forall i, j | 0 <= i < |ks| && 0 <= j < |ks| && Rekey(Prepend(p), ks[i]) == Rekey(Prepend(p), ks[j])
      ensures ks[i] == ks[j]
    {
      assert (p + ks[i])[|p|..] == ks[i];
      assert (p + ks[j])[|p|..] == ks[j];
    }
  }

  /** The keys a prefix-prepending copy writes are exactly the keys that
      start with the prefix and whose remainder is a source key. */
  lemma PrependImage(p: string, ks: seq<Key>)
    ensures forall x :: x in Image(Prepend(p), ks) <==> p <= x && x[|p|..] in ks
  {
    var im := Image(Prepend(p), ks);
    forall x ensures x in im <==> p <= x && x[|p|..] in ks {
      if x in im {
        var i :| 0 <= i < |im| && im[i] == x;
        assert x == p + ks[i];
        assert x[|p|..] == ks[i];
      }
      if p <= x && x[|p|..] in ks {
        var i :| 0 <= i < |ks| && ks[i] == x[|p|..];
        assert x == p + ks[i];
        assert im[i] == x;
      }
    }
  }

  /** Dropping the first |p| characters undoes prepending p. */
  lemma DropAfterPrepend(p: string, ks: seq<Key>)
    ensures Image(DropFirst(|p|), Image(Prepend(p), ks)) == ks
  {
    var im := Image(Prepend(p), ks);
    forall i | 0 <= i < |ks| ensures Rekey(DropFirst(|p|), im[i]) == ks[i] {
      assert (p + ks[i])[|p|..] == ks[i];
    }
  }

  /** Keys that share the prefix p are told apart by what follows it. */
  lemma DropFirstInjective(p: string, ks: seq<Key>)
    requires forall x :: x in ks ==> p <= x
    ensures InjectiveOn(DropFirst(|p|), ks)
  {
    forall i, j | 0 <= i < |ks| && 0 <= j < |ks| && Rekey(DropFirst(|p|), ks[i]) == Rekey(DropFirst(|p|), ks[j])
      ensures ks[i] == ks[j]
    {
      assert ks[i] in ks && ks[j] in ks;
      assert ks[i] == p + ks[i][|p|..];
      assert ks[j] == p + ks[j][|p|..];
    }
  }

  /** On keys that share the prefix p, suffix k is written by the
      stripping copy exactly when p + k is a source key. */
  lemma DropFirstImage(p: string, ks: seq<Key>)
    requires forall x :: x in ks ==> p <= x
    ensures forall k :: k in Image(DropFirst(|p|), ks) <==> p + k in ks
  {
    var im := Image(DropFirst(|p|), ks);
    forall k ensures k in im <==> p + k in ks {
      if k in im {
        var i :| 0 <= i < |im| && im[i] == k;
        assert ks[i] in ks;
        assert ks[i] == p + ks[i][|p|..];
      }
      if p + k in ks {
        var i :| 0 <= i < |ks| && ks[i] == p + k;
        assert (p + k)[|p|..] == k;
        assert im[i] == k;
      }
    }
  }

  /** A copy under an empty prefix writes the source keys themselves. */
  lemma PrependEmptyImage(ks: seq<Key>)
    ensures Image(Prepend(""), ks) == ks
  {
    forall i | 0 <= i < |ks| ensures Rekey(Prepend(""), ks[i]) == ks[i] {
      assert "" + ks[i] == ks[i];
    }
  }

  /** Copying entries without renaming them keeps the array's own keys in
      place and appends the copied keys it lacked, in their own order. */
  lemma {:induction false} PutAllAppendsNew(a: Assoc, ks: seq<Key>, vals: map<Key, Value>)
    requires a.WellFormed() && Distinct(ks)
    requires forall k :: k in ks ==> k in vals
    ensures PutAll(a, Prepend(""), ks, vals).keys == a.keys + Without(ks, KeySet(a.keys))
    decreases |ks|
  {
    if ks != [] {
      var n := |ks| - 1;
      assert forall k :: k in ks[..n] ==> k in ks;
      DistinctInit(ks);
      PutAllAppendsNew(a, ks[..n], vals);
      assert Rekey(Prepend(""), ks[n]) == ks[n] by { assert "" + ks[n] == ks[n]; }
      AppendsNewStep(PutAll(a, Prepend(""), ks[..n], vals), a.keys, ks, vals[ks[n]], KeySet(a.keys));
    }
  }

  /** One step of PutAllAppendsNew: the last key is appended exactly when
      neither the original keys nor the keys copied before it hold it. */
  lemma AppendsNewStep(prev: Assoc, base: seq<Key>, ks: seq<Key>, v: Value, gone: set<Key>)
    requires ks != [] && ks[|ks| - 1] !in ks[..|ks| - 1]
    requires prev.WellFormed() && prev.keys == base + Without(ks[..|ks| - 1], gone)
    requires forall k :: k in base <==> k in gone
    ensures Put(prev, ks[|ks| - 1], v).keys == base + Without(ks, gone)
  {
    var x := ks[|ks| - 1];
    assert x in prev.vals <==> x in gone by {
      assert x in prev.keys <==> x in base || x in Without(ks[..|ks| - 1], gone);
    }
  }


  // ---------------------------------------------------------------------
  // array_merge
  // ---------------------------------------------------------------------

  /** `array_merge($a, $b)` for string keys: a's keys keep their order, a
      key of b overwrites a's value in place, b's new keys are appended. */
  function ArrayMerge(a: Assoc, b: Assoc): (r: Assoc)
    requires a.WellFormed() && b.WellFormed()
    ensures r.WellFormed()
  {
    PutAll(a, Prepend(""), b.keys, b.vals)
  }

  /** The key set of array_merge is the union; b's values win. */
  lemma ArrayMergeSpec(a: Assoc, b: Assoc)
    requires a.WellFormed() && b.WellFormed()
    ensures var r := ArrayMerge(a, b);
      && (forall x :: x in r.vals <==> x in a.vals || x in b.vals)
      && (forall x :: x in b.vals ==> r.vals[x] == b.vals[x])
      && (forall x :: x in a.vals && x !in b.vals ==> r.vals[x] == a.vals[x])
      && |a.keys| <= |r.keys| && r.keys[..|a.keys|] == a.keys
      && r.keys == a.keys + Without(b.keys, KeySet(a.keys))
  {
    PutAllAppendsNew(a, b.keys, b.vals);
    PrependInjective("", b.keys);
    PutAllSpec(a, Prepend(""), b.keys, b.vals);
    PrependEmptyImage(b.keys);
    var r := ArrayMerge(a, b);
    forall x | x in b.vals ensures r.vals[x] == b.vals[x] {
      var i :| 0 <= i < |b.keys| && b.keys[i] == x;
      assert Rekey(Prepend(""), b.keys[i]) == x;
    }
  }

  /** Merging an array into itself changes nothing. */
  lemma ArrayMergeSelf(a: Assoc)
    requires a.WellFormed()
    ensures ArrayMerge(a, a) == a
  {
    assert ArrayMerge(a, a).keys == a.keys by {
      PrependEmptyImage(a.keys);
      PutAllExisting(a, Prepend(""), a.keys, a.vals);
    }
    assert ArrayMerge(a, a).vals == a.vals by {
      ArrayMergeSpec(a, a);
    }
  }
}
