/**
 * Insertion-ordered dictionaries: the behaviour of a Python dict, and of a
 * JavaScript plain object whose keys are not integer-like, used as a
 * string-keyed map.  Assigning to an existing key keeps its position,
 * assigning to a new key appends it, and deleting a key removes it from the
 * iteration order.
 */
module Dicts {

  /** The iteration order of the keys and the key/value association. */
  datatype Table<V> = Table(keys: seq<string>, vals: map<string, V>)

  ghost predicate Distinct(s: seq<string>) {
    forall i, j | 0 <= i < j < |s| :: s[i] != s[j]
  }

  /** Every key occurs once in the order, and the order lists exactly the keys of the map. */
  ghost predicate Ordered<V>(t: Table<V>) {
    Distinct(t.keys) && forall k :: k in t.vals <==> k in t.keys
  }

  type Dict<V> = t: Table<V> | Ordered(t) witness Table([], map[])

  function Empty<V>(): (d: Dict<V>)
    ensures d.keys == [] && d.vals == map[]
  {
    Table([], map[])
  }

  /** The properties a JavaScript plain object inherits from `Object.prototype`. */
  predicate Inherited(k: string) {
    k in {"constructor", "hasOwnProperty", "isPrototypeOf", "propertyIsEnumerable", "toLocaleString",
          "toString", "valueOf", "__proto__", "__defineGetter__", "__defineSetter__",
          "__lookupGetter__", "__lookupSetter__"}
  }

  /**
   * JavaScript `k in d` on a plain object: an own key or an inherited one.
   * When every own value is an object, this is also when `d[k]` is truthy.
   */
  predicate HasProperty<V>(d: Dict<V>, k: string) {
    k in d.vals || Inherited(k)
  }

  /** `d[k] = v` */
  function Put<V>(d: Dict<V>, k: string, v: V): (r: Dict<V>)
    ensures r.vals == d.vals[k := v]
    ensures r.keys == if k in d.vals then d.keys else d.keys + [k]
  {
    if k in d.vals then Table(d.keys, d.vals[k := v])
    else
      assert Distinct(d.keys + [k]) by {
        forall i, j | 0 <= i < j < |d.keys + [k]| ensures (d.keys + [k])[i] != (d.keys + [k])[j] {
          if j == |d.keys| { assert d.keys[i] in d.vals; }
        }
      }
      Table(d.keys + [k], d.vals[k := v])
  }

  /** A second assignment to the same key overrides the first and keeps the first's position. */
  lemma PutPut<V>(d: Dict<V>, k: string, v: V, w: V)
    ensures Put(Put(d, k, v), k, w) == Put(d, k, w)
  {
  }

  /** Assigning a key the value it already has changes nothing. */
  lemma PutSame<V>(d: Dict<V>, k: string)
    requires k in d.vals
    ensures Put(d, k, d.vals[k]) == d
  {
    assert d.vals[k := d.vals[k]] == d.vals;
  }

  /** The order `s` with every occurrence of `k` taken out. */
  function Without(s: seq<string>, k: string): (r: seq<string>)
    ensures forall j :: j in r <==> j in s && j != k
    ensures |r| <= |s|
    ensures k !in s ==> r == s
  {
    if s == [] then [] else (if s[0] == k then [] else [s[0]]) + Without(s[1..], k)
  }

  lemma {:induction false} WithoutDistinct(s: seq<string>, k: string)
    requires Distinct(s)
    ensures Distinct(Without(s, k))
  {
    if s != [] {
      assert Distinct(s[1..]) by {
        forall i, j | 0 <= i < j < |s[1..]| ensures s[1..][i] != s[1..][j] {
          assert s[i + 1] != s[j + 1];
        }
      }
      WithoutDistinct(s[1..], k);
      var rest := Without(s[1..], k);
      if s[0] != k {
        assert s[0] !in rest;
        var r := [s[0]] + rest;
        forall i, j | 0 <= i < j < |r| ensures r[i] != r[j] {
          if i == 0 { assert r[j] in rest; }
          else { assert r[i] == rest[i - 1] && r[j] == rest[j - 1]; }
        }
      }
    }
  }

  /** `delete d[k]` */
  function Remove<V>(d: Dict<V>, k: string): (r: Dict<V>)
    ensures r.vals == d.vals - {k}
    ensures r.keys == Without(d.keys, k)
    ensures k !in d.vals ==> r == d
  {
    WithoutDistinct(d.keys, k);
    var r := Table(Without(d.keys, k), d.vals - {k});
    assert forall j :: j in r.vals <==> j in r.keys;
    assert k !in d.vals ==> d.vals - {k} == d.vals;
    r
  }

  /** Removing a key that was just added restores the dictionary. */
  lemma RemovePutFresh<V>(d: Dict<V>, k: string, v: V)
    requires k !in d.vals
    ensures Remove(Put(d, k, v), k) == d
  {
    assert k !in d.keys;
    WithoutAppend(d.keys, [k], k);
    assert Without([k], k) == [];
    assert Put(d, k, v).vals - {k} == d.vals;
  }

  /** The dictionary with every value replaced by its image under `f`, in the same order. */
  function MapValues<V>(d: Dict<V>, f: V -> V): (r: Dict<V>)
    ensures r.keys == d.keys
    ensures forall k :: k in r.vals <==> k in d.vals
    ensures forall k | k in d.vals :: r.vals[k] == f(d.vals[k])
  {
    Table(d.keys, map k | k in d.vals :: f(d.vals[k]))
  }

  /** The keys of `ks` whose value in `m` is not dropped, in order. */
  function KeepKeys<V>(ks: seq<string>, m: map<string, V>, drop: V -> bool): (r: seq<string>)
    requires forall k | k in ks :: k in m
    ensures forall k :: k in r <==> k in ks && !drop(m[k])
  {
    if ks == [] then []
    else (if drop(m[ks[0]]) then [] else [ks[0]]) + KeepKeys(ks[1..], m, drop)
  }

  lemma {:induction false} KeepKeysDistinct<V>(ks: seq<string>, m: map<string, V>, drop: V -> bool)
    requires forall k | k in ks :: k in m
    requires Distinct(ks)
    ensures Distinct(KeepKeys(ks, m, drop))
  {
    if ks != [] {
      assert Distinct(ks[1..]) by {
        forall i, j | 0 <= i < j < |ks[1..]| ensures ks[1..][i] != ks[1..][j] {
          assert ks[i + 1] != ks[j + 1];
        }
      }
      KeepKeysDistinct(ks[1..], m, drop);
      var rest := KeepKeys(ks[1..], m, drop);
      if !drop(m[ks[0]]) {
        assert ks[0] !in rest;
        var r := [ks[0]] + rest;
        forall i, j | 0 <= i < j < |r| ensures r[i] != r[j] {
          if i == 0 { assert r[j] in rest; }
          else { assert r[i] == rest[i - 1] && r[j] == rest[j - 1]; }
        }
      }
    }
  }

  /** `r` is `s` with some elements left out: the elements it keeps stay in the order of `s`. */
  predicate Sublist(r: seq<string>, s: seq<string>)
    decreases |s|
  {
    if r == [] then true
    else if s == [] then false
    else if r[0] == s[0] then Sublist(r[1..], s[1..])
    else Sublist(r, s[1..])
  }

  /** Dropping the first kept element keeps a sublist. */
  lemma {:induction false} SublistTail(r: seq<string>, s: seq<string>)
    requires Sublist(r, s) && r != []
    ensures Sublist(r[1..], s)
    decreases |s|, 1
  {
    if s != [] && r[0] != s[0] {
      SublistTail(r, s[1..]);
      SublistCons(r[1..], s[1..], s[0]);
    } else if s != [] && r[1..] != [] {
      SublistCons(r[1..], s[1..], s[0]);
    }
  }

  /** An element in front of `s` can be skipped. */
  lemma {:induction false} SublistCons(r: seq<string>, s: seq<string>, x: string)
    requires Sublist(r, s)
    ensures Sublist(r, [x] + s)
    decreases |s| + 1, 0
  {
    if r != [] && r[0] == x {
      assert ([x] + s)[1..] == s;
      SublistTail(r, s);
    } else {
      assert ([x] + s)[1..] == s;
    }
  }

  /** An element after `s` can be skipped, or kept after `r`. */
  /** A common first element extends a sublist on both sides. */
  lemma SublistBoth(r: seq<string>, s: seq<string>, x: string)
    requires Sublist(r, s)
    ensures Sublist([x] + r, [x] + s)
  {
    assert ([x] + r)[1..] == r && ([x] + s)[1..] == s;
  }

  lemma {:induction false} SublistSnoc(r: seq<string>, s: seq<string>, x: string)
    requires Sublist(r, s)
    ensures Sublist(r, s + [x]) && Sublist(r + [x], s + [x])
    decreases |s|
  {
    if s == [] {
      assert r == [] && [] + [x] == [x] && ([x] + [])[1..] == [];
    } else {
      assert (s + [x])[0] == s[0] && (s + [x])[1..] == s[1..] + [x];
      if r == [] {
        SublistSnoc(r, s[1..], x);
        assert r + [x] == [x];
      } else {
        assert (r + [x])[0] == r[0] && (r + [x])[1..] == r[1..] + [x];
        if r[0] == s[0] {
          SublistSnoc(r[1..], s[1..], x);
        } else {
          SublistSnoc(r, s[1..], x);
        }
      }
    }
  }

  /** Filtering keeps the order of the keys. */
  lemma {:induction false} KeepKeysSublist<V>(ks: seq<string>, m: map<string, V>, drop: V -> bool)
    requires forall k | k in ks :: k in m
    ensures Sublist(KeepKeys(ks, m, drop), ks)
  {
    if ks != [] {
      var rest := KeepKeys(ks[1..], m, drop);
      KeepKeysSublist(ks[1..], m, drop);
      if drop(m[ks[0]]) {
        assert KeepKeys(ks, m, drop) == rest;
        SublistCons(rest, ks[1..], ks[0]);
      } else {
        var r := [ks[0]] + rest;
        assert KeepKeys(ks, m, drop) == r && r[1..] == rest;
      }
    }
  }

  /** Filtering one more key extends the filtered order by that key, unless it is dropped. */
  lemma {:induction false} KeepKeysSnoc<V>(ks: seq<string>, k: string, m: map<string, V>, drop: V -> bool)
    requires forall j | j in ks :: j in m
    requires k in m
    ensures KeepKeys(ks + [k], m, drop) == KeepKeys(ks, m, drop) + (if drop(m[k]) then [] else [k])
  {
    if ks != [] {
      assert (ks + [k])[1..] == ks[1..] + [k];
      KeepKeysSnoc(ks[1..], k, m, drop);
    }
  }

  /** Taking a key out of a concatenation takes it out of both parts. */
  lemma {:induction false} WithoutAppend(a: seq<string>, b: seq<string>, k: string)
    ensures Without(a + b, k) == Without(a, k) + Without(b, k)
  {
    if a != [] {
      assert (a + b)[0] == a[0] && (a + b)[1..] == a[1..] + b;
      WithoutAppend(a[1..], b, k);
      var head := if a[0] == k then [] else [a[0]];
      calc {
        Without(a + b, k);
        head + Without(a[1..] + b, k);
        head + (Without(a[1..], k) + Without(b, k));
        (head + Without(a[1..], k)) + Without(b, k);
        Without(a, k) + Without(b, k);
      }
    } else {
      assert a + b == b;
    }
  }

  /** Dropping the last element keeps the rest distinct, and the last element is not among them. */
  lemma DistinctInit(s: seq<string>)
    requires Distinct(s) && s != []
    ensures Distinct(s[..|s| - 1]) && s[|s| - 1] !in s[..|s| - 1]
  {
    var n := |s| - 1;
    assert forall a | 0 <= a < n :: s[..n][a] == s[a];
  }

  /** In an order without repetitions, the key at `i` occurs neither before nor after `i`. */
  lemma DistinctAt(s: seq<string>, i: int)
    requires Distinct(s) && 0 <= i < |s|
    ensures s[i] !in s[..i] && s[i] !in s[i + 1..]
  {
  }

  /**
   * One step of deleting, in order, the keys of `ks` whose value is dropped:
   * when `ks[i]` is dropped, the order after `i + 1` keys is the order after
   * `i` keys without `ks[i]` ...
   */
  lemma KeepKeysDropped<V>(ks: seq<string>, m: map<string, V>, drop: V -> bool, i: int)
    requires forall k | k in ks :: k in m
    requires 0 <= i < |ks| && ks[i] !in ks[..i] && ks[i] !in ks[i + 1..] && drop(m[ks[i]])
    ensures KeepKeys(ks[..i + 1], m, drop) + ks[i + 1..] == Without(KeepKeys(ks[..i], m, drop) + ks[i..], ks[i])
  {
    var pre := KeepKeys(ks[..i], m, drop);
    KeepKeysPrefix(ks, m, drop, i);
    assert KeepKeys(ks[..i + 1], m, drop) == pre;
    assert ks[i..] == [ks[i]] + ks[i + 1..];
    assert ks[i] !in pre;
    WithoutMiddle(pre, ks[i], ks[i + 1..]);
  }

  /** ... and otherwise it is the order after `i` keys. */
  lemma KeepKeysKept<V>(ks: seq<string>, m: map<string, V>, drop: V -> bool, i: int)
    requires forall k | k in ks :: k in m
    requires 0 <= i < |ks| && !drop(m[ks[i]])
    ensures KeepKeys(ks[..i + 1], m, drop) + ks[i + 1..] == KeepKeys(ks[..i], m, drop) + ks[i..]
  {
    KeepKeysPrefix(ks, m, drop, i);
    ConsAt(KeepKeys(ks[..i], m, drop), ks, i);
  }

  /** Moving the key at `i` from the front of the rest of `ks` to the end of a prefix. */
  lemma ConsAt(pre: seq<string>, ks: seq<string>, i: int)
    requires 0 <= i < |ks|
    ensures pre + [ks[i]] + ks[i + 1..] == pre + ks[i..]
  {
    assert ks[i..] == [ks[i]] + ks[i + 1..];
  }

  /** Filtering one more key of `ks`. */
  lemma KeepKeysPrefix<V>(ks: seq<string>, m: map<string, V>, drop: V -> bool, i: int)
    requires forall k | k in ks :: k in m
    requires 0 <= i < |ks|
    ensures KeepKeys(ks[..i + 1], m, drop) == KeepKeys(ks[..i], m, drop) + (if drop(m[ks[i]]) then [] else [ks[i]])
  {
    assert ks[..i + 1] == ks[..i] + [ks[i]];
    KeepKeysSnoc(ks[..i], ks[i], m, drop);
  }

  /** Taking out a key that occurs once, between `a` and `b`. */
  lemma WithoutMiddle(a: seq<string>, k: string, b: seq<string>)
    requires k !in a && k !in b
    ensures Without(a + ([k] + b), k) == a + b
  {
    var kb := [k] + b;
    WithoutAppend(a, kb, k);
    assert kb[0] == k && kb[1..] == b;
    assert Without(kb, k) == Without(b, k);
  }

  /** The dictionary without the entries whose value is dropped, in the same order. */
  function RemoveWhere<V>(d: Dict<V>, drop: V -> bool): (r: Dict<V>)
    ensures r.keys == KeepKeys(d.keys, d.vals, drop)
    ensures forall k :: k in r.vals <==> k in d.vals && !drop(d.vals[k])
    ensures forall k | k in r.vals :: r.vals[k] == d.vals[k]
  {
    KeepKeysDistinct(d.keys, d.vals, drop);
    Table(KeepKeys(d.keys, d.vals, drop), map k | k in d.vals && !drop(d.vals[k]) :: d.vals[k])
  }

  /** `d` after deleting, in order, the dropped entries among its first `i` keys. */
  ghost function PartlyRemoved<V>(d: Dict<V>, drop: V -> bool, i: nat): Table<V>
    requires i <= |d.keys|
  {
    Table(KeepKeys(d.keys[..i], d.vals, drop) + d.keys[i..],
      map k | k in d.vals && !(k in d.keys[..i] && drop(d.vals[k])) :: d.vals[k])
  }

  /** Nothing is deleted before the first key. */
  lemma PartlyRemovedStart<V>(d: Dict<V>, drop: V -> bool)
    ensures PartlyRemoved(d, drop, 0) == d
  {
    assert PartlyRemoved(d, drop, 0).keys == d.keys by {
      assert d.keys[..0] == [] && d.keys[0..] == d.keys;
    }
    assert PartlyRemoved(d, drop, 0).vals == d.vals by {
      assert d.keys[..0] == [];
    }
  }

  /** After the last key exactly the dropped entries are deleted. */
  lemma PartlyRemovedDone<V>(d: Dict<V>, drop: V -> bool)
    ensures PartlyRemoved(d, drop, |d.keys|) == RemoveWhere(d, drop)
  {
    assert d.keys[..|d.keys|] == d.keys;
  }

  lemma PartlyRemovedKeys<V>(d: Dict<V>, drop: V -> bool, i: nat)
    requires i < |d.keys|
    ensures var k := d.keys[i];
      PartlyRemoved(d, drop, i + 1).keys ==
        if drop(d.vals[k]) then Without(PartlyRemoved(d, drop, i).keys, k) else PartlyRemoved(d, drop, i).keys
  {
    if drop(d.vals[d.keys[i]]) {
      DistinctAt(d.keys, i);
      KeepKeysDropped(d.keys, d.vals, drop, i);
    } else {
      KeepKeysKept(d.keys, d.vals, drop, i);
    }
  }

  /** The key about to be visited is still present, with its original value. */
  lemma PartlyRemovedHas<V>(d: Dict<V>, drop: V -> bool, i: nat)
    requires i < |d.keys|
    ensures d.keys[i] in PartlyRemoved(d, drop, i).vals
    ensures PartlyRemoved(d, drop, i).vals[d.keys[i]] == d.vals[d.keys[i]]
  {
    DistinctAt(d.keys, i);
  }

  lemma PartlyRemovedMembers<V>(d: Dict<V>, drop: V -> bool, i: nat)
    requires i < |d.keys|
    ensures forall x :: x in PartlyRemoved(d, drop, i + 1).vals <==>
      x in PartlyRemoved(d, drop, i).vals && (x != d.keys[i] || !drop(d.vals[d.keys[i]]))
  {
    var ks := d.keys;
    assert ks[..i + 1] == ks[..i] + [ks[i]];
    forall x
      ensures x in ks[..i + 1] <==> x in ks[..i] || x == ks[i]
    {
    }
  }

  lemma PartlyRemovedVals<V>(d: Dict<V>, drop: V -> bool, i: nat)
    requires i < |d.keys|
    ensures var p := PartlyRemoved(d, drop, i).vals;
            var k := d.keys[i];
      && k in p && p[k] == d.vals[k]
      && PartlyRemoved(d, drop, i + 1).vals == if drop(d.vals[k]) then p - {k} else p
  {
    PartlyRemovedHas(d, drop, i);
    PartlyRemovedMembers(d, drop, i);
  }

  /** Visiting key `i` deletes it when it is dropped and changes nothing otherwise. */
  lemma PartlyRemovedStep<V>(d: Dict<V>, drop: V -> bool, i: nat)
    requires i < |d.keys|
    ensures var p := PartlyRemoved(d, drop, i);
            var k := d.keys[i];
      && k in p.vals && p.vals[k] == d.vals[k]
      && PartlyRemoved(d, drop, i + 1) == if drop(d.vals[k]) then Table(Without(p.keys, k), p.vals - {k}) else p
  {
    PartlyRemovedKeys(d, drop, i);
    PartlyRemovedVals(d, drop, i);
  }

  /** Sum of `f` over the values of `ks` in `m`, in order. */
  function SumOf<V>(ks: seq<string>, m: map<string, V>, f: V -> nat): nat
    requires forall k | k in ks :: k in m
  {
    if ks == [] then 0 else f(m[ks[0]]) + SumOf(ks[1..], m, f)
  }

  /** Sum of `f` over all values of `d`. */
  function Sum<V>(d: Dict<V>, f: V -> nat): nat {
    SumOf(d.keys, d.vals, f)
  }

  lemma {:induction false} SumOfAppend<V>(ks: seq<string>, k: string, m: map<string, V>, f: V -> nat)
    requires forall j | j in ks :: j in m
    requires k in m
    ensures SumOf(ks + [k], m, f) == SumOf(ks, m, f) + f(m[k])
  {
    if ks != [] {
      assert (ks + [k])[1..] == ks[1..] + [k];
      SumOfAppend(ks[1..], k, m, f);
    }
  }

  /** The running sum over a prefix of `ks` grows by the value at the next key. */
  lemma SumOfPrefix<V>(ks: seq<string>, m: map<string, V>, f: V -> nat, i: int)
    requires forall j | j in ks :: j in m
    requires 0 <= i < |ks|
    ensures SumOf(ks[..i + 1], m, f) == SumOf(ks[..i], m, f) + f(m[ks[i]])
  {
    assert ks[..i + 1] == ks[..i] + [ks[i]];
    SumOfAppend(ks[..i], ks[i], m, f);
  }

  /** Values at keys outside the order do not contribute. */
  lemma {:induction false} SumOfFrame<V>(ks: seq<string>, m: map<string, V>, m': map<string, V>, f: V -> nat)
    requires forall j | j in ks :: j in m && j in m' && f(m[j]) == f(m'[j])
    ensures SumOf(ks, m, f) == SumOf(ks, m', f)
  {
    if ks != [] {
      SumOfFrame(ks[1..], m, m', f);
    }
  }

  /** Changing the value of a key that occurs once in the order changes the sum by the difference. */
  lemma {:induction false} SumOfUpdate<V>(ks: seq<string>, m: map<string, V>, k: string, v: V, f: V -> nat)
    requires forall j | j in ks :: j in m
    requires Distinct(ks)
    requires k in ks
    ensures SumOf(ks, m[k := v], f) + f(m[k]) == SumOf(ks, m, f) + f(v)
  {
    assert Distinct(ks[1..]) by {
      forall i, j | 0 <= i < j < |ks[1..]| ensures ks[1..][i] != ks[1..][j] {
        assert ks[i + 1] != ks[j + 1];
      }
    }
    if ks[0] == k {
      assert k !in ks[1..];
      SumOfFrame(ks[1..], m[k := v], m, f);
    } else {
      SumOfUpdate(ks[1..], m, k, v, f);
    }
  }

  /** Summing after `d[k] = v`. */
  lemma SumPut<V>(d: Dict<V>, k: string, v: V, f: V -> nat)
    ensures Sum(Put(d, k, v), f) + (if k in d.vals then f(d.vals[k]) else 0) == Sum(d, f) + f(v)
  {
    if k in d.vals {
      SumOfUpdate(d.keys, d.vals, k, v, f);
    } else {
      SumOfAppend(d.keys, k, d.vals[k := v], f);
      SumOfFrame(d.keys, d.vals[k := v], d.vals, f);
    }
  }

  lemma {:induction false} SumOfWithout<V>(ks: seq<string>, m: map<string, V>, k: string, f: V -> nat)
    requires forall j | j in ks :: j in m
    requires Distinct(ks)
    requires k in ks
    ensures SumOf(Without(ks, k), m - {k}, f) + f(m[k]) == SumOf(ks, m, f)
  {
    assert Distinct(ks[1..]) by {
      forall i, j | 0 <= i < j < |ks[1..]| ensures ks[1..][i] != ks[1..][j] {
        assert ks[i + 1] != ks[j + 1];
      }
    }
    if ks[0] == k {
      assert k !in ks[1..];
      assert Without(ks, k) == ks[1..];
      SumOfFrame(ks[1..], m - {k}, m, f);
    } else {
      assert Without(ks, k) == [ks[0]] + Without(ks[1..], k);
      SumOfWithout(ks[1..], m, k, f);
    }
  }

  /** Summing after `delete d[k]`. */
  lemma SumRemove<V>(d: Dict<V>, k: string, f: V -> nat)
    ensures Sum(Remove(d, k), f) + (if k in d.vals then f(d.vals[k]) else 0) == Sum(d, f)
  {
    if k in d.vals {
      SumOfWithout(d.keys, d.vals, k, f);
    }
  }

  /** A sum of zero contributions is zero. */
  lemma {:induction false} SumOfZero<V>(ks: seq<string>, m: map<string, V>, f: V -> nat)
    requires forall j | j in ks :: j in m && f(m[j]) == 0
    ensures SumOf(ks, m, f) == 0
  {
    if ks != [] {
      SumOfZero(ks[1..], m, f);
    }
  }

  /** Two dictionaries with the same order and pointwise equal contributions have equal sums. */
  lemma SumCongruent<V>(d: Dict<V>, e: Dict<V>, f: V -> nat, g: V -> nat)
    requires d.keys == e.keys
    requires forall k | k in d.vals :: f(d.vals[k]) == g(e.vals[k])
    ensures Sum(d, f) == Sum(e, g)
  {
    SumOfCongruent(d.keys, d.vals, e.vals, f, g);
  }

  lemma {:induction false} SumOfCongruent<V>(ks: seq<string>, m: map<string, V>, m': map<string, V>, f: V -> nat, g: V -> nat)
    requires forall j | j in ks :: j in m && j in m' && f(m[j]) == g(m'[j])
    ensures SumOf(ks, m, f) == SumOf(ks, m', g)
  {
    if ks != [] {
      SumOfCongruent(ks[1..], m, m', f, g);
    }
  }
}
