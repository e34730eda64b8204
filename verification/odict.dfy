/** Python's insertion-ordered `dict`: the keys in insertion order next to
    the key-to-value map. Assigning to an existing key keeps its position;
    `del` of a missing key raises `KeyError`. */
module OrderedMaps {
  import opened Wrappers

  datatype ODict<V> = ODict(keys: seq<string>, entries: map<string, V>)

  /** No key is listed twice. */
  predicate Distinct(xs: seq<string>) {
    forall i, j :: 0 <= i < j < |xs| ==> xs[i] != xs[j]
  }

  /** The keys are listed once each, and exactly the map's keys are listed. */
  ghost predicate Valid<V>(d: ODict<V>) {
    && Distinct(d.keys)
    && (forall k :: k in d.entries <==> k in d.keys)
  }

  function Empty<V>(): (d: ODict<V>)
    ensures Valid(d) && |d.keys| == 0
  {
    ODict([], map[])
  }

  /** `d[k] = v`. */
  function Put<V>(d: ODict<V>, k: string, v: V): ODict<V> {
    ODict(if k in d.entries then d.keys else d.keys + [k], d.entries[k := v])
  }

  datatype DictError = KeyError

  /** `del d[k]`. */
  function Remove<V>(d: ODict<V>, k: string): Result<ODict<V>, DictError> {
    if k !in d.entries then Failure(KeyError)
    else Success(ODict(Erase(d.keys, k), d.entries - {k}))
  }

  /** The list with every occurrence of `k` taken out. */
  function Erase(xs: seq<string>, k: string): (r: seq<string>)
    ensures forall x :: x in r <==> x in xs && x != k
    ensures |r| <= |xs|
    decreases |xs|
  {
    if |xs| == 0 then []
    else if xs[0] == k then Erase(xs[1..], k)
    else [xs[0]] + Erase(xs[1..], k)
  }

  /** `{k: v}` followed by `.update(d)`: `k` comes first, then `d`'s keys in
      their order; a value of `d` under `k` would win. */
  function WithFirst<V>(d: ODict<V>, k: string, v: V): ODict<V> {
    ODict([k] + Erase(d.keys, k), map[k := v] + d.entries)
  }

  /** `list(d.keys())[-1]`, which raises on an empty dict. */
  function LastKey<V>(d: ODict<V>): Option<string> {
    if |d.keys| == 0 then None else Some(d.keys[|d.keys| - 1])
  }

  // ---------------------------------------------------------------------
  // Properties
  // ---------------------------------------------------------------------

  /** After `d[k] = v`, `k` holds `v`, every other key keeps its value, the
      old keys keep their positions, and a new key goes last. */
  lemma PutSpec<V>(d: ODict<V>, k: string, v: V)
    requires Valid(d)
    ensures var r := Put(d, k, v);
      && Valid(r)
      && k in r.entries && r.entries[k] == v
      && (forall x :: x != k ==> (x in r.entries <==> x in d.entries))
      && (forall x :: x != k && x in d.entries ==> r.entries[x] == d.entries[x])
      && r.keys[..|d.keys|] == d.keys
      && (k in d.entries ==> |r.keys| == |d.keys|)
      && (k !in d.entries ==> r.keys == d.keys + [k])
  {
    var r := Put(d, k, v);
    assert r.keys[..|d.keys|] == d.keys;
    if k !in d.entries {
      forall i, j | 0 <= i < j < |r.keys|
        ensures r.keys[i] != r.keys[j]
      {
        if j == |d.keys| {
          assert r.keys[i] == d.keys[i];
        }
      }
    }
  }

  lemma {:induction false} EraseDistinct(xs: seq<string>, k: string)
    requires Distinct(xs)
    ensures Distinct(Erase(xs, k))
    decreases |xs|
  {
    if |xs| > 0 {
      EraseDistinct(xs[1..], k);
      var rest := Erase(xs[1..], k);
      if xs[0] != k {
        forall j | 0 <= j < |xs| - 1
          ensures xs[1..][j] != xs[0]
        {
          assert xs[1..][j] == xs[j + 1];
        }
        assert xs[0] !in rest;
        var r := [xs[0]] + rest;
        assert Erase(xs, k) == r;
        forall i, j | 0 <= i < j < |r|
          ensures r[i] != r[j]
        {
          if i == 0 {
            assert r[0] == xs[0] && r[j] == rest[j - 1] && rest[j - 1] in rest;
          } else {
            assert r[i] == rest[i - 1] && r[j] == rest[j - 1];
            assert rest[i - 1] != rest[j - 1];
          }
        }
      }
    }
  }

  /** `del d[k]` fails exactly when `k` is missing; otherwise `k` is gone
      from its place in the order and everything else is as it was. */
  lemma RemoveSpec<V>(d: ODict<V>, k: string)
    requires Valid(d)
    ensures Remove(d, k).Failure? <==> k !in d.entries
    ensures Remove(d, k).Success? ==>
      var r := Remove(d, k).value;
      && Valid(r)
      && k !in r.entries
      && (forall x :: x != k ==> (x in r.entries <==> x in d.entries))
      && (forall x :: x != k && x in d.entries ==> r.entries[x] == d.entries[x])
      && |r.keys| == |d.keys| - 1
      && (exists i :: 0 <= i < |d.keys| && d.keys[i] == k && r.keys == d.keys[..i] + d.keys[i + 1..])
  {
    if k in d.entries {
      EraseDistinct(d.keys, k);
      EraseOne(d.keys, k);
      var i :| 0 <= i < |d.keys| && d.keys[i] == k;
      EraseAt(d.keys, k, i);
    }
  }

  /** In a list without repeats, erasing `k` cuts it out at its place. */
  lemma {:induction false} EraseAt(xs: seq<string>, k: string, i: nat)
    requires Distinct(xs)
    requires i < |xs| && xs[i] == k
    ensures Erase(xs, k) == xs[..i] + xs[i + 1..]
    decreases i
  {
    if i == 0 {
      assert k !in xs[1..] by {
        forall j | 0 <= j < |xs| - 1
          ensures xs[1..][j] != k
        {
          assert xs[j + 1] != xs[0];
        }
      }
      EraseAbsent(xs[1..], k);
    } else {
      assert xs[0] != k by { assert xs[0] != xs[i]; }
      assert Distinct(xs[1..]) by {
        forall a, b | 0 <= a < b < |xs| - 1
          ensures xs[1..][a] != xs[1..][b]
        {
          assert xs[a + 1] != xs[b + 1];
        }
      }
      EraseAt(xs[1..], k, i - 1);
      assert xs[..i] == [xs[0]] + xs[1..][..i - 1];
      assert xs[i + 1..] == xs[1..][i..];
    }
  }

  /** Erasing a key listed exactly once shortens the list by one. */
  lemma {:induction false} EraseOne(xs: seq<string>, k: string)
    requires Distinct(xs)
    requires k in xs
    ensures |Erase(xs, k)| == |xs| - 1
    decreases |xs|
  {
    if xs[0] == k {
      assert k !in xs[1..];
      EraseAbsent(xs[1..], k);
    } else {
      EraseOne(xs[1..], k);
    }
  }

  lemma {:induction false} EraseAbsent(xs: seq<string>, k: string)
    requires k !in xs
    ensures Erase(xs, k) == xs
    decreases |xs|
  {
    if |xs| > 0 {
      EraseAbsent(xs[1..], k);
      assert [xs[0]] + xs[1..] == xs;
    }
  }

  /** Putting a new key and deleting it again gives back the dict. */
  lemma RemoveUndoesPut<V>(d: ODict<V>, k: string, v: V)
    requires Valid(d) && k !in d.entries
    ensures Remove(Put(d, k, v), k) == Success(d)
  {
    EraseAppendLast(d.keys, k);
    assert d.entries[k := v] - {k} == d.entries;
  }

  lemma {:induction false} EraseAppendLast(xs: seq<string>, k: string)
    requires k !in xs
    ensures Erase(xs + [k], k) == xs
    decreases |xs|
  {
    if |xs| == 0 {
      assert Erase([k], k) == Erase([k][1..], k);
    } else {
      assert (xs + [k])[1..] == xs[1..] + [k];
      EraseAppendLast(xs[1..], k);
      assert [xs[0]] + xs[1..] == xs;
    }
  }

  /** The inserted key comes first and the rest keep their relative order
      and values; a dict that did not hold the key is extended by it. */
  lemma WithFirstSpec<V>(d: ODict<V>, k: string, v: V)
    requires Valid(d) && k !in d.entries
    ensures var r := WithFirst(d, k, v);
      && Valid(r)
      && r.keys == [k] + d.keys
      && r.entries == d.entries[k := v]
  {
    EraseAbsent(d.keys, k);
    var r := WithFirst(d, k, v);
    assert r.keys == [k] + d.keys;
    DistinctCons(k, d.keys);
    assert r.entries == d.entries[k := v];
  }

  lemma DistinctCons(k: string, xs: seq<string>)
    requires Distinct(xs) && k !in xs
    ensures Distinct([k] + xs)
  {
    var ys := [k] + xs;
    forall i, j | 0 <= i < j < |ys|
      ensures ys[i] != ys[j]
    {
      assert ys[j] == xs[j - 1];
      if i > 0 {
        assert ys[i] == xs[i - 1];
      }
    }
  }

  /** The last key of a non-empty dict is the one put there last, when it
      was new. */
  lemma LastKeyAfterPut<V>(d: ODict<V>, k: string, v: V)
    requires k !in d.entries
    ensures LastKey(Put(d, k, v)) == Some(k)
    ensures LastKey(Empty<V>()) == None
  {
  }
}
