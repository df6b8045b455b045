/** The least-recently-used cache `LRU` of src/salamander/utils.py. The
    Python class keeps a `dict`, whose insertion order is the recency order;
    here that order is the sequence `keys` (oldest first) and the contents
    are the map `values`. */
module Lru {
  import opened Wrappers

  /** `dict.pop(key)` on a missing key. */
  datatype LookupError = KeyError

  predicate Unique<K(==,!new)>(s: seq<K>) {
    forall i, j :: 0 <= i < j < |s| ==> s[i] != s[j]
  }

  /** The order left after `dict.pop(x)`: `x` taken out, the rest as it was. */
  function Without<K(==,!new)>(s: seq<K>, x: K): (r: seq<K>)
    ensures x !in r && |r| <= |s|
    ensures forall y :: y in r <==> y in s && y != x
  {
    if s == [] then []
    else if s[0] == x then Without(s[1..], x)
    else [s[0]] + Without(s[1..], x)
  }

  /** The order after `d[x] = d.pop(x)`: `x` becomes the most recent. */
  function MoveToEnd<K(==,!new)>(s: seq<K>, x: K): (r: seq<K>)
    requires x in s
    ensures r != [] && r[|r| - 1] == x
    ensures forall y :: y in r <==> y in s
  {
    Without(s, x) + [x]
  }

  /** Taking out a key keeps the others distinct, and shortens a list that
      holds the key by exactly one. */
  lemma {:induction false} WithoutUnique<K(!new)>(s: seq<K>, x: K)
    requires Unique(s)
    ensures Unique(Without(s, x))
    ensures |Without(s, x)| == if x in s then |s| - 1 else |s|
  {
    if s != [] {
      assert Unique(s[1..]);
      WithoutUnique(s[1..], x);
      assert x in s <==> x == s[0] || x in s[1..];
      if s[0] == x {
        assert x !in s[1..];
      } else {
        assert s[0] !in Without(s[1..], x);
        var r := [s[0]] + Without(s[1..], x);
        forall i, j | 0 <= i < j < |r| ensures r[i] != r[j] {
          if i > 0 {
            assert r[i] == Without(s[1..], x)[i - 1] && r[j] == Without(s[1..], x)[j - 1];
          } else {
            assert r[j] in Without(s[1..], x);
          }
        }
      }
    }
  }

  /** Taking out a key that is not there changes nothing, so `remove` is
      idempotent. */
  lemma {:induction false} WithoutAbsent<K(!new)>(s: seq<K>, x: K)
    requires x !in s
    ensures Without(s, x) == s
  {
    if s != [] {
      assert x !in s[1..];
      WithoutAbsent(s[1..], x);
      assert s == [s[0]] + s[1..];
    }
  }

  /** Moving a key to the end keeps the other keys in their order and
      keeps the keys distinct. */
  lemma MoveToEndOrder<K(!new)>(s: seq<K>, x: K)
    requires x in s && Unique(s)
    ensures Without(MoveToEnd(s, x), x) == Without(s, x)
    ensures Unique(MoveToEnd(s, x)) && |MoveToEnd(s, x)| == |s|
  {
    var w := Without(s, x);
    WithoutUnique(s, x);
    WithoutAppend(w, x);
    var r := w + [x];
    forall i, j | 0 <= i < j < |r| ensures r[i] != r[j] {
      if j < |w| {
        assert r[i] == w[i] && r[j] == w[j];
      } else {
        assert r[i] in w;
      }
    }
  }

  /** Taking the key out of a list that ends with it leaves the front. */
  lemma {:induction false} WithoutAppend<K(!new)>(w: seq<K>, x: K)
    requires x !in w
    ensures Without(w + [x], x) == w
  {
    if w == [] {
      assert [x][1..] == [];
    } else {
      assert (w + [x])[1..] == w[1..] + [x];
      assert x !in w[1..];
      WithoutAppend(w[1..], x);
      assert w == [w[0]] + w[1..];
    }
  }

  class LRU<K(==,!new), V> {
    /** The keys, least recently used first. */
    var keys: seq<K>
    var values: map<K, V>
    var maxsize: int

    /** Each key once, the same keys in both fields, and never more than
        `maxsize` entries (none when `maxsize` is not positive). */
    ghost predicate Valid()
      reads this
    {
      Unique(keys) && (forall k :: k in values <==> k in keys)
      && |keys| <= (if maxsize < 0 then 0 else maxsize)
    }

    /** `LRU(maxsize)` */
    constructor(maxsize: int)
      ensures Valid()
      ensures keys == [] && values == map[] && this.maxsize == maxsize
    {
      keys := [];
      values := map[];
      this.maxsize := maxsize;
    }

    /** `get(key, default)`: the value, now the most recent entry, or
        `default` with nothing changed. */
    method Get(key: K, default: V) returns (r: V)
      requires Valid()
      modifies this
      ensures Valid() && values == old(values) && maxsize == old(maxsize)
      ensures key in old(values) ==> r == old(values)[key] && keys == MoveToEnd(old(keys), key)
      ensures key !in old(values) ==> r == default && keys == old(keys)
    {
      if key !in values {
        return default;
      }
      MoveToEndOrder(keys, key);
      keys := MoveToEnd(keys, key);
      r := values[key];
    }

    /** `self[key]`: like `get`, but a missing key raises `KeyError` from
        the `pop`, before anything changes. */
    method GetItem(key: K) returns (r: Result<V, LookupError>)
      requires Valid()
      modifies this
      ensures Valid() && values == old(values) && maxsize == old(maxsize)
      ensures key in old(values) ==> r == Success(old(values)[key]) && keys == MoveToEnd(old(keys), key)
      ensures key !in old(values) ==> r == Failure(KeyError) && keys == old(keys)
    {
      if key !in values {
        return Failure(KeyError);
      }
      MoveToEndOrder(keys, key);
      keys := MoveToEnd(keys, key);
      r := Success(values[key]);
    }

    /** `self[key] = value`: a new key goes last, an existing key keeps its
        place; then, over capacity, the oldest entry is dropped. */
    method SetItem(key: K, value: V)
      requires Valid()
      modifies this
      ensures Valid() && maxsize == old(maxsize)
      ensures var order := if key in old(keys) then old(keys) else old(keys) + [key];
        var contents := old(values)[key := value];
        if |order| > maxsize then keys == order[1..] && values == contents - {order[0]}
        else keys == order && values == contents
      ensures maxsize >= 1 ==> key in values && values[key] == value
    {
      var order := keys;
      if key !in keys {
        order := keys + [key];
        forall i, j | 0 <= i < j < |order| ensures order[i] != order[j] {
          if j == |keys| {
            assert order[i] in keys;
          }
        }
      }
      keys := order;
      values := values[key := value];
      if |keys| > maxsize {
        var oldest := keys[0];
        forall k ensures k in keys[1..] <==> k in keys && k != oldest {
          if k in keys && k != oldest {
            var i :| 0 <= i < |keys| && keys[i] == k;
            assert keys[1..][i - 1] == k;
          }
        }
        keys := keys[1..];
        values := values - {oldest};
      }
    }

    /** `remove(key)`: drops the entry if there is one. */
    method Remove(key: K)
      requires Valid()
      modifies this
      ensures Valid() && maxsize == old(maxsize)
      ensures keys == Without(old(keys), key) && values == old(values) - {key}
    {
      WithoutUnique(keys, key);
      keys := Without(keys, key);
      values := values - {key};
    }
  }

  /** A second `remove` of the same key changes nothing. */
  lemma RemoveIdempotent<K(!new)>(s: seq<K>, x: K)
    ensures Without(Without(s, x), x) == Without(s, x)
  {
    WithoutAbsent(Without(s, x), x);
  }
}
