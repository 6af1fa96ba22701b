/**
 * `BufferCache` (src/lib/server/BufferCache.ts): a map from keys to byte
 * buffers whose total byte length is kept at or below `maxSize` by evicting
 * entries oldest-first-insertion first.
 *
 * The source keeps its entries as the own properties of a plain object, so the
 * eviction order is JavaScript's own-property order: string keys in order of
 * first insertion, and re-assigning an existing key does not move it. The
 * model keeps that order explicitly in `order` and the values in `cache`.
 */
module Cache {
  import opened Wrappers

  /** A Node `Buffer`; its `byteLength` is the length of the sequence. */
  type Buffer = seq<bv8>

  /** Names an empty object literal inherits from `Object.prototype`; `key in obj` is true for them. */
  const InheritedNames: set<string> := {
    "constructor", "hasOwnProperty", "isPrototypeOf", "propertyIsEnumerable",
    "toLocaleString", "toString", "valueOf", "__proto__",
    "__defineGetter__", "__defineSetter__", "__lookupGetter__", "__lookupSetter__"
  }

  predicate IsDigit(c: char) { '0' <= c <= '9' }

  /** The number a string of decimal digits denotes. */
  function DigitsValue(k: string): nat
    requires forall i :: 0 <= i < |k| ==> IsDigit(k[i])
  {
    if k == [] then 0
    else
      var last := k[|k| - 1];
      assert IsDigit(last);
      DigitsValue(k[..|k| - 1]) * 10 + (last as int - '0' as int)
  }

  /**
   * An array index: the canonical decimal form of an integer below 2^32 - 1.
   * Own properties with such keys are enumerated first, in numeric order.
   */
  predicate IsArrayIndex(k: string)
  {
    && |k| >= 1
    && (forall i :: 0 <= i < |k| ==> IsDigit(k[i]))
    && (k[0] != '0' || |k| == 1)
    && DigitsValue(k) < 0xFFFF_FFFF
  }

  /**
   * A key for which the object behaves as an insertion-ordered map: it is
   * enumerated in insertion order and is not an inherited property.
   */
  predicate PlainKey(k: string)
  {
    !IsArrayIndex(k) && k !in InheritedNames
  }

  /** Every absolute path (leading `/`) is a plain key. */
  lemma AbsolutePathIsPlainKey(k: string)
    requires |k| > 0 && k[0] == '/'
    ensures PlainKey(k)
  {
    assert !IsDigit(k[0]);
    forall name | name in InheritedNames
      ensures k != name
    {
      assert |name| > 0 && name[0] != '/';
    }
  }

  predicate Distinct(s: seq<string>)
  {
    forall i, j :: 0 <= i < j < |s| ==> s[i] != s[j]
  }

  predicate AllIn(order: seq<string>, cache: map<string, Buffer>)
  {
    forall i :: 0 <= i < |order| ==> order[i] in cache
  }

  /** `order` lists exactly the keys of `cache`, once each. */
  ghost predicate Consistent(order: seq<string>, cache: map<string, Buffer>)
  {
    && Distinct(order)
    && AllIn(order, cache)
    && (forall k :: k in cache ==> k in order)
  }

  /** Deleting the first key of a consistent cache leaves the rest of the order. */
  lemma ConsistentDropFirst(order: seq<string>, cache: map<string, Buffer>)
    requires Consistent(order, cache) && order != []
    ensures Remove(order, order[0]) == order[1..]
    ensures Consistent(order[1..], cache - {order[0]})
  {
    var rest := order[1..];
    assert forall i :: 0 <= i < |rest| ==> rest[i] == order[i + 1];
    forall k
      ensures k in cache - {order[0]} <==> k in rest
    {
      if k in rest {
        var i :| 0 <= i < |rest| && rest[i] == k;
        assert order[i + 1] == k;
      }
    }
  }

  /** Storing under a key keeps a cache consistent. */
  lemma ConsistentInsert(order: seq<string>, cache: map<string, Buffer>, key: string, value: Buffer)
    requires Consistent(order, cache)
    ensures Consistent(Inserted(order, key), cache[key := value])
  {
    var o := Inserted(order, key);
    assert forall i :: 0 <= i < |order| ==> o[i] == order[i];
    if key !in order {
      assert o[|order|] == key;
    }
  }

  /** Deleting any key keeps a cache consistent. */
  lemma ConsistentRemove(order: seq<string>, cache: map<string, Buffer>, key: string)
    requires Consistent(order, cache)
    ensures Consistent(Remove(order, key), cache - {key})
  {
    var r := Remove(order, key);
    assert forall i :: 0 <= i < |r| ==> r[i] in order;
  }

  /** The total `byteLength` of the buffers stored under the keys of `order`; it covers the oldest buffer. */
  function TotalSize(order: seq<string>, cache: map<string, Buffer>): (r: nat)
    requires AllIn(order, cache)
    ensures order != [] ==> |cache[order[0]]| <= r
  {
    if order == [] then 0 else |cache[order[0]]| + TotalSize(order[1..], cache)
  }

  /** The key order after `cache[key] = value`: a new key goes last, an existing key keeps its place. */
  function Inserted(order: seq<string>, key: string): (r: seq<string>)
    ensures order <= r && key in r
    ensures forall y :: y in r ==> y in order || y == key
    ensures Distinct(order) ==> Distinct(r)
  {
    if key in order then order else order + [key]
  }

  /** The key order after `delete cache[key]`. */
  function Remove(s: seq<string>, x: string): (r: seq<string>)
    ensures x !in r
    ensures forall y :: y != x ==> (y in r <==> y in s)
    ensures x !in s ==> r == s
    ensures Distinct(s) ==> Distinct(r)
    ensures Distinct(s) && s != [] && s[0] == x ==> r == s[1..]
  {
    if s == [] then []
    else if s[0] == x then Remove(s[1..], x)
    else
      var rest := Remove(s[1..], x);
      assert forall i :: 0 <= i < |rest| ==> rest[i] in s[1..];
      [s[0]] + rest
  }

  /**
   * The keys `trim` keeps: it drops keys from the front of the snapshot until
   * the remaining total is at most `maxSize` or nothing is left.
   */
  function Survivors(order: seq<string>, cache: map<string, Buffer>, maxSize: int): (r: seq<string>)
    requires AllIn(order, cache)
    ensures |r| <= |order| && r == order[|order| - |r|..]
    ensures TotalSize(order, cache) <= maxSize ==> r == order
    ensures r != [] ==> TotalSize(r, cache) <= maxSize
    ensures maxSize >= 0 ==> TotalSize(r, cache) <= maxSize
    decreases |order|
  {
    if order == [] || TotalSize(order, cache) <= maxSize then order
    else Survivors(order[1..], cache, maxSize)
  }

  /** `trim` stops at the first point where the total fits: every longer suffix is over the limit. */
  lemma {:induction false} SurvivorsMinimal(order: seq<string>, cache: map<string, Buffer>, maxSize: int, n: nat)
    requires AllIn(order, cache)
    requires n < |order| - |Survivors(order, cache, maxSize)|
    ensures TotalSize(order[n..], cache) > maxSize
    decreases |order|
  {
    if n > 0 {
      SurvivorsMinimal(order[1..], cache, maxSize, n - 1);
      assert order[n..] == order[1..][n - 1..];
    }
  }

  /** Every entry of `cache` was in `older` with the same buffer. */
  ghost predicate Retains(cache: map<string, Buffer>, older: map<string, Buffer>)
  {
    forall k :: k in cache ==> k in older && cache[k] == older[k]
  }

  /** Deleting a key keeps every remaining entry as it was. */
  lemma RetainsRemove(cache: map<string, Buffer>, k: string, older: map<string, Buffer>)
    requires Retains(cache, older)
    ensures Retains(cache - {k}, older)
  {
  }

  /** A trim that keeps every key keeps the whole cache. */
  lemma NothingEvicted(order: seq<string>, cache: map<string, Buffer>, older: map<string, Buffer>)
    requires Consistent(order, cache) && Consistent(order, older) && Retains(cache, older)
    ensures cache == older
  {
    assert forall k :: k in older ==> k in cache;
  }

  /** One iteration of `trim`'s loop: delete the first key of the snapshot. */
  lemma TrimStep(keys: seq<string>, cache: map<string, Buffer>, older: map<string, Buffer>, maxSize: int)
    requires Consistent(keys, cache) && keys != []
    requires AllIn(keys, older) && Retains(cache, older)
    requires TotalSize(keys, older) > maxSize
    ensures Remove(keys, keys[0]) == keys[1..]
    ensures Consistent(keys[1..], cache - {keys[0]})
    ensures AllIn(keys[1..], older) && Retains(cache - {keys[0]}, older)
    ensures Survivors(keys, older, maxSize) == Survivors(keys[1..], older, maxSize)
    ensures TotalSize(keys[1..], older) == TotalSize(keys, older) - |cache[keys[0]]|
  {
    ConsistentDropFirst(keys, cache);
    assert keys[0] in cache;
  }

  /** When `trim`'s loop stops, the keys left are the survivors and fit the limit. */
  lemma TrimExit(keys: seq<string>, cache: map<string, Buffer>, before: seq<string>, older: map<string, Buffer>, maxSize: int)
    requires AllIn(keys, cache) && AllIn(keys, older) && Retains(cache, older) && AllIn(before, older)
    requires Survivors(before, older, maxSize) == Survivors(keys, older, maxSize)
    requires TotalSize(keys, older) <= maxSize || keys == []
    ensures keys == Survivors(before, older, maxSize)
    ensures maxSize >= 0 ==> TotalSize(keys, cache) <= maxSize
  {
    TotalSizeFrame(keys, cache, older);
  }

  /** The total only depends on the buffers stored under the listed keys. */
  lemma {:induction false} TotalSizeFrame(order: seq<string>, c1: map<string, Buffer>, c2: map<string, Buffer>)
    requires AllIn(order, c1) && AllIn(order, c2)
    requires forall i :: 0 <= i < |order| ==> c1[order[i]] == c2[order[i]]
    ensures TotalSize(order, c1) == TotalSize(order, c2)
    decreases |order|
  {
    if order != [] {
      TotalSizeFrame(order[1..], c1, c2);
    }
  }

  /** Appending a key adds its buffer's length. */
  lemma {:induction false} TotalSizeAppend(order: seq<string>, k: string, cache: map<string, Buffer>)
    requires AllIn(order, cache) && k in cache
    ensures TotalSize(order + [k], cache) == TotalSize(order, cache) + |cache[k]|
    decreases |order|
  {
    if order == [] {
      assert [] + [k] == [k];
    } else {
      TotalSizeAppend(order[1..], k, cache);
      assert (order + [k])[1..] == order[1..] + [k];
    }
  }

  /** A stored buffer is never longer than the total of an order that lists it. */
  lemma {:induction false} BufferWithinTotal(order: seq<string>, cache: map<string, Buffer>, k: string)
    requires AllIn(order, cache) && k in order
    ensures |cache[k]| <= TotalSize(order, cache)
    decreases |order|
  {
    if order[0] != k {
      BufferWithinTotal(order[1..], cache, k);
    }
  }

  /** Deleting a key from a duplicate-free order subtracts its buffer's length. */
  lemma {:induction false} TotalSizeRemove(order: seq<string>, cache: map<string, Buffer>, x: string)
    requires AllIn(order, cache) && Distinct(order)
    ensures AllIn(Remove(order, x), cache - {x})
    ensures TotalSize(Remove(order, x), cache - {x}) == TotalSize(order, cache) - (if x in order then |cache[x]| else 0)
    decreases |order|
  {
    if order != [] {
      TotalSizeRemove(order[1..], cache, x);
      if order[0] == x {
        assert x !in order[1..];
        assert Remove(order[1..], x) == order[1..];
        TotalSizeFrame(order[1..], cache, cache - {x});
      }
    }
  }

  /** A buffer longer than `maxSize` is never among the survivors of a trim. */
  lemma OversizedNeverSurvives(order: seq<string>, cache: map<string, Buffer>, maxSize: int, k: string)
    requires AllIn(order, cache)
    requires k in Survivors(order, cache, maxSize)
    ensures |cache[k]| <= maxSize
  {
    var r := Survivors(order, cache, maxSize);
    assert AllIn(r, cache) by {
      forall i | 0 <= i < |r| ensures r[i] in cache {
        assert r[i] == order[|order| - |r| + i];
      }
    }
    BufferWithinTotal(r, cache, k);
  }

  /** When the total is over the limit, the first-inserted key is evicted. */
  lemma OldestEvictedFirst(order: seq<string>, cache: map<string, Buffer>, maxSize: int)
    requires AllIn(order, cache) && Distinct(order)
    requires TotalSize(order, cache) > maxSize
    ensures order != [] ==> order[0] !in Survivors(order, cache, maxSize)
  {
  }

  /** The last-inserted key survives whenever its own buffer fits. */
  lemma NewestSurvives(order: seq<string>, cache: map<string, Buffer>, maxSize: int)
    requires AllIn(order, cache) && order != []
    requires |cache[order[|order| - 1]]| <= maxSize
    ensures order[|order| - 1] in Survivors(order, cache, maxSize)
  {
    var r := Survivors(order, cache, maxSize);
    var last := |order| - 1;
    var newest := order[last..];
    assert newest == [order[last]];
    assert TotalSize(newest, cache) == |cache[order[last]]| by {
      assert newest[1..] == [];
    }
    if |r| == 0 {
      SurvivorsMinimal(order, cache, maxSize, last);
      assert false;
    }
    assert r[|r| - 1] == order[last];
  }

  class BufferCache {
    /** The own-property order of the cache object. */
    var order: seq<string>
    /** The cache object's own properties. */
    var cache: map<string, Buffer>
    const maxSize: int

    /** `order` lists exactly the stored keys, once each. */
    ghost predicate WellFormed()
      reads this
    {
      Consistent(order, cache)
    }

    /** The state every public operation leaves: within the byte limit. */
    ghost predicate Valid()
      reads this
    {
      && WellFormed()
      && (maxSize >= 0 ==> TotalSize(order, cache) <= maxSize)
    }

    constructor (maxSize: int)
      ensures Valid()
      ensures this.maxSize == maxSize && order == [] && cache == map[]
    {
      this.maxSize := maxSize;
      order := [];
      cache := map[];
    }

    /** `get`: null exactly when the key is not stored, else the stored buffer. */
    method Get(key: string) returns (r: Option<Buffer>)
      requires key !in InheritedNames
      ensures r.None? <==> key !in cache
      ensures r.Some? ==> r.value == cache[key]
    {
      if key !in cache {
        return None;
      }
      return Some(cache[key]);
    }

    /** `set`: store the value (a new key goes last), then trim. */
    method Set(key: string, value: Buffer)
      requires Valid()
      requires PlainKey(key)
      modifies this
      ensures Valid()
      ensures order == Survivors(Inserted(old(order), key), old(cache)[key := value], maxSize)
      ensures Retains(cache, old(cache)[key := value])
      ensures key in cache ==> cache[key] == value
      ensures order == Inserted(old(order), key) ==> cache == old(cache)[key := value]
    {
      ConsistentInsert(order, cache, key, value);
      cache := cache[key := value];
      order := Inserted(order, key);
      ghost var stored := cache;
      Trim();
      if order == Inserted(old(order), key) {
        NothingEvicted(order, cache, stored);
      }
    }

    /** `delete`: remove the key if present; other entries are untouched. */
    method Delete(key: string)
      requires Valid()
      modifies this
      ensures Valid()
      ensures order == Remove(old(order), key)
      ensures cache == old(cache) - {key}
    {
      TotalSizeRemove(order, cache, key);
      ConsistentRemove(order, cache, key);
      cache := cache - {key};
      order := Remove(order, key);
    }

    /**
     * `trim`: snapshot the keys and the total, then delete keys from the
     * front of the snapshot while the total exceeds `maxSize`.
     */
    method Trim()
      requires WellFormed()
      modifies this
      ensures Valid()
      ensures order == Survivors(old(order), old(cache), maxSize)
      ensures Retains(cache, old(cache))
    {
      var keys := order;
      var size: int := TotalSize(order, cache);
      while size > maxSize
        invariant WellFormed()
        invariant order == keys
        invariant AllIn(keys, old(cache))
        invariant Survivors(old(order), old(cache), maxSize) == Survivors(keys, old(cache), maxSize)
        invariant size == TotalSize(keys, old(cache))
        invariant Retains(cache, old(cache))
        decreases |keys|
      {
        if keys == [] {
          break;
        }
        TrimStep(keys, cache, old(cache), maxSize);
        var key := keys[0];
        keys := keys[1..];
        size := size - |cache[key]|;
        cache := cache - {key};
        order := Remove(order, key);
      }
      TrimExit(keys, cache, old(order), old(cache), maxSize);
    }
  }
}
