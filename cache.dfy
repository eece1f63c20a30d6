/** The cache of lru.go: a key index (`items`) beside a recency-ordered
    list (`order`, front = most recently used), a capacity (`size`) and a
    default TTL (`ttl`), all updated in place.

    The Go list holds `*list.Element` nodes and the index maps a key to its
    node. Here the list is a sequence of entries and the index maps a key
    to the entry the node holds; a node is named by its position in
    `order` (found with `IndexOf`). The current time is the parameter
    `now`. */
module Lru {
  import opened Recency

  /** The handle `Set` returns: it holds only the key, so `Expire` looks the
      entry up again and does nothing once the key is gone. */
  datatype EntryOption<K> = EntryOption(key: K)

  class Cache<K(==), V> {
    var items: map<K, Entry<K, V>>
    var order: seq<Entry<K, V>>
    var size: int
    var ttl: int

    /** The index and the list agree: keys in the list are distinct, the
        index holds exactly those keys, and each maps to its own entry. */
    ghost predicate Consistent()
      reads this
    {
      && Distinct(order)
      && items.Keys == KeysOf(order)
      && (forall e :: e in order ==> e.key in items && items[e.key] == e)
    }

    /** The invariant kept between operations: consistent, positive
        capacity, and never more entries than the capacity. */
    ghost predicate Valid()
      reads this
    {
      Consistent() && 0 < size && |order| <= size
    }

    /** `New(size)`. */
    constructor (capacity: int)
      ensures Valid()
      ensures size == NormalizeCapacity(capacity)
      ensures order == [] && items == map[] && ttl == 0
    {
      size := NormalizeCapacity(capacity);
      items := map[];
      order := [];
      ttl := 0;
    }

    /** `TTL(duration)`: the default lifetime later `Set` calls use. */
    method TTL(duration: int)
      requires Valid()
      modifies this`ttl
      ensures Valid()
      ensures ttl == duration
    {
      ttl := duration;
    }

    /** `Size()`: the number of entries, which is also the number of keys in
        the index and never exceeds the capacity. */
    function Size(): (n: int)
      reads this
      requires Valid()
      ensures n == |order| && n == |items|
      ensures 0 <= n <= Capacity()
    {
      DistinctKeysCount(order);
      |order|
    }

    /** `Capacity()`: always positive, and the list always fits in it. */
    function Capacity(): (c: int)
      reads this
      requires Valid()
      ensures 0 < c && |order| <= c
    {
      size
    }

    // -------------------------------------------------------------------
    // List primitives: removeElement, removeOldest, node update, MoveToFront

    /** `removeElement(e)`: unlink the node at position `i` and drop its key
        from the index. */
    method RemoveElement(i: nat)
      requires Consistent() && i < |order|
      modifies this`order, this`items
      ensures Consistent()
      ensures order == old(order)[..i] + old(order)[i + 1..]
      ensures order == Without(old(order), old(order)[i].key)
    {
      var key := order[i].key;
      WithoutAt(order, i);
      WithoutMembers(order, key);
      WithoutDistinct(order, key);
      order := order[..i] + order[i + 1..];
      items := items - {key};
    }

    /** `removeOldest()`: remove the back node, if any. */
    method RemoveOldest()
      requires Consistent()
      modifies this`order, this`items
      ensures Consistent()
      ensures order == if old(order) == [] then [] else old(order)[..|old(order)| - 1]
    {
      if |order| > 0 {
        RemoveElement(|order| - 1);
      }
    }

    /** `e.Value = entry{...}`: the node at position `i` takes a new entry for
        the same key; the index sees it at once because it names the node. */
    method Replace(i: nat, e: Entry<K, V>)
      requires Consistent() && i < |order| && e.key == order[i].key
      modifies this`order, this`items
      ensures Consistent()
      ensures order == old(order)[i := e]
      ensures items == old(items)[e.key := e]
    {
      ghost var s := order;
      KeysOfUpdate(s, i, e);
      order := order[i := e];
      items := items[e.key := e];
      forall x | x in order ensures x.key in items && items[x.key] == x {
        var j :| 0 <= j < |order| && order[j] == x;
        if j != i {
          assert s[j] in s;
        }
      }
    }

    /** `list.PushFront(e)` followed by `items[key] = e` for a key that is
        not yet present. */
    method PushFront(e: Entry<K, V>)
      requires Consistent() && e.key !in items
      modifies this`order, this`items
      ensures Consistent()
      ensures order == [e] + old(order)
      ensures items == old(items)[e.key := e]
    {
      PushDistinct(e, order);
      order := [e] + order;
      items := items[e.key := e];
    }

    /** `list.MoveToFront(e)` for the node at position `i`. */
    method MoveToFront(i: nat)
      requires Consistent() && i < |order|
      modifies this`order
      ensures Consistent()
      ensures order == [old(order)[i]] + Without(old(order), old(order)[i].key)
      ensures |order| == |old(order)|
    {
      var e := order[i];
      WithoutAt(order, i);
      WithoutMembers(order, e.key);
      WithoutDistinct(order, e.key);
      ghost var w := Without(order, e.key);
      PushDistinct(e, w);
      order := [e] + order[..i] + order[i + 1..];
      assert order == [e] + w;
    }

    // -------------------------------------------------------------------
    // Operations

    /** The update half of `Set`: the node of a present key takes the new
        value and moves to the front; its expiry is renewed unless it was
        set to never expire. */
    method Update(i: nat, value: V, expireAt: Expiry)
      requires Valid() && i < |order|
      modifies this`order, this`items
      ensures Valid()
      ensures order == [Entry(old(order)[i].key, value,
                              if old(order)[i].expireAt != Never then expireAt else Never)]
                       + Without(old(order), old(order)[i].key)
    {
      ghost var s := order;
      var e := Entry(order[i].key, value, if order[i].expireAt != Never then expireAt else Never);
      WithoutUpdate(s, i, e);
      Replace(i, e);
      MoveToFront(i);
    }

    /** The insert half of `Set`: push a new entry to the front and, when
        the list has grown past the capacity, evict the back entry. */
    method Insert(e: Entry<K, V>)
      requires Valid() && e.key !in items
      modifies this`order, this`items
      ensures Valid()
      ensures order == var t := [e] + old(order);
                       if |t| > size then t[..|t| - 1] else t
    {
      PushFront(e);
      if |order| > size {
        RemoveOldest();
      }
    }

    /** `Set(key, value)`: write and promote; for a new key, evict the back
        entry when the list grows past the capacity. */
    method Set(key: K, value: V, now: int) returns (h: EntryOption<K>)
      requires Valid()
      modifies this`order, this`items
      ensures Valid()
      ensures order == AfterSet(old(order), key, value, ttl, size, now)
      ensures h.key == key
    {
      var expireAt := ExpiryAfter(now, ttl);
      if key in items {
        var i := IndexOf(order, key);
        AfterSetPresent(order, i, value, ttl, size, now);
        Update(i, value, expireAt);
      } else {
        AfterSetAbsent(order, key, value, ttl, size, now);
        Insert(Entry(key, value, expireAt));
      }
      h := EntryOption(key);
    }

    /** `entryOption.Expire(duration)` on the handle `h`: if its key is still
        present, set that entry's expiry to `now + duration`, or to never
        for a non-positive duration. */
    method Expire(h: EntryOption<K>, duration: int, now: int)
      requires Valid()
      modifies this`order, this`items
      ensures Valid()
      ensures order == AfterExpire(old(order), h.key, duration, now)
    {
      ghost var s := order;
      if h.key in items {
        var item := items[h.key];
        var expireAt := ExpiryAfter(now, duration);
        var i := IndexOf(order, h.key);
        Replace(i, Entry(item.key, item.value, expireAt));
        assert order == AfterExpire(s, h.key, duration, now) by {
          forall j | 0 <= j < |s| ensures order[j] == AfterExpire(s, h.key, duration, now)[j] {
            if j != i {
              assert s[j].key != s[i].key;
            }
          }
        }
      } else {
        ExpireKeepsOrder(s, h.key, duration, now);
      }
    }

    /** `get(key, updatePos)`: a live entry is returned (and promoted when
        `updatePos`), an expired one is removed and reported absent. */
    method Read(key: K, updatePos: bool, now: int) returns (r: Option<V>)
      requires Valid()
      modifies this`order, this`items
      ensures Valid()
      ensures r == ReadValue(old(order), key, now)
      ensures order == AfterRead(old(order), key, now, updatePos)
    {
      if key in items {
        var item := items[key];
        var i := IndexOf(order, key);
        assert order[i] in order;
        ReadValueAt(order, i, now);
        FindFacts(order, key);
        if Live(item, now) {
          if updatePos {
            MoveToFront(i);
          }
          return Some(item.value);
        }
        RemoveElement(i);
        return None;
      }
      ReadValueMissing(order, key, now);
      return None;
    }

    /** `Get(key)`: the promoting read. */
    method Get(key: K, now: int) returns (r: Option<V>)
      requires Valid()
      modifies this`order, this`items
      ensures Valid()
      ensures r == ReadValue(old(order), key, now)
      ensures order == AfterRead(old(order), key, now, true)
    {
      r := Read(key, true, now);
    }

    /** `Peek(key)`: the read that leaves the order alone, apart from
        removing an expired entry. */
    method Peek(key: K, now: int) returns (r: Option<V>)
      requires Valid()
      modifies this`order, this`items
      ensures Valid()
      ensures r == ReadValue(old(order), key, now)
      ensures order == AfterRead(old(order), key, now, false)
    {
      r := Read(key, false, now);
    }

    /** `Delete(key)`: true exactly when the key was present; afterwards it
        is gone and every other entry keeps its place. */
    method Delete(key: K) returns (found: bool)
      requires Valid()
      modifies this`order, this`items
      ensures Valid()
      ensures found <==> key in KeysOf(old(order))
      ensures order == Without(old(order), key)
    {
      if key in items {
        var i := IndexOf(order, key);
        RemoveElement(i);
        return true;
      }
      WithoutAbsent(order, key);
      return false;
    }

    /** `SetCapacity(n)`: store the normalized capacity, then drop back
        entries until the list fits; the most recently used ones stay. */
    method SetCapacity(n: int)
      requires Valid()
      modifies this`size, this`order, this`items
      ensures Valid()
      ensures size == NormalizeCapacity(n)
      ensures order == if |old(order)| <= size then old(order) else old(order)[..size]
    {
      size := NormalizeCapacity(n);
      while |order| > size
        invariant Consistent() && size == NormalizeCapacity(n)
        invariant |order| <= |old(order)| && order == old(order)[..|order|]
        invariant size <= |order| || order == old(order)
        decreases |order|
      {
        RemoveOldest();
      }
    }

    /** `Keys()`: the live keys, front to back; nothing changes. */
    method Keys(now: int) returns (keys: seq<K>)
      ensures keys == LiveKeys(order, now)
    {
      keys := [];
      var i := 0;
      while i < |order|
        invariant 0 <= i <= |order|
        invariant keys + LiveKeys(order[i..], now) == LiveKeys(order, now)
      {
        assert order[i..][1..] == order[i + 1..];
        if Live(order[i], now) {
          keys := keys + [order[i].key];
        }
        i := i + 1;
      }
    }

    /** `Range(fn)`: call `fn` on the live entries front to back until it
        answers false; the calls made are returned. */
    method Range(fn: (K, V) -> bool, now: int) returns (visited: seq<(K, V)>)
      ensures visited == Visit(order, now, fn)
    {
      visited := [];
      var i := 0;
      while i < |order|
        invariant 0 <= i <= |order|
        invariant visited + Visit(order[i..], now, fn) == Visit(order, now, fn)
      {
        assert order[i..][1..] == order[i + 1..];
        var e := order[i];
        if Live(e, now) {
          visited := visited + [(e.key, e.value)];
          if !fn(e.key, e.value) {
            break;
          }
        }
        i := i + 1;
      }
    }

    /** `Clear()`: drop every entry; the capacity and TTL stay. */
    method Clear()
      requires Valid()
      modifies this`order, this`items
      ensures Valid()
      ensures order == [] && items == map[]
    {
      order := [];
      items := map[];
    }

    /** `Purge()`: walk the list front to back removing every stale entry,
        and return how many were removed. */
    method Purge(now: int) returns (count: int)
      requires Valid()
      modifies this`order, this`items
      ensures Valid()
      ensures order == Purged(old(order), now)
      ensures count == |old(order)| - |order|
      ensures count == |StaleKeys(old(order), now)|
    {
      ghost var orig := order;
      count := 0;
      var i := 0;
      while i < |order|
        invariant Consistent() && |order| <= |orig|
        invariant 0 <= i <= |order|
        invariant order[..i] + Purged(order[i..], now) == Purged(orig, now)
        invariant count == |orig| - |order|
        decreases |order| - i
      {
        PurgeWalkStep(order, i, now);
        if Stale(order[i], now) {
          RemoveElement(i);
          count := count + 1;
        } else {
          i := i + 1;
        }
      }
      PurgeCount(orig, now);
    }
  }
}
