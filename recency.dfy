/** The values held by the cache and the effect of each cache operation on
    its recency order.

    A recency order is a `seq<Entry<K, V>>` whose index 0 is the most
    recently used entry (the front of the Go `container/list`) and whose last
    element is the least recently used one (the back). Every function here
    states what one operation of `Cache` in lru.go does to that sequence;
    the class in module Lru is proved to do exactly that, and the lemmas
    below say what the source promises about each operation. */
module Recency {

  /** Capacity used when a caller asks for a non-positive one. */
  const DefaultCacheSize: int := 10

  datatype Option<T> = None | Some(value: T)

  /** An absolute expiry instant; `Never` is Go's zero `time.Time`. */
  datatype Expiry = Never | At(t: int)

  datatype Entry<K, V> = Entry(key: K, value: V, expireAt: Expiry)

  /** The test of `get`, `Keys` and `Range`: the entry never expires, or
      `now` is strictly before its instant (`now.Before(expireAt)`). */
  predicate Live<K, V>(e: Entry<K, V>, now: int)
  {
    match e.expireAt
    case Never => true
    case At(t) => now < t
  }

  /** The test of `Purge`: the entry has an instant and `now` is strictly
      after it (`now.After(expireAt)`). */
  predicate Stale<K, V>(e: Entry<K, V>, now: int)
  {
    match e.expireAt
    case Never => false
    case At(t) => now > t
  }

  /** The capacity `New` and `SetCapacity` store for a requested one. */
  function NormalizeCapacity(n: int): (c: int)
    ensures c > 0
    ensures n > 0 ==> c == n
    ensures n <= 0 ==> c == DefaultCacheSize
  {
    if n <= 0 then DefaultCacheSize else n
  }

  /** The instant that a duration `d` taken at `now` gives, as `Set` computes
      it from the default TTL and `Expire` from its argument: none for a
      non-positive duration, otherwise one that is still in the future. */
  function ExpiryAfter(now: int, d: int): (x: Expiry)
    ensures x == Never <==> d <= 0
    ensures x.At? ==> x.t == now + d && now < x.t
  {
    if d > 0 then At(now + d) else Never
  }

  ghost function KeysOf<K, V>(s: seq<Entry<K, V>>): set<K>
  {
    set e | e in s :: e.key
  }

  /** No key occurs twice in the order. */
  ghost predicate Distinct<K, V>(s: seq<Entry<K, V>>)
  {
    forall i, j :: 0 <= i < j < |s| ==> s[i].key != s[j].key
  }

  /** The order with the entry for `k` taken out; every other entry keeps its
      place relative to the others. */
  ghost function Without<K, V>(s: seq<Entry<K, V>>, k: K): seq<Entry<K, V>>
  {
    if s == [] then []
    else if s[0].key == k then Without(s[1..], k)
    else [s[0]] + Without(s[1..], k)
  }

  /** The entry for `k`, first from the front. */
  ghost function Find<K, V>(s: seq<Entry<K, V>>, k: K): Option<Entry<K, V>>
  {
    if s == [] then None
    else if s[0].key == k then Some(s[0])
    else Find(s[1..], k)
  }

  /** The position of the entry for `k`; it stands for the list element that
      the Go index map hands back for a key. */
  function IndexOf<K(==), V>(s: seq<Entry<K, V>>, k: K): (i: nat)
    requires k in KeysOf(s)
    ensures i < |s| && s[i].key == k
    ensures forall j :: 0 <= j < i ==> s[j].key != k
    ensures Distinct(s) ==> forall j :: 0 <= j < |s| && j != i ==> s[j].key != k
  {
    assert s == [s[0]] + s[1..];
    if s[0].key == k then 0 else 1 + IndexOf(s[1..], k)
  }

  // ---------------------------------------------------------------------
  // Reads: Get (promote) and Peek (no promote), both through `get`.

  /** What `Get` and `Peek` return: the value when the entry is present and
      live, nothing when it is absent or has expired. */
  ghost function ReadValue<K, V>(s: seq<Entry<K, V>>, k: K, now: int): Option<V>
  {
    match Find(s, k)
    case None => None
    case Some(e) => if Live(e, now) then Some(e.value) else None
  }

  /** The order after `get(k, promote)`: a live entry moves to the front
      when `promote` holds, an expired one is removed. */
  ghost function AfterRead<K, V>(s: seq<Entry<K, V>>, k: K, now: int, promote: bool): seq<Entry<K, V>>
  {
    match Find(s, k)
    case None => s
    case Some(e) =>
      if !Live(e, now) then Without(s, k)
      else if promote then [e] + Without(s, k)
      else s
  }

  // ---------------------------------------------------------------------
  // Writes: Set, Expire.

  /** The order after `Set(k, v)` with default TTL `ttl` and capacity `cap`.
      An existing entry takes the new value, a renewed expiry only if it had
      one, and moves to the front; a new entry goes to the front, and if the
      order is then longer than `cap` its back entry is dropped. */
  ghost function AfterSet<K, V>(s: seq<Entry<K, V>>, k: K, v: V, ttl: int, cap: int, now: int): seq<Entry<K, V>>
  {
    var computed := ExpiryAfter(now, ttl);
    match Find(s, k)
    case Some(e) =>
      [Entry(k, v, if e.expireAt == Never then Never else computed)] + Without(s, k)
    case None =>
      var t := [Entry(k, v, computed)] + s;
      if |t| > cap then t[..|t| - 1] else t
  }

  /** The order after `Expire(d)` on the handle for `k`. */
  ghost function AfterExpire<K, V>(s: seq<Entry<K, V>>, k: K, d: int, now: int): seq<Entry<K, V>>
  {
    seq(|s|, i requires 0 <= i < |s| =>
      if s[i].key == k then s[i].(expireAt := ExpiryAfter(now, d)) else s[i])
  }

  // ---------------------------------------------------------------------
  // Sweeping and enumeration: Purge, Keys, Range.

  /** The order after `Purge(now)`: the stale entries are gone. */
  ghost function Purged<K, V>(s: seq<Entry<K, V>>, now: int): seq<Entry<K, V>>
  {
    if s == [] then []
    else if Stale(s[0], now) then Purged(s[1..], now)
    else [s[0]] + Purged(s[1..], now)
  }

  ghost function StaleKeys<K, V>(s: seq<Entry<K, V>>, now: int): set<K>
  {
    set e | e in s && Stale(e, now) :: e.key
  }

  /** What `Keys(now)` returns: the keys of the live entries, front to back. */
  ghost function LiveKeys<K, V>(s: seq<Entry<K, V>>, now: int): seq<K>
  {
    if s == [] then []
    else if Live(s[0], now) then [s[0].key] + LiveKeys(s[1..], now)
    else LiveKeys(s[1..], now)
  }

  /** The calls `Range(fn)` makes at `now`: the live entries front to back,
      up to and including the first one on which `fn` answers false. */
  ghost function Visit<K, V>(s: seq<Entry<K, V>>, now: int, fn: (K, V) -> bool): seq<(K, V)>
  {
    if s == [] then []
    else if !Live(s[0], now) then Visit(s[1..], now, fn)
    else if fn(s[0].key, s[0].value) then [(s[0].key, s[0].value)] + Visit(s[1..], now, fn)
    else [(s[0].key, s[0].value)]
  }

  ghost function PairKeys<K, V>(v: seq<(K, V)>): seq<K>
  {
    seq(|v|, i requires 0 <= i < |v| => v[i].0)
  }

  // =====================================================================
  // Lemmas about the order and the index

  /** A key that no position holds is not among the keys. */
  lemma KeyAbsent<K, V>(s: seq<Entry<K, V>>, k: K)
    requires forall i :: 0 <= i < |s| ==> s[i].key != k
    ensures k !in KeysOf(s)
  {
  }


  lemma KeysOfCons<K, V>(e: Entry<K, V>, s: seq<Entry<K, V>>)
    ensures KeysOf([e] + s) == {e.key} + KeysOf(s)
  {
  }


  /** Pushing an entry whose key is absent onto a list of distinct keys
      keeps the keys distinct and adds exactly that key. */
  lemma PushDistinct<K, V>(e: Entry<K, V>, w: seq<Entry<K, V>>)
    requires Distinct(w) && e.key !in KeysOf(w)
    ensures Distinct([e] + w)
    ensures KeysOf([e] + w) == {e.key} + KeysOf(w)
  {
  }


  /** With distinct keys the front key occurs nowhere behind it. */
  lemma HeadNotInTail<K, V>(s: seq<Entry<K, V>>)
    requires Distinct(s) && 0 < |s|
    ensures s[0].key !in KeysOf(s[1..])
  {
  }


  /** Index/list consistency: with distinct keys the index holds as many
      keys as the list holds entries. */
  lemma {:induction false} DistinctKeysCount<K, V>(s: seq<Entry<K, V>>)
    requires Distinct(s)
    ensures |KeysOf(s)| == |s|
  {
    if s != [] {
      DistinctKeysCount(s[1..]);
      assert s == [s[0]] + s[1..];
      KeysOfCons(s[0], s[1..]);
      HeadNotInTail(s);
    }
  }

  lemma {:induction false} FindFacts<K, V>(s: seq<Entry<K, V>>, k: K)
    ensures Find(s, k).None? <==> k !in KeysOf(s)
    ensures Find(s, k).Some? ==> Find(s, k).value in s && Find(s, k).value.key == k
  {
    if s != [] {
      FindFacts(s[1..], k);
      assert s == [s[0]] + s[1..];
      KeysOfCons(s[0], s[1..]);
    }
  }

  lemma {:induction false} WithoutMembers<K, V>(s: seq<Entry<K, V>>, k: K)
    ensures forall e :: e in Without(s, k) ==> e in s && e.key != k
    ensures forall e :: e in s && e.key != k ==> e in Without(s, k)
    ensures KeysOf(Without(s, k)) == KeysOf(s) - {k}
    ensures |Without(s, k)| <= |s|
  {
    if s != [] {
      WithoutMembers(s[1..], k);
      assert s == [s[0]] + s[1..];
      KeysOfCons(s[0], s[1..]);
      if s[0].key != k {
        KeysOfCons(s[0], Without(s[1..], k));
      }
    }
  }

  lemma {:induction false} WithoutAbsent<K, V>(s: seq<Entry<K, V>>, k: K)
    requires k !in KeysOf(s)
    ensures Without(s, k) == s
  {
    if s != [] {
      assert s == [s[0]] + s[1..];
      KeysOfCons(s[0], s[1..]);
      WithoutAbsent(s[1..], k);
    }
  }

  lemma {:induction false} WithoutDistinct<K, V>(s: seq<Entry<K, V>>, k: K)
    requires Distinct(s)
    ensures Distinct(Without(s, k))
    ensures |Without(s, k)| == if k in KeysOf(s) then |s| - 1 else |s|
  {
    if s != [] {
      assert s == [s[0]] + s[1..];
      KeysOfCons(s[0], s[1..]);
      WithoutDistinct(s[1..], k);
      WithoutMembers(s[1..], k);
      var w := Without(s[1..], k);
      if s[0].key == k {
        HeadNotInTail(s);
      } else {
        HeadNotInTail(s);
        forall j | 0 <= j < |w| ensures w[j].key != s[0].key {
          assert w[j] in w;
          assert w[j].key in KeysOf(w);
        }
      }
    }
  }

  /** Cutting the entry at position `i` out of the list (what
      `list.Remove` does) is removing its key from the order. */
  lemma {:induction false} WithoutAt<K, V>(s: seq<Entry<K, V>>, i: nat)
    requires Distinct(s) && i < |s|
    ensures Without(s, s[i].key) == s[..i] + s[i + 1..]
  {
    if i == 0 {
      HeadNotInTail(s);
      WithoutAbsent(s[1..], s[0].key);
    } else {
      WithoutAt(s[1..], i - 1);
      assert s[1..][i - 1] == s[i];
      assert s[1..][..i - 1] + s[1..][i..] == s[1..i] + s[i + 1..];
      assert s[..i] + s[i + 1..] == [s[0]] + (s[1..i] + s[i + 1..]);
    }
  }

  lemma {:induction false} WithoutTwice<K, V>(s: seq<Entry<K, V>>, k: K)
    ensures Without(Without(s, k), k) == Without(s, k)
  {
    if s != [] {
      WithoutTwice(s[1..], k);
      if s[0].key != k {
        assert ([s[0]] + Without(s[1..], k))[1..] == Without(s[1..], k);
      }
    }
  }

  /** Giving the node at position `i` a new entry with the same key leaves
      the key set, and the distinctness of keys, as they were. */
  lemma KeysOfUpdate<K, V>(s: seq<Entry<K, V>>, i: nat, e: Entry<K, V>)
    requires i < |s| && e.key == s[i].key
    ensures KeysOf(s[i := e]) == KeysOf(s)
    ensures Distinct(s) ==> Distinct(s[i := e])
  {
    var r := s[i := e];
    forall x | x in r ensures x.key in KeysOf(s) {
      var j :| 0 <= j < |r| && r[j] == x;
      assert s[j] in s;
    }
    forall x | x in s ensures x.key in KeysOf(r) {
      var j :| 0 <= j < |s| && s[j] == x;
      assert r[j] in r;
    }
  }

  /** Removing a key is blind to what its entry held. */
  lemma WithoutUpdate<K, V>(s: seq<Entry<K, V>>, i: nat, e: Entry<K, V>)
    requires Distinct(s) && i < |s| && e.key == s[i].key
    ensures Without(s[i := e], e.key) == Without(s, e.key)
  {
    KeysOfUpdate(s, i, e);
    WithoutAt(s, i);
    WithoutAt(s[i := e], i);
    assert s[i := e][..i] == s[..i];
    assert s[i := e][i + 1..] == s[i + 1..];
  }

  /** One step of a front-to-back walk over the order by `Purge`. */
  lemma PurgedStep<K, V>(s: seq<Entry<K, V>>, i: nat, now: int)
    requires i < |s|
    ensures Purged(s[i..], now) ==
      if Stale(s[i], now) then Purged(s[i + 1..], now) else [s[i]] + Purged(s[i + 1..], now)
  {
  }


  /** One step of `Purge`'s front-to-back walk keeps "prefix kept so far
      plus the purge of the rest" equal to the purge of the whole list,
      whether the entry at `i` is removed or passed over. */
  lemma PurgeWalkStep<K, V>(s: seq<Entry<K, V>>, i: nat, now: int)
    requires i < |s|
    ensures Stale(s[i], now) ==>
      var r := s[..i] + s[i + 1..];
      r[..i] + Purged(r[i..], now) == s[..i] + Purged(s[i..], now)
    ensures !Stale(s[i], now) ==>
      s[..i + 1] + Purged(s[i + 1..], now) == s[..i] + Purged(s[i..], now)
  {
  }


  // =====================================================================
  // Get and Peek

  /** `Get`/`Peek` report the stored value exactly when the key is present
      and live, and report absent for an expired key. */
  lemma ReadValueAt<K, V>(s: seq<Entry<K, V>>, i: nat, now: int)
    requires Distinct(s) && i < |s|
    ensures ReadValue(s, s[i].key, now) == if Live(s[i], now) then Some(s[i].value) else None
  {
    FindFacts(s, s[i].key);
    var e := Find(s, s[i].key).value;
    var j :| 0 <= j < |s| && s[j] == e;
    assert j == i;
  }

  lemma ReadValueMissing<K, V>(s: seq<Entry<K, V>>, k: K, now: int)
    requires k !in KeysOf(s)
    ensures ReadValue(s, k, now) == None
    ensures AfterRead(s, k, now, true) == s && AfterRead(s, k, now, false) == s
  {
    FindFacts(s, k);
  }

  /** Both reads leave every other entry, and their relative order, alone;
      they keep the keys distinct, and the key set changes only when an
      expired entry is removed. */
  lemma ReadKeepsOthers<K, V>(s: seq<Entry<K, V>>, k: K, now: int, promote: bool)
    requires Distinct(s)
    ensures Without(AfterRead(s, k, now, promote), k) == Without(s, k)
    ensures Distinct(AfterRead(s, k, now, promote))
    ensures KeysOf(AfterRead(s, k, now, promote)) ==
      if k in KeysOf(s) && ReadValue(s, k, now) == None then KeysOf(s) - {k} else KeysOf(s)
  {
    FindFacts(s, k);
    WithoutTwice(s, k);
    WithoutMembers(s, k);
    WithoutDistinct(s, k);
    match Find(s, k)
    case None =>
    case Some(e) =>
      if Live(e, now) && promote {
        PushDistinct(e, Without(s, k));
      }
  }

  /** `get` stated by position: on the entry at `i`, an expired read
      unlinks it, a promoting live read moves it to the front, and a
      non-promoting live read leaves the list as it was. */
  lemma AfterReadAt<K, V>(s: seq<Entry<K, V>>, i: nat, now: int, promote: bool)
    requires Distinct(s) && i < |s|
    ensures AfterRead(s, s[i].key, now, promote) ==
      if !Live(s[i], now) then s[..i] + s[i + 1..]
      else if promote then [s[i]] + s[..i] + s[i + 1..]
      else s
  {
    ReadValueAt(s, i, now);
    FindFacts(s, s[i].key);
    WithoutAt(s, i);
    var e := Find(s, s[i].key).value;
    var j :| 0 <= j < |s| && s[j] == e;
    assert j == i;
  }

  /** A successful `Get` moves the entry to the front; a successful `Peek`
      leaves the order exactly as it was. */
  lemma ReadPromotion<K, V>(s: seq<Entry<K, V>>, k: K, now: int)
    requires ReadValue(s, k, now).Some?
    ensures AfterRead(s, k, now, false) == s
    ensures |AfterRead(s, k, now, true)| > 0 && AfterRead(s, k, now, true)[0].key == k
    ensures AfterRead(s, k, now, true)[0].value == ReadValue(s, k, now).value
  {
    FindFacts(s, k);
  }

  /** Reading twice at the same instant gives the same answer, whether the
      first read promoted or not. */
  lemma ReadAgain<K, V>(s: seq<Entry<K, V>>, k: K, now: int, promote: bool)
    requires Distinct(s)
    ensures ReadValue(AfterRead(s, k, now, promote), k, now) == ReadValue(s, k, now)
  {
    FindFacts(s, k);
    var r := AfterRead(s, k, now, promote);
    ReadKeepsOthers(s, k, now, promote);
    FindFacts(r, k);
    match Find(s, k)
    case None =>
    case Some(e) =>
      if Live(e, now) && promote {
        assert r[0] == e;
        ReadValueAt(r, 0, now);
      }
  }

  // =====================================================================
  // Set

  /** `Set` keeps the cache well formed: keys stay distinct, the length stays
      within the capacity, and the written entry is at the front with the
      new value. The key set gains `k` and, on an eviction, loses exactly
      the key of the back entry. */
  lemma SetKeepsInvariant<K, V>(s: seq<Entry<K, V>>, k: K, v: V, ttl: int, cap: int, now: int)
    requires Distinct(s) && 0 < cap && |s| <= cap
    ensures var r := AfterSet(s, k, v, ttl, cap, now);
      && Distinct(r) && 0 < |r| <= cap
      && r[0].key == k && r[0].value == v
      && KeysOf(r) == KeysOf(s) + {k} - (if k !in KeysOf(s) && |s| == cap then {s[|s| - 1].key} else {})
  {
    FindFacts(s, k);
    if k in KeysOf(s) {
      WithoutMembers(s, k);
      WithoutDistinct(s, k);
      var e := Find(s, k).value;
      PushDistinct(Entry(k, v, if e.expireAt == Never then Never else ExpiryAfter(now, ttl)), Without(s, k));
    } else {
      SetInsertInvariant(s, Entry(k, v, ExpiryAfter(now, ttl)), cap);
    }
  }

  /** The insert half of `SetKeepsInvariant`: pushing a new key and cutting
      the list back to the capacity drops at most the old back key. */
  lemma SetInsertInvariant<K, V>(s: seq<Entry<K, V>>, e: Entry<K, V>, cap: int)
    requires Distinct(s) && 0 < cap && |s| <= cap && e.key !in KeysOf(s)
    ensures var t := [e] + s;
      var r := if |t| > cap then t[..|t| - 1] else t;
      && Distinct(r) && 0 < |r| <= cap && r[0] == e
      && KeysOf(r) == KeysOf(s) + {e.key} - (if |s| == cap then {s[|s| - 1].key} else {})
  {
    var t := [e] + s;
    PushDistinct(e, s);
    if |t| > cap {
      var r := t[..|t| - 1];
      assert t == r + [s[|s| - 1]];
      KeyAbsent(r, s[|s| - 1].key);
      assert forall x :: x in t <==> x in r || x == s[|s| - 1];
      assert KeysOf(t) == KeysOf(r) + {s[|s| - 1].key};
    }
  }

  /** Exactly-one-LRU eviction: apart from the written key, `Set` leaves
      every entry in place and in order, except that inserting a new key
      into a full cache drops the back (least recently used) entry, and
      only that one. */
  lemma SetEvictsOnlyBack<K, V>(s: seq<Entry<K, V>>, k: K, v: V, ttl: int, cap: int, now: int)
    requires Distinct(s) && 0 < cap && |s| <= cap
    ensures Without(AfterSet(s, k, v, ttl, cap, now), k) ==
      if k !in KeysOf(s) && |s| == cap then s[..|s| - 1] else Without(s, k)
    ensures |AfterSet(s, k, v, ttl, cap, now)| ==
      if k in KeysOf(s) || |s| == cap then |s| else |s| + 1
  {
    FindFacts(s, k);
    var r := AfterSet(s, k, v, ttl, cap, now);
    match Find(s, k)
    case Some(e) =>
      WithoutTwice(s, k);
      WithoutDistinct(s, k);
    case None =>
      WithoutAbsent(s, k);
      var t := [Entry(k, v, ExpiryAfter(now, ttl))] + s;
      if |t| > cap {
        assert r == [t[0]] + s[..|s| - 1];
        assert forall x :: x in s[..|s| - 1] ==> x in s;
        assert KeysOf(s[..|s| - 1]) <= KeysOf(s);
        WithoutAbsent(s[..|s| - 1], k);
      }
  }

  /** The renewal asymmetry of `Set`: a new entry gets the default TTL; an
      existing one keeps "never" if it had no expiry, and otherwise gets
      `now + ttl` (or "never" when the default TTL is not positive). */
  lemma SetExpiry<K, V>(s: seq<Entry<K, V>>, k: K, v: V, ttl: int, cap: int, now: int)
    requires Distinct(s) && 0 < cap
    ensures var x := AfterSet(s, k, v, ttl, cap, now)[0].expireAt;
      && (k !in KeysOf(s) ==> (x == Never <==> ttl <= 0))
      && (forall i :: 0 <= i < |s| && s[i].key == k ==> (x == Never <==> s[i].expireAt == Never || ttl <= 0))
      && (x.At? ==> x.t == now + ttl && ttl > 0)
  {
    FindFacts(s, k);
    if k in KeysOf(s) {
      var i := IndexOf(s, k);
      ReadValueAt(s, i, now);
      var e := Find(s, k).value;
      var j :| 0 <= j < |s| && s[j] == e;
      assert j == i;
    }
  }

  /** `AfterSet` for a key that is present at position `i`. */
  lemma AfterSetPresent<K, V>(s: seq<Entry<K, V>>, i: nat, v: V, ttl: int, cap: int, now: int)
    requires Distinct(s) && i < |s|
    ensures AfterSet(s, s[i].key, v, ttl, cap, now) ==
      [Entry(s[i].key, v, if s[i].expireAt != Never then ExpiryAfter(now, ttl) else Never)]
        + Without(s, s[i].key)
  {
    ReadValueAt(s, i, now);
    FindFacts(s, s[i].key);
    var e := Find(s, s[i].key).value;
    var j :| 0 <= j < |s| && s[j] == e;
    assert j == i;
  }

  /** `AfterSet` for a key that is absent. */
  lemma AfterSetAbsent<K, V>(s: seq<Entry<K, V>>, k: K, v: V, ttl: int, cap: int, now: int)
    requires k !in KeysOf(s)
    ensures AfterSet(s, k, v, ttl, cap, now) ==
      var t := [Entry(k, v, ExpiryAfter(now, ttl))] + s;
      if |t| > cap then t[..|t| - 1] else t
  {
    FindFacts(s, k);
  }

  /** A value written by `Set` is what `Get` and `Peek` return at the same
      instant. */
  lemma SetThenRead<K, V>(s: seq<Entry<K, V>>, k: K, v: V, ttl: int, cap: int, now: int)
    requires Distinct(s) && 0 < cap && |s| <= cap
    ensures ReadValue(AfterSet(s, k, v, ttl, cap, now), k, now) == Some(v)
  {
  }


  // =====================================================================
  // Expire

  /** `Expire` changes no key, value, position or length, is a no-op for a
      key that is gone, and touches only the entry for its own key. */
  lemma ExpireKeepsOrder<K, V>(s: seq<Entry<K, V>>, k: K, d: int, now: int)
    ensures var r := AfterExpire(s, k, d, now);
      && |r| == |s|
      && (forall i :: 0 <= i < |s| ==> r[i].key == s[i].key && r[i].value == s[i].value)
      && (forall i :: 0 <= i < |s| && s[i].key != k ==> r[i] == s[i])
      && (k !in KeysOf(s) ==> r == s)
  {
  }


  /** After `Expire(d)` at `now` the key reads as present at a later instant
      `t` exactly when `d <= 0` (never expires) or `t < now + d`. */
  lemma ExpireThenRead<K, V>(s: seq<Entry<K, V>>, k: K, d: int, now: int, t: int)
    requires Distinct(s) && k in KeysOf(s)
    ensures ReadValue(AfterExpire(s, k, d, now), k, t).Some? <==> d <= 0 || t < now + d
  {
    var i := IndexOf(s, k);
    var r := AfterExpire(s, k, d, now);
    assert Distinct(r) by {
      forall a, b | 0 <= a < b < |r| ensures r[a].key != r[b].key {
        assert r[a].key == s[a].key && r[b].key == s[b].key;
      }
    }
    assert r[i].key == k;
    ReadValueAt(r, i, t);
  }

  // =====================================================================
  // Purge

  lemma {:induction false} PurgedMembers<K, V>(s: seq<Entry<K, V>>, now: int)
    ensures forall e :: e in Purged(s, now) ==> e in s && !Stale(e, now)
    ensures forall e :: e in s && !Stale(e, now) ==> e in Purged(s, now)
    ensures |Purged(s, now)| <= |s|
  {
    if s != [] {
      PurgedMembers(s[1..], now);
      assert s == [s[0]] + s[1..];
    }
  }

  lemma StaleKeysCons<K, V>(e: Entry<K, V>, t: seq<Entry<K, V>>, now: int)
    ensures StaleKeys([e] + t, now) == (if Stale(e, now) then {e.key} else {}) + StaleKeys(t, now)
  {
  }


  lemma {:induction false} PurgedDistinct<K, V>(s: seq<Entry<K, V>>, now: int)
    requires Distinct(s)
    ensures Distinct(Purged(s, now))
  {
    if s != [] {
      var t := s[1..];
      PurgedDistinct(t, now);
      if !Stale(s[0], now) {
        PurgedMembers(t, now);
        HeadNotInTail(s);
        var p := Purged(t, now);
        forall j | 0 <= j < |p| ensures p[j].key != s[0].key {
          assert p[j] in p;
          assert p[j] in t;
          assert p[j].key in KeysOf(t);
        }
        assert ([s[0]] + p)[1..] == p;
      }
    }
  }

  /** `Purge` removes exactly one entry per key whose expiry is finite and
      strictly before `now`, so the number it removes is the number of such
      keys. */
  lemma {:induction false} PurgeCount<K, V>(s: seq<Entry<K, V>>, now: int)
    requires Distinct(s)
    ensures |s| - |Purged(s, now)| == |StaleKeys(s, now)|
  {
    if s != [] {
      var t := s[1..];
      assert s == [s[0]] + t;
      PurgeCount(t, now);
      HeadNotInTail(s);
      StaleKeysCons(s[0], t, now);
      assert StaleKeys(t, now) <= KeysOf(t);
    }
  }

  /** `Purge` never removes an entry that a read would still return, so the
      live view (`Keys`) is the same before and after it. */
  lemma {:induction false} PurgeKeepsLiveKeys<K, V>(s: seq<Entry<K, V>>, now: int)
    ensures LiveKeys(Purged(s, now), now) == LiveKeys(s, now)
  {
    if s != [] {
      PurgeKeepsLiveKeys(s[1..], now);
      if !Stale(s[0], now) {
        assert ([s[0]] + Purged(s[1..], now))[1..] == Purged(s[1..], now);
      }
    }
  }

  lemma {:induction false} PurgeTwice<K, V>(s: seq<Entry<K, V>>, now: int)
    ensures Purged(Purged(s, now), now) == Purged(s, now)
  {
    if s != [] {
      PurgeTwice(s[1..], now);
      if !Stale(s[0], now) {
        assert ([s[0]] + Purged(s[1..], now))[1..] == Purged(s[1..], now);
      }
    }
  }

  /** Survivors keep their relative order: sweeping a list in two pieces
      gives the sweep of the whole, so no surviving entry overtakes
      another. */
  lemma {:induction false} PurgeSplits<K, V>(a: seq<Entry<K, V>>, b: seq<Entry<K, V>>, now: int)
    ensures Purged(a + b, now) == Purged(a, now) + Purged(b, now)
  {
    if a == [] {
      assert a + b == b;
    } else {
      PurgeSplits(a[1..], b, now);
      assert a + b == [a[0]] + (a[1..] + b);
      PurgedStep([a[0]] + (a[1..] + b), 0, now);
      PurgedStep(a, 0, now);
    }
  }

  /** The boundary difference between `Purge` and `get`: an entry whose
      instant is exactly `now` survives `Purge` yet is already reported
      absent by `Get` and `Peek`. */
  lemma PurgeBoundary<K, V>(s: seq<Entry<K, V>>, i: nat, now: int)
    requires Distinct(s) && i < |s| && s[i].expireAt == At(now)
    ensures s[i] in Purged(s, now)
    ensures ReadValue(s, s[i].key, now) == None
  {
    PurgedMembers(s, now);
    ReadValueAt(s, i, now);
  }

  // =====================================================================
  // Keys and Range

  lemma {:induction false} LiveKeysOnlyKeysOf<K, V>(s: seq<Entry<K, V>>, now: int)
    ensures forall k :: k in LiveKeys(s, now) ==> k in KeysOf(s)
    ensures |LiveKeys(s, now)| <= |s|
  {
    if s != [] {
      LiveKeysOnlyKeysOf(s[1..], now);
      assert s == [s[0]] + s[1..];
      KeysOfCons(s[0], s[1..]);
    }
  }

  lemma ReadValueTail<K, V>(s: seq<Entry<K, V>>, k: K, now: int)
    requires 0 < |s| && s[0].key != k
    ensures ReadValue(s, k, now) == ReadValue(s[1..], k, now)
  {
  }


  /** `Keys` lists exactly the keys that `Get` would find at the same
      instant. */
  lemma {:induction false} LiveKeysMatchRead<K, V>(s: seq<Entry<K, V>>, k: K, now: int)
    requires Distinct(s)
    ensures k in LiveKeys(s, now) <==> ReadValue(s, k, now).Some?
  {
    if s != [] {
      assert Distinct(s[1..]);
      LiveKeysMatchRead(s[1..], k, now);
      if s[0].key == k {
        ReadValueAt(s, 0, now);
        LiveKeysOnlyKeysOf(s[1..], now);
        HeadNotInTail(s);
      }
    }
  }

  /** `Range` visits the live entries in the order `Keys` lists them, each
      with the value `Get` would return; every visit but the last answered
      true, and it stops early only at an entry that answered false. */
  lemma {:induction false} VisitIsPrefix<K, V>(s: seq<Entry<K, V>>, now: int, fn: (K, V) -> bool)
    requires Distinct(s)
    ensures var v := Visit(s, now, fn);
      && |v| <= |LiveKeys(s, now)|
      && PairKeys(v) == LiveKeys(s, now)[..|v|]
      && (forall i :: 0 <= i < |v| - 1 ==> fn(v[i].0, v[i].1))
      && (|v| < |LiveKeys(s, now)| ==> 0 < |v| && !fn(v[|v| - 1].0, v[|v| - 1].1))
      && (forall i :: 0 <= i < |v| ==> ReadValue(s, v[i].0, now) == Some(v[i].1))
  {
    if s != [] {
      var t := s[1..];
      assert Distinct(t);
      VisitIsPrefix(t, now, fn);
      var v := Visit(s, now, fn);
      var w := Visit(t, now, fn);
      HeadNotInTail(s);
      LiveKeysOnlyKeysOf(t, now);
      forall i | 0 <= i < |w| ensures ReadValue(s, w[i].0, now) == Some(w[i].1) {
        assert PairKeys(w)[i] == w[i].0;
        assert w[i].0 in LiveKeys(t, now);
        ReadValueTail(s, w[i].0, now);
      }
      if Live(s[0], now) {
        ReadValueAt(s, 0, now);
        if fn(s[0].key, s[0].value) {
          assert v[1..] == w;
          assert PairKeys(v) == [s[0].key] + PairKeys(w);
        }
      }
    }
  }

  /** With a visitor that never stops, `Range` visits exactly the keys that
      `Keys` returns. */
  lemma VisitAll<K, V>(s: seq<Entry<K, V>>, now: int, fn: (K, V) -> bool)
    requires Distinct(s)
    requires forall k, v :: fn(k, v)
    ensures PairKeys(Visit(s, now, fn)) == LiveKeys(s, now)
  {
  }

}
