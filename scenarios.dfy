/** Concrete runs of the cache, following the eviction scenarios of
    lru_test.go. The clock stands still at 0 and no TTL is set, so every
    entry is live. */
module Scenarios {
  import opened Recency
  import opened Lru

  /** `Set(k, v)` of a key not yet present, at time 0 with no TTL: push to
      the front, and drop the back entry once past the capacity. */
  method SetNew(c: Cache<char, int>, k: char, v: int)
    requires c.Valid() && c.ttl == 0
    requires forall i :: 0 <= i < |c.order| ==> c.order[i].key != k
    modifies c
    ensures c.Valid() && c.ttl == 0 && c.size == old(c.size)
    ensures c.order == var t := [Entry(k, v, Never)] + old(c.order);
                       if |t| > c.size then t[..|t| - 1] else t
  {
    KeyAbsent(c.order, k);
    AfterSetAbsent(c.order, k, v, 0, c.size, 0);
    var _ := c.Set(k, v, 0);
  }

  /** `Get` at time 0 of the never-expiring entry at position `i`. */
  method GetAt(c: Cache<char, int>, i: nat) returns (r: Option<int>)
    requires c.Valid() && i < |c.order| && c.order[i].expireAt == Never
    modifies c
    ensures c.Valid() && c.ttl == old(c.ttl) && c.size == old(c.size)
    ensures r == Some(old(c.order)[i].value)
    ensures c.order == [old(c.order)[i]] + old(c.order)[..i] + old(c.order)[i + 1..]
  {
    ReadValueAt(c.order, i, 0);
    AfterReadAt(c.order, i, 0, true);
    r := c.Get(c.order[i].key, 0);
  }

  /** `Peek` at time 0 of the never-expiring entry at position `i`. */
  method PeekAt(c: Cache<char, int>, i: nat) returns (r: Option<int>)
    requires c.Valid() && i < |c.order| && c.order[i].expireAt == Never
    modifies c
    ensures c.Valid() && c.ttl == old(c.ttl) && c.size == old(c.size)
    ensures r == Some(old(c.order)[i].value)
    ensures c.order == old(c.order)
  {
    ReadValueAt(c.order, i, 0);
    AfterReadAt(c.order, i, 0, false);
    r := c.Peek(c.order[i].key, 0);
  }

  /** `Get` of a key that is not present: absent, nothing changes. */
  method GetMissing(c: Cache<char, int>, k: char) returns (r: Option<int>)
    requires c.Valid()
    requires forall i :: 0 <= i < |c.order| ==> c.order[i].key != k
    modifies c
    ensures c.Valid() && c.size == old(c.size) && c.ttl == old(c.ttl)
    ensures r == None && c.order == old(c.order)
  {
    KeyAbsent(c.order, k);
    ReadValueMissing(c.order, k, 0);
    r := c.Get(k, 0);
  }

  /** A capacity-3 cache holding a, b, c (c most recently used). */
  method Filled() returns (c: Cache<char, int>)
    ensures fresh(c) && c.Valid() && c.size == 3 && c.ttl == 0
    ensures c.order == [Entry('c', 3, Never), Entry('b', 2, Never), Entry('a', 1, Never)]
  {
    c := new Cache<char, int>(3);
    SetNew(c, 'a', 1);
    SetNew(c, 'b', 2);
    SetNew(c, 'c', 3);
  }

  /** `TestGet`'s start: a and b inserted into a capacity-3 cache, then
      `Get("a")` moves "a" to the front. */
  method TwoRead() returns (c: Cache<char, int>)
    ensures fresh(c) && c.Valid() && c.size == 3 && c.ttl == 0
    ensures c.order == [Entry('a', 1, Never), Entry('b', 2, Never)]
  {
    c := new Cache<char, int>(3);
    SetNew(c, 'a', 1);
    SetNew(c, 'b', 2);
    var _ := GetAt(c, 1);
  }

  /** Then `Get("c")` misses and `Set("c")` inserts: "b" is now the least
      recently used. */
  method ThreeAfterRead() returns (c: Cache<char, int>)
    ensures fresh(c) && c.Valid() && c.size == 3 && c.ttl == 0
    ensures c.order == [Entry('c', 3, Never), Entry('a', 1, Never), Entry('b', 2, Never)]
  {
    c := TwoRead();
    var _ := GetMissing(c, 'c');
    SetNew(c, 'c', 3);
  }

  /** Then `Get("b")` moves the back entry "b" to the front, leaving "a"
      the least recently used. */
  method Promoted() returns (c: Cache<char, int>)
    ensures fresh(c) && c.Valid() && c.size == 3 && c.ttl == 0
    ensures c.order == [Entry('b', 2, Never), Entry('c', 3, Never), Entry('a', 1, Never)]
  {
    c := ThreeAfterRead();
    var _ := GetAt(c, 2);
  }

  /** `TestGet`'s eviction check: reading the least recently used "b" saves
      it, so inserting "d" evicts "a" instead and "b" is still there. */
  method GetProtectsFromEviction() returns (a: Option<int>, b: Option<int>)
    ensures a == None && b == Some(2)
  {
    var c := Promoted();
    SetNew(c, 'd', 4);
    assert c.order == [Entry('d', 4, Never), Entry('b', 2, Never), Entry('c', 3, Never)];
    a := GetMissing(c, 'a');
    b := GetAt(c, 1);
  }

  /** The same run without `Get("b")`: inserting "d" evicts "b", the least
      recently used, and keeps "a". */
  method WithoutReadEvicted() returns (a: Option<int>, b: Option<int>)
    ensures a == Some(1) && b == None
  {
    var c := ThreeAfterRead();
    SetNew(c, 'd', 4);
    assert c.order == [Entry('d', 4, Never), Entry('c', 3, Never), Entry('a', 1, Never)];
    b := GetMissing(c, 'b');
    a := GetAt(c, 2);
  }

  /** `TestPeek`'s start: a, b, c inserted into a capacity-3 cache, then
      `Peek("a")` returns 1 and leaves "a" at the back. */
  method Peeked() returns (c: Cache<char, int>, peeked: Option<int>)
    ensures fresh(c) && c.Valid() && c.size == 3 && c.ttl == 0
    ensures peeked == Some(1)
    ensures c.order == [Entry('c', 3, Never), Entry('b', 2, Never), Entry('a', 1, Never)]
  {
    c := Filled();
    peeked := PeekAt(c, 2);
  }

  /** `Peek` does not promote: after a, b, c and a peek at "a", inserting
      "d" still evicts "a". */
  method PeekDoesNotProtect() returns (peeked: Option<int>, after: Option<int>)
    ensures peeked == Some(1) && after == None
  {
    var c;
    c, peeked := Peeked();
    SetNew(c, 'd', 4);
    assert c.order == [Entry('d', 4, Never), Entry('c', 3, Never), Entry('b', 2, Never)];
    after := GetMissing(c, 'a');
  }
}
