/**
  The capacity-bounded cache of redog-common/src/cache.rs. The class is the
  cache; the functions describe one state of it as a recency order (newest
  first) and a map; the lemmas say exactly which keys a whole history of
  touches leaves resident.
 */
module Lru {
  import opened Options

  /** One state of a cache: keys from the most to the least recently used, and their values. */
  datatype CacheState<K(==), V> = CacheState(order: seq<K>, vals: map<K, V>)

  ghost predicate NoDuplicates<K>(order: seq<K>) {
    forall i, j :: 0 <= i < j < |order| ==> order[i] != order[j]
  }

  function Elems<K(==)>(order: seq<K>): set<K> {
    set k | k in order
  }

  ghost predicate WellFormed<K, V>(s: CacheState<K, V>, capacity: nat) {
    && NoDuplicates(s.order)
    && |s.order| <= capacity
    && s.vals.Keys == Elems(s.order)
  }

  function Without<K(==)>(order: seq<K>, k: K): seq<K> {
    if order == [] then []
    else if order[0] == k then Without(order[1..], k)
    else [order[0]] + Without(order[1..], k)
  }

  function Touch<K(==)>(order: seq<K>, k: K): seq<K> {
    [k] + Without(order, k)
  }

  function Newest<K>(order: seq<K>, n: nat): seq<K> {
    if |order| <= n then order else order[..n]
  }

  function Hit<K(==), V>(s: CacheState<K, V>, k: K): CacheState<K, V> {
    s.(order := Touch(s.order, k))
  }

  function Inserted<K(==), V>(s: CacheState<K, V>, capacity: nat, k: K, v: V): CacheState<K, V> {
    var order := Newest(Touch(s.order, k), capacity);
    CacheState(order, map x | x in order && (x == k || x in s.vals) :: if x == k then v else s.vals[x])
  }

  class LruCache<K(==), V> {
    var order: seq<K>
    var vals: map<K, V>
    const capacity: nat

    function View(): CacheState<K, V>
      reads this
    {
      CacheState(order, vals)
    }

    ghost predicate Valid()
      reads this
    {
      0 < capacity && WellFormed(View(), capacity)
    }

    constructor (capacity: nat)
      ensures Valid() && View() == CacheState([], map[])
      ensures this.capacity == EffectiveCapacity(capacity)
    {
      order, vals := [], map[];
      this.capacity := EffectiveCapacity(capacity);
    }

    method Get(key: K) returns (r: Option<V>)
      requires Valid()
      modifies this
      ensures Valid()
      ensures key in old(vals) ==> r == Some(old(vals)[key]) && View() == Hit(old(View()), key)
      ensures key !in old(vals) ==> r == None && View() == old(View())
    {
      if key !in vals {
        return None;
      }
      TouchKeepsElems(order, key);
      order := Touch(order, key);
      r := Some(vals[key]);
    }

    /** A full cache drops its oldest key before a new one goes in. */
    method Put(key: K, value: V)
      requires Valid()
      modifies this
      ensures Valid() && View() == Inserted(old(View()), capacity, key, value)
    {
      InsertedKeepsWellFormed(View(), capacity, key, value);
      if key in vals {
        InsertedKnown(View(), capacity, key, value);
        order := Touch(order, key);
        vals := vals[key := value];
      } else {
        if |order| < capacity {
          InsertedWithRoom(View(), capacity, key, value);
        } else {
          InsertedWhenFull(View(), capacity, key, value);
          vals := vals - {order[|order| - 1]};
          order := order[..|order| - 1];
        }
        order := [key] + order;
        vals := vals[key := value];
      }
    }

    method Contains(key: K) returns (r: bool)
      requires Valid()
      ensures r <==> key in order
    {
      r := key in vals;
    }

    method Remove(key: K) returns (r: Option<V>)
      requires Valid()
      modifies this
      ensures Valid()
      ensures key in old(vals) ==> r == Some(old(vals)[key])
      ensures key !in old(vals) ==> r == None
      ensures View() == CacheState(Without(old(order), key), old(vals) - {key})
    {
      WithoutElems(order, key);
      r := if key in vals then Some(vals[key]) else None;
      order := Without(order, key);
      vals := vals - {key};
    }

    method Len() returns (n: nat)
      requires Valid()
      ensures n == |vals| && n <= capacity
    {
      NoDuplicatesCount(order);
      n := |order|;
    }
  }

  lemma InsertedKeepsWellFormed<K, V>(s: CacheState<K, V>, capacity: nat, k: K, v: V)
    requires 0 < capacity && WellFormed(s, capacity)
    ensures WellFormed(Inserted(s, capacity, k, v), capacity)
  {
    TouchKeepsElems(s.order, k);
    var r := Inserted(s, capacity, k, v);
    assert NoDuplicates(r.order);
    forall x | x in r.order
      ensures x == k || x in s.vals
    {
      assert x in Elems(Touch(s.order, k));
    }
  }

  /** A known key moves to the front and takes the new value. */
  lemma InsertedKnown<K, V>(s: CacheState<K, V>, capacity: nat, k: K, v: V)
    requires 0 < capacity && WellFormed(s, capacity) && k in s.vals
    ensures Inserted(s, capacity, k, v) == CacheState(Touch(s.order, k), s.vals[k := v])
  {
    TouchKeepsElems(s.order, k);
    assert k in Elems(s.order);
    forall x
      ensures x in Touch(s.order, k) <==> x in s.vals
    {
      assert x in Touch(s.order, k) <==> x in Elems(Touch(s.order, k));
    }
  }

  /** A new key goes to the front of a cache with room. */
  lemma InsertedWithRoom<K, V>(s: CacheState<K, V>, capacity: nat, k: K, v: V)
    requires WellFormed(s, capacity) && k !in s.vals && |s.order| < capacity
    ensures Inserted(s, capacity, k, v) == CacheState([k] + s.order, s.vals[k := v])
  {
    assert k !in Elems(s.order);
    WithoutAbsent(s.order, k);
    forall x
      ensures x in s.order <==> x in s.vals
    {
      assert x in s.order <==> x in Elems(s.order);
    }
  }

  /** A full cache loses its oldest key to a new one. */
  lemma InsertedWhenFull<K, V>(s: CacheState<K, V>, capacity: nat, k: K, v: V)
    requires 0 < capacity && WellFormed(s, capacity) && k !in s.vals && |s.order| == capacity
    ensures Inserted(s, capacity, k, v)
            == CacheState([k] + s.order[..capacity - 1], (s.vals - {s.order[capacity - 1]})[k := v])
  {
    var kept, last := s.order[..capacity - 1], s.order[capacity - 1];
    assert Newest(Touch(s.order, k), capacity) == [k] + kept by {
      assert k !in Elems(s.order);
      WithoutAbsent(s.order, k);
    }
    assert Elems(kept) == Elems(s.order) - {last} by {
      assert s.order == kept + [last];
      ElemsConcat(kept, [last]);
      assert last !in kept;
    }
    assert Elems([k] + kept) == {k} + Elems(kept) by {
      ElemsConcat([k], kept);
    }
    assert forall x :: x in [k] + kept <==> x in Elems([k] + kept);
  }

  /** A zero capacity is replaced by 64. */
  function EffectiveCapacity(capacity: nat): (c: nat)
    ensures 0 < c && (capacity == 0 ==> c == 64)
    ensures c == capacity <==> 0 < capacity
  {
    if capacity == 0 then 64 else capacity
  }

  // ---- Order arithmetic ----

  lemma ElemsConcat<K>(a: seq<K>, b: seq<K>)
    ensures Elems(a + b) == Elems(a) + Elems(b)
  {
    assert forall x :: x in a + b <==> x in a || x in b;
  }

  lemma {:induction false} WithoutElems<K>(order: seq<K>, k: K)
    ensures Elems(Without(order, k)) == Elems(order) - {k}
    ensures |Without(order, k)| <= |order|
    ensures NoDuplicates(order) ==> NoDuplicates(Without(order, k))
    ensures NoDuplicates(order) && k in order ==> |Without(order, k)| == |order| - 1
  {
    if order != [] {
      var tail := order[1..];
      assert order == [order[0]] + tail;
      WithoutElems(tail, k);
      assert Elems(order) == {order[0]} + Elems(tail);
      if order[0] == k {
        assert Without(order, k) == Without(tail, k);
        if NoDuplicates(order) {
          assert k !in tail;
          WithoutAbsent(tail, k);
        }
      } else {
        assert Without(order, k) == [order[0]] + Without(tail, k);
        assert Elems(Without(order, k)) == {order[0]} + Elems(Without(tail, k));
        if NoDuplicates(order) {
          assert order[0] !in Elems(tail);
          assert order[0] !in Elems(Without(tail, k));
        }
      }
    }
  }

  lemma {:induction false} WithoutAbsent<K>(order: seq<K>, k: K)
    requires k !in order
    ensures Without(order, k) == order
  {
    if order != [] {
      WithoutAbsent(order[1..], k);
    }
  }

  lemma {:induction false} WithoutConcat<K>(a: seq<K>, b: seq<K>, k: K)
    ensures Without(a + b, k) == Without(a, k) + Without(b, k)
  {
    if a == [] {
      assert a + b == b;
    } else {
      assert (a + b)[1..] == a[1..] + b;
      WithoutConcat(a[1..], b, k);
    }
  }

  lemma TouchKeepsElems<K>(order: seq<K>, k: K)
    ensures Elems(Touch(order, k)) == Elems(order) + {k}
    ensures NoDuplicates(order) ==> NoDuplicates(Touch(order, k))
    ensures NoDuplicates(order) && k in order ==> |Touch(order, k)| == |order|
  {
    WithoutElems(order, k);
    assert k !in Elems(Without(order, k));
    assert Elems(Touch(order, k)) == {k} + Elems(Without(order, k));
  }

  lemma {:induction false} NoDuplicatesCount<K>(order: seq<K>)
    requires NoDuplicates(order)
    ensures |Elems(order)| == |order|
  {
    if order != [] {
      var tail := order[1..];
      NoDuplicatesCount(tail);
      assert order == [order[0]] + tail;
      assert Elems(order) == {order[0]} + Elems(tail);
      assert order[0] !in Elems(tail);
    }
  }

  // ---- What a history of touches leaves resident ----

  /** All keys ever touched, the most recently touched first. */
  function Recency<K(==)>(touches: seq<K>): seq<K> {
    if touches == [] then []
    else Touch(Recency(touches[..|touches| - 1]), touches[|touches| - 1])
  }

  /** The touches after the last touch of `k`. */
  function Since<K(==)>(touches: seq<K>, k: K): seq<K> {
    if touches == [] || touches[|touches| - 1] == k then []
    else Since(touches[..|touches| - 1], k) + [touches[|touches| - 1]]
  }

  function Before<K(==)>(order: seq<K>, k: K): seq<K> {
    if order == [] || order[0] == k then [] else [order[0]] + Before(order[1..], k)
  }

  /** Order, as the bounded cache keeps it: the newest `capacity` of all touched keys. */
  ghost predicate Tracks<K>(order: seq<K>, capacity: nat, touches: seq<K>) {
    order == Newest(Recency(touches), capacity)
  }

  lemma {:induction false} RecencyElems<K>(touches: seq<K>)
    ensures NoDuplicates(Recency(touches)) && Elems(Recency(touches)) == Elems(touches)
  {
    if touches != [] {
      var init, last := touches[..|touches| - 1], touches[|touches| - 1];
      assert touches == init + [last];
      RecencyElems(init);
      TouchKeepsElems(Recency(init), last);
      assert Elems(touches) == Elems(init) + {last};
    }
  }

  /** Re-touching a key commutes with truncation: a put keeps the tracked order. */
  lemma PutTracks<K>(order: seq<K>, capacity: nat, touches: seq<K>, k: K)
    requires 0 < capacity && Tracks(order, capacity, touches)
    ensures Tracks(Newest(Touch(order, k), capacity), capacity, touches + [k])
  {
    var all := Recency(touches);
    RecencyElems(touches);
    assert (touches + [k])[..|touches|] == touches;
    assert Recency(touches + [k]) == Touch(all, k);
    if capacity < |all| {
      var rest := all[capacity..];
      assert all == order + rest;
      WithoutConcat(order, rest, k);
      if k in order {
        assert k !in rest;
        WithoutAbsent(rest, k);
        WithoutElems(order, k);
        assert Touch(all, k)[..capacity] == Touch(order, k);
      } else {
        WithoutAbsent(order, k);
        assert Touch(order, k) == [k] + order;
        assert Touch(all, k) == [k] + order + Without(rest, k);
        assert Newest(Touch(all, k), capacity) == ([k] + order)[..capacity];
      }
    }
  }

  /** A hit keeps the tracked order without truncation. */
  lemma HitTracks<K>(order: seq<K>, capacity: nat, touches: seq<K>, k: K)
    requires 0 < capacity && Tracks(order, capacity, touches) && k in order
    ensures Tracks(Touch(order, k), capacity, touches + [k])
  {
    PutTracks(order, capacity, touches, k);
    RecencyElems(touches);
    assert NoDuplicates(order);
    WithoutElems(order, k);
  }

  lemma {:induction false} BeforeTouch<K>(order: seq<K>, x: K, k: K)
    requires x != k
    ensures Before(Touch(order, x), k) == [x] + Without(Before(order, k), x)
  {
    BeforeWithout(order, x, k);
    assert Touch(order, x)[1..] == Without(order, x);
  }

  lemma {:induction false} BeforeWithout<K>(order: seq<K>, x: K, k: K)
    requires x != k
    ensures Before(Without(order, x), k) == Without(Before(order, k), x)
  {
    if order != [] && order[0] != k {
      BeforeWithout(order[1..], x, k);
      assert Before(order, k)[1..] == Before(order[1..], k);
    }
  }

  /** The keys ahead of `k` are exactly the distinct keys touched since `k` was. */
  lemma {:induction false} BeforeIsSince<K>(touches: seq<K>, k: K)
    ensures Elems(Before(Recency(touches), k)) == Elems(Since(touches, k))
  {
    if touches != [] {
      var init, last := touches[..|touches| - 1], touches[|touches| - 1];
      if last != k {
        BeforeIsSince(init, k);
        BeforeTouch(Recency(init), last, k);
        var ahead := Before(Recency(init), k);
        WithoutElems(ahead, last);
        ElemsConcat([last], Without(ahead, last));
        ElemsConcat(Since(init, k), [last]);
      }
    }
  }

  lemma {:induction false} BeforeIsPrefix<K>(order: seq<K>, k: K)
    ensures Before(order, k) <= order
    ensures k in order <==> |Before(order, k)| < |order|
    ensures k in order ==> order[|Before(order, k)|] == k
  {
    if order != [] && order[0] != k {
      BeforeIsPrefix(order[1..], k);
    }
  }

  /**
    The residency theorem: a key is in the cache exactly when it was touched
    and fewer than `capacity` distinct other keys were touched since.
   */
  lemma Residency<K>(order: seq<K>, capacity: nat, touches: seq<K>, k: K)
    requires Tracks(order, capacity, touches)
    ensures k in order <==> k in touches && |Elems(Since(touches, k))| < capacity
  {
    var all := Recency(touches);
    RecencyElems(touches);
    BeforeIsSince(touches, k);
    BeforeIsPrefix(all, k);
    NoDuplicatesCount(Before(all, k));
    assert k in all <==> k in Elems(touches);
    if k in order {
      var i :| 0 <= i < |order| && order[i] == k;
      assert all[i] == k && all[|Before(all, k)|] == k;
    }
  }

  /** What a run of touches adds to the distance of a key it does not touch. */
  lemma {:induction false} SinceExtends<K>(touches: seq<K>, more: seq<K>, k: K)
    ensures Elems(Since(touches + more, k)) <= Elems(Since(touches, k)) + (Elems(more) - {k})
    ensures k in more ==> Since(touches + more, k) == Since(more, k)
  {
    if more == [] {
      assert touches + more == touches;
    } else {
      var init, last := more[..|more| - 1], more[|more| - 1];
      assert (touches + more)[..|touches + more| - 1] == touches + init;
      if last != k {
        SinceExtends(touches, init, k);
        assert more == init + [last];
        ElemsConcat(init, [last]);
        ElemsConcat(Since(touches + init, k), [last]);
      }
    }
  }
}
