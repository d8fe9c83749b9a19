/** The eviction order of CacheLru: keys from least to most recently used. */
module LruQueue {

  /** `q` lists exactly the keys of the cache, each once. */
  ghost predicate Tracks(q: seq<nat>, keys: set<nat>) {
    if q == [] then keys == {} else q[0] in keys && Tracks(q[1..], keys - {q[0]})
  }

  function Without(q: seq<nat>, k: nat): seq<nat> {
    if q == [] then []
    else if q[0] == k then Without(q[1..], k)
    else [q[0]] + Without(q[1..], k)
  }

  /** One use of key `k`: a hit moves it to the back, a miss drops the front of a full queue first. A zero capacity
      means no limit. */
  function Use(q: seq<nat>, capacity: nat, k: nat): seq<nat> {
    if k in q then Without(q, k) + [k]
    else if capacity > 0 && |q| == capacity then q[1..] + [k]
    else q + [k]
  }

  /** Uses of the keys `from`, `from + 1`, ..., `to - 1`. */
  function UseRange(q: seq<nat>, capacity: nat, from: nat, to: nat): seq<nat>
    decreases to
  {
    if to <= from then q else Use(UseRange(q, capacity, from, to - 1), capacity, to - 1)
  }

  lemma {:induction false} TracksMember(q: seq<nat>, keys: set<nat>, k: nat)
    requires Tracks(q, keys)
    ensures k in q <==> k in keys
  {
    if q != [] {
      TracksMember(q[1..], keys - {q[0]}, k);
      assert q == [q[0]] + q[1..];
    }
  }

  lemma {:induction false} TracksSize(q: seq<nat>, keys: set<nat>)
    requires Tracks(q, keys)
    ensures |q| == |keys|
  {
    if q != [] {
      TracksSize(q[1..], keys - {q[0]});
    }
  }

  lemma {:induction false} WithoutKey(q: seq<nat>, keys: set<nat>, k: nat)
    requires Tracks(q, keys)
    ensures Tracks(Without(q, k), keys - {k})
    ensures k !in keys ==> Without(q, k) == q
  {
    if q != [] {
      WithoutKey(q[1..], keys - {q[0]}, k);
      if q[0] == k {
        assert keys - {k} - {k} == keys - {k};
      } else {
        assert Without(q, k)[1..] == Without(q[1..], k);
        assert keys - {q[0]} - {k} == keys - {k} - {q[0]};
      }
    }
  }

  lemma {:induction false} PushKey(q: seq<nat>, keys: set<nat>, k: nat)
    requires Tracks(q, keys) && k !in keys
    ensures Tracks(q + [k], keys + {k})
  {
    if q == [] {
      assert q + [k] == [k] && [k][1..] == [];
      assert keys + {k} - {k} == {};
    } else {
      assert (q + [k])[1..] == q[1..] + [k];
      PushKey(q[1..], keys - {q[0]}, k);
      assert keys - {q[0]} + {k} == keys + {k} - {q[0]};
    }
  }

  lemma {:induction false} WithoutTwice(q: seq<nat>, k: nat)
    ensures Without(Without(q, k), k) == Without(q, k)
  {
    if q != [] {
      WithoutTwice(q[1..], k);
      if q[0] != k { assert ([q[0]] + Without(q[1..], k))[1..] == Without(q[1..], k); }
    }
  }

  /** A hit keeps the set of keys, puts the key at the end, and leaves the others in their order. */
  lemma UseHit(q: seq<nat>, keys: set<nat>, capacity: nat, k: nat)
    requires Tracks(q, keys) && k in keys
    ensures var r := Use(q, capacity, k);
      Tracks(r, keys) && |r| == |q| > 0 && r[|r| - 1] == k && Without(r, k) == Without(q, k)
  {
    WithoutSplit(Without(q, k), [k], k);
    WithoutTwice(q, k);
    TracksMember(q, keys, k);
    WithoutKey(q, keys, k);
    PushKey(Without(q, k), keys - {k}, k);
    assert keys - {k} + {k} == keys;
    TracksSize(q, keys);
    TracksSize(Use(q, capacity, k), keys);
  }

  // ---------- which keys survive ----------

  ghost function MostRecent(order: seq<nat>, capacity: nat): seq<nat> {
    if capacity == 0 || |order| <= capacity then order else order[|order| - capacity..]
  }

  lemma {:induction false} WithoutSplit(a: seq<nat>, b: seq<nat>, k: nat)
    ensures Without(a + b, k) == Without(a, k) + Without(b, k)
  {
    if a == [] {
      assert a + b == b;
    } else {
      assert (a + b)[0] == a[0] && (a + b)[1..] == a[1..] + b;
      WithoutSplit(a[1..], b, k);
    }
  }

  /** Cutting a queue in two cuts its keys in two disjoint sets. */
  lemma {:induction false} TracksSplit(a: seq<nat>, b: seq<nat>, keys: set<nat>) returns (left: set<nat>)
    requires Tracks(a + b, keys)
    ensures left <= keys && Tracks(a, left) && Tracks(b, keys - left)
  {
    if a == [] {
      assert a + b == b;
      left := {};
      assert keys - left == keys;
    } else {
      assert (a + b)[0] == a[0] && (a + b)[1..] == a[1..] + b;
      var rest := TracksSplit(a[1..], b, keys - {a[0]});
      left := rest + {a[0]};
      assert left - {a[0]} == rest;
      assert keys - left == keys - {a[0]} - rest;
    }
  }

  lemma RecentHit(a: seq<nat>, b: seq<nat>, k: nat)
    requires Without(a, k) == a && |Without(b, k)| + 1 == |b|
    ensures MostRecent(Without(a + b, k) + [k], |b|) == Without(b, k) + [k]
  {
    WithoutSplit(a, b, k);
    assert (a + Without(b, k) + [k])[|a|..] == Without(b, k) + [k];
  }

  lemma RecentReturn(a: seq<nat>, b: seq<nat>, k: nat)
    requires b != [] && Without(b, k) == b && |Without(a, k)| + 1 == |a|
    ensures MostRecent(Without(a + b, k) + [k], |b|) == b[1..] + [k]
  {
    WithoutSplit(a, b, k);
    var r := Without(a, k);
    assert (r + b + [k])[|r| + 1..] == b[1..] + [k];
  }

  lemma RecentMiss(a: seq<nat>, b: seq<nat>, k: nat)
    requires b != []
    ensures MostRecent(a + b + [k], |b|) == b[1..] + [k]
  {
    assert (a + b + [k])[|a| + 1..] == b[1..] + [k];
  }

  lemma WithoutSize(q: seq<nat>, keys: set<nat>, k: nat)
    requires Tracks(q, keys)
    ensures |Without(q, k)| == if k in keys then |q| - 1 else |q|
  {
    WithoutKey(q, keys, k);
    TracksSize(q, keys);
    TracksSize(Without(q, k), keys - {k});
  }

  /** The bounded queue is always the most recent part of the order an unbounded cache would have, so eviction drops
      exactly the keys that are not among the `capacity` most recently used ones. */
  lemma UseIsMostRecent(order: seq<nat>, keys: set<nat>, capacity: nat, k: nat)
    requires Tracks(order, keys)
    ensures Use(MostRecent(order, capacity), capacity, k) == MostRecent(Use(order, 0, k), capacity)
  {
    TracksMember(order, keys, k);
    WithoutSize(order, keys, k);
    if capacity > 0 && |order| >= capacity {
      var cut := |order| - capacity;
      var a, b := order[..cut], order[cut..];
      assert order == a + b;
      assert MostRecent(order, capacity) == b;
      var left := TracksSplit(a, b, keys);
      TracksMember(a, left, k);
      TracksMember(b, keys - left, k);
      WithoutKey(a, left, k);
      WithoutSize(a, left, k);
      WithoutKey(b, keys - left, k);
      WithoutSize(b, keys - left, k);
      if k in b {
        RecentHit(a, b, k);
      } else if k in a {
        RecentReturn(a, b, k);
      } else {
        RecentMiss(a, b, k);
      }
    }
  }
}
