/** The consistent-hashing ring: building, sorting, searching, and how little moves when a shard is added. */
module HashRing {

  /** A 32-bit hash. Two different inputs may have the same one. */
  newtype Hash = h: int | 0 <= h < 0x1_0000_0000

  /** The hash of "shard-i-j". Nothing is assumed about it. */
  type ReplicaHash = (nat, nat) -> Hash

  // ---------------------------------------------------------------- The ring as a set of points

  ghost predicate Sorted(s: seq<Hash>) {
    forall i, j :: 0 <= i < j < |s| ==> s[i] <= s[j]
  }

  ghost predicate Owns(h: ReplicaHash, replicas: nat, i: nat, p: Hash) {
    exists j: nat :: j < replicas && h(i, j) == p
  }

  /** `p` is a point of the ring of `n` shards. */
  ghost predicate Point(h: ReplicaHash, replicas: nat, n: nat, p: Hash) {
    exists i: nat :: i < n && Owns(h, replicas, i, p)
  }

  /** The shard that wrote the point last. */
  ghost predicate Owner(h: ReplicaHash, replicas: nat, n: nat, p: Hash, i: nat) {
    i < n && Owns(h, replicas, i, p) && forall k: nat :: i < k < n ==> !Owns(h, replicas, k, p)
  }

  /** The first point at or after `key`, going round to the least point of all. */
  ghost predicate Successor(h: ReplicaHash, replicas: nat, n: nat, key: Hash, p: Hash) {
    && Point(h, replicas, n, p)
    && if p >= key then forall q :: Point(h, replicas, n, q) && q >= key ==> p <= q
       else forall q :: Point(h, replicas, n, q) ==> q < key && p <= q
  }

  ghost predicate Assigned(h: ReplicaHash, replicas: nat, n: nat, key: Hash, shard: nat) {
    exists p :: Successor(h, replicas, n, key, p) && Owner(h, replicas, n, p, shard)
  }

  lemma SuccessorUnique(h: ReplicaHash, replicas: nat, n: nat, key: Hash, p: Hash, q: Hash)
    requires Successor(h, replicas, n, key, p) && Successor(h, replicas, n, key, q)
    ensures p == q
  {
  }

  /** At most one shard is assigned to a key. */
  lemma AssignedUnique(h: ReplicaHash, replicas: nat, n: nat, key: Hash, a: nat, b: nat)
    requires Assigned(h, replicas, n, key, a) && Assigned(h, replicas, n, key, b)
    ensures a == b
  {
    var p :| Successor(h, replicas, n, key, p) && Owner(h, replicas, n, p, a);
    var q :| Successor(h, replicas, n, key, q) && Owner(h, replicas, n, q, b);
    SuccessorUnique(h, replicas, n, key, p, q);
    assert a < b ==> !Owns(h, replicas, b, p);
    assert b < a ==> !Owns(h, replicas, a, p);
  }

  lemma PointGrows(h: ReplicaHash, replicas: nat, n: nat, p: Hash)
    ensures Point(h, replicas, n + 1, p) <==> Point(h, replicas, n, p) || Owns(h, replicas, n, p)
  {
    if Point(h, replicas, n + 1, p) {
      var i: nat :| i < n + 1 && Owns(h, replicas, i, p);
    }
  }

  /** Adding shard n leaves a key where it was or moves it to shard n. */
  lemma MinimalMovement(h: ReplicaHash, replicas: nat, n: nat, key: Hash, before: nat, after: nat)
    requires Assigned(h, replicas, n, key, before) && Assigned(h, replicas, n + 1, key, after)
    ensures after == before || after == n
  {
    var p :| Successor(h, replicas, n, key, p) && Owner(h, replicas, n, p, before);
    var q :| Successor(h, replicas, n + 1, key, q) && Owner(h, replicas, n + 1, q, after);
    if after != n {
      assert !Owns(h, replicas, n, q);
      forall r
        ensures Point(h, replicas, n, r) ==> Point(h, replicas, n + 1, r)
      {
        PointGrows(h, replicas, n, r);
      }
      PointGrows(h, replicas, n, q);
      assert Successor(h, replicas, n, key, q);
      SuccessorUnique(h, replicas, n, key, p, q);
      assert Owner(h, replicas, n, q, after);
      AssignedUnique(h, replicas, n, key, before, after);
    }
  }

  /** Growing from n to m shards, a key stays or goes to one of the new ones. */
  lemma {:induction false} GrowthMovesOnlyToNewShards(h: ReplicaHash, replicas: nat, n: nat, m: nat, key: Hash,
                                                      before: nat, after: nat)
    requires n <= m && Assigned(h, replicas, n, key, before) && Assigned(h, replicas, m, key, after)
    ensures after == before || n <= after < m
    decreases m - n
  {
    if n == m {
      AssignedUnique(h, replicas, n, key, before, after);
    } else {
      var p :| Successor(h, replicas, n, key, p) && Owner(h, replicas, n, p, before);
      var mid := AssignedExists(h, replicas, n + 1, key, before);
      MinimalMovement(h, replicas, n, key, before, mid);
      GrowthMovesOnlyToNewShards(h, replicas, n + 1, m, key, mid, after);
    }
  }

  /** A ring with a point assigns every key. */
  lemma AssignedExists(h: ReplicaHash, replicas: nat, n: nat, key: Hash, witness_: nat) returns (shard: nat)
    requires witness_ < n && exists p :: Owns(h, replicas, witness_, p)
    ensures Assigned(h, replicas, n, key, shard)
  {
    var some :| Owns(h, replicas, witness_, some);
    assert Point(h, replicas, n, some);
    var p := SuccessorExists(h, replicas, n, key, some);
    var i: nat :| i < n && Owns(h, replicas, i, p);
    shard := LastOwner(h, replicas, n, p, i);
  }

  lemma {:induction false} LastOwner(h: ReplicaHash, replicas: nat, n: nat, p: Hash, i: nat) returns (shard: nat)
    requires i < n && Owns(h, replicas, i, p)
    ensures Owner(h, replicas, n, p, shard)
    decreases n - i
  {
    if k: nat :| i < k < n && Owns(h, replicas, k, p) {
      shard := LastOwner(h, replicas, n, p, k);
    } else {
      shard := i;
    }
  }

  lemma {:induction false} LeastPointFrom(h: ReplicaHash, replicas: nat, n: nat, from: Hash, p: Hash)
    returns (least: Hash)
    requires Point(h, replicas, n, p) && from <= p
    ensures Point(h, replicas, n, least) && from <= least
    ensures forall q :: Point(h, replicas, n, q) && from <= q ==> least <= q
    decreases p
  {
    if q :| Point(h, replicas, n, q) && from <= q < p {
      least := LeastPointFrom(h, replicas, n, from, q);
    } else {
      least := p;
    }
  }

  lemma SuccessorExists(h: ReplicaHash, replicas: nat, n: nat, key: Hash, some: Hash) returns (p: Hash)
    requires Point(h, replicas, n, some)
    ensures Successor(h, replicas, n, key, p)
  {
    if q :| Point(h, replicas, n, q) && key <= q {
      p := LeastPointFrom(h, replicas, n, key, q);
    } else {
      p := LeastPointFrom(h, replicas, n, 0, some);
    }
  }

  // ---------------------------------------------------------------- Sorting in place

  /** `t` is `s` with s[j + 1..i] moved one place right; the gap is at j + 1, and everything moved is above `key`. */
  ghost predicate Shifted(s: seq<Hash>, t: seq<Hash>, i: int, j: int, key: Hash) {
    && |s| == |t| && -1 <= j < i < |t|
    && (forall k :: 0 <= k <= j ==> t[k] == s[k])
    && (forall k :: j + 2 <= k <= i ==> t[k] == s[k - 1] && t[k] > key)
    && multiset(t[j + 1 := key]) == multiset(s)
  }

  lemma ShiftOne(s: seq<Hash>, t: seq<Hash>, i: int, j: int, key: Hash)
    requires Shifted(s, t, i, j, key) && j >= 0 && t[j] > key
    ensures Shifted(s, t[j + 1 := t[j]], i, j - 1, key)
  {
    var before, after := t[j + 1 := key], t[j + 1 := t[j]][j := key];
    assert after == before[j + 1 := before[j]][j := before[j + 1]];
  }

  lemma ShiftEnds(s: seq<Hash>, t: seq<Hash>, i: int, j: int, key: Hash)
    requires Shifted(s, t, i, j, key) && Sorted(s[..i]) && (j >= 0 ==> t[j] <= key)
    ensures Sorted(t[j + 1 := key][..i + 1])
  {
    var r := t[j + 1 := key];
    forall a, b | 0 <= a < b < i + 1
      ensures r[a] <= r[b]
    {
      assert a <= j ==> r[a] == s[..i][a];
      assert b <= j ==> r[b] == s[..i][b];
      assert a >= j + 2 ==> r[a] == s[..i][a - 1];
      assert b >= j + 2 ==> r[b] == s[..i][b - 1];
      assert j >= 0 ==> t[j] == s[..i][j];
    }
  }

  method SortRing(ring: array<Hash>)
    modifies ring
    ensures Sorted(ring[..]) && multiset(ring[..]) == multiset(old(ring[..]))
  {
    var i := 1;
    while i < ring.Length
      invariant 1 <= i && (ring.Length > 0 ==> i <= ring.Length)
      invariant Sorted(ring[..if i < ring.Length then i else ring.Length])
      invariant multiset(ring[..]) == multiset(old(ring[..]))
    {
      InsertAt(ring, i);
      i := i + 1;
    }
    assert ring[..ring.Length] == ring[..];
  }

  method InsertAt(ring: array<Hash>, i: nat)
    requires 0 < i < ring.Length && Sorted(ring[..i])
    modifies ring
    ensures Sorted(ring[..i + 1]) && multiset(ring[..]) == multiset(old(ring[..]))
  {
    var key := ring[i];
    var j := i - 1;
    ghost var start := ring[..];
    assert start[i := key] == start;
    while j >= 0 && ring[j] > key
      invariant Shifted(start, ring[..], i, j, key)
    {
      ghost var before := ring[..];
      ShiftOne(start, before, i, j, key);
      ring[j + 1] := ring[j];
      assert ring[..] == before[j + 1 := before[j]];
      j := j - 1;
    }
    ghost var before := ring[..];
    assert start[..i] == old(ring[..i]);
    ShiftEnds(start, before, i, j, key);
    ring[j + 1] := key;
    assert ring[..] == before[j + 1 := key];
    assert ring[..i + 1] == ring[..][..i + 1];
  }

  // ---------------------------------------------------------------- The strategy

  class ConsistentHashStrategy {
    const replicas: nat
    var ring: array<Hash>
    var nodes: map<Hash, nat>

    constructor (replicas: int)
      ensures this.replicas == if replicas <= 0 then 100 else replicas
      ensures ring.Length == 0 && nodes == map[]
      ensures forall h: ReplicaHash :: Built(h, 0)
    {
      this.replicas := if replicas <= 0 then 100 else replicas;
      ring := new Hash[0];
      nodes := map[];
    }

    /** The state that Build(n) leaves behind. */
    ghost predicate Built(h: ReplicaHash, n: nat)
      reads this, ring
    {
      && Sorted(ring[..])
      && (forall p :: p in ring[..] <==> Point(h, replicas, n, p))
      && (forall p :: p in nodes <==> Point(h, replicas, n, p))
      && (forall p :: p in nodes ==> Owner(h, replicas, n, p, nodes[p]))
      && (ring.Length == 0 <==> n * replicas == 0)
    }

    /** The points written so far: those of the first `i` shards and `j` replicas of shard `i`. */
    ghost predicate Filled(h: ReplicaHash, i: nat, j: nat, written: seq<Hash>, owners: map<Hash, nat>) {
      && (forall p :: p in written <==> Point(h, replicas, i, p) || Owns(h, j, i, p))
      && (forall p :: p in owners <==> p in written)
      && (forall p :: p in owners ==>
            if Owns(h, j, i, p) then owners[p] == i else Owner(h, replicas, i, p, owners[p]))
    }

    lemma FillOne(h: ReplicaHash, i: nat, j: nat, written: seq<Hash>, owners: map<Hash, nat>)
      requires Filled(h, i, j, written, owners)
      ensures Filled(h, i, j + 1, written + [h(i, j)], owners[h(i, j) := i])
    {
      forall p
        ensures Owns(h, j + 1, i, p) <==> Owns(h, j, i, p) || p == h(i, j)
      {
        if Owns(h, j + 1, i, p) {
          var k: nat :| k < j + 1 && h(i, k) == p;
        }
      }
    }

    lemma FillShard(h: ReplicaHash, i: nat, written: seq<Hash>, owners: map<Hash, nat>)
      requires Filled(h, i, replicas, written, owners)
      ensures Filled(h, i + 1, 0, written, owners)
    {
      forall p
        ensures Point(h, replicas, i + 1, p) <==> Point(h, replicas, i, p) || Owns(h, replicas, i, p)
      {
        PointGrows(h, replicas, i, p);
      }
    }

    method Build(h: ReplicaHash, numShards: nat)
      modifies this
      ensures fresh(ring) && Built(h, numShards)
    {
      var points: seq<Hash> := [];
      nodes := map[];
      for i := 0 to numShards
        invariant |points| == i * replicas && Filled(h, i, 0, points, nodes)
      {
        for j := 0 to replicas
          invariant |points| == i * replicas + j && Filled(h, i, j, points, nodes)
        {
          FillOne(h, i, j, points, nodes);
          var hash := h(i, j);
          points := points + [hash];
          nodes := nodes[hash := i];
        }
        FillShard(h, i, points, nodes);
      }
      ring := new Hash[|points|](k requires 0 <= k < |points| => points[k]);
      assert ring[..] == points;
      SortRing(ring);
      forall p
        ensures p in ring[..] <==> p in points
      {
        assert p in multiset(ring[..]) <==> p in multiset(points);
      }
    }

    method BinarySearch(hash: Hash) returns (low: int)
      requires Sorted(ring[..])
      ensures 0 <= low <= ring.Length
      ensures forall k :: 0 <= k < low ==> ring[k] < hash
      ensures forall k :: low <= k < ring.Length ==> ring[k] >= hash
    {
      low := 0;
      var high := ring.Length - 1;
      while low <= high
        invariant 0 <= low <= high + 1 <= ring.Length
        invariant forall k :: 0 <= k < low ==> ring[k] < hash
        invariant forall k :: high < k < ring.Length ==> ring[k] >= hash
      {
        var mid := (low + high) / 2;
        assert forall k :: 0 <= k < ring.Length ==> ring[..][k] == ring[k];
        if ring[mid] < hash {
          low := mid + 1;
        } else {
          high := mid - 1;
        }
      }
    }

    /** `hash` is the hash of the key. An unbuilt ring delegates to the modulo strategy, whose answer is `fallback`. */
    method GetShard(h: ReplicaHash, ghost n: nat, hash: Hash, fallback: int) returns (shard: int)
      requires Built(h, n)
      ensures if n * replicas == 0 then shard == fallback else 0 <= shard < n && Assigned(h, replicas, n, hash, shard)
    {
      if ring.Length == 0 {
        return fallback;
      }
      var idx := BinarySearch(hash);
      if idx >= ring.Length {
        idx := 0;
      }
      var p := ring[idx];
      assert ring[..][idx] == p;
      assert p in ring[..];
      forall q | q in ring[..]
        ensures if p >= hash then q >= hash ==> p <= q else q < hash && p <= q
      {
        var k :| 0 <= k < ring.Length && ring[..][k] == q;
      }
      assert Successor(h, replicas, n, hash, p);
      return nodes[p];
    }
  }

  method Locate(strategy: ConsistentHashStrategy, h: ReplicaHash, n: nat, key: Hash) returns (shard: int)
    requires n > 0 && strategy.replicas > 0
    modifies strategy
    ensures 0 <= shard < n && Assigned(h, strategy.replicas, n, key, shard)
  {
    strategy.Build(h, n);
    shard := strategy.GetShard(h, n, key, 0);
  }

  /** Rebuilding the ring for one shard more: every key stays or moves to the new shard. */
  method RebuildMovesLittle(h: ReplicaHash, replicas: int, n: nat, key: Hash) returns (before: int, after: int)
    requires n > 0
    ensures 0 <= before < n && 0 <= after <= n
    ensures after == before || after == n
  {
    var strategy := new ConsistentHashStrategy(replicas);
    before := Locate(strategy, h, n, key);
    after := Locate(strategy, h, n + 1, key);
    MinimalMovement(h, strategy.replicas, n, key, before, after);
  }
}
