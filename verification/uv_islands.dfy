/**
 UV islands (`findUVIslands` in src/UvChecker.cpp): two faces are adjacent
 when they reference a common UV index, and an island is a connected
 component of that adjacency, found by breadth-first search from the lowest
 face not yet visited.

 The adjacency lists are built as the source builds them: a map from each UV
 index to the faces that use it (one entry per use), then every pair of
 entries of every bucket, buckets in ascending key order.
 */
module UvIslands {
  import opened Common
  import opened MeshModel

  /** `uv_indices[3f + j]`; a fixed value outside the array, which callers
      rule out by providing three UV indices per face. */
  function UvIndexOf(m: Mesh, f: int, j: int): nat {
    if 0 <= 3 * f + j < |m.uvIndices| then m.uvIndices[3 * f + j] else 0
  }

  predicate HasFaceUvIndices(m: Mesh) {
    |m.uvIndices| >= 3 * FaceCount(m)
  }

  /** Face `f` references UV index `key` at one of its corners. */
  predicate UsesUv(m: Mesh, f: int, key: nat) {
    0 <= f < FaceCount(m) && exists j :: 0 <= j < 3 && UvIndexOf(m, f, j) == key
  }

  /** Faces `a` and `b` reference a common UV index (every face shares one
      with itself). */
  predicate SharesUv(m: Mesh, a: int, b: int) {
    && 0 <= a < FaceCount(m) && 0 <= b < FaceCount(m)
    && exists j, k :: 0 <= j < 3 && 0 <= k < 3 && UvIndexOf(m, a, j) == UvIndexOf(m, b, k)
  }

  lemma SharesUvSymmetric(m: Mesh, a: int, b: int)
    ensures SharesUv(m, a, b) <==> SharesUv(m, b, a)
  {
    if SharesUv(m, a, b) {
      var j, k :| 0 <= j < 3 && 0 <= k < 3 && UvIndexOf(m, a, j) == UvIndexOf(m, b, k);
      assert UvIndexOf(m, b, k) == UvIndexOf(m, a, j);
    }
    if SharesUv(m, b, a) {
      var j, k :| 0 <= j < 3 && 0 <= k < 3 && UvIndexOf(m, b, j) == UvIndexOf(m, a, k);
      assert UvIndexOf(m, a, k) == UvIndexOf(m, b, j);
    }
  }

  /** Two faces share a UV index exactly when both use some one index. */
  lemma SharesUvViaKey(m: Mesh, a: int, b: int)
    ensures SharesUv(m, a, b) <==> exists key: nat :: UsesUv(m, a, key) && UsesUv(m, b, key)
  {
    if SharesUv(m, a, b) {
      var j, k :| 0 <= j < 3 && 0 <= k < 3 && UvIndexOf(m, a, j) == UvIndexOf(m, b, k);
      var key := UvIndexOf(m, a, j);
      assert UsesUv(m, a, key) && UsesUv(m, b, key);
    }
    if exists key: nat :: UsesUv(m, a, key) && UsesUv(m, b, key) {
      var key: nat :| UsesUv(m, a, key) && UsesUv(m, b, key);
      var j :| 0 <= j < 3 && UvIndexOf(m, a, j) == key;
      var k :| 0 <= k < 3 && UvIndexOf(m, b, k) == key;
      assert UvIndexOf(m, a, j) == UvIndexOf(m, b, k);
    }
  }

  /** `uv_to_face_map`: for every UV index used by a face, the faces using
      it, one entry per corner that uses it, in face order. */
  method BuildUvToFaceMap(m: Mesh) returns (faceMap: map<nat, seq<nat>>)
    requires HasFaceUvIndices(m)
    ensures forall key :: key in faceMap ==> forall f :: f in faceMap[key] <==> UsesUv(m, f, key)
    ensures forall f, key :: UsesUv(m, f, key) ==> key in faceMap
  {
    faceMap := map[];
    var n := FaceCount(m);
    var i := 0;
    while i < n
      invariant 0 <= i <= n
      invariant forall key :: key in faceMap ==>
        forall f :: f in faceMap[key] <==> UsesUv(m, f, key) && f < i
      invariant forall f, key :: UsesUv(m, f, key) && f < i ==> key in faceMap
    {
      var j := 0;
      while j < 3
        invariant 0 <= j <= 3
        invariant forall key :: key in faceMap ==>
          forall f :: f in faceMap[key] <==>
            (UsesUv(m, f, key) && f < i) || (f == i && exists j' :: 0 <= j' < j && UvIndexOf(m, i, j') == key)
        invariant forall f, key :: UsesUv(m, f, key) && f < i ==> key in faceMap
        invariant forall j' :: 0 <= j' < j ==> UvIndexOf(m, i, j') in faceMap
      {
        var key := m.uvIndices[i * 3 + j];
        assert key == UvIndexOf(m, i, j);
        var bucket := if key in faceMap then faceMap[key] else [];
        faceMap := faceMap[key := bucket + [i]];
        j := j + 1;
      }
      i := i + 1;
    }
  }

  /** Two different positions of bucket `bucket` hold `a` and `b`. */
  predicate LinkedBy(bucket: seq<nat>, a: int, b: int) {
    exists p, q :: 0 <= p < |bucket| && 0 <= q < |bucket| && p != q && bucket[p] == a && bucket[q] == b
  }

  /** The pairs (p, q), p < q, of `bucket` with p below `p0`, in either
      direction. */
  predicate LinkedFrom(bucket: seq<nat>, p0: int, a: int, b: int) {
    exists p, q :: 0 <= p < p0 && p < q < |bucket|
      && ((bucket[p] == a && bucket[q] == b) || (bucket[q] == a && bucket[p] == b))
  }

  lemma LinkedFromAll(bucket: seq<nat>, a: int, b: int)
    ensures LinkedFrom(bucket, |bucket|, a, b) <==> LinkedBy(bucket, a, b)
  {
    if LinkedBy(bucket, a, b) {
      var p, q :| 0 <= p < |bucket| && 0 <= q < |bucket| && p != q && bucket[p] == a && bucket[q] == b;
      if p < q {
        assert 0 <= p < |bucket| && p < q < |bucket| && bucket[p] == a && bucket[q] == b;
      } else {
        assert 0 <= q < |bucket| && q < p < |bucket| && bucket[p] == a && bucket[q] == b;
      }
    }
  }

  predicate ValidAdjacency(n: nat, adj: seq<seq<nat>>) {
    |adj| == n && forall a, s :: 0 <= a < n && 0 <= s < |adj[a]| ==> adj[a][s] < n
  }

  /** One step of the pair loop: `adj[x].push_back(y)`. */
  function Push(adj: seq<seq<nat>>, x: nat, y: nat): (adj': seq<seq<nat>>)
    requires x < |adj|
    ensures |adj'| == |adj|
    ensures forall a, b :: 0 <= a < |adj| ==> (b in adj'[a] <==> b in adj[a] || (a == x && b == y))
    ensures forall a :: 0 <= a < |adj| && a != x ==> adj'[a] == adj[a]
  {
    adj[x := adj[x] + [y]]
  }

  /** Entry `p` of `bucket` paired, either way, with one of the entries
      after it and before `q0`. */
  predicate LinkedUpTo(bucket: seq<nat>, p: int, q0: int, a: int, b: int) {
    exists q :: 0 <= p < q < q0 && q < |bucket|
      && ((bucket[p] == a && bucket[q] == b) || (bucket[q] == a && bucket[p] == b))
  }

  /** Linking `bucket[p]` with every later entry of the bucket. */
  method LinkFrom(n: nat, adj: seq<seq<nat>>, bucket: seq<nat>, p: nat) returns (adj': seq<seq<nat>>)
    requires ValidAdjacency(n, adj)
    requires forall s :: 0 <= s < |bucket| ==> bucket[s] < n
    requires p < |bucket|
    ensures ValidAdjacency(n, adj')
    ensures forall a, b :: 0 <= a < n ==>
      (b in adj'[a] <==> b in adj[a] || LinkedUpTo(bucket, p, |bucket|, a, b))
  {
    adj' := adj;
    var q := p + 1;
    while q < |bucket|
      invariant p + 1 <= q <= |bucket|
      invariant ValidAdjacency(n, adj')
      invariant forall a, b :: 0 <= a < n ==>
        (b in adj'[a] <==> b in adj[a] || LinkedUpTo(bucket, p, q, a, b))
    {
      adj' := Push(adj', bucket[p], bucket[q]);
      adj' := Push(adj', bucket[q], bucket[p]);
      q := q + 1;
    }
  }

  /** Linking every pair of entries of one bucket. */
  method LinkBucket(n: nat, adj: seq<seq<nat>>, bucket: seq<nat>) returns (adj': seq<seq<nat>>)
    requires ValidAdjacency(n, adj)
    requires forall s :: 0 <= s < |bucket| ==> bucket[s] < n
    ensures ValidAdjacency(n, adj')
    ensures forall a, b :: 0 <= a < n ==> (b in adj'[a] <==> b in adj[a] || LinkedBy(bucket, a, b))
  {
    adj' := adj;
    var p := 0;
    while p < |bucket|
      invariant 0 <= p <= |bucket|
      invariant ValidAdjacency(n, adj')
      invariant forall a, b :: 0 <= a < n ==> (b in adj'[a] <==> b in adj[a] || LinkedFrom(bucket, p, a, b))
    {
      var next := LinkFrom(n, adj', bucket, p);
      forall a, b | 0 <= a < n
        ensures b in next[a] <==> b in adj[a] || LinkedFrom(bucket, p + 1, a, b)
      {
        if LinkedFrom(bucket, p + 1, a, b) && !LinkedFrom(bucket, p, a, b) {
          var p', q :| 0 <= p' < p + 1 && p' < q < |bucket|
            && ((bucket[p'] == a && bucket[q] == b) || (bucket[q] == a && bucket[p'] == b));
          assert p' == p;
        }
      }
      adj' := next;
      p := p + 1;
    }
    forall a, b | 0 <= a < n
      ensures b in adj'[a] <==> b in adj[a] || LinkedBy(bucket, a, b)
    {
      LinkedFromAll(bucket, a, b);
    }
  }

  /** Faces `a` and `b` sit at different positions of one bucket among the
      first `t` keys. */
  predicate LinkedInKeys(faceMap: map<nat, seq<nat>>, keys: seq<nat>, t: int, a: int, b: int) {
    exists s :: 0 <= s < t && s < |keys| && keys[s] in faceMap && LinkedBy(faceMap[keys[s]], a, b)
  }

  /** A bucket map as `uv_to_face_map` is built: each key's bucket holds
      exactly the faces using that UV index, and every used index is a key. */
  ghost predicate IsFaceMap(m: Mesh, faceMap: map<nat, seq<nat>>) {
    && (forall key :: key in faceMap ==> forall f :: f in faceMap[key] <==> UsesUv(m, f, key))
    && (forall f, key :: UsesUv(m, f, key) ==> key in faceMap)
  }

  /** The outer loop over the buckets, in the order of `keys`. */
  method LinkAll(n: nat, faceMap: map<nat, seq<nat>>, keys: seq<nat>) returns (adj: seq<seq<nat>>)
    requires forall s :: 0 <= s < |keys| ==> keys[s] in faceMap
    requires forall key :: key in faceMap ==> forall f :: f in faceMap[key] ==> f < n
    ensures ValidAdjacency(n, adj)
    ensures forall a, b :: 0 <= a < n ==> (b in adj[a] <==> LinkedInKeys(faceMap, keys, |keys|, a, b))
  {
    adj := seq(n, _ => []);
    var t := 0;
    while t < |keys|
      invariant 0 <= t <= |keys|
      invariant ValidAdjacency(n, adj)
      invariant forall a, b :: 0 <= a < n ==> (b in adj[a] <==> LinkedInKeys(faceMap, keys, t, a, b))
    {
      var bucket := faceMap[keys[t]];
      assert forall s :: 0 <= s < |bucket| ==> bucket[s] in faceMap[keys[t]];
      var next := LinkBucket(n, adj, bucket);
      forall a, b | 0 <= a < n
        ensures b in next[a] <==> LinkedInKeys(faceMap, keys, t + 1, a, b)
      {
        if LinkedInKeys(faceMap, keys, t + 1, a, b) && !LinkedInKeys(faceMap, keys, t, a, b) {
          var s :| 0 <= s < t + 1 && s < |keys| && keys[s] in faceMap && LinkedBy(faceMap[keys[s]], a, b);
          assert s == t;
        }
      }
      adj := next;
      t := t + 1;
    }
  }

  /** Faces linked through some bucket share a UV index. */
  lemma LinkedShares(m: Mesh, faceMap: map<nat, seq<nat>>, keys: seq<nat>, a: nat, b: nat)
    requires IsFaceMap(m, faceMap)
    requires LinkedInKeys(faceMap, keys, |keys|, a, b)
    ensures SharesUv(m, a, b)
  {
    var s :| 0 <= s < |keys| && keys[s] in faceMap && LinkedBy(faceMap[keys[s]], a, b);
    var bucket := faceMap[keys[s]];
    var p, q :| 0 <= p < |bucket| && 0 <= q < |bucket| && p != q && bucket[p] == a && bucket[q] == b;
    assert bucket[p] in bucket && bucket[q] in bucket;
    SharesUvViaKey(m, a, b);
  }

  /** Two different faces sharing a UV index are linked through that
      index's bucket. */
  lemma SharesLinked(m: Mesh, faceMap: map<nat, seq<nat>>, keys: seq<nat>, a: nat, b: nat)
    requires IsFaceMap(m, faceMap)
    requires forall key :: key in faceMap ==> key in keys
    requires a != b && SharesUv(m, a, b)
    ensures LinkedInKeys(faceMap, keys, |keys|, a, b)
  {
    SharesUvViaKey(m, a, b);
    var key: nat :| UsesUv(m, a, key) && UsesUv(m, b, key);
    var bucket := faceMap[key];
    assert a in bucket && b in bucket;
    var p :| 0 <= p < |bucket| && bucket[p] == a;
    var q :| 0 <= q < |bucket| && bucket[q] == b;
    assert LinkedBy(bucket, a, b);
    var s :| 0 <= s < |keys| && keys[s] == key;
  }

  /** The adjacency lists: for each bucket in ascending key order, every
      pair of its entries is linked both ways. Two different faces are
      adjacent exactly when they share a UV index; a face lists itself only
      if it uses one UV index twice. */
  method BuildAdjacency(m: Mesh, faceMap: map<nat, seq<nat>>) returns (adj: seq<seq<nat>>)
    requires HasFaceUvIndices(m)
    requires forall key :: key in faceMap ==> forall f :: f in faceMap[key] <==> UsesUv(m, f, key)
    requires forall f, key :: UsesUv(m, f, key) ==> key in faceMap
    ensures ValidAdjacency(FaceCount(m), adj)
    ensures forall a, b :: 0 <= a < FaceCount(m) && b in adj[a] ==> SharesUv(m, a, b)
    ensures forall a, b :: a != b && SharesUv(m, a, b) ==> b in adj[a]
  {
    var n := FaceCount(m);
    var keys := SortedElements(faceMap.Keys);
    assert IsFaceMap(m, faceMap);
    adj := LinkAll(n, faceMap, keys);
    forall a, b | 0 <= a < n && b in adj[a]
      ensures SharesUv(m, a, b)
    {
      LinkedShares(m, faceMap, keys, a, b);
    }
    forall a, b | a != b && SharesUv(m, a, b)
      ensures b in adj[a]
    {
      SharesLinked(m, faceMap, keys, a, b);
    }
  }

  /** A walk through faces, each sharing a UV index with the next. */
  ghost predicate IsUvPath(m: Mesh, p: seq<nat>) {
    && |p| >= 1
    && (forall i :: 0 <= i < |p| ==> p[i] < FaceCount(m))
    && (forall i :: 0 <= i < |p| - 1 ==> SharesUv(m, p[i], p[i + 1]))
  }

  /** `a` and `b` are in one connected component of the sharing relation. */
  ghost predicate UvConnected(m: Mesh, a: int, b: int) {
    exists p :: IsUvPath(m, p) && p[0] == a && p[|p| - 1] == b
  }

  ghost function Unvisited(visited: seq<bool>): set<int> {
    set f | 0 <= f < |visited| && !visited[f]
  }

  lemma MarkVisited(visited: seq<bool>, v: int)
    requires 0 <= v < |visited| && !visited[v]
    ensures |Unvisited(visited[v := true])| == |Unvisited(visited)| - 1
  {
    assert Unvisited(visited[v := true]) == Unvisited(visited) - {v};
  }

  /** The labelling so far: a visited face carries the id of an island
      whose root (lowest face) it is connected to; roots ascend with ids. */
  ghost predicate Labelled(m: Mesh, visited: seq<bool>, ids: seq<int>, roots: seq<nat>, paths: seq<seq<nat>>) {
    var n := FaceCount(m);
    && |visited| == n && |ids| == n && |paths| == n
    && (forall f :: 0 <= f < n ==> (visited[f] <==> 0 <= ids[f] < |roots|))
    && (forall f :: 0 <= f < n && !visited[f] ==> ids[f] == -1)
    && (forall k :: 0 <= k < |roots| ==> roots[k] < n && visited[roots[k]] && ids[roots[k]] == k)
    && (forall k1, k2 :: 0 <= k1 < k2 < |roots| ==> roots[k1] < roots[k2])
    && (forall f :: 0 <= f < n && visited[f] ==> roots[ids[f]] <= f)
    && (forall f :: 0 <= f < n && visited[f] ==>
          IsUvPath(m, paths[f]) && paths[f][0] == roots[ids[f]] && paths[f][|paths[f]| - 1] == f)
  }

  /** Islands with an id below `k` are closed under sharing a UV index. */
  ghost predicate ClosedBelow(m: Mesh, visited: seq<bool>, ids: seq<int>, k: int) {
    forall a, b ::
      (&& 0 <= a < |visited| && 0 <= b < |visited| && a < |ids| && b < |ids|
       && visited[a] && ids[a] < k && SharesUv(m, a, b))
      ==> visited[b] && ids[b] == ids[a]
  }

  /** `islands[k]` lists the faces labelled `k`, each once. */
  ghost predicate ListsIslands(visited: seq<bool>, ids: seq<int>, islands: seq<seq<nat>>) {
    forall k :: 0 <= k < |islands| ==>
      && NoDuplicates(islands[k])
      && forall f: nat :: f in islands[k] <==> f < |visited| && f < |ids| && visited[f] && ids[f] == k
  }

  /** Labelling an unvisited neighbour of a face of the newest island
      keeps the labelling invariants. */
  lemma LabelNeighbour(m: Mesh, u: nat, v: nat, k: nat, visited: seq<bool>, ids: seq<int>,
                       roots: seq<nat>, paths: seq<seq<nat>>)
    requires Labelled(m, visited, ids, roots, paths) && |roots| == k + 1
    requires u < FaceCount(m) && visited[u] && ids[u] == k
    requires v < FaceCount(m) && !visited[v] && SharesUv(m, u, v)
    requires ClosedBelow(m, visited, ids, k)
    requires forall f :: 0 <= f < roots[k] ==> visited[f]
    ensures Labelled(m, visited[v := true], ids[v := k], roots, paths[v := paths[u] + [v]])
    ensures ClosedBelow(m, visited[v := true], ids[v := k], k)
  {
    var p := paths[u] + [v];
    assert forall i :: 0 <= i < |paths[u]| ==> p[i] == paths[u][i];
    assert IsUvPath(m, p);
  }

  /** The inner loop of the search: every unvisited neighbour of `u` is
      marked and labelled with the current island; `queued` lists them in the
      order they are pushed onto the queue. */
  method VisitNeighbours(m: Mesh, adj: seq<seq<nat>>, u: nat, k: nat, visited: seq<bool>, ids: seq<int>,
                         ghost roots: seq<nat>, ghost paths: seq<seq<nat>>)
    returns (visited': seq<bool>, ids': seq<int>, queued: seq<nat>, ghost paths': seq<seq<nat>>)
    requires ValidAdjacency(FaceCount(m), adj)
    requires forall a, b :: 0 <= a < FaceCount(m) && b in adj[a] ==> SharesUv(m, a, b)
    requires Labelled(m, visited, ids, roots, paths) && |roots| == k + 1
    requires u < FaceCount(m) && visited[u] && ids[u] == k
    requires ClosedBelow(m, visited, ids, k)
    requires forall f :: 0 <= f < roots[k] ==> visited[f]
    ensures Labelled(m, visited', ids', roots, paths')
    ensures ClosedBelow(m, visited', ids', k)
    ensures forall b :: b in adj[u] ==> visited'[b] && ids'[b] == k
    ensures Grown(m, k, visited, ids, visited', ids', queued)
  {
    visited', ids', queued, paths' := visited, ids, [], paths;
    var s := 0;
    while s < |adj[u]|
      invariant s <= |adj[u]|
      invariant Visiting(m, adj, u, k, s, visited, ids, roots, visited', ids', queued, paths')
    {
      visited', ids', queued, paths' := VisitNext(m, adj, u, k, s, visited, ids, roots, visited', ids', queued, paths');
      s := s + 1;
    }
  }

  /** The invariant of the inner loop after the first `s` neighbours of `u`. */
  ghost predicate Visiting(m: Mesh, adj: seq<seq<nat>>, u: nat, k: nat, s: nat, visited: seq<bool>, ids: seq<int>,
                           roots: seq<nat>, visited': seq<bool>, ids': seq<int>, queued: seq<nat>,
                           paths': seq<seq<nat>>)
    requires u < |adj| && s <= |adj[u]|
  {
    && Labelled(m, visited', ids', roots, paths') && |roots| == k + 1
    && u < FaceCount(m) && visited'[u] && ids'[u] == k
    && ClosedBelow(m, visited', ids', k)
    && (forall f :: 0 <= f < roots[k] ==> visited'[f])
    && (forall t :: 0 <= t < s ==> adj[u][t] < |visited'| && visited'[adj[u][t]] && ids'[adj[u][t]] == k)
    && Grown(m, k, visited, ids, visited', ids', queued)
  }

  /** One turn of the inner loop: visit the `s`-th neighbour of `u`. */
  method VisitNext(m: Mesh, adj: seq<seq<nat>>, u: nat, k: nat, s: nat, visited: seq<bool>, ids: seq<int>,
                   ghost roots: seq<nat>, visited1: seq<bool>, ids1: seq<int>, queued1: seq<nat>,
                   ghost paths1: seq<seq<nat>>)
    returns (visited2: seq<bool>, ids2: seq<int>, queued2: seq<nat>, ghost paths2: seq<seq<nat>>)
    requires ValidAdjacency(FaceCount(m), adj)
    requires forall a, b :: 0 <= a < FaceCount(m) && b in adj[a] ==> SharesUv(m, a, b)
    requires u < |adj| && s < |adj[u]|
    requires Visiting(m, adj, u, k, s, visited, ids, roots, visited1, ids1, queued1, paths1)
    ensures Visiting(m, adj, u, k, s + 1, visited, ids, roots, visited2, ids2, queued2, paths2)
  {
    var v := adj[u][s];
    SharesUvSymmetric(m, u, v);
    visited2, ids2, queued2, paths2 := VisitOne(m, u, v, k, visited1, ids1, queued1, roots, paths1);
    GrownStep(m, k, v, visited, ids, visited1, ids1, queued1, visited2, ids2, queued2);
    NeighboursSoFar(adj[u], s, k, visited1, ids1, visited2, ids2);
  }

  /** The first `s + 1` neighbours carry id `k` once the `s`-th has been
      visited and the earlier ones kept their ids. */
  lemma NeighboursSoFar(ns: seq<nat>, s: nat, k: nat, visited1: seq<bool>, ids1: seq<int>,
                        visited2: seq<bool>, ids2: seq<int>)
    requires s < |ns| && |visited1| == |ids1| == |visited2| == |ids2|
    requires forall t :: 0 <= t < s ==> ns[t] < |visited1| && visited1[ns[t]] && ids1[ns[t]] == k
    requires forall f :: 0 <= f < |visited1| && visited1[f] ==> visited2[f] && ids2[f] == ids1[f]
    requires ns[s] < |visited2| && visited2[ns[s]] && ids2[ns[s]] == k
    ensures forall t :: 0 <= t < s + 1 ==> ns[t] < |visited2| && visited2[ns[t]] && ids2[ns[t]] == k
  {
    forall t | 0 <= t < s + 1 ensures ns[t] < |visited2| && visited2[ns[t]] && ids2[ns[t]] == k {
      if t < s {
        assert visited1[ns[t]];
      }
    }
  }

  /** What the inner loop has added so far: faces visited before keep their
      ids, newly visited faces get id `k` and are exactly the queued ones,
      each queued once, and every queued face has left the unvisited set. */
  ghost predicate Grown(m: Mesh, k: nat, visited: seq<bool>, ids: seq<int>, visited': seq<bool>, ids': seq<int>,
                        queued: seq<nat>) {
    && |visited| == |ids| == |visited'| == |ids'| == FaceCount(m)
    && (forall f :: 0 <= f < FaceCount(m) && visited[f] ==> visited'[f] && ids'[f] == ids[f])
    && (forall f :: 0 <= f < FaceCount(m) && visited'[f] && !visited[f] ==> ids'[f] == k)
    && (forall f: nat :: f in queued <==> f < FaceCount(m) && visited'[f] && !visited[f])
    && NoDuplicates(queued)
    && |Unvisited(visited')| + |queued| == |Unvisited(visited)|
  }

  lemma GrownStep(m: Mesh, k: nat, v: nat, visited: seq<bool>, ids: seq<int>,
                  visited1: seq<bool>, ids1: seq<int>, queued1: seq<nat>,
                  visited2: seq<bool>, ids2: seq<int>, queued2: seq<nat>)
    requires |visited2| == |ids2| == FaceCount(m) && v < FaceCount(m)
    requires Grown(m, k, visited, ids, visited1, ids1, queued1)
    requires visited2[v] && ids2[v] == k
    requires forall f :: 0 <= f < FaceCount(m) && visited1[f] ==> visited2[f] && ids2[f] == ids1[f]
    requires forall f :: 0 <= f < FaceCount(m) && visited2[f] && !visited1[f] ==> f == v && ids2[f] == k
    requires queued2 == if visited1[v] then queued1 else queued1 + [v]
    requires |Unvisited(visited2)| + |queued2| == |Unvisited(visited1)| + |queued1|
    ensures Grown(m, k, visited, ids, visited2, ids2, queued2)
  {
    if !visited1[v] {
      assert v !in queued1;
      NoDuplicatesAppend(queued1, [v]);
    }
  }

  /** Visiting one neighbour `v` of `u`: label and enqueue it unless it is
      already visited, in which case it already belongs to island `k`. */
  method VisitOne(m: Mesh, u: nat, v: nat, k: nat, visited: seq<bool>, ids: seq<int>,
                  q: seq<nat>, ghost roots: seq<nat>, ghost paths: seq<seq<nat>>)
    returns (visited': seq<bool>, ids': seq<int>, q': seq<nat>, ghost paths': seq<seq<nat>>)
    requires Labelled(m, visited, ids, roots, paths) && |roots| == k + 1
    requires u < FaceCount(m) && visited[u] && ids[u] == k
    requires v < FaceCount(m) && SharesUv(m, u, v) && SharesUv(m, v, u)
    requires ClosedBelow(m, visited, ids, k)
    requires forall f :: 0 <= f < roots[k] ==> visited[f]
    ensures Labelled(m, visited', ids', roots, paths')
    ensures ClosedBelow(m, visited', ids', k)
    ensures visited'[v] && ids'[v] == k
    ensures forall f :: 0 <= f < FaceCount(m) && visited[f] ==> visited'[f] && ids'[f] == ids[f]
    ensures forall f :: 0 <= f < FaceCount(m) && visited'[f] && !visited[f] ==> f == v && ids'[f] == k
    ensures q' == if visited[v] then q else q + [v]
    ensures |Unvisited(visited')| + |q'| == |Unvisited(visited)| + |q|
  {
    visited', ids', q', paths' := visited, ids, q, paths;
    if !visited[v] {
      MarkVisited(visited, v);
      LabelNeighbour(m, u, v, k, visited, ids, roots, paths);
      paths' := paths[v := paths[u] + [v]];
      visited' := visited[v := true];
      ids' := ids[v := k];
      q' := q + [v];
    }
  }

  lemma StartIsland(m: Mesh, i: nat, visited: seq<bool>, ids: seq<int>, roots: seq<nat>, paths: seq<seq<nat>>)
    requires Labelled(m, visited, ids, roots, paths)
    requires ClosedBelow(m, visited, ids, |roots|)
    requires i < FaceCount(m) && !visited[i]
    requires forall j :: 0 <= j < |roots| ==> roots[j] < i
    ensures Labelled(m, visited[i := true], ids[i := |roots|], roots + [i], paths[i := [i]])
    ensures ClosedBelow(m, visited[i := true], ids[i := |roots|], |roots|)
  {
    var roots' := roots + [i];
    assert forall f :: 0 <= f < FaceCount(m) && visited[f] ==> roots'[ids[f]] == roots[ids[f]];
  }

  /** One breadth-first search from the unvisited face `i`: labels its whole
      connected component `k` and returns its faces in visiting order. */
  method ExploreIsland(m: Mesh, adj: seq<seq<nat>>, i: nat, k: nat, visited: seq<bool>, ids: seq<int>,
                       ghost roots: seq<nat>, ghost paths: seq<seq<nat>>)
    returns (visited': seq<bool>, ids': seq<int>, island: seq<nat>, ghost paths': seq<seq<nat>>)
    requires ValidAdjacency(FaceCount(m), adj)
    requires forall a, b :: 0 <= a < FaceCount(m) && b in adj[a] ==> SharesUv(m, a, b)
    requires forall a, b :: 0 <= a < FaceCount(m) && a != b && SharesUv(m, a, b) ==> b in adj[a]
    requires Labelled(m, visited, ids, roots, paths) && |roots| == k
    requires ClosedBelow(m, visited, ids, k)
    requires i < FaceCount(m) && !visited[i]
    requires forall f :: 0 <= f < i ==> visited[f]
    requires forall j :: 0 <= j < k ==> roots[j] < i
    ensures Labelled(m, visited', ids', roots + [i], paths')
    ensures ClosedBelow(m, visited', ids', k + 1)
    ensures forall f :: 0 <= f < FaceCount(m) && visited[f] ==> visited'[f] && ids'[f] == ids[f]
    ensures forall f :: 0 <= f < FaceCount(m) && visited'[f] && !visited[f] ==> ids'[f] == k
    ensures visited'[i]
    ensures NoDuplicates(island) && |island| > 0 && island[0] == i
    ensures forall f: nat :: f in island <==> f < FaceCount(m) && visited'[f] && ids'[f] == k
  {
    ghost var roots' := roots + [i];
    StartIsland(m, i, visited, ids, roots, paths);
    var q: seq<nat> := [i];
    visited', ids', paths' := visited[i := true], ids[i := k], paths[i := [i]];
    island := [];
    while |q| > 0
      invariant Exploring(m, k, i, visited, ids, visited', ids', roots', paths', island, q)
      decreases |Unvisited(visited')| + |q|
    {
      visited', ids', paths', island, q := SearchStep(m, adj, k, i, visited, ids, visited', ids', roots', paths', island, q);
    }
    assert island + q == island;
    ClosedOnceDrained(m, k, visited', ids', island);
  }

  /** The state of the search for island `k` rooted at `i`, relative to the
      labelling (`visited0`, `ids0`) before it began: `island` holds the
      dequeued faces, whose neighbours are all labelled, and `q` the faces
      labelled but not yet dequeued. */
  ghost predicate Exploring(m: Mesh, k: nat, i: nat, visited0: seq<bool>, ids0: seq<int>,
                            visited: seq<bool>, ids: seq<int>, roots: seq<nat>, paths: seq<seq<nat>>,
                            island: seq<nat>, q: seq<nat>) {
    && Labelled(m, visited, ids, roots, paths) && |roots| == k + 1 && roots[k] == i
    && |visited0| == FaceCount(m) && |ids0| == FaceCount(m)
    && ClosedBelow(m, visited, ids, k)
    && (forall f :: 0 <= f < FaceCount(m) && visited0[f] ==> visited[f] && ids[f] == ids0[f])
    && (forall f :: 0 <= f < FaceCount(m) && visited[f] && !visited0[f] ==> ids[f] == k)
    && (forall f :: 0 <= f < i ==> visited0[f])
    && (forall f: nat :: (f < FaceCount(m) && visited[f] && ids[f] == k) <==> (f in island || f in q))
    && NoDuplicates(island + q)
    && (forall a, b :: a in island && 0 <= b < FaceCount(m) && SharesUv(m, a, b) ==> visited[b] && ids[b] == k)
    && (island == [] ==> q == [i])
    && (island != [] ==> island[0] == i)
  }

  /** One turn of the search loop: dequeue a face and visit its neighbours. */
  method SearchStep(m: Mesh, adj: seq<seq<nat>>, k: nat, i: nat, ghost visited0: seq<bool>, ghost ids0: seq<int>,
                    visited: seq<bool>, ids: seq<int>, ghost roots: seq<nat>, ghost paths: seq<seq<nat>>,
                    island: seq<nat>, q: seq<nat>)
    returns (visited': seq<bool>, ids': seq<int>, ghost paths': seq<seq<nat>>, island': seq<nat>, q': seq<nat>)
    requires ValidAdjacency(FaceCount(m), adj)
    requires forall a, b :: 0 <= a < FaceCount(m) && b in adj[a] ==> SharesUv(m, a, b)
    requires forall a, b :: 0 <= a < FaceCount(m) && a != b && SharesUv(m, a, b) ==> b in adj[a]
    requires Exploring(m, k, i, visited0, ids0, visited, ids, roots, paths, island, q) && |q| > 0
    ensures Exploring(m, k, i, visited0, ids0, visited', ids', roots, paths', island', q')
    ensures |Unvisited(visited')| + |q'| < |Unvisited(visited)| + |q|
  {
    var u := q[0];
    assert u in q;
    var rest := q[1..];
    assert island + [u] + rest == island + q;
    island' := island + [u];
    assert forall f: nat :: f in island' + rest ==> f < FaceCount(m) && visited[f] && ids[f] == k;
    var queued;
    visited', ids', queued, paths' := VisitNeighbours(m, adj, u, k, visited, ids, roots, paths);
    q' := rest + queued;
    assert island' + q' == (island' + rest) + queued;
    NoDuplicatesAppend(island' + rest, queued);
    forall f: nat | f < FaceCount(m) && visited'[f] && ids'[f] == k
      ensures f in island' || f in q'
    {
      if !visited[f] {
        assert f in queued;
      }
    }
    forall f: nat | f in island' || f in q'
      ensures f < FaceCount(m) && visited'[f] && ids'[f] == k
    {
      if f !in queued {
        assert f in island' + rest;
      }
    }
  }

  /** With the queue drained, the island is closed under sharing a UV. */
  lemma ClosedOnceDrained(m: Mesh, k: nat, visited: seq<bool>, ids: seq<int>, island: seq<nat>)
    requires |visited| == FaceCount(m) && |ids| == FaceCount(m)
    requires ClosedBelow(m, visited, ids, k)
    requires forall f: nat :: (f < FaceCount(m) && visited[f] && ids[f] == k) <==> f in island
    requires forall f :: 0 <= f < FaceCount(m) && visited[f] ==> ids[f] <= k
    requires forall a, b :: a in island && 0 <= b < FaceCount(m) && SharesUv(m, a, b) ==> visited[b] && ids[b] == k
    ensures ClosedBelow(m, visited, ids, k + 1)
  {
  }

  /** The outer loop's state once faces below `i` have been considered:
      each is labelled, the finished islands list their faces and are
      closed under sharing a UV, and each island's first face is its root. */
  ghost predicate SearchedUpTo(m: Mesh, i: nat, visited: seq<bool>, ids: seq<int>, roots: seq<nat>,
                               paths: seq<seq<nat>>, islands: seq<seq<nat>>) {
    && i <= FaceCount(m)
    && Labelled(m, visited, ids, roots, paths)
    && ClosedBelow(m, visited, ids, |islands|)
    && |roots| == |islands|
    && (forall k :: 0 <= k < |islands| ==> |islands[k]| > 0 && islands[k][0] == roots[k])
    && ListsIslands(visited, ids, islands)
    && (forall f :: 0 <= f < i ==> visited[f])
    && (forall k :: 0 <= k < |roots| ==> roots[k] < i)
  }

  /** One turn of the outer loop: an unvisited face starts a new island. */
  method ConsiderFace(m: Mesh, adj: seq<seq<nat>>, i: nat, visited: seq<bool>, ids: seq<int>,
                      ghost roots: seq<nat>, ghost paths: seq<seq<nat>>, islands: seq<seq<nat>>)
    returns (visited': seq<bool>, ids': seq<int>, ghost roots': seq<nat>, ghost paths': seq<seq<nat>>,
             islands': seq<seq<nat>>)
    requires ValidAdjacency(FaceCount(m), adj)
    requires forall a, b :: 0 <= a < FaceCount(m) && b in adj[a] ==> SharesUv(m, a, b)
    requires forall a, b :: 0 <= a < FaceCount(m) && a != b && SharesUv(m, a, b) ==> b in adj[a]
    requires i < FaceCount(m) && SearchedUpTo(m, i, visited, ids, roots, paths, islands)
    ensures SearchedUpTo(m, i + 1, visited', ids', roots', paths', islands')
  {
    visited', ids', roots', paths', islands' := visited, ids, roots, paths, islands;
    if !visited[i] {
      var island;
      visited', ids', island, paths' := ExploreIsland(m, adj, i, |islands|, visited, ids, roots, paths);
      IslandAppended(m, i, visited, ids, roots, paths, islands, visited', ids', paths', island);
      roots' := roots + [i];
      islands' := islands + [island];
    }
  }

  lemma IslandAppended(m: Mesh, i: nat, visited: seq<bool>, ids: seq<int>, roots: seq<nat>,
                       paths: seq<seq<nat>>, islands: seq<seq<nat>>,
                       visited': seq<bool>, ids': seq<int>, paths': seq<seq<nat>>, island: seq<nat>)
    requires i < FaceCount(m) && SearchedUpTo(m, i, visited, ids, roots, paths, islands)
    requires Labelled(m, visited', ids', roots + [i], paths')
    requires ClosedBelow(m, visited', ids', |islands| + 1)
    requires forall f :: 0 <= f < FaceCount(m) && visited[f] ==> visited'[f] && ids'[f] == ids[f]
    requires forall f :: 0 <= f < FaceCount(m) && visited'[f] && !visited[f] ==> ids'[f] == |islands|
    requires visited'[i]
    requires NoDuplicates(island) && |island| > 0 && island[0] == i
    requires forall f: nat :: f in island <==> f < FaceCount(m) && visited'[f] && ids'[f] == |islands|
    ensures SearchedUpTo(m, i + 1, visited', ids', roots + [i], paths', islands + [island])
  {
    var islands' := islands + [island];
    forall k | 0 <= k < |islands'|
      ensures NoDuplicates(islands'[k])
      ensures forall f: nat :: f in islands'[k] <==> f < |visited'| && f < |ids'| && visited'[f] && ids'[f] == k
    {
      if k < |islands| {
        assert islands'[k] == islands[k];
      }
    }
  }

  /** `findUVIslands`: the connected components of the faces under "shares a
      UV index", numbered in order of their lowest face. */
  method FindUvIslands(m: Mesh) returns (islands: seq<seq<nat>>, faceToIsland: seq<int>)
    requires HasFaceUvIndices(m)
    ensures IslandPartition(m, islands, faceToIsland)
  {
    var n := FaceCount(m);
    var faceMap := BuildUvToFaceMap(m);
    var adj := BuildAdjacency(m, faceMap);
    var visited := seq(n, _ => false);
    faceToIsland := seq(n, _ => -1);
    islands := [];
    ghost var roots: seq<nat> := [];
    ghost var paths: seq<seq<nat>> := seq(n, _ => []);
    var i := 0;
    while i < n
      invariant 0 <= i <= n
      invariant SearchedUpTo(m, i, visited, faceToIsland, roots, paths, islands)
    {
      visited, faceToIsland, roots, paths, islands := ConsiderFace(m, adj, i, visited, faceToIsland, roots, paths, islands);
      i := i + 1;
    }
    SearchedAll(m, visited, faceToIsland, roots, paths, islands);
  }

  /** What the search computes: `faceToIsland` numbers the islands, which
      are the classes of faces joined by walks over shared UV indices, each
      listed without repeats and numbered in the order of its lowest face. */
  ghost predicate IslandPartition(m: Mesh, islands: seq<seq<nat>>, faceToIsland: seq<int>) {
    && |faceToIsland| == FaceCount(m)
    && (forall f :: 0 <= f < FaceCount(m) ==> 0 <= faceToIsland[f] < |islands|)
    && (forall k, f: nat :: 0 <= k < |islands| ==>
          (f in islands[k] <==> f < FaceCount(m) && faceToIsland[f] == k))
    && (forall k :: 0 <= k < |islands| ==> |islands[k]| > 0 && NoDuplicates(islands[k]))
    && (forall a, b :: 0 <= a < FaceCount(m) && SharesUv(m, a, b) ==> faceToIsland[a] == faceToIsland[b])
    && (forall a, b ::
          (0 <= a < FaceCount(m) && 0 <= b < FaceCount(m) && faceToIsland[a] == faceToIsland[b])
          ==> UvConnected(m, a, b))
    && (forall k, f :: 0 <= k < |islands| && 0 <= f < FaceCount(m) && faceToIsland[f] == k ==> islands[k][0] <= f)
    && (forall k1, k2 :: 0 <= k1 < k2 < |islands| ==> islands[k1][0] < islands[k2][0])
  }

  /** Once every face has been considered, the labelling is the partition. */
  lemma SearchedAll(m: Mesh, visited: seq<bool>, ids: seq<int>, roots: seq<nat>, paths: seq<seq<nat>>,
                    islands: seq<seq<nat>>)
    requires SearchedUpTo(m, FaceCount(m), visited, ids, roots, paths, islands)
    ensures IslandPartition(m, islands, ids)
  {
    forall a, b | 0 <= a < FaceCount(m) && 0 <= b < FaceCount(m) && ids[a] == ids[b]
      ensures UvConnected(m, a, b)
    {
      ConnectThroughRoot(m, paths[a], paths[b]);
    }
  }

  /** Two walks from the same face join into a walk between their ends. */
  lemma ConnectThroughRoot(m: Mesh, p: seq<nat>, q: seq<nat>)
    requires IsUvPath(m, p) && IsUvPath(m, q) && p[0] == q[0]
    ensures UvConnected(m, p[|p| - 1], q[|q| - 1])
  {
    var r := Reverse(p) + q[1..];
    assert forall i :: 0 <= i < |p| ==> r[i] == p[|p| - 1 - i];
    assert forall i :: |p| <= i < |r| ==> r[i] == q[i - |p| + 1];
    forall i | 0 <= i < |r| - 1
      ensures SharesUv(m, r[i], r[i + 1])
    {
      if i < |p| - 1 {
        SharesUvSymmetric(m, p[|p| - 2 - i], p[|p| - 1 - i]);
      }
    }
    assert IsUvPath(m, r);
  }

  function Reverse(s: seq<nat>): (r: seq<nat>)
    ensures |r| == |s|
    ensures forall i :: 0 <= i < |s| ==> r[i] == s[|s| - 1 - i]
  {
    if s == [] then [] else Reverse(s[1..]) + [s[0]]
  }
}
