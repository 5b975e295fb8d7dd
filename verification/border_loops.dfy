/**
 The hole-loop walk of the Holes check in `MeshChecker::check`
 (src/MeshChecker.cpp). CGAL reports the border halfedges; the check maps
 every border vertex to the border halfedge leaving it, numbers the mesh
 vertices in iteration order, and, for each vertex in ascending descriptor
 order that has a successor and is not yet visited, follows successors until
 it returns to the start or reaches a visited vertex. Each step pushes the
 START vertex's number, not the current vertex's, so every loop repeats one
 number. `successor_map.at` throws on a vertex with no outgoing border
 halfedge; that ends the whole walk.
 */
module BorderLoops {
  import opened Common

  /** A halfedge as the checks see it: its end vertices and the face it
      bounds, absent on a border halfedge. Vertices and faces are CGAL's
      descriptors. */
  datatype Halfedge = Halfedge(source: nat, target: nat, face: Option<nat>)

  predicate IsLastFrom(border: seq<Halfedge>, v: nat, i: int) {
    0 <= i < |border| && border[i].source == v && forall j :: i < j < |border| ==> border[j].source != v
  }

  predicate IsSource(border: seq<Halfedge>, v: nat) {
    exists i :: 0 <= i < |border| && border[i].source == v
  }

  /** `successor_map[source(h)] = h` over the border halfedges in order: each
      source vertex keeps the last halfedge leaving it. */
  function SuccessorMap(border: seq<Halfedge>): (succ: map<nat, Halfedge>)
    ensures forall v :: v in succ <==> IsSource(border, v)
    ensures forall v :: v in succ ==> succ[v].source == v
    ensures forall v :: v in succ ==> exists i :: IsLastFrom(border, v, i) && succ[v] == border[i]
    decreases |border|
  {
    if border == [] then map[]
    else
      var k := |border| - 1;
      var prev := SuccessorMap(border[..k]);
      PrefixSources(border, k);
      prev[border[k].source := border[k]]
  }

  /** What the prefix `border[..k]` with `k = |border| - 1` says about the
      whole sequence. */
  lemma PrefixSources(border: seq<Halfedge>, k: nat)
    requires k == |border| - 1
    ensures forall v :: IsSource(border, v) <==> IsSource(border[..k], v) || v == border[k].source
    ensures forall v, i :: v != border[k].source && IsLastFrom(border[..k], v, i) ==> IsLastFrom(border, v, i)
    ensures IsLastFrom(border, border[k].source, k)
  {
    forall v | IsSource(border, v)
      ensures IsSource(border[..k], v) || v == border[k].source
    {
      var i :| 0 <= i < |border| && border[i].source == v;
      if i < k {
        assert border[..k][i] == border[i];
      }
    }
    forall v | IsSource(border[..k], v)
      ensures IsSource(border, v)
    {
      var i :| 0 <= i < k && border[..k][i].source == v;
      assert border[i] == border[..k][i];
    }
  }

  /** The vertices a walk can step on: sources and targets of successors. */
  ghost function Reachable(succ: map<nat, Halfedge>): set<nat> {
    succ.Keys + set v | v in succ :: succ[v].target
  }

  /** Every successor leads to a vertex that has a successor itself: the
      border halfedges close up into cycles. */
  predicate TargetsClosed(succ: map<nat, Halfedge>) {
    forall v :: v in succ ==> succ[v].target in succ
  }

  function Last(s: seq<nat>): nat
    requires |s| > 0
  {
    s[|s| - 1]
  }

  /** Consecutive vertices of `path` are joined by successor halfedges. */
  predicate Follows(succ: map<nat, Halfedge>, path: seq<nat>) {
    forall j :: 0 <= j < |path| - 1 ==> path[j] in succ && succ[path[j]].target == path[j + 1]
  }

  /** One walk: the entries pushed onto `current_loop`, the vertices visited
      in order, and whether `successor_map.at` threw. */
  datatype Walk = Walk(loop: seq<nat>, path: seq<nat>, threw: bool)

  /** The do-while loop from `cur` of the walk that started at `start`
      (numbered `number`): mark `cur`, push `number`, take `cur`'s successor
      (throwing if it has none), and continue unless the next vertex is the
      start or already visited. It stops at a visited vertex or a throw, and
      never visits a vertex twice. */
  function WalkFrom(succ: map<nat, Halfedge>, start: nat, number: nat, cur: nat, visited: set<nat>): (w: Walk)
    requires cur in Reachable(succ) && cur !in visited
    requires start == cur || start in visited
    ensures |w.loop| == |w.path| > 0 && w.path[0] == cur
    ensures forall e :: e in w.loop ==> e == number
    ensures w.threw <==> Last(w.path) !in succ
    ensures !w.threw ==> succ[Last(w.path)].target in visited || succ[Last(w.path)].target in w.path
    ensures TargetsClosed(succ) && cur in succ ==> !w.threw
    decreases |Reachable(succ) - visited|
  {
    var visited' := visited + {cur};
    if cur !in succ then Walk([number], [cur], true)
    else
      var next := succ[cur].target;
      if next == start || next in visited' then Walk([number], [cur], false)
      else
        assert Reachable(succ) - visited == (Reachable(succ) - visited') + {cur};
        var rest := WalkFrom(succ, start, number, next, visited');
        Walk([number] + rest.loop, [cur] + rest.path, rest.threw)
  }

  /** A walk steps along successors onto new vertices, each once. */
  lemma {:induction false} WalkFromPath(succ: map<nat, Halfedge>, start: nat, number: nat, cur: nat, visited: set<nat>)
    requires cur in Reachable(succ) && cur !in visited
    requires start == cur || start in visited
    ensures var w := WalkFrom(succ, start, number, cur, visited);
      NoDuplicates(w.path) && (forall v :: v in w.path ==> v !in visited) && Follows(succ, w.path)
    decreases |Reachable(succ) - visited|
  {
    var visited' := visited + {cur};
    if cur in succ {
      var next := succ[cur].target;
      if next != start && next !in visited' {
        assert Reachable(succ) - visited == (Reachable(succ) - visited') + {cur};
        WalkFromPath(succ, start, number, next, visited');
        var rest := WalkFrom(succ, start, number, next, visited');
        var path := [cur] + rest.path;
        NoDuplicatesAppend([cur], rest.path);
        forall j | 0 <= j < |path| - 1 ensures path[j] in succ && succ[path[j]].target == path[j + 1] {
          if j > 0 {
            assert path[j] == rest.path[j - 1] && path[j + 1] == rest.path[j];
          }
        }
      }
    }
  }

  /** The paths one after the other. */
  function Concat(paths: seq<seq<nat>>): seq<nat> {
    if paths == [] then [] else paths[0] + Concat(paths[1..])
  }

  /** The outcome of the Holes walk: the loops pushed onto `hole_loops`, the
      vertex path behind each walk (one more than the loops when the last
      walk threw) and whether one threw. */
  datatype Border = Border(loops: seq<seq<nat>>, paths: seq<seq<nat>>, threw: bool)

  /** The outer loop over the start candidates `order`. */
  function WalkAll(succ: map<nat, Halfedge>, numbering: map<nat, nat>, order: seq<nat>, visited: set<nat>): (b: Border)
    requires forall v :: v in order ==> v in numbering
    ensures |b.paths| == |b.loops| + (if b.threw then 1 else 0)
    ensures forall i :: 0 <= i < |b.paths| ==> |b.paths[i]| > 0
    decreases |order|
  {
    if order == [] then Border([], [], false)
    else
      var v := order[0];
      if v in succ && v !in visited then
        var w := WalkFrom(succ, v, numbering[v], v, visited);
        if w.threw then Border([], [w.path], true)
        else
          var rest := WalkAll(succ, numbering, order[1..], visited + Elements(w.path));
          Border([w.loop] + rest.loops, [w.path] + rest.paths, rest.threw)
      else
        WalkAll(succ, numbering, order[1..], visited)
  }

  function Elements(s: seq<nat>): (r: set<nat>)
    ensures forall x :: x in r <==> x in s
  {
    set x | x in s
  }

  /** Every loop is as long as its walk and repeats its start vertex's
      number; every walk starts at a candidate that has a successor. */
  predicate ShapeOk(succ: map<nat, Halfedge>, numbering: map<nat, nat>, order: seq<nat>, b: Border) {
    && |b.paths| == |b.loops| + (if b.threw then 1 else 0)
    && (forall i :: 0 <= i < |b.loops| ==> |b.loops[i]| == |b.paths[i]|)
    && (forall i :: 0 <= i < |b.paths| ==> |b.paths[i]| > 0 && b.paths[i][0] in order && b.paths[i][0] in succ)
    && (forall i, e :: 0 <= i < |b.loops| && e in b.loops[i] && b.paths[i][0] in numbering ==> e == numbering[b.paths[i][0]])
  }

  lemma {:induction false} WalkAllShape(succ: map<nat, Halfedge>, numbering: map<nat, nat>, order: seq<nat>, visited: set<nat>)
    requires forall v :: v in order ==> v in numbering
    ensures ShapeOk(succ, numbering, order, WalkAll(succ, numbering, order, visited))
    decreases |order|
  {
    if order != [] {
      var v := order[0];
      assert forall x :: x in order[1..] ==> x in order;
      if v in succ && v !in visited {
        var w := WalkFrom(succ, v, numbering[v], v, visited);
        if !w.threw {
          var rest := WalkAll(succ, numbering, order[1..], visited + Elements(w.path));
          WalkAllShape(succ, numbering, order[1..], visited + Elements(w.path));
          ShapeCons(succ, numbering, order, w, rest);
        }
      } else {
        WalkAllShape(succ, numbering, order[1..], visited);
      }
    }
  }

  /** Prepending a non-throwing walk from the first candidate keeps the
      shape. */
  lemma ShapeCons(succ: map<nat, Halfedge>, numbering: map<nat, nat>, order: seq<nat>, w: Walk, rest: Border)
    requires order != [] && order[0] in succ && order[0] in numbering
    requires |w.loop| == |w.path| > 0 && w.path[0] == order[0] && !w.threw
    requires forall e :: e in w.loop ==> e == numbering[order[0]]
    requires ShapeOk(succ, numbering, order[1..], rest)
    ensures ShapeOk(succ, numbering, order, Border([w.loop] + rest.loops, [w.path] + rest.paths, rest.threw))
  {
    var b := Border([w.loop] + rest.loops, [w.path] + rest.paths, rest.threw);
    forall i | 1 <= i < |b.paths|
      ensures b.paths[i] == rest.paths[i - 1]
      ensures i < |b.loops| ==> b.loops[i] == rest.loops[i - 1]
    {
    }
    assert forall x :: x in order[1..] ==> x in order;
  }

  /** No vertex is visited twice, within a walk or across walks, nor was
      visited before. */
  lemma {:induction false} WalkAllDisjoint(succ: map<nat, Halfedge>, numbering: map<nat, nat>, order: seq<nat>, visited: set<nat>)
    requires forall v :: v in order ==> v in numbering
    ensures var b := WalkAll(succ, numbering, order, visited);
      NoDuplicates(Concat(b.paths)) && forall v :: v in Concat(b.paths) ==> v !in visited
    decreases |order|
  {
    if order != [] {
      var v := order[0];
      if v in succ && v !in visited {
        var w := WalkFrom(succ, v, numbering[v], v, visited);
        WalkFromPath(succ, v, numbering[v], v, visited);
        if w.threw {
          assert Concat([w.path]) == w.path;
        } else {
          var rest := WalkAll(succ, numbering, order[1..], visited + Elements(w.path));
          WalkAllDisjoint(succ, numbering, order[1..], visited + Elements(w.path));
          var paths := [w.path] + rest.paths;
          assert paths[1..] == rest.paths;
          assert Concat(paths) == w.path + Concat(rest.paths);
          NoDuplicatesAppend(w.path, Concat(rest.paths));
        }
      } else {
        WalkAllDisjoint(succ, numbering, order[1..], visited);
      }
    }
  }

  /** Every walk follows successor halfedges, and the walk throws exactly
      when its last walk ends at a vertex with no successor. */
  lemma {:induction false} WalkAllFollows(succ: map<nat, Halfedge>, numbering: map<nat, nat>, order: seq<nat>, visited: set<nat>)
    requires forall v :: v in order ==> v in numbering
    ensures var b := WalkAll(succ, numbering, order, visited);
      && (forall i :: 0 <= i < |b.paths| ==> Follows(succ, b.paths[i]))
      && (b.threw ==> Last(b.paths[|b.paths| - 1]) !in succ)
    decreases |order|
  {
    if order != [] {
      var v := order[0];
      if v in succ && v !in visited {
        var w := WalkFrom(succ, v, numbering[v], v, visited);
        WalkFromPath(succ, v, numbering[v], v, visited);
        if !w.threw {
          var visited' := visited + Elements(w.path);
          var rest := WalkAll(succ, numbering, order[1..], visited');
          WalkAllFollows(succ, numbering, order[1..], visited');
          FollowsCons(succ, w.path, rest);
        }
      } else {
        WalkAllFollows(succ, numbering, order[1..], visited);
      }
    }
  }

  /** Without a throw, every walk ended at a vertex with a successor that
      was already visited: before the walk began, or by this walk or an
      earlier one. */
  lemma {:induction false} WalkAllStops(succ: map<nat, Halfedge>, numbering: map<nat, nat>, order: seq<nat>, visited: set<nat>)
    requires forall v :: v in order ==> v in numbering
    ensures var b := WalkAll(succ, numbering, order, visited);
      !b.threw ==> StopsAtVisited(succ, visited, b.paths)
    decreases |order|
  {
    if order != [] {
      var v := order[0];
      if v in succ && v !in visited {
        var w := WalkFrom(succ, v, numbering[v], v, visited);
        if !w.threw {
          var visited' := visited + Elements(w.path);
          var rest := WalkAll(succ, numbering, order[1..], visited');
          WalkAllStops(succ, numbering, order[1..], visited');
          if !rest.threw {
            StopsCons(succ, visited, w.path, rest.paths);
          }
        }
      } else {
        WalkAllStops(succ, numbering, order[1..], visited);
      }
    }
  }

  lemma FollowsCons(succ: map<nat, Halfedge>, path: seq<nat>, rest: Border)
    requires |path| > 0 && Follows(succ, path)
    requires forall i :: 0 <= i < |rest.paths| ==> |rest.paths[i]| > 0 && Follows(succ, rest.paths[i])
    requires rest.threw ==> |rest.paths| > 0 && Last(rest.paths[|rest.paths| - 1]) !in succ
    ensures forall i :: 0 <= i < |[path] + rest.paths| ==> Follows(succ, ([path] + rest.paths)[i])
    ensures rest.threw ==> Last(([path] + rest.paths)[|rest.paths|]) !in succ
  {
    var paths := [path] + rest.paths;
    assert forall i :: 1 <= i < |paths| ==> paths[i] == rest.paths[i - 1];
  }

  /** Each path ends at a vertex whose successor was visited before the
      walks began or by this path or an earlier one. */
  predicate StopsAtVisited(succ: map<nat, Halfedge>, visited: set<nat>, paths: seq<seq<nat>>) {
    forall i :: 0 <= i < |paths| ==>
      && |paths[i]| > 0 && Last(paths[i]) in succ
      && var t := succ[Last(paths[i])].target; t in visited || t in Concat(paths[..i + 1])
  }

  lemma StopsCons(succ: map<nat, Halfedge>, visited: set<nat>, path: seq<nat>, paths: seq<seq<nat>>)
    requires |path| > 0 && Last(path) in succ
    requires succ[Last(path)].target in visited || succ[Last(path)].target in path
    requires StopsAtVisited(succ, visited + Elements(path), paths)
    ensures StopsAtVisited(succ, visited, [path] + paths)
  {
    ConcatConsPrefixes(path, paths);
    var rest := paths;
    var paths := [path] + rest;
    forall i | 0 <= i < |paths|
      ensures |paths[i]| > 0 && Last(paths[i]) in succ
      ensures var t := succ[Last(paths[i])].target; t in visited || t in Concat(paths[..i + 1])
    {
      if i == 0 {
        assert rest[..0] == [];
      } else {
        assert paths[i] == rest[i - 1];
      }
    }
  }

  lemma ConcatConsPrefixes(p: seq<nat>, rest: seq<seq<nat>>)
    ensures forall i :: 0 <= i <= |rest| ==> ([p] + rest)[..i + 1] == [p] + rest[..i]
    ensures forall i :: 0 <= i <= |rest| ==> Concat(([p] + rest)[..i + 1]) == p + Concat(rest[..i])
  {
    forall i | 0 <= i <= |rest|
      ensures ([p] + rest)[..i + 1] == [p] + rest[..i]
      ensures Concat(([p] + rest)[..i + 1]) == p + Concat(rest[..i])
    {
      assert ([p] + rest)[..i + 1] == [p] + rest[..i];
      assert ([p] + rest[..i])[1..] == rest[..i];
    }
  }

  /** Without a throw, every candidate with a successor ends up visited. */
  lemma {:induction false} WalkAllCovers(succ: map<nat, Halfedge>, numbering: map<nat, nat>, order: seq<nat>, visited: set<nat>)
    requires forall v :: v in order ==> v in numbering
    ensures var b := WalkAll(succ, numbering, order, visited);
      !b.threw ==> forall v :: v in order && v in succ ==> v in visited || v in Concat(b.paths)
    decreases |order|
  {
    if order != [] {
      var v := order[0];
      if v in succ && v !in visited {
        var w := WalkFrom(succ, v, numbering[v], v, visited);
        if !w.threw {
          var visited' := visited + Elements(w.path);
          var rest := WalkAll(succ, numbering, order[1..], visited');
          WalkAllCovers(succ, numbering, order[1..], visited');
          var paths := [w.path] + rest.paths;
          assert paths[1..] == rest.paths;
          assert Concat(paths) == w.path + Concat(rest.paths);
        }
      } else {
        WalkAllCovers(succ, numbering, order[1..], visited);
      }
    }
  }

  /** When the border halfedges close up into cycles, no walk throws. */
  lemma {:induction false} ClosedBorderNeverThrows(succ: map<nat, Halfedge>, numbering: map<nat, nat>, order: seq<nat>, visited: set<nat>)
    requires forall v :: v in order ==> v in numbering
    requires TargetsClosed(succ)
    ensures !WalkAll(succ, numbering, order, visited).threw
    decreases |order|
  {
    if order != [] {
      var v := order[0];
      if v in succ && v !in visited {
        var w := WalkFrom(succ, v, numbering[v], v, visited);
        ClosedBorderNeverThrows(succ, numbering, order[1..], visited + Elements(w.path));
      } else {
        ClosedBorderNeverThrows(succ, numbering, order[1..], visited);
      }
    }
  }

  /** `v` is a start the outer loop takes once the walks `done` have run:
      it has a successor and was visited neither before the walks began nor
      by any of them. */
  predicate Unvisited(succ: map<nat, Halfedge>, visited: set<nat>, done: seq<seq<nat>>, v: nat) {
    v in succ && v !in visited && v !in Concat(done)
  }

  /** Which candidates start walks: walk `i` starts at candidate `pos[i]`,
      the start positions ascend, each start is `Unvisited` when its turn
      comes, and every other candidate (up to the throwing walk, if any) is
      not `Unvisited` when its turn comes, so the loop skips it. */
  ghost predicate StartsInTurn(succ: map<nat, Halfedge>, order: seq<nat>, visited: set<nat>,
                               paths: seq<seq<nat>>, threw: bool, pos: seq<nat>) {
    && StartPositions(order, paths, pos)
    && StartsUnvisited(succ, order, visited, paths, pos)
    && OthersSkipped(succ, order, visited, paths, threw, pos)
  }

  /** Walk `i` starts at candidate `pos[i]`, and the positions ascend. */
  predicate StartPositions(order: seq<nat>, paths: seq<seq<nat>>, pos: seq<nat>) {
    && |pos| == |paths|
    && (forall i :: 0 <= i < |pos| ==> pos[i] < |order| && |paths[i]| > 0 && paths[i][0] == order[pos[i]])
    && (forall i, k :: 0 <= i < k < |pos| ==> pos[i] < pos[k])
  }

  predicate StartsUnvisited(succ: map<nat, Halfedge>, order: seq<nat>, visited: set<nat>, paths: seq<seq<nat>>, pos: seq<nat>)
    requires StartPositions(order, paths, pos)
  {
    forall i :: 0 <= i < |pos| ==> Unvisited(succ, visited, paths[..i], order[pos[i]])
  }

  /** Candidate `j` lies after start `i - 1` and before start `i`. */
  predicate Between(pos: seq<nat>, i: int, j: int) {
    0 <= i <= |pos| && 0 <= j && (0 < i ==> pos[i - 1] < j) && (i < |pos| ==> j < pos[i])
  }

  predicate OthersSkipped(succ: map<nat, Halfedge>, order: seq<nat>, visited: set<nat>,
                          paths: seq<seq<nat>>, threw: bool, pos: seq<nat>)
    requires |pos| == |paths|
  {
    forall i, j :: 0 <= i <= |pos| && 0 <= j < |order| && Between(pos, i, j) && !(threw && i == |pos|) ==>
      !Unvisited(succ, visited, paths[..i], order[j])
  }

  function Shift(pos: seq<nat>): (r: seq<nat>)
    ensures |r| == |pos| && forall i :: 0 <= i < |pos| ==> r[i] == pos[i] + 1
  {
    seq(|pos|, i requires 0 <= i < |pos| => pos[i] + 1)
  }

  /** The outer loop visits the candidates in order: every walk starts at
      the next candidate that has a successor and is still unvisited. */
  lemma {:induction false} WalkAllStartsInTurn(succ: map<nat, Halfedge>, numbering: map<nat, nat>, order: seq<nat>, visited: set<nat>)
    requires forall v :: v in order ==> v in numbering
    ensures exists pos :: StartsInTurn(succ, order, visited, WalkAll(succ, numbering, order, visited).paths,
                                       WalkAll(succ, numbering, order, visited).threw, pos)
    decreases |order|
  {
    var b := WalkAll(succ, numbering, order, visited);
    if order == [] {
      assert StartsInTurn(succ, order, visited, b.paths, b.threw, []);
    } else {
      var v := order[0];
      assert forall x :: x in order[1..] ==> x in order;
      if v in succ && v !in visited {
        var w := WalkFrom(succ, v, numbering[v], v, visited);
        if w.threw {
          assert [w.path][..0] == [];
          assert StartsInTurn(succ, order, visited, b.paths, b.threw, [0]);
        } else {
          var visited' := visited + Elements(w.path);
          var rest := WalkAll(succ, numbering, order[1..], visited');
          WalkAllStartsInTurn(succ, numbering, order[1..], visited');
          var pos :| StartsInTurn(succ, order[1..], visited', rest.paths, rest.threw, pos);
          TurnsCons(succ, order, visited, w.path, rest.paths, rest.threw, pos);
          assert b.paths == [w.path] + rest.paths && b.threw == rest.threw;
          assert StartsInTurn(succ, order, visited, b.paths, b.threw, [0] + Shift(pos));
        }
      } else {
        var rest := WalkAll(succ, numbering, order[1..], visited);
        WalkAllStartsInTurn(succ, numbering, order[1..], visited);
        var pos :| StartsInTurn(succ, order[1..], visited, rest.paths, rest.threw, pos);
        TurnsSkip(succ, order, visited, rest.paths, rest.threw, pos);
        assert StartsInTurn(succ, order, visited, b.paths, b.threw, Shift(pos));
      }
    }
  }

  /** A skipped first candidate shifts every start position by one. */
  lemma TurnsSkip(succ: map<nat, Halfedge>, order: seq<nat>, visited: set<nat>,
                  paths: seq<seq<nat>>, threw: bool, pos: seq<nat>)
    requires order != [] && !(order[0] in succ && order[0] !in visited)
    requires StartsInTurn(succ, order[1..], visited, paths, threw, pos)
    ensures StartsInTurn(succ, order, visited, paths, threw, Shift(pos))
  {
    var ps := Shift(pos);
    forall i | 0 <= i < |ps|
      ensures ps[i] < |order| && |paths[i]| > 0 && paths[i][0] == order[ps[i]]
    {
      assert order[ps[i]] == order[1..][pos[i]];
    }
    assert StartPositions(order, paths, ps);
    forall i | 0 <= i < |ps|
      ensures Unvisited(succ, visited, paths[..i], order[ps[i]])
    {
      assert order[ps[i]] == order[1..][pos[i]];
    }
    forall i, j | Between(ps, i, j) && j < |order| && !(threw && i == |ps|)
      ensures !Unvisited(succ, visited, paths[..i], order[j])
    {
      if j > 0 {
        assert Between(pos, i, j - 1);
        assert order[j] == order[1..][j - 1];
      }
    }
  }

  /** A walk from the first candidate puts its start at position 0 and
      shifts the later starts by one. */
  lemma TurnsCons(succ: map<nat, Halfedge>, order: seq<nat>, visited: set<nat>, p: seq<nat>,
                  paths: seq<seq<nat>>, threw: bool, pos: seq<nat>)
    requires order != [] && |p| > 0 && p[0] == order[0]
    requires order[0] in succ && order[0] !in visited
    requires StartsInTurn(succ, order[1..], visited + Elements(p), paths, threw, pos)
    ensures StartsInTurn(succ, order, visited, [p] + paths, threw, [0] + Shift(pos))
  {
    PositionsCons(order, p, paths, pos);
    UnvisitedCons(succ, order, visited, p, paths, pos);
    SkippedCons(succ, order, visited, p, paths, threw, pos);
  }

  lemma PositionsCons(order: seq<nat>, p: seq<nat>, paths: seq<seq<nat>>, pos: seq<nat>)
    requires order != [] && |p| > 0 && p[0] == order[0]
    requires StartPositions(order[1..], paths, pos)
    ensures StartPositions(order, [p] + paths, [0] + Shift(pos))
  {
    var b := [p] + paths;
    var ps := [0] + Shift(pos);
    forall i | 0 <= i < |ps|
      ensures ps[i] < |order| && |b[i]| > 0 && b[i][0] == order[ps[i]]
    {
      if i > 0 {
        assert b[i] == paths[i - 1] && ps[i] == pos[i - 1] + 1;
        assert order[ps[i]] == order[1..][pos[i - 1]];
      }
    }
    forall i, k | 0 <= i < k < |ps|
      ensures ps[i] < ps[k]
    {
      if i > 0 {
        assert ps[i] == pos[i - 1] + 1 && ps[k] == pos[k - 1] + 1;
      }
    }
  }

  /** After walk `p`, being unvisited relative to the later walks is being
      unvisited relative to `p` and them. */
  lemma UnvisitedAfter(succ: map<nat, Halfedge>, visited: set<nat>, p: seq<nat>, paths: seq<seq<nat>>, i: nat, v: nat)
    requires i <= |paths|
    ensures Unvisited(succ, visited + Elements(p), paths[..i], v) <==> Unvisited(succ, visited, ([p] + paths)[..i + 1], v)
  {
    ConcatConsPrefixes(p, paths);
  }

  lemma UnvisitedCons(succ: map<nat, Halfedge>, order: seq<nat>, visited: set<nat>, p: seq<nat>, paths: seq<seq<nat>>, pos: seq<nat>)
    requires order != [] && |p| > 0 && p[0] == order[0]
    requires order[0] in succ && order[0] !in visited
    requires StartPositions(order[1..], paths, pos)
    requires StartsUnvisited(succ, order[1..], visited + Elements(p), paths, pos)
    requires StartPositions(order, [p] + paths, [0] + Shift(pos))
    ensures StartsUnvisited(succ, order, visited, [p] + paths, [0] + Shift(pos))
  {
    var b := [p] + paths;
    var ps := [0] + Shift(pos);
    forall i | 0 <= i < |ps|
      ensures Unvisited(succ, visited, b[..i], order[ps[i]])
    {
      if i == 0 {
        assert b[..0] == [];
      } else {
        assert ps[i] == pos[i - 1] + 1;
        assert order[ps[i]] == order[1..][pos[i - 1]];
        assert Unvisited(succ, visited + Elements(p), paths[..i - 1], order[1..][pos[i - 1]]);
        UnvisitedAfter(succ, visited, p, paths, i - 1, order[ps[i]]);
      }
    }
  }

  lemma SkippedCons(succ: map<nat, Halfedge>, order: seq<nat>, visited: set<nat>, p: seq<nat>,
                    paths: seq<seq<nat>>, threw: bool, pos: seq<nat>)
    requires order != [] && |pos| == |paths|
    requires OthersSkipped(succ, order[1..], visited + Elements(p), paths, threw, pos)
    ensures OthersSkipped(succ, order, visited, [p] + paths, threw, [0] + Shift(pos))
  {
    var b := [p] + paths;
    var ps := [0] + Shift(pos);
    forall i, j | Between(ps, i, j) && j < |order| && !(threw && i == |ps|)
      ensures !Unvisited(succ, visited, b[..i], order[j])
    {
      assert i > 0 && j > 0;
      assert Between(pos, i - 1, j - 1) by {
        assert 1 < i ==> ps[i - 1] == pos[i - 2] + 1;
        assert i < |ps| ==> ps[i] == pos[i - 1] + 1;
      }
      assert order[j] == order[1..][j - 1];
      UnvisitedAfter(succ, visited, p, paths, i - 1, order[j]);
    }
  }

  /** The vertex a successor halfedge leads to. */
  function TargetOf(succ: map<nat, Halfedge>, a: nat): nat
    requires a in succ
  {
    succ[a].target
  }

  /** No two border halfedges end at the same vertex. */
  predicate TargetsDistinct(succ: map<nat, Halfedge>) {
    forall a, b {:trigger TargetOf(succ, a), TargetOf(succ, b)} ::
      a in succ && b in succ && TargetOf(succ, a) == TargetOf(succ, b) ==> a == b
  }

  /** Whatever leads into `visited` along a successor is in `visited`: the
      set is a union of whole cycles. */
  predicate ClosedUnderPredecessors(succ: map<nat, Halfedge>, visited: set<nat>) {
    forall a :: a in succ && succ[a].target in visited ==> a in visited
  }

  /** A fresh path along successors that stops at a visited vertex or on
      itself, where the visited set is a union of whole cycles and no two
      halfedges share a target, stops at its start. */
  lemma ReturnsToStart(succ: map<nat, Halfedge>, visited: set<nat>, path: seq<nat>)
    requires |path| > 0 && Follows(succ, path) && NoDuplicates(path) && TargetsDistinct(succ)
    requires ClosedUnderPredecessors(succ, visited) && forall v :: v in path ==> v !in visited
    requires Last(path) in succ && (succ[Last(path)].target in visited || succ[Last(path)].target in path)
    ensures succ[Last(path)].target == path[0]
  {
    assert Last(path) !in visited;
    ClosingTargetIsStart(succ, path);
  }

  /** Adding a whole cycle to a union of whole cycles gives one again. */
  lemma CycleKeepsClosed(succ: map<nat, Halfedge>, visited: set<nat>, path: seq<nat>)
    requires |path| > 0 && Follows(succ, path) && TargetsDistinct(succ)
    requires Last(path) in succ && succ[Last(path)].target == path[0]
    requires ClosedUnderPredecessors(succ, visited)
    ensures ClosedUnderPredecessors(succ, visited + Elements(path))
  {
    var n := |path|;
    forall a | a in succ && succ[a].target in visited + Elements(path)
      ensures a in visited + Elements(path)
    {
      var u := succ[a].target;
      if u !in visited {
        var k :| 0 <= k < n && path[k] == u;
        if k > 0 {
          assert TargetOf(succ, path[k - 1]) == TargetOf(succ, a);
        } else {
          assert TargetOf(succ, path[n - 1]) == TargetOf(succ, a);
        }
      }
    }
  }

  /** A path along successors without repeats that ends by stepping back
      onto itself steps back onto its first vertex: any later vertex already
      has its predecessor on the path. */
  lemma ClosingTargetIsStart(succ: map<nat, Halfedge>, path: seq<nat>)
    requires |path| > 0 && Follows(succ, path) && NoDuplicates(path) && TargetsDistinct(succ)
    requires Last(path) in succ && succ[Last(path)].target in path
    ensures succ[Last(path)].target == path[0]
  {
    var n := |path|;
    forall k | 0 < k < n
      ensures succ[Last(path)].target != path[k]
    {
      assert TargetOf(succ, path[k - 1]) == path[k];
      assert path[k - 1] != path[n - 1];
      assert TargetOf(succ, path[n - 1]) != path[k];
    }
  }

  /** Every path ends at a vertex whose successor is the path's start. */
  predicate ClosesUp(succ: map<nat, Halfedge>, paths: seq<seq<nat>>) {
    forall i :: 0 <= i < |paths| ==> |paths[i]| > 0 && Last(paths[i]) in succ && succ[Last(paths[i])].target == paths[i][0]
  }

  lemma ClosesUpCons(succ: map<nat, Halfedge>, p: seq<nat>, paths: seq<seq<nat>>)
    requires |p| > 0 && Last(p) in succ && succ[Last(p)].target == p[0]
    requires ClosesUp(succ, paths)
    ensures ClosesUp(succ, [p] + paths)
  {
    assert forall i :: 1 <= i < |[p] + paths| ==> ([p] + paths)[i] == paths[i - 1];
  }

  /** On a border made of disjoint cycles (every target has a successor, no
      two halfedges share a target), no walk throws and every walk ends at a
      vertex whose successor is the walk's start: each loop is a whole
      cycle. */
  lemma {:induction false} WalkAllCycles(succ: map<nat, Halfedge>, numbering: map<nat, nat>, order: seq<nat>, visited: set<nat>)
    requires forall v :: v in order ==> v in numbering
    requires TargetsClosed(succ) && TargetsDistinct(succ) && ClosedUnderPredecessors(succ, visited)
    ensures !WalkAll(succ, numbering, order, visited).threw
    ensures ClosesUp(succ, WalkAll(succ, numbering, order, visited).paths)
    decreases |order|
  {
    if order != [] {
      var v := order[0];
      assert forall x :: x in order[1..] ==> x in order;
      if v in succ && v !in visited {
        var w := WalkFrom(succ, v, numbering[v], v, visited);
        WalkFromPath(succ, v, numbering[v], v, visited);
        ReturnsToStart(succ, visited, w.path);
        CycleKeepsClosed(succ, visited, w.path);
        var visited' := visited + Elements(w.path);
        var rest := WalkAll(succ, numbering, order[1..], visited');
        assert WalkAll(succ, numbering, order, visited) == Border([w.loop] + rest.loops, [w.path] + rest.paths, rest.threw);
        WalkAllCycles(succ, numbering, order[1..], visited');
        ClosesUpCons(succ, w.path, rest.paths);
      } else {
        WalkAllCycles(succ, numbering, order[1..], visited);
      }
    }
  }

  /** The Holes walk of a mesh: vertex numbers are positions in the vertex
      iteration order, and the start candidates are the numbered vertices in
      ascending descriptor order, as a `std::map` keyed by vertex iterates. */
  function WalkBorder(vertexOrder: seq<nat>, border: seq<Halfedge>): (b: Border)
    ensures |b.paths| == |b.loops| + (if b.threw then 1 else 0)
    ensures forall i :: 0 <= i < |b.paths| ==> |b.paths[i]| > 0
    ensures forall i, e :: 0 <= i < |b.loops| && e in b.loops[i] ==> IsLastPosition(vertexOrder, b.paths[i][0], e)
    ensures exists pos :: StartsInTurn(SuccessorMap(border), SortedElements(LastPositions(vertexOrder).Keys), {}, b.paths, b.threw, pos)
    ensures var succ := SuccessorMap(border);
      TargetsClosed(succ) && TargetsDistinct(succ) ==> !b.threw && ClosesUp(succ, b.paths)
  {
    var succ := SuccessorMap(border);
    var numbering := LastPositions(vertexOrder);
    var order := SortedElements(numbering.Keys);
    WalkAllShape(succ, numbering, order, {});
    WalkAllStartsInTurn(succ, numbering, order, {});
    assert TargetsClosed(succ) && TargetsDistinct(succ) ==>
      !WalkAll(succ, numbering, order, {}).threw && ClosesUp(succ, WalkAll(succ, numbering, order, {}).paths) by {
      if TargetsClosed(succ) && TargetsDistinct(succ) {
        WalkAllCycles(succ, numbering, order, {});
      }
    }
    WalkAll(succ, numbering, order, {})
  }
}
