/**
 * Depth-first pre-order walks over adjacency maps, as performed by the
 * stack loops of `Expression::visit`, `Expression::visitLeafs` and
 * `Graph::visit`. A node's children are pushed in insertion order, so the
 * last child is popped (and walked) first. The stack is a sequence whose
 * last element is the top.
 */
module Traversals {

  /** The children recorded for `id`; a node without an entry has none. */
  function Children<K>(edges: map<K, seq<K>>, id: K): seq<K>
  {
    if id in edges then edges[id] else []
  }

  /** `rank` strictly increases along every edge and never exceeds `bound`,
      so the edge relation is acyclic and every walk is finite. */
  ghost predicate Ranked<K>(edges: map<K, seq<K>>, rank: map<K, nat>, bound: nat)
  {
    && (forall k :: k in rank ==> rank[k] <= bound)
    && (forall p :: p in edges ==> p in rank)
    && (forall p, i :: p in edges && 0 <= i < |edges[p]| ==> edges[p][i] in rank && rank[p] < rank[edges[p][i]])
  }

  /** Termination measure of a node: larger for nodes closer to the top. */
  ghost function Height<K>(rank: map<K, nat>, bound: nat, id: K): nat
  {
    if id in rank && rank[id] <= bound then bound - rank[id] + 1 else 0
  }

  ghost function MaxHeight<K>(rank: map<K, nat>, bound: nat, s: seq<K>): nat
  {
    if s == [] then 0
    else
      var m := MaxHeight(rank, bound, s[..|s| - 1]);
      var h := Height(rank, bound, s[|s| - 1]);
      if m < h then h else m
  }

  lemma {:induction false} MaxHeightBelow<K>(rank: map<K, nat>, bound: nat, s: seq<K>, h: nat)
    requires 0 < h
    requires forall i :: 0 <= i < |s| ==> Height(rank, bound, s[i]) < h
    ensures MaxHeight(rank, bound, s) < h
  {
    if s != [] {
      MaxHeightBelow(rank, bound, s[..|s| - 1], h);
    }
  }

  /** The sequence of nodes a pre-order stack walk from `id` pops. */
  ghost function Walk<K>(edges: map<K, seq<K>>, rank: map<K, nat>, bound: nat, id: K): seq<K>
    requires Ranked(edges, rank, bound)
    requires id in rank
    decreases Height(rank, bound, id), 0
  {
    var children := Children(edges, id);
    MaxHeightBelow(rank, bound, children, Height(rank, bound, id));
    [id] + Pending(edges, rank, bound, children)
  }

  /** The nodes still to be popped when the stack holds `stack`. */
  ghost function Pending<K>(edges: map<K, seq<K>>, rank: map<K, nat>, bound: nat, stack: seq<K>): seq<K>
    requires Ranked(edges, rank, bound)
    requires forall i :: 0 <= i < |stack| ==> stack[i] in rank
    decreases MaxHeight(rank, bound, stack), |stack|
  {
    if stack == [] then []
    else Walk(edges, rank, bound, stack[|stack| - 1]) + Pending(edges, rank, bound, stack[..|stack| - 1])
  }

  /** Pushing `pushed` on top of `below`: everything above is popped first. */
  lemma {:induction false} PendingAppend<K>(edges: map<K, seq<K>>, rank: map<K, nat>, bound: nat, below: seq<K>, pushed: seq<K>)
    requires Ranked(edges, rank, bound)
    requires forall i :: 0 <= i < |below| ==> below[i] in rank
    requires forall i :: 0 <= i < |pushed| ==> pushed[i] in rank
    ensures Pending(edges, rank, bound, below + pushed)
         == Pending(edges, rank, bound, pushed) + Pending(edges, rank, bound, below)
    decreases |pushed|
  {
    if pushed == [] {
      assert below + pushed == below;
    } else {
      var s := below + pushed;
      var n := |pushed|;
      var shorter := pushed[..n - 1];
      assert s[|s| - 1] == pushed[n - 1];
      assert s[..|s| - 1] == below + shorter;
      assert forall i :: 0 <= i < |s| ==> s[i] in rank by {
        forall i | 0 <= i < |s| ensures s[i] in rank {
          if i < |below| { assert s[i] == below[i]; } else { assert s[i] == pushed[i - |below|]; }
        }
      }
      PendingAppend(edges, rank, bound, below, shorter);
      calc {
        Pending(edges, rank, bound, s);
        Walk(edges, rank, bound, pushed[n - 1]) + Pending(edges, rank, bound, below + shorter);
        Walk(edges, rank, bound, pushed[n - 1]) + (Pending(edges, rank, bound, shorter) + Pending(edges, rank, bound, below));
        Pending(edges, rank, bound, pushed) + Pending(edges, rank, bound, below);
      }
    }
  }

  /** One iteration of the stack loop: popping `top` and pushing its children
      leaves exactly the rest of the walk. */
  lemma PopStep<K>(edges: map<K, seq<K>>, rank: map<K, nat>, bound: nat, rest: seq<K>, top: K)
    requires Ranked(edges, rank, bound)
    requires forall i :: 0 <= i < |rest| ==> rest[i] in rank
    requires top in rank
    ensures forall i :: 0 <= i < |Children(edges, top)| ==> Children(edges, top)[i] in rank
    ensures forall i :: 0 <= i < |rest + Children(edges, top)| ==> (rest + Children(edges, top))[i] in rank
    ensures Pending(edges, rank, bound, rest + [top])
         == [top] + Pending(edges, rank, bound, rest + Children(edges, top))
  {
    var s := rest + [top];
    assert s[..|s| - 1] == rest;
    PendingAppend(edges, rank, bound, rest, Children(edges, top));
  }

  /** Every node a walk pops carries a rank. */
  lemma {:induction false} WalkClosed<K>(edges: map<K, seq<K>>, rank: map<K, nat>, bound: nat, id: K)
    requires Ranked(edges, rank, bound)
    requires id in rank
    ensures forall i :: 0 <= i < |Walk(edges, rank, bound, id)| ==> Walk(edges, rank, bound, id)[i] in rank
    decreases Height(rank, bound, id), 0
  {
    var children := Children(edges, id);
    MaxHeightBelow(rank, bound, children, Height(rank, bound, id));
    PendingClosed(edges, rank, bound, children);
  }

  lemma {:induction false} PendingClosed<K>(edges: map<K, seq<K>>, rank: map<K, nat>, bound: nat, stack: seq<K>)
    requires Ranked(edges, rank, bound)
    requires forall i :: 0 <= i < |stack| ==> stack[i] in rank
    ensures forall i :: 0 <= i < |Pending(edges, rank, bound, stack)| ==> Pending(edges, rank, bound, stack)[i] in rank
    decreases MaxHeight(rank, bound, stack), |stack|
  {
    if stack != [] {
      WalkClosed(edges, rank, bound, stack[|stack| - 1]);
      PendingClosed(edges, rank, bound, stack[..|stack| - 1]);
    }
  }

  /** A walk is never empty, and its last node has no children. */
  lemma {:induction false} WalkEndsAtLeaf<K>(edges: map<K, seq<K>>, rank: map<K, nat>, bound: nat, id: K)
    requires Ranked(edges, rank, bound)
    requires id in rank
    ensures var walk := Walk(edges, rank, bound, id);
      |walk| > 0 && Children(edges, walk[|walk| - 1]) == []
    decreases Height(rank, bound, id), 0
  {
    var children := Children(edges, id);
    MaxHeightBelow(rank, bound, children, Height(rank, bound, id));
    if children != [] {
      PendingEndsAtLeaf(edges, rank, bound, children);
    }
  }

  lemma {:induction false} PendingEndsAtLeaf<K>(edges: map<K, seq<K>>, rank: map<K, nat>, bound: nat, stack: seq<K>)
    requires Ranked(edges, rank, bound)
    requires forall i :: 0 <= i < |stack| ==> stack[i] in rank
    requires stack != []
    ensures var pending := Pending(edges, rank, bound, stack);
      |pending| > 0 && Children(edges, pending[|pending| - 1]) == []
    decreases MaxHeight(rank, bound, stack), |stack|
  {
    var rest := stack[..|stack| - 1];
    var walk := Walk(edges, rank, bound, stack[|stack| - 1]);
    var pending := Pending(edges, rank, bound, stack);
    assert pending == walk + Pending(edges, rank, bound, rest);
    WalkEndsAtLeaf(edges, rank, bound, stack[|stack| - 1]);
    if rest != [] {
      PendingEndsAtLeaf(edges, rank, bound, rest);
      assert pending[|pending| - 1] == Pending(edges, rank, bound, rest)[|Pending(edges, rank, bound, rest)| - 1];
    } else {
      assert pending == walk;
    }
  }

  /** A non-empty sequence of nodes, each a child of the one before it. */
  ghost predicate IsPath<K>(edges: map<K, seq<K>>, path: seq<K>)
  {
    && |path| > 0
    && forall i :: 0 <= i < |path| - 1 ==> path[i + 1] in Children(edges, path[i])
  }

  /** A walk from `id` pops every node reachable from `id`. */
  lemma {:induction false} WalkReachesAll<K>(edges: map<K, seq<K>>, rank: map<K, nat>, bound: nat, path: seq<K>)
    requires Ranked(edges, rank, bound)
    requires IsPath(edges, path) && path[0] in rank
    ensures path[|path| - 1] in Walk(edges, rank, bound, path[0])
    decreases |path|
  {
    if |path| > 1 {
      var children := Children(edges, path[0]);
      assert path[1] in children;
      assert path[0] in edges;
      var j :| 0 <= j < |children| && children[j] == path[1];
      assert IsPath(edges, path[1..]);
      WalkReachesAll(edges, rank, bound, path[1..]);
      MaxHeightBelow(rank, bound, children, Height(rank, bound, path[0]));
      WalkInPending(edges, rank, bound, children, j, path[|path| - 1]);
    }
  }

  lemma {:induction false} WalkInPending<K>(edges: map<K, seq<K>>, rank: map<K, nat>, bound: nat, stack: seq<K>, j: nat, x: K)
    requires Ranked(edges, rank, bound)
    requires forall i :: 0 <= i < |stack| ==> stack[i] in rank
    requires j < |stack| && x in Walk(edges, rank, bound, stack[j])
    ensures x in Pending(edges, rank, bound, stack)
    decreases |stack|
  {
    if j < |stack| - 1 {
      WalkInPending(edges, rank, bound, stack[..|stack| - 1], j, x);
    }
  }

  /** Conversely, a walk from `id` pops only nodes reachable from `id`. */
  lemma {:induction false} WalkOnlyReachable<K>(edges: map<K, seq<K>>, rank: map<K, nat>, bound: nat, id: K, x: K)
    requires Ranked(edges, rank, bound)
    requires id in rank && x in Walk(edges, rank, bound, id)
    ensures exists path :: IsPath(edges, path) && path[0] == id && path[|path| - 1] == x
    decreases Height(rank, bound, id), 0
  {
    var children := Children(edges, id);
    MaxHeightBelow(rank, bound, children, Height(rank, bound, id));
    if x == id {
      assert IsPath(edges, [id]);
    } else {
      assert x in Pending(edges, rank, bound, children);
      PendingOnlyReachable(edges, rank, bound, children, x);
      var j, path :| 0 <= j < |children| && IsPath(edges, path) && path[0] == children[j] && path[|path| - 1] == x;
      var longer := [id] + path;
      assert IsPath(edges, longer) by {
        forall i | 0 <= i < |longer| - 1 ensures longer[i + 1] in Children(edges, longer[i]) {
          if i > 0 { assert longer[i + 1] == path[i] && longer[i] == path[i - 1]; }
        }
      }
      assert longer[|longer| - 1] == x;
    }
  }

  lemma {:induction false} PendingOnlyReachable<K>(edges: map<K, seq<K>>, rank: map<K, nat>, bound: nat, stack: seq<K>, x: K)
    requires Ranked(edges, rank, bound)
    requires forall i :: 0 <= i < |stack| ==> stack[i] in rank
    requires x in Pending(edges, rank, bound, stack)
    ensures exists j, path :: 0 <= j < |stack| && IsPath(edges, path) && path[0] == stack[j] && path[|path| - 1] == x
    decreases MaxHeight(rank, bound, stack), |stack|
  {
    var n := |stack|;
    if x in Walk(edges, rank, bound, stack[n - 1]) {
      WalkOnlyReachable(edges, rank, bound, stack[n - 1], x);
      var path :| IsPath(edges, path) && path[0] == stack[n - 1] && path[|path| - 1] == x;
      assert 0 <= n - 1 < n;
    } else {
      PendingOnlyReachable(edges, rank, bound, stack[..n - 1], x);
      var j, path :| 0 <= j < n - 1 && IsPath(edges, path) && path[0] == stack[..n - 1][j] && path[|path| - 1] == x;
      assert stack[..n - 1][j] == stack[j];
    }
  }

  /** `x` can be reached from `id` along edges. */
  ghost predicate Reachable<K(!new)>(edges: map<K, seq<K>>, id: K, x: K)
  {
    exists path :: IsPath(edges, path) && path[0] == id && path[|path| - 1] == x
  }

  /** A walk from `id` pops exactly the nodes reachable from `id`. */
  lemma WalkIsReachable<K(!new)>(edges: map<K, seq<K>>, rank: map<K, nat>, bound: nat, id: K, x: K)
    requires Ranked(edges, rank, bound) && id in rank
    ensures x in Walk(edges, rank, bound, id) <==> Reachable(edges, id, x)
  {
    if x in Walk(edges, rank, bound, id) {
      WalkOnlyReachable(edges, rank, bound, id, x);
    }
    if Reachable(edges, id, x) {
      var path :| IsPath(edges, path) && path[0] == id && path[|path| - 1] == x;
      WalkReachesAll(edges, rank, bound, path);
    }
  }

  /** The two branches of the diamond of `DiamondTwice`, each walked down
      to the shared node. */
  lemma DiamondBranches(edges: map<int, seq<int>>, rank: map<int, nat>)
    requires edges == map[0 := [1, 2], 1 := [3], 2 := [3], 3 := []]
    requires rank == map[0 := 0, 1 := 1, 2 := 1, 3 := 2]
    ensures Ranked(edges, rank, 2)
    ensures Walk(edges, rank, 2, 1) == [1, 3] && Walk(edges, rank, 2, 2) == [2, 3]
  {
    assert Ranked(edges, rank, 2);
    assert Walk(edges, rank, 2, 3) == [3] by {
      assert Children(edges, 3) == [];
    }
    assert Pending(edges, rank, 2, [3]) == [3] by {
      assert Pending(edges, rank, 2, [3]) == Walk(edges, rank, 2, 3) + Pending(edges, rank, 2, []);
    }
    assert Walk(edges, rank, 2, 1) == [1] + Pending(edges, rank, 2, [3]);
    assert Walk(edges, rank, 2, 2) == [2] + Pending(edges, rank, 2, [3]);
  }

  /** An instance of `WalkCountsPaths`: in the diamond 0 -> [1, 2],
      1 -> [3], 2 -> [3], node 3 is popped twice, once per path, and the
      later sibling 2 is walked before 1. */
  lemma DiamondTwice()
    ensures var edges := map[0 := [1, 2], 1 := [3], 2 := [3], 3 := []];
      var rank := map[0 := 0, 1 := 1, 2 := 1, 3 := 2];
      Ranked(edges, rank, 2) && Walk(edges, rank, 2, 0) == [0, 2, 3, 1, 3]
  {
    var edges := map[0 := [1, 2], 1 := [3], 2 := [3], 3 := []];
    var rank := map[0 := 0, 1 := 1, 2 := 1, 3 := 2];
    DiamondBranches(edges, rank);
    assert Pending(edges, rank, 2, [1]) == [1, 3] by {
      assert Pending(edges, rank, 2, [1]) == Walk(edges, rank, 2, 1) + Pending(edges, rank, 2, []);
    }
    assert Pending(edges, rank, 2, [1, 2]) == [2, 3, 1, 3] by {
      assert [1, 2][..1] == [1];
      assert Pending(edges, rank, 2, [1, 2]) == Walk(edges, rank, 2, 2) + Pending(edges, rank, 2, [1]);
    }
  }

  /** The path the walk from `id` follows to each node it pops, in the
      order it pops them: the `k`-th path ends at the `k`-th popped node. */
  ghost function Paths<K>(edges: map<K, seq<K>>, rank: map<K, nat>, bound: nat, id: K): seq<seq<K>>
    requires Ranked(edges, rank, bound)
    requires id in rank
    decreases Height(rank, bound, id), 0
  {
    var children := Children(edges, id);
    MaxHeightBelow(rank, bound, children, Height(rank, bound, id));
    var below := PendingPaths(edges, rank, bound, children);
    [[id]] + seq(|below|, k requires 0 <= k < |below| => [id] + below[k])
  }

  /** The paths to the nodes still to be popped when the stack holds `stack`. */
  ghost function PendingPaths<K>(edges: map<K, seq<K>>, rank: map<K, nat>, bound: nat, stack: seq<K>): seq<seq<K>>
    requires Ranked(edges, rank, bound)
    requires forall i :: 0 <= i < |stack| ==> stack[i] in rank
    decreases MaxHeight(rank, bound, stack), |stack|
  {
    if stack == [] then []
    else Paths(edges, rank, bound, stack[|stack| - 1]) + PendingPaths(edges, rank, bound, stack[..|stack| - 1])
  }

  /** A path from a child of `id`, with `id` in front, is a path from `id`. */
  lemma PathCons<K>(edges: map<K, seq<K>>, id: K, path: seq<K>)
    requires IsPath(edges, path) && path[0] in Children(edges, id)
    ensures IsPath(edges, [id] + path)
  {
    var longer := [id] + path;
    forall i | 0 <= i < |longer| - 1 ensures longer[i + 1] in Children(edges, longer[i]) {
      if i > 0 { assert longer[i + 1] == path[i] && longer[i] == path[i - 1]; }
    }
  }

  /** The `k`-th path of a walk is a path from `id` to the `k`-th node popped. */
  lemma {:induction false} PathsEndWalk<K>(edges: map<K, seq<K>>, rank: map<K, nat>, bound: nat, id: K)
    requires Ranked(edges, rank, bound)
    requires id in rank
    ensures var walk, paths := Walk(edges, rank, bound, id), Paths(edges, rank, bound, id);
      && |paths| == |walk|
      && forall k :: 0 <= k < |walk| ==>
           IsPath(edges, paths[k]) && paths[k][0] == id && paths[k][|paths[k]| - 1] == walk[k]
    decreases Height(rank, bound, id), 0
  {
    var children := Children(edges, id);
    MaxHeightBelow(rank, bound, children, Height(rank, bound, id));
    var below := PendingPaths(edges, rank, bound, children);
    var pending := Pending(edges, rank, bound, children);
    PendingPathsEnd(edges, rank, bound, children);
    var walk, paths := Walk(edges, rank, bound, id), Paths(edges, rank, bound, id);
    forall k | 0 <= k < |walk|
      ensures IsPath(edges, paths[k]) && paths[k][0] == id && paths[k][|paths[k]| - 1] == walk[k]
    {
      if k > 0 {
        assert paths[k] == [id] + below[k - 1] && walk[k] == pending[k - 1];
        PathCons(edges, id, below[k - 1]);
      }
    }
  }

  lemma {:induction false} PendingPathsEnd<K>(edges: map<K, seq<K>>, rank: map<K, nat>, bound: nat, stack: seq<K>)
    requires Ranked(edges, rank, bound)
    requires forall i :: 0 <= i < |stack| ==> stack[i] in rank
    ensures var pending, paths := Pending(edges, rank, bound, stack), PendingPaths(edges, rank, bound, stack);
      && |paths| == |pending|
      && forall k :: 0 <= k < |pending| ==>
           IsPath(edges, paths[k]) && paths[k][0] in stack && paths[k][|paths[k]| - 1] == pending[k]
    decreases MaxHeight(rank, bound, stack), |stack|
  {
    if stack != [] {
      var top, rest := stack[|stack| - 1], stack[..|stack| - 1];
      PathsEndWalk(edges, rank, bound, top);
      PendingPathsEnd(edges, rank, bound, rest);
      var w, p := Walk(edges, rank, bound, top), Paths(edges, rank, bound, top);
      var pending, paths := Pending(edges, rank, bound, stack), PendingPaths(edges, rank, bound, stack);
      forall k | 0 <= k < |pending|
        ensures IsPath(edges, paths[k]) && paths[k][0] in stack && paths[k][|paths[k]| - 1] == pending[k]
      {
        if k >= |w| {
          var j := k - |w|;
          assert paths[k] == PendingPaths(edges, rank, bound, rest)[j];
          assert pending[k] == Pending(edges, rank, bound, rest)[j];
          assert paths[k][0] in rest;
        }
      }
    }
  }

  /** Every path from `id` is one of the walk's paths. */
  lemma {:induction false} PathsComplete<K>(edges: map<K, seq<K>>, rank: map<K, nat>, bound: nat, path: seq<K>)
    requires Ranked(edges, rank, bound)
    requires IsPath(edges, path) && path[0] in rank
    ensures path in Paths(edges, rank, bound, path[0])
    decreases |path|
  {
    var id := path[0];
    if |path| == 1 {
      assert path == [id];
    } else {
      var children := Children(edges, id);
      assert path[1] in children;
      var j :| 0 <= j < |children| && children[j] == path[1];
      assert IsPath(edges, path[1..]);
      PathsComplete(edges, rank, bound, path[1..]);
      MaxHeightBelow(rank, bound, children, Height(rank, bound, id));
      PathsInPending(edges, rank, bound, children, j, path[1..]);
      var below := PendingPaths(edges, rank, bound, children);
      var m :| 0 <= m < |below| && below[m] == path[1..];
      assert Paths(edges, rank, bound, id)[m + 1] == [id] + path[1..] == path;
    }
  }

  lemma {:induction false} PathsInPending<K>(edges: map<K, seq<K>>, rank: map<K, nat>, bound: nat, stack: seq<K>, j: nat, p: seq<K>)
    requires Ranked(edges, rank, bound)
    requires forall i :: 0 <= i < |stack| ==> stack[i] in rank
    requires j < |stack| && p in Paths(edges, rank, bound, stack[j])
    ensures p in PendingPaths(edges, rank, bound, stack)
    decreases |stack|
  {
    if j < |stack| - 1 {
      PathsInPending(edges, rank, bound, stack[..|stack| - 1], j, p);
    }
  }

  /** No child is listed twice under one parent. */
  ghost predicate NoRepeatedEdges<K>(edges: map<K, seq<K>>)
  {
    forall p, i, j :: p in edges && 0 <= i < j < |edges[p]| ==> edges[p][i] != edges[p][j]
  }

  /** No element occurs twice. */
  ghost predicate Distinct<T>(s: seq<T>)
  {
    forall i, j :: 0 <= i < j < |s| ==> s[i] != s[j]
  }

  /** Without repeated edges, a walk follows every path once. */
  lemma {:induction false} PathsDistinct<K>(edges: map<K, seq<K>>, rank: map<K, nat>, bound: nat, id: K)
    requires Ranked(edges, rank, bound) && NoRepeatedEdges(edges)
    requires id in rank
    ensures Distinct(Paths(edges, rank, bound, id))
    decreases Height(rank, bound, id), 0
  {
    var children := Children(edges, id);
    MaxHeightBelow(rank, bound, children, Height(rank, bound, id));
    var below := PendingPaths(edges, rank, bound, children);
    PendingPathsDistinct(edges, rank, bound, children);
    PendingPathsEnd(edges, rank, bound, children);
    var paths := Paths(edges, rank, bound, id);
    forall i, j | 0 <= i < j < |paths| ensures paths[i] != paths[j] {
      if i == 0 {
        assert |paths[j]| == 1 + |below[j - 1]| > 1;
      } else {
        assert paths[i][1..] == below[i - 1] && paths[j][1..] == below[j - 1];
      }
    }
  }

  lemma {:induction false} PendingPathsDistinct<K>(edges: map<K, seq<K>>, rank: map<K, nat>, bound: nat, stack: seq<K>)
    requires Ranked(edges, rank, bound) && NoRepeatedEdges(edges)
    requires forall i :: 0 <= i < |stack| ==> stack[i] in rank
    requires Distinct(stack)
    ensures Distinct(PendingPaths(edges, rank, bound, stack))
    decreases MaxHeight(rank, bound, stack), |stack|
  {
    if stack != [] {
      var top, rest := stack[|stack| - 1], stack[..|stack| - 1];
      PathsDistinct(edges, rank, bound, top);
      PathsEndWalk(edges, rank, bound, top);
      PendingPathsDistinct(edges, rank, bound, rest);
      PendingPathsEnd(edges, rank, bound, rest);
      var p, q := Paths(edges, rank, bound, top), PendingPaths(edges, rank, bound, rest);
      var paths := PendingPaths(edges, rank, bound, stack);
      assert paths == p + q;
      forall i, j | 0 <= i < j < |paths| ensures paths[i] != paths[j] {
        if j < |p| {
          assert paths[i] == p[i] && paths[j] == p[j];
        } else if i >= |p| {
          assert paths[i] == q[i - |p|] && paths[j] == q[j - |p|];
        } else {
          assert paths[i] == p[i] && paths[j] == q[j - |p|];
          assert paths[j][0] in rest;
          assert top !in rest;
        }
      }
    }
  }

  /** The paths of `paths` that end at `x`. */
  ghost function EndingAt<K>(paths: seq<seq<K>>, x: K): set<seq<K>>
  {
    set p | p in paths && |p| > 0 && p[|p| - 1] == x
  }

  /** Appending a path adds it to the paths ending at its last node. */
  lemma EndingAtSnoc<K>(front: seq<seq<K>>, last: seq<K>, x: K)
    requires |last| > 0
    ensures EndingAt(front + [last], x)
         == EndingAt(front, x) + (if last[|last| - 1] == x then {last} else {})
  {
  }

  /** When the `k`-th of distinct paths ends at `walk[k]`, a node occurs in
      `walk` once for each path that ends at it. */
  lemma {:induction false} CountEnds<K>(paths: seq<seq<K>>, walk: seq<K>, x: K)
    requires |paths| == |walk| && Distinct(paths)
    requires forall k :: 0 <= k < |walk| ==> |paths[k]| > 0 && paths[k][|paths[k]| - 1] == walk[k]
    ensures multiset(walk)[x] == |EndingAt(paths, x)|
  {
    if walk != [] {
      var n := |walk| - 1;
      var front, last := paths[..n], paths[n];
      assert walk == walk[..n] + [walk[n]];
      assert paths == front + [last];
      CountEnds(front, walk[..n], x);
      assert last !in front;
      EndingAtSnoc(front, last, x);
    }
  }

  /** The paths from `id` to `x` along edges: those the walk follows. */
  ghost function PathsTo<K>(edges: map<K, seq<K>>, rank: map<K, nat>, bound: nat, id: K, x: K): set<seq<K>>
    requires Ranked(edges, rank, bound)
    requires id in rank
  {
    EndingAt(Paths(edges, rank, bound, id), x)
  }

  /** Without a visited set, a walk pops a node once for every path that
      leads to it from the start (when no child is listed twice under one
      parent, as `addRelation` guarantees): `PathsTo` holds exactly the
      paths from `id` to `x`, and `x` occurs in the walk as often as there
      are such paths. */
  lemma WalkCountsPaths<K>(edges: map<K, seq<K>>, rank: map<K, nat>, bound: nat, id: K, x: K)
    requires Ranked(edges, rank, bound) && NoRepeatedEdges(edges)
    requires id in rank
    ensures forall p :: p in PathsTo(edges, rank, bound, id, x) <==> IsPath(edges, p) && p[0] == id && p[|p| - 1] == x
    ensures multiset(Walk(edges, rank, bound, id))[x] == |PathsTo(edges, rank, bound, id, x)|
  {
    var paths := Paths(edges, rank, bound, id);
    PathsEndWalk(edges, rank, bound, id);
    PathsDistinct(edges, rank, bound, id);
    CountEnds(paths, Walk(edges, rank, bound, id), x);
    forall p ensures p in PathsTo(edges, rank, bound, id, x) <==> IsPath(edges, p) && p[0] == id && p[|p| - 1] == x {
      if IsPath(edges, p) && p[0] == id {
        PathsComplete(edges, rank, bound, p);
      }
    }
  }

  /** A popped node stops the stack loop: it is not a node of the graph
      (`m_nodes.at` throws), or it is to be expanded and has no edge list
      (`m_edges.at` throws). Nodes of `leaves` are never expanded. */
  predicate Blocks<K>(id: K, keys: set<K>, leaves: set<K>, edges: map<K, seq<K>>)
  {
    id !in keys || (id !in leaves && id !in edges)
  }

  /** No node of `walk` stops the loop. */
  predicate Clear<K>(walk: seq<K>, keys: set<K>, leaves: set<K>, edges: map<K, seq<K>>)
  {
    forall k :: 0 <= k < |walk| ==> !Blocks(walk[k], keys, leaves, edges)
  }

  /** The nodes of `walk` the visitor is called on: all of them, or only
      the leaves when `leavesOnly`. */
  function Reported<K>(walk: seq<K>, leaves: set<K>, leavesOnly: bool): seq<K>
  {
    if walk == [] then []
    else
      var last := walk[|walk| - 1];
      Reported(walk[..|walk| - 1], leaves, leavesOnly) + (if !leavesOnly || last in leaves then [last] else [])
  }

  /** Reporting every node reports the walk itself. */
  lemma {:induction false} ReportedAll<K>(walk: seq<K>, leaves: set<K>)
    ensures Reported(walk, leaves, false) == walk
  {
    if walk != [] {
      ReportedAll(walk[..|walk| - 1], leaves);
    }
  }

  /** The loop stopped at `walk[stop]`: every node before it passed, and
      the visitor saw what `Reported` gives for them, plus the stopping
      node itself when every node is reported and it exists (the visitor
      runs before `m_edges.at`). */
  predicate Stuck<K>(trace: seq<K>, stop: nat, walk: seq<K>, keys: set<K>, leaves: set<K>, edges: map<K, seq<K>>,
                     leavesOnly: bool)
  {
    && stop < |walk| && Clear(walk[..stop], keys, leaves, edges) && Blocks(walk[stop], keys, leaves, edges)
    && trace == Reported(walk[..stop], leaves, leavesOnly) + (if !leavesOnly && walk[stop] in keys then [walk[stop]] else [])
  }

  /** One more popped node that does not stop the loop. */
  lemma PassStep<K>(done: seq<K>, id: K, later: seq<K>, walk: seq<K>, keys: set<K>, leaves: set<K>,
                    edges: map<K, seq<K>>, leavesOnly: bool)
    requires done + ([id] + later) == walk && Clear(done, keys, leaves, edges) && !Blocks(id, keys, leaves, edges)
    ensures (done + [id]) + later == walk && Clear(done + [id], keys, leaves, edges)
    ensures Reported(done + [id], leaves, leavesOnly)
         == Reported(done, leaves, leavesOnly) + (if !leavesOnly || id in leaves then [id] else [])
  {
    assert (done + [id])[..|done|] == done;
  }

  /** The popped node `id` stops the loop. */
  lemma StopStep<K>(done: seq<K>, id: K, later: seq<K>, walk: seq<K>, keys: set<K>, leaves: set<K>,
                    edges: map<K, seq<K>>, leavesOnly: bool, trace: seq<K>)
    requires done + ([id] + later) == walk && Clear(done, keys, leaves, edges) && Blocks(id, keys, leaves, edges)
    requires trace == Reported(done, leaves, leavesOnly) + (if !leavesOnly && id in keys then [id] else [])
    ensures Stuck(trace, |done|, walk, keys, leaves, edges, leavesOnly) && !Clear(walk, keys, leaves, edges)
  {
    assert walk[|done|] == id;
    assert walk[..|done|] == done;
  }

  /** One round of the stack loop: pop the top node, stop on it, or
      report it as `Reported` says and push its children; either way the
      walk so far and the nodes still pending make up the whole walk. */
  method PopOne<K>(edges: map<K, seq<K>>, ghost rank: map<K, nat>, ghost bound: nat,
                   keys: set<K>, leaves: set<K>, leavesOnly: bool, stack: seq<K>, trace: seq<K>,
                   ghost done: seq<K>, ghost walk: seq<K>)
    returns (stack': seq<K>, trace': seq<K>, ghost done': seq<K>, stopped: bool)
    requires Ranked(edges, rank, bound)
    requires forall l :: l in leaves ==> Children(edges, l) == []
    requires stack != [] && forall i :: 0 <= i < |stack| ==> stack[i] in rank
    requires done + Pending(edges, rank, bound, stack) == walk
    requires Clear(done, keys, leaves, edges) && trace == Reported(done, leaves, leavesOnly)
    ensures stopped ==> Stuck(trace', |done|, walk, keys, leaves, edges, leavesOnly) && !Clear(walk, keys, leaves, edges)
    ensures !stopped ==>
      && (forall i :: 0 <= i < |stack'| ==> stack'[i] in rank)
      && done' + Pending(edges, rank, bound, stack') == walk
      && |Pending(edges, rank, bound, stack')| < |Pending(edges, rank, bound, stack)|
      && Clear(done', keys, leaves, edges) && trace' == Reported(done', leaves, leavesOnly)
  {
    var id := stack[|stack| - 1];
    var rest := stack[..|stack| - 1];
    assert stack == rest + [id];
    PopStep(edges, rank, bound, rest, id);
    ghost var later := Pending(edges, rank, bound, rest + Children(edges, id));
    trace', done' := trace, done;
    if id !in keys {
      StopStep(done, id, later, walk, keys, leaves, edges, leavesOnly, trace);
      return stack, trace, done, true;
    }
    if !leavesOnly || id in leaves {
      trace' := trace + [id];
    }
    if id !in leaves && id !in edges {
      StopStep(done, id, later, walk, keys, leaves, edges, leavesOnly, trace');
      return stack, trace', done, true;
    }
    PassStep(done, id, later, walk, keys, leaves, edges, leavesOnly);
    done' := done + [id];
    stack' := rest + Children(edges, id);
    stopped := false;
  }

  /** The stack loop of `visit` (`leavesOnly` false, no leaves) and of
      `visitLeafs` (`leavesOnly` true): pop the top, read it with
      `m_nodes.at`, call the visitor on it when it is to be reported, and
      unless it is a leaf push its children, read with `m_edges.at`. A leaf
      has no children. */
  method WalkStack<K>(edges: map<K, seq<K>>, ghost rank: map<K, nat>, ghost bound: nat, root: K,
                      keys: set<K>, leaves: set<K>, leavesOnly: bool)
    returns (trace: seq<K>, ok: bool, ghost stop: nat)
    requires Ranked(edges, rank, bound) && root in rank
    requires forall l :: l in leaves ==> Children(edges, l) == []
    ensures ok <==> Clear(Walk(edges, rank, bound, root), keys, leaves, edges)
    ensures ok ==> trace == Reported(Walk(edges, rank, bound, root), leaves, leavesOnly)
    ensures !ok ==> Stuck(trace, stop, Walk(edges, rank, bound, root), keys, leaves, edges, leavesOnly)
  {
    ghost var walk := Walk(edges, rank, bound, root);
    var stack := [root];
    trace := [];
    ghost var done: seq<K> := [];
    stop := 0;
    assert Pending(edges, rank, bound, stack) == walk;
    while stack != []
      invariant forall i :: 0 <= i < |stack| ==> stack[i] in rank
      invariant done + Pending(edges, rank, bound, stack) == walk
      invariant Clear(done, keys, leaves, edges) && trace == Reported(done, leaves, leavesOnly)
      decreases |Pending(edges, rank, bound, stack)|
    {
      var stopped;
      ghost var next;
      stack, trace, next, stopped := PopOne(edges, rank, bound, keys, leaves, leavesOnly, stack, trace, done, walk);
      if stopped {
        return trace, false, |done|;
      }
      done := next;
    }
    assert done == walk;
    ok := true;
  }
}
