/**
 * The edge loop of `Expression::compose` for one input graph, as a fold of
 * `addRelation`: for every parent of the input's edge table, in the hash
 * map's order, each of its children in list order is linked under the
 * copies' identifiers. The loop stops at the first rejected relation; for
 * a copy of a well-formed graph none is rejected, and the lists built are
 * the input's lists re-targeted through the lookup table.
 */
module Linking {
  import opened Wrappers
  import opened Traversals
  import opened Arena
  import opened Checks

  /** `addRelation(parentId, c)` for every `c` of `cs` in turn, up to the
      first rejected one. */
  function LinkEach(nodes: map<nat, Formula>, edges: map<nat, seq<nat>>, parentId: nat, cs: seq<nat>): (Outcome<ExprError>, map<nat, seq<nat>>)
    decreases |cs|
  {
    if cs == [] then (Pass, edges)
    else
      var prior := LinkEach(nodes, edges, parentId, cs[..|cs| - 1]);
      if prior.0.Fail? then prior else Link(nodes, prior.1, parentId, cs[|cs| - 1])
  }

  /** Every parent of `ps` is in the input's edge table, and it and its
      children have translations. */
  ghost predicate Retargetable(lookup: map<nat, nat>, gedges: map<nat, seq<nat>>, ps: seq<nat>)
  {
    forall k :: 0 <= k < |ps| ==> ps[k] in gedges && ps[k] in lookup && Mapped(lookup, gedges[ps[k]])
  }

  /** The edge loop after the parents `ps`, up to the first rejected relation. */
  function LinkParents(nodes: map<nat, Formula>, edges: map<nat, seq<nat>>, lookup: map<nat, nat>,
                       gedges: map<nat, seq<nat>>, ps: seq<nat>): (Outcome<ExprError>, map<nat, seq<nat>>)
    requires Retargetable(lookup, gedges, ps)
    decreases |ps|
  {
    if ps == [] then (Pass, edges)
    else
      var prior := LinkParents(nodes, edges, lookup, gedges, ps[..|ps| - 1]);
      var p := ps[|ps| - 1];
      if prior.0.Fail? then prior else LinkEach(nodes, prior.1, lookup[p], Translate(lookup, gedges[p]))
  }

  /** The lists the loop is meant to build: for each parent of `ps` that
      has children, its re-targeted list under its copy's identifier. */
  function Retarget(lookup: map<nat, nat>, gedges: map<nat, seq<nat>>, ps: seq<nat>): map<nat, seq<nat>>
    requires Retargetable(lookup, gedges, ps)
    decreases |ps|
  {
    if ps == [] then map[]
    else
      var p := ps[|ps| - 1];
      var prior := Retarget(lookup, gedges, ps[..|ps| - 1]);
      if gedges[p] == [] then prior else prior[lookup[p] := Translate(lookup, gedges[p])]
  }

  // ---- a rejected relation ends the loop ----

  lemma {:induction false} EachSticky(nodes: map<nat, Formula>, edges: map<nat, seq<nat>>, parentId: nat, cs: seq<nat>, j: nat)
    requires j <= |cs| && LinkEach(nodes, edges, parentId, cs[..j]).0.Fail?
    ensures LinkEach(nodes, edges, parentId, cs) == LinkEach(nodes, edges, parentId, cs[..j])
    decreases |cs| - j
  {
    if j < |cs| {
      assert cs[..j + 1][..j] == cs[..j];
      EachSticky(nodes, edges, parentId, cs, j + 1);
    } else {
      assert cs[..j] == cs;
    }
  }

  lemma {:induction false} ParentsSticky(nodes: map<nat, Formula>, edges: map<nat, seq<nat>>, lookup: map<nat, nat>,
                                         gedges: map<nat, seq<nat>>, ps: seq<nat>, i: nat)
    requires Retargetable(lookup, gedges, ps) && i <= |ps|
    requires LinkParents(nodes, edges, lookup, gedges, ps[..i]).0.Fail?
    ensures LinkParents(nodes, edges, lookup, gedges, ps) == LinkParents(nodes, edges, lookup, gedges, ps[..i])
    decreases |ps| - i
  {
    if i < |ps| {
      assert ps[..i + 1][..i] == ps[..i];
      ParentsSticky(nodes, edges, lookup, gedges, ps, i + 1);
    } else {
      assert ps[..i] == ps;
    }
  }

  // ---- a copy of a well-formed graph is linked without a rejection ----

  /** Linking distinct new children under a parent that accepts them all
      appends them, in order, to its list. */
  lemma {:induction false} EachPasses(nodes: map<nat, Formula>, edges: map<nat, seq<nat>>, parentId: nat, cs: seq<nat>)
    requires parentId in nodes && nodes[parentId] != Term
    requires nodes[parentId] == Implication ==> |Children(edges, parentId)| + |cs| <= 2
    requires forall k :: 0 <= k < |cs| ==> cs[k] in nodes && cs[k] !in Children(edges, parentId)
    requires forall a, b :: 0 <= a < b < |cs| ==> cs[a] != cs[b]
    ensures LinkEach(nodes, edges, parentId, cs) == (Pass, if cs == [] then edges else edges[parentId := Children(edges, parentId) + cs])
    decreases |cs|
  {
    if cs != [] {
      var front, c := cs[..|cs| - 1], cs[|cs| - 1];
      EachPasses(nodes, edges, parentId, front);
      var e := if front == [] then edges else edges[parentId := Children(edges, parentId) + front];
      assert Children(e, parentId) == Children(edges, parentId) + front;
      assert forall k :: 0 <= k < |front| ==> front[k] == cs[k] != c;
      assert Children(edges, parentId) + front + [c] == Children(edges, parentId) + cs;
      assert e[parentId := Children(e, parentId) + [c]] == edges[parentId := Children(edges, parentId) + cs];
    }
  }

  /** No two nodes share a translation. */
  ghost predicate OneToOne(lookup: map<nat, nat>)
  {
    forall x, y :: x in lookup && y in lookup && x != y ==> lookup[x] != lookup[y]
  }

  /** Which copies the re-targeted lists belong to, and what they hold. */
  lemma {:induction false} RetargetAt(lookup: map<nat, nat>, gedges: map<nat, seq<nat>>, ps: seq<nat>)
    requires Retargetable(lookup, gedges, ps) && OneToOne(lookup)
    ensures var r := Retarget(lookup, gedges, ps);
      && (forall y :: y in r ==> y in lookup.Values)
      && (forall x :: x in lookup ==> (lookup[x] in r <==> x in ps && gedges[x] != []))
      && (forall x :: x in lookup && lookup[x] in r ==> r[lookup[x]] == Translate(lookup, gedges[x]))
    decreases |ps|
  {
    if ps != [] {
      var front, p := ps[..|ps| - 1], ps[|ps| - 1];
      RetargetAt(lookup, gedges, front);
      assert forall x :: x in ps <==> x in front || x == p;
    }
  }

  /** Lists re-targeted onto copies from `[lo, hi)` leave every list of a
      node below `lo` as it was. */
  lemma RetargetAbove(edges: map<nat, seq<nat>>, lookup: map<nat, nat>, keys: set<nat>, lo: nat, hi: nat,
                      gedges: map<nat, seq<nat>>, ps: seq<nat>)
    requires Block(lookup, keys, lo, hi) && Retargetable(lookup, gedges, ps)
    ensures SameOn(edges + Retarget(lookup, gedges, ps), edges, 0, lo)
  {
    RetargetAt(lookup, gedges, ps);
  }

  /** What the edge loop finds for one input: every node of the input has
      a copy of the same kind, no copy has an edge list yet, the lookup
      table is one-to-one, and the input's lists are well shaped and name
      only nodes that have copies. */
  ghost predicate Fresh(nodes: map<nat, Formula>, edges: map<nat, seq<nat>>, lookup: map<nat, nat>,
                        gnodes: map<nat, Formula>, gedges: map<nat, seq<nat>>)
  {
    && gnodes.Keys <= lookup.Keys
    && (forall x :: x in lookup ==> x in gnodes && lookup[x] in nodes && nodes[lookup[x]] == gnodes[x] && lookup[x] !in edges)
    && OneToOne(lookup)
    && Shaped(gnodes, gedges)
    && (forall p, i :: p in gedges && 0 <= i < |gedges[p]| ==> gedges[p][i] in gnodes)
  }

  /** Adding one parent at the end of `ps` adds its re-targeted list, if
      it has children. */
  lemma RetargetSnoc(lookup: map<nat, nat>, gedges: map<nat, seq<nat>>, front: seq<nat>, p: nat)
    requires Retargetable(lookup, gedges, front)
    requires p in gedges && p in lookup && Mapped(lookup, gedges[p])
    ensures Retargetable(lookup, gedges, front + [p])
    ensures Retarget(lookup, gedges, front + [p])
         == if gedges[p] == [] then Retarget(lookup, gedges, front)
            else Retarget(lookup, gedges, front)[lookup[p] := Translate(lookup, gedges[p])]
  {
    assert (front + [p])[..|front|] == front;
  }

  /** The children of a parent of the input, linked under a copy that has
      no list yet, become its list. */
  lemma FreshEach(nodes: map<nat, Formula>, edges: map<nat, seq<nat>>, lookup: map<nat, nat>,
                  gnodes: map<nat, Formula>, gedges: map<nat, seq<nat>>, e: map<nat, seq<nat>>, p: nat)
    requires Fresh(nodes, edges, lookup, gnodes, gedges)
    requires p in gedges && Children(e, lookup[p]) == []
    ensures Mapped(lookup, gedges[p])
    ensures LinkEach(nodes, e, lookup[p], Translate(lookup, gedges[p]))
         == (Pass, if gedges[p] == [] then e else e[lookup[p] := Translate(lookup, gedges[p])])
  {
    var kids := gedges[p];
    assert p in gnodes && p in lookup;
    assert forall i :: 0 <= i < |kids| ==> kids[i] in gnodes && kids[i] in lookup;
    var cs := Translate(lookup, kids);
    var q := lookup[p];
    if kids != [] {
      assert q in nodes && nodes[q] == gnodes[p] != Term;
      assert gnodes[p] == Implication ==> |kids| <= 2;
      forall k | 0 <= k < |cs| ensures cs[k] in nodes && cs[k] !in Children(e, q) {
        assert cs[k] == lookup[kids[k]];
      }
      forall a, b | 0 <= a < b < |cs| ensures cs[a] != cs[b] {
        assert kids[a] != kids[b];
      }
      EachPasses(nodes, e, q, cs);
      assert [] + cs == cs;
    }
  }

  /** Updating a union is updating its right-hand side. */
  lemma UpdateUnion<K, V>(m: map<K, V>, r: map<K, V>, k: K, v: V)
    ensures (m + r)[k := v] == m + r[k := v]
  {
  }

  /** One parent's round on a fresh copy: its children become the list of
      its copy, or nothing happens when it has none. */
  lemma ParentStep(nodes: map<nat, Formula>, edges: map<nat, seq<nat>>, lookup: map<nat, nat>,
                   gnodes: map<nat, Formula>, gedges: map<nat, seq<nat>>, front: seq<nat>, p: nat)
    requires Fresh(nodes, edges, lookup, gnodes, gedges)
    requires Retargetable(lookup, gedges, front) && p in gedges && p !in front
    ensures Retargetable(lookup, gedges, front + [p])
    ensures LinkEach(nodes, edges + Retarget(lookup, gedges, front), lookup[p], Translate(lookup, gedges[p]))
         == (Pass, edges + Retarget(lookup, gedges, front + [p]))
  {
    RetargetAt(lookup, gedges, front);
    var rf := Retarget(lookup, gedges, front);
    FreshEach(nodes, edges, lookup, gnodes, gedges, edges + rf, p);
    RetargetSnoc(lookup, gedges, front, p);
    if gedges[p] != [] {
      UpdateUnion(edges, rf, lookup[p], Translate(lookup, gedges[p]));
    }
  }

  /** On a fresh copy, the loop over distinct parents rejects nothing and
      adds exactly the re-targeted lists. */
  lemma {:induction false} ParentsPass(nodes: map<nat, Formula>, edges: map<nat, seq<nat>>, lookup: map<nat, nat>,
                                       gnodes: map<nat, Formula>, gedges: map<nat, seq<nat>>, ps: seq<nat>)
    requires Fresh(nodes, edges, lookup, gnodes, gedges)
    requires forall k :: 0 <= k < |ps| ==> ps[k] in gedges
    requires forall a, b :: 0 <= a < b < |ps| ==> ps[a] != ps[b]
    ensures Retargetable(lookup, gedges, ps)
    ensures LinkParents(nodes, edges, lookup, gedges, ps) == (Pass, edges + Retarget(lookup, gedges, ps))
    decreases |ps|
  {
    if ps != [] {
      var front, p := ps[..|ps| - 1], ps[|ps| - 1];
      ParentsPass(nodes, edges, lookup, gnodes, gedges, front);
      assert p !in front by {
        assert forall k :: 0 <= k < |front| ==> front[k] == ps[k] != p;
      }
      assert ps == front + [p];
      ParentStep(nodes, edges, lookup, gnodes, gedges, front, p);
      assert LinkParents(nodes, edges, lookup, gedges, ps)
          == LinkEach(nodes, edges + Retarget(lookup, gedges, front), lookup[p], Translate(lookup, gedges[p]));
    } else {
      assert edges + map[] == edges;
    }
  }

  /** The edge loop of `compose` for one input: for every parent of `ps`,
      each of its children in order is linked under the copies'
      identifiers, and the first rejected relation ends the loop. */
  method LinkLoop(nodes: map<nat, Formula>, edges0: map<nat, seq<nat>>, lookup: map<nat, nat>,
                  gedges: map<nat, seq<nat>>, ps: seq<nat>) returns (out: Outcome<ExprError>, edges: map<nat, seq<nat>>)
    requires Retargetable(lookup, gedges, ps)
    ensures (out, edges) == LinkParents(nodes, edges0, lookup, gedges, ps)
  {
    edges := edges0;
    var i := 0;
    while i < |ps|
      invariant i <= |ps| && LinkParents(nodes, edges0, lookup, gedges, ps[..i]) == (Pass, edges)
    {
      var p := ps[i];
      var linked, e := LinkChildren(nodes, edges, lookup, lookup[p], gedges[p]);
      ParentsNext(nodes, edges0, lookup, gedges, ps, i);
      if linked.Fail? {
        ParentsSticky(nodes, edges0, lookup, gedges, ps, i + 1);
        return linked, e;
      }
      edges := e;
      i := i + 1;
    }
    assert ps[..i] == ps;
    out := Pass;
  }

  /** One more parent, after a prefix that passed, links its children onto
      the lists the prefix left. */
  lemma ParentsNext(nodes: map<nat, Formula>, edges: map<nat, seq<nat>>, lookup: map<nat, nat>,
                    gedges: map<nat, seq<nat>>, ps: seq<nat>, i: nat)
    requires Retargetable(lookup, gedges, ps) && i < |ps|
    requires LinkParents(nodes, edges, lookup, gedges, ps[..i]).0.Pass?
    ensures Retargetable(lookup, gedges, ps[..i + 1])
    ensures LinkParents(nodes, edges, lookup, gedges, ps[..i + 1])
         == LinkEach(nodes, LinkParents(nodes, edges, lookup, gedges, ps[..i]).1, lookup[ps[i]], Translate(lookup, gedges[ps[i]]))
  {
    assert ps[..i + 1][..i] == ps[..i];
  }

  /** One more child, after a prefix that passed, is linked onto the
      lists the prefix left. */
  lemma EachStep(nodes: map<nat, Formula>, edges: map<nat, seq<nat>>, parentId: nat, cs: seq<nat>, j: nat)
    requires j < |cs| && LinkEach(nodes, edges, parentId, cs[..j]).0.Pass?
    ensures LinkEach(nodes, edges, parentId, cs[..j + 1])
         == Link(nodes, LinkEach(nodes, edges, parentId, cs[..j]).1, parentId, cs[j])
  {
    assert cs[..j + 1][..j] == cs[..j];
  }

  /** The inner loop for one parent: each child, in list order, is linked
      under the copies' identifiers, up to the first rejected relation. */
  method LinkChildren(nodes: map<nat, Formula>, edges0: map<nat, seq<nat>>, lookup: map<nat, nat>,
                      parentId: nat, children: seq<nat>) returns (out: Outcome<ExprError>, edges: map<nat, seq<nat>>)
    requires Mapped(lookup, children)
    ensures (out, edges) == LinkEach(nodes, edges0, parentId, Translate(lookup, children))
  {
    ghost var cs := Translate(lookup, children);
    edges := edges0;
    var j := 0;
    while j < |children|
      invariant j <= |children| && LinkEach(nodes, edges0, parentId, cs[..j]) == (Pass, edges)
    {
      var linked := Link(nodes, edges, parentId, lookup[children[j]]);
      EachStep(nodes, edges0, parentId, cs, j);
      if linked.0.Fail? {
        EachSticky(nodes, edges0, parentId, cs, j + 1);
        return linked.0, linked.1;
      }
      edges := linked.1;
      j := j + 1;
    }
    assert cs[..j] == cs;
    out := Pass;
  }

  // ---- what the finished edge loop leaves behind ----

  /** The re-targeted lists keep the adjacency invariants: they copy well
      shaped lists onto nodes of the same kinds, and every copy lies one
      level below its original's depth. */
  lemma RetargetLinked(nodes: map<nat, Formula>, edges: map<nat, seq<nat>>, rank: map<nat, nat>, bound: nat,
                       lookup: map<nat, nat>, gnodes: map<nat, Formula>, gedges: map<nat, seq<nat>>,
                       grank: map<nat, nat>, gbound: nat, ps: seq<nat>)
    requires Linked(nodes, edges, rank, bound) && Fresh(nodes, edges, lookup, gnodes, gedges)
    requires Ranked(gedges, grank, gbound) && CopiedVia(rank, Levels(grank), lookup)
    requires Retargetable(lookup, gedges, ps)
    ensures Linked(nodes, edges + Retarget(lookup, gedges, ps), rank, bound)
  {
    var r := Retarget(lookup, gedges, ps);
    RetargetAt(lookup, gedges, ps);
    forall y | y in r
      ensures y in nodes && y in rank
      ensures r[y] != [] ==> nodes[y] != Term
      ensures nodes[y] == Implication ==> |r[y]| <= 2
      ensures forall i, j :: 0 <= i < j < |r[y]| ==> r[y][i] != r[y][j]
      ensures forall i :: 0 <= i < |r[y]| ==> r[y][i] in rank && rank[y] < rank[r[y][i]]
    {
      var x :| x in lookup && lookup[x] == y;
      assert x in grank;
      forall i | 0 <= i < |r[y]| ensures r[y][i] in rank && rank[y] < rank[r[y][i]] {
        assert gedges[x][i] in lookup;
      }
    }
  }

  /** When `ps` lists every parent of the input, the finished loop leaves
      each copy with its original's list re-targeted, and a copy whose
      original has no children without a list. */
  lemma RetargetVia(edges: map<nat, seq<nat>>, lookup: map<nat, nat>, gnodes: map<nat, Formula>,
                    gedges: map<nat, seq<nat>>, ps: seq<nat>)
    requires forall x :: x in lookup ==> lookup[x] !in edges
    requires OneToOne(lookup) && Retargetable(lookup, gedges, ps)
    requires forall x :: x in gedges ==> x in ps
    ensures EdgesVia(edges + Retarget(lookup, gedges, ps), gedges, lookup)
  {
    RetargetAt(lookup, gedges, ps);
  }
}
