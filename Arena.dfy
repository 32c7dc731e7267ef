/**
 * The tables of a formula-graph arena as plain values: the invariant every
 * `Expression` keeps, and the facts about single updates and about the node
 * copies `compose` makes, one table at a time.
 */
module Arena {
  import opened Wrappers
  import opened Traversals

  datatype Formula = Term | Implication | And | Or | Chain

  /** The largest node identifier (`std::numeric_limits<unsigned int>::max()`). */
  const UIntMax: nat := 0xFFFF_FFFF

  /** `ids` with every element replaced through the lookup table. */
  function Translate(lookup: map<nat, nat>, ids: seq<nat>): (r: seq<nat>)
    requires forall i :: 0 <= i < |ids| ==> ids[i] in lookup
    ensures |r| == |ids| && forall i :: 0 <= i < |ids| ==> r[i] == lookup[ids[i]]
  {
    seq(|ids|, i requires 0 <= i < |ids| => lookup[ids[i]])
  }

  /** The adjacency invariants the checks of `addRelation` keep: every list
      belongs to a node, a Term never gains children, an Implication has at
      most two, and no edge is inserted twice. */
  ghost predicate Shaped(nodes: map<nat, Formula>, edges: map<nat, seq<nat>>)
  {
    && edges.Keys <= nodes.Keys
    && (forall p :: p in edges && edges[p] != [] ==> nodes[p] != Term)
    && (forall p :: p in edges && nodes[p] == Implication ==> |edges[p]| <= 2)
    && (forall p, i, j :: p in edges && 0 <= i < j < |edges[p]| ==> edges[p][i] != edges[p][j])
  }

  /** A bound name is non-empty and the reverse table records it. */
  ghost predicate NamesAgree(nodes: map<nat, Formula>, named: map<string, nat>, reverse: map<nat, string>)
  {
    && reverse.Keys <= nodes.Keys
    && (forall n :: n in named ==> n != "" && named[n] in reverse && reverse[named[n]] == n)
  }

  /** `m_edges[p]` on an existing node keeps both invariants. */
  lemma EntryKeeps(nodes: map<nat, Formula>, edges: map<nat, seq<nat>>, rank: map<nat, nat>, bound: nat, p: nat)
    requires Linked(nodes, edges, rank, bound)
    requires p in nodes && p in rank
    ensures Linked(nodes, edges[p := Children(edges, p)], rank, bound)
  {
  }

  /** Appending a child that passed the checks of `addRelation` and lies
      below its parent keeps both invariants. */
  lemma LinkKeeps(nodes: map<nat, Formula>, edges: map<nat, seq<nat>>, rank: map<nat, nat>, bound: nat, p: nat, c: nat)
    requires Linked(nodes, edges, rank, bound)
    requires p in nodes && c in nodes && p in rank && c in rank && rank[p] < rank[c]
    requires c !in Children(edges, p) && nodes[p] != Term && !(nodes[p] == Implication && |Children(edges, p)| >= 2)
    ensures Linked(nodes, edges[p := Children(edges, p) + [c]], rank, bound)
  {
    var e := edges[p := Children(edges, p) + [c]];
    forall q, i, j | q in e && 0 <= i < j < |e[q]| ensures e[q][i] != e[q][j] {
      if q == p && j == |e[q]| - 1 {
        assert e[q][i] in Children(edges, p);
      }
    }
  }

  /** Storing a fresh node with no children keeps both invariants. */
  lemma StoreKeeps(nodes: map<nat, Formula>, edges: map<nat, seq<nat>>, rank: map<nat, nat>, bound: nat, id: nat, f: Formula, r: nat)
    requires Linked(nodes, edges, rank, bound) && id !in nodes && id !in rank
    ensures Linked(nodes[id := f], edges[id := []], rank[id := r], if r > bound then r else bound)
  {
  }

  /** The adjacency lists are well shaped and ranked. */
  ghost predicate Linked(nodes: map<nat, Formula>, edges: map<nat, seq<nat>>, rank: map<nat, nat>, bound: nat)
  {
    Shaped(nodes, edges) && Ranked(edges, rank, bound)
  }

  /** Linked tables list no child twice under one parent. */
  lemma LinkedNoRepeats(nodes: map<nat, Formula>, edges: map<nat, seq<nat>>, rank: map<nat, nat>, bound: nat)
    requires Linked(nodes, edges, rank, bound)
    ensures NoRepeatedEdges(edges) && Ranked(edges, rank, bound)
  {
  }

  /** Identifiers come from the counter and lie below it, the root exists
      and every node has a depth. */
  ghost predicate Counted(countId: nat, rootId: nat, nodes: map<nat, Formula>, rank: map<nat, nat>)
  {
    && countId <= UIntMax
    && (forall id :: id in nodes ==> id < countId)
    && rootId in nodes
    && rank.Keys == nodes.Keys
  }

  /** Payloads belong to Term nodes. */
  ghost predicate OnTerms<T>(nodes: map<nat, Formula>, termData: map<nat, T>)
  {
    forall id :: id in termData ==> id in nodes && nodes[id] == Term
  }

  /** The invariant of an arena: identifiers come from the counter, the
      adjacency lists are well shaped and ranked, payloads belong to Term
      nodes and the name tables agree. */
  ghost predicate Inv<T>(countId: nat, rootId: nat, nodes: map<nat, Formula>, edges: map<nat, seq<nat>>, termData: map<nat, T>,
                         named: map<string, nat>, reverse: map<nat, string>, rank: map<nat, nat>, bound: nat)
  {
    && Counted(countId, rootId, nodes, rank)
    && Linked(nodes, edges, rank, bound)
    && OnTerms(nodes, termData)
    && NamesAgree(nodes, named, reverse)
  }

  /** A depth bound can always be raised. */
  lemma InvWiden<T>(countId: nat, rootId: nat, nodes: map<nat, Formula>, edges: map<nat, seq<nat>>, termData: map<nat, T>,
                    named: map<string, nat>, reverse: map<nat, string>, rank: map<nat, nat>, bound: nat, bound': nat)
    requires Inv(countId, rootId, nodes, edges, termData, named, reverse, rank, bound) && bound <= bound'
    ensures Inv(countId, rootId, nodes, edges, termData, named, reverse, rank, bound')
  {
  }

  /** The invariant, restated for equal tables. */
  lemma InvSame<T>(countId: nat, rootId: nat, nodes: map<nat, Formula>, edges: map<nat, seq<nat>>, termData: map<nat, T>,
                   named: map<string, nat>, reverse: map<nat, string>, rank: map<nat, nat>, bound: nat,
                   countId': nat, nodes': map<nat, Formula>, termData': map<nat, T>,
                   named': map<string, nat>, reverse': map<nat, string>, rank': map<nat, nat>)
    requires Inv(countId, rootId, nodes, edges, termData, named, reverse, rank, bound)
    requires countId' == countId && nodes' == nodes && termData' == termData && named' == named && reverse' == reverse && rank' == rank
    ensures Inv(countId', rootId, nodes', edges, termData', named', reverse', rank', bound)
  {
  }

  /** The name recorded for `id`; reading a missing entry of
      `m_namedNodesReverse` yields the empty string. */
  function NameIn(reverse: map<nat, string>, id: nat): string
  {
    if id in reverse then reverse[id] else ""
  }

  /** Storing a copied node, which gets no edge list, keeps both invariants. */
  lemma CopyKeeps(nodes: map<nat, Formula>, edges: map<nat, seq<nat>>, rank: map<nat, nat>, bound: nat, id: nat, f: Formula, r: nat)
    requires Linked(nodes, edges, rank, bound) && id !in nodes && id !in rank
    ensures Linked(nodes[id := f], edges, rank[id := r], if r > bound then r else bound)
  {
  }

  /** Recording the name of a node that is not yet in the graph keeps the
      two name tables in agreement, when a bound name is never empty. */
  lemma NameKeeps(nodes: map<nat, Formula>, named: map<string, nat>, reverse: map<nat, string>, id: nat, f: Formula, name: string, bind: bool)
    requires NamesAgree(nodes, named, reverse) && id !in nodes
    requires bind ==> name != ""
    ensures NamesAgree(nodes[id := f], if bind then named[name := id] else named, reverse[id := name])
  {
  }

  /** Every element of `ids` has a translation. */
  predicate Mapped(lookup: map<nat, nat>, ids: seq<nat>)
  {
    forall i :: 0 <= i < |ids| ==> ids[i] in lookup
  }

  // ---- the node loop of `compose`, one table at a time ----

  /** `m` and `m0` agree on every identifier in `[lo, hi)`. */
  ghost predicate SameOn<V>(m: map<nat, V>, m0: map<nat, V>, lo: nat, hi: nat)
  {
    forall id :: lo <= id < hi ==> (id in m <==> id in m0) && (id in m ==> m[id] == m0[id])
  }

  /** After `i` rounds of a node loop that started at identifier `c0` and
      visits the input's nodes in `order`: entries below `c0` are those of
      `m0`, the entry of `c0 + k` is the input's entry of `order[k]` (none
      when it has none), and nothing lies at or above `c0 + i`. */
  ghost predicate CopiedPrefix<V>(m: map<nat, V>, m0: map<nat, V>, gm: map<nat, V>, order: seq<nat>, c0: nat, i: nat)
  {
    && i <= |order|
    && SameOn(m, m0, 0, c0)
    && (forall id :: id in m ==> id < c0 + i)
    && (forall k :: 0 <= k < i ==> (c0 + k in m <==> order[k] in gm) && (c0 + k in m ==> m[c0 + k] == gm[order[k]]))
  }

  /** Every identifier of `m` lies below `c0`. */
  ghost predicate Below<V>(m: map<nat, V>, c0: nat)
  {
    forall id :: id in m ==> id < c0
  }

  /** `lookup` sends each node it lists to `c0` plus the node's position in `order`. */
  ghost predicate Positions(lookup: map<nat, nat>, order: seq<nat>, c0: nat)
  {
    forall x :: x in lookup ==> exists k :: 0 <= k < |order| && order[k] == x && lookup[x] == c0 + k
  }

  lemma PrefixStart<V>(m: map<nat, V>, gm: map<nat, V>, order: seq<nat>, c0: nat)
    requires Below(m, c0)
    ensures CopiedPrefix(m, m, gm, order, c0, 0)
  {
  }

  /** Copying `order[i]` under `c0 + i` extends the prefix by one. */
  lemma PrefixStep<V>(m: map<nat, V>, m0: map<nat, V>, gm: map<nat, V>, order: seq<nat>, c0: nat, i: nat)
    requires CopiedPrefix(m, m0, gm, order, c0, i) && i < |order|
    ensures CopiedPrefix(if order[i] in gm then m[c0 + i := gm[order[i]]] else m, m0, gm, order, c0, i + 1)
  {
  }

  /** The finished loop, read through the lookup table it built. */
  lemma PrefixVia<V>(m: map<nat, V>, m0: map<nat, V>, gm: map<nat, V>, order: seq<nat>, c0: nat, lookup: map<nat, nat>)
    requires CopiedPrefix(m, m0, gm, order, c0, |order|)
    requires Positions(lookup, order, c0)
    ensures CopiedVia(m, gm, lookup)
  {
  }

  // ---- what the node loop leaves behind, through the lookup table ----

  /** `lookup` maps the identifiers `keys` one-to-one onto `[lo, hi)`. */
  ghost predicate Block(lookup: map<nat, nat>, keys: set<nat>, lo: nat, hi: nat)
  {
    && lookup.Keys == keys
    && (forall x :: x in lookup ==> lo <= lookup[x] < hi)
    && (forall id :: lo <= id < hi ==> id in lookup.Values)
    && (forall x, y :: x in lookup && y in lookup && x != y ==> lookup[x] != lookup[y])
  }

  /** Each node listed in `lookup` has its entry of `gm` (or none, when it
      has none) under its new identifier. */
  ghost predicate CopiedVia<V>(m: map<nat, V>, gm: map<nat, V>, lookup: map<nat, nat>)
  {
    forall x :: x in lookup ==> (lookup[x] in m <==> x in gm) && (lookup[x] in m ==> m[lookup[x]] == gm[x])
  }

  /** The name each node of `nodes` carries, `""` for one without an entry. */
  function NamesOf(nodes: map<nat, Formula>, reverse: map<nat, string>): (r: map<nat, string>)
    ensures r.Keys == nodes.Keys && forall x :: x in r ==> r[x] == NameIn(reverse, x)
  {
    map x | x in nodes :: NameIn(reverse, x)
  }

  /** The depth of each copy: one level below the composed root. */
  function Levels(rank: map<nat, nat>): (r: map<nat, nat>)
    ensures r.Keys == rank.Keys && forall x :: x in r ==> r[x] == rank[x] + 1
  {
    map x | x in rank :: rank[x] + 1
  }

  /** The edge lists of the input were re-targeted through `lookup`; a copy
      whose source list is missing or empty has no list at all, since only
      `addRelation` creates one. */
  ghost predicate EdgesVia(edges: map<nat, seq<nat>>, gedges: map<nat, seq<nat>>, lookup: map<nat, nat>)
  {
    forall x :: x in lookup ==>
      && (lookup[x] in edges <==> Children(gedges, x) != [])
      && (Children(gedges, x) != [] ==> Mapped(lookup, gedges[x]) && edges[lookup[x]] == Translate(lookup, gedges[x]))
  }

  /** A copy stays a copy while the identifiers it occupies are untouched. */
  lemma ViaKept<V>(m: map<nat, V>, m': map<nat, V>, gm: map<nat, V>, lookup: map<nat, nat>, lo: nat, hi: nat)
    requires CopiedVia(m, gm, lookup) && SameOn(m', m, lo, hi)
    requires forall x :: x in lookup ==> lo <= lookup[x] < hi
    ensures CopiedVia(m', gm, lookup)
  {
  }

  lemma EdgesViaKept(edges: map<nat, seq<nat>>, edges': map<nat, seq<nat>>, gedges: map<nat, seq<nat>>, lookup: map<nat, nat>, lo: nat, hi: nat)
    requires EdgesVia(edges, gedges, lookup) && SameOn(edges', edges, lo, hi)
    requires forall x :: x in lookup ==> lo <= lookup[x] < hi
    ensures EdgesVia(edges', gedges, lookup)
  {
  }

  lemma StoreValid<T>(countId: nat, rootId: nat, nodes: map<nat, Formula>, edges: map<nat, seq<nat>>, termData: map<nat, T>,
                      named: map<string, nat>, reverse: map<nat, string>, rank: map<nat, nat>, bound: nat, id: nat, f: Formula, r: nat)
    requires Inv(countId, rootId, nodes, edges, termData, named, reverse, rank, bound) && id !in nodes && id < countId
    ensures Inv(countId, rootId, nodes[id := f], edges[id := []], termData, named, reverse, rank[id := r], if r > bound then r else bound)
  {
    StoreKeeps(nodes, edges, rank, bound, id, f, r);
  }

  /** What the node loop of `compose` leaves behind for one input: the
      copies fill `[lo, hi)` one-to-one and carry the kinds, payloads, names
      and (one level deeper) depths of their source nodes; every identifier
      below `lo` is untouched; old names stay bound, and every name the
      input binds is bound. */
  ghost predicate NodesCopied<T>(lo: nat, hi: nat, nodes: map<nat, Formula>, termData: map<nat, T>, reverse: map<nat, string>,
                                 named: map<string, nat>, rank: map<nat, nat>,
                                 n0: map<nat, Formula>, d0: map<nat, T>, r0: map<nat, string>, named0: map<string, nat>, rank0: map<nat, nat>,
                                 gnodes: map<nat, Formula>, gdata: map<nat, T>, greverse: map<nat, string>, gnamed: map<string, nat>,
                                 grank: map<nat, nat>, lookup: map<nat, nat>)
  {
    && Block(lookup, gnodes.Keys, lo, hi)
    && CopiedVia(nodes, gnodes, lookup) && CopiedVia(termData, gdata, lookup)
    && CopiedVia(reverse, NamesOf(gnodes, greverse), lookup) && CopiedVia(rank, Levels(grank), lookup)
    && SameOn(nodes, n0, 0, lo) && SameOn(termData, d0, 0, lo) && SameOn(reverse, r0, 0, lo) && SameOn(rank, rank0, 0, lo)
    && named.Keys == named0.Keys + gnamed.Keys
    && (forall n :: n in named0 && n !in gnamed ==> named[n] == named0[n])
  }

  /** The lookup table built while walking `order` from identifier `c0`. */
  lemma LookupBlock(lookup: map<nat, nat>, order: seq<nat>, keys: set<nat>, c0: nat)
    requires |order| == |keys| && (forall x :: x in keys <==> x in order)
    requires forall a, b :: 0 <= a < b < |order| ==> order[a] != order[b]
    requires forall x :: x in lookup <==> x in order
    requires forall k :: 0 <= k < |order| ==> lookup[order[k]] == c0 + k
    ensures Block(lookup, keys, c0, c0 + |order|)
    ensures Positions(lookup, order, c0)
  {
    forall x | x in lookup ensures exists k :: 0 <= k < |order| && order[k] == x && lookup[x] == c0 + k {
      var k :| 0 <= k < |order| && order[k] == x;
    }
    forall id | c0 <= id < c0 + |order| ensures id in lookup.Values {
      assert lookup[order[id - c0]] == id;
    }
  }

  // ---- one input of `compose`, once its round is over ----

  /** The identifiers `[lo, hi)` hold a copy of the input graph through
      `lookup`: the same kinds, payloads and names, and every edge list of
      the input re-targeted. */
  ghost predicate CopyOf<T>(lo: nat, hi: nat, nodes: map<nat, Formula>, edges: map<nat, seq<nat>>, termData: map<nat, T>,
                            reverse: map<nat, string>, gnodes: map<nat, Formula>, gedges: map<nat, seq<nat>>,
                            gdata: map<nat, T>, greverse: map<nat, string>, lookup: map<nat, nat>)
  {
    && Block(lookup, gnodes.Keys, lo, hi)
    && CopiedVia(nodes, gnodes, lookup) && CopiedVia(termData, gdata, lookup)
    && CopiedVia(reverse, NamesOf(gnodes, greverse), lookup)
    && EdgesVia(edges, gedges, lookup)
  }

  /** The tables agree with the earlier ones on every identifier below `lo`. */
  ghost predicate Untouched<T>(lo: nat, nodes: map<nat, Formula>, edges: map<nat, seq<nat>>, termData: map<nat, T>,
                               reverse: map<nat, string>, n0: map<nat, Formula>, e0: map<nat, seq<nat>>,
                               d0: map<nat, T>, r0: map<nat, string>)
  {
    SameOn(nodes, n0, 0, lo) && SameOn(edges, e0, 0, lo) && SameOn(termData, d0, 0, lo) && SameOn(reverse, r0, 0, lo)
  }

  /** A copy survives later rounds, which only touch identifiers from `hi'` on. */
  lemma CopyOfKept<T>(lo: nat, hi: nat, nodes: map<nat, Formula>, edges: map<nat, seq<nat>>, termData: map<nat, T>,
                      reverse: map<nat, string>, gnodes: map<nat, Formula>, gedges: map<nat, seq<nat>>,
                      gdata: map<nat, T>, greverse: map<nat, string>, lookup: map<nat, nat>,
                      nodes': map<nat, Formula>, edges': map<nat, seq<nat>>, termData': map<nat, T>, reverse': map<nat, string>,
                      lo': nat, hi': nat)
    requires CopyOf(lo, hi, nodes, edges, termData, reverse, gnodes, gedges, gdata, greverse, lookup)
    requires SameOn(nodes', nodes, lo', hi') && SameOn(edges', edges, lo', hi')
    requires SameOn(termData', termData, lo', hi') && SameOn(reverse', reverse, lo', hi')
    requires lo' <= lo && hi <= hi'
    ensures CopyOf(lo, hi, nodes', edges', termData', reverse', gnodes, gedges, gdata, greverse, lookup)
  {
    ViaKept(nodes, nodes', gnodes, lookup, lo', hi');
    ViaKept(termData, termData', gdata, lookup, lo', hi');
    ViaKept(reverse, reverse', NamesOf(gnodes, greverse), lookup, lo', hi');
    EdgesViaKept(edges, edges', gedges, lookup, lo', hi');
  }

  /** Agreement below `lo` implies agreement on any range below it. */
  lemma SameOnShrink<V>(m: map<nat, V>, m0: map<nat, V>, lo: nat, lo': nat, hi': nat)
    requires SameOn(m, m0, 0, lo) && hi' <= lo
    ensures SameOn(m, m0, lo', hi')
  {
  }
}
