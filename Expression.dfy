/**
 * The formula graph of the builder (`Expression<T>`): an id-indexed arena of
 * Term / Implication / And / Or / Chain nodes with adjacency lists, term
 * payloads and a two-way name table. Every mutation goes through the checked
 * helpers `generateId`, `addRelation` and `addName`; each `throw` of the
 * source is an error value here.
 */
module Expressions {
  import opened Wrappers
  import opened Traversals
  import opened Arena
  import opened Checks
  import opened Copying
  import opened Linking
  import opened Composing

  /** The Term nodes of `ids`, in order: what a leaf visitor is called on. */
  function Terms(nodes: map<nat, Formula>, ids: seq<nat>): (r: seq<nat>)
  {
    if ids == [] then []
    else
      var last := ids[|ids| - 1];
      Terms(nodes, ids[..|ids| - 1]) + (if last in nodes && nodes[last] == Term then [last] else [])
  }

  lemma {:induction false} TermsAreTerms(nodes: map<nat, Formula>, ids: seq<nat>)
    ensures forall k :: 0 <= k < |Terms(nodes, ids)| ==> Terms(nodes, ids)[k] in nodes && nodes[Terms(nodes, ids)[k]] == Term
    ensures forall k :: 0 <= k < |Terms(nodes, ids)| ==> Terms(nodes, ids)[k] in ids
    ensures forall k :: 0 <= k < |ids| && ids[k] in nodes && nodes[ids[k]] == Term ==> ids[k] in Terms(nodes, ids)
  {
    if ids != [] {
      var prefix := ids[..|ids| - 1];
      TermsAreTerms(nodes, prefix);
      forall k | 0 <= k < |ids| - 1 ensures ids[k] == prefix[k] { }
    }
  }

  /** Reporting the leaves of `ids` reports its Term nodes. */
  lemma {:induction false} ReportedTerms(nodes: map<nat, Formula>, ids: seq<nat>, leaves: set<nat>)
    requires forall id :: id in leaves <==> id in nodes && nodes[id] == Term
    ensures Reported(ids, leaves, true) == Terms(nodes, ids)
  {
    if ids != [] {
      ReportedTerms(nodes, ids[..|ids| - 1], leaves);
    }
  }

  /** A leaf visit stops at an operation node that has no edge entry. */
  ghost predicate LeafBlocked(nodes: map<nat, Formula>, edges: map<nat, seq<nat>>, id: nat)
  {
    !(id in nodes && nodes[id] == Term) && id !in edges
  }

  /** The composed root so far: an operation `op` named `name` at depth
      0, whose children are nodes of the kinds `kinds`. */
  ghost predicate TopOf(rootId: nat, nodes: map<nat, Formula>, edges: map<nat, seq<nat>>, rank: map<nat, nat>,
                        reverse: map<nat, string>, op: Formula, name: string, kinds: seq<Formula>)
  {
    && rootId in nodes && nodes[rootId] == op && rootId in rank && rank[rootId] == 0
    && NameIn(reverse, rootId) == name
    && |Children(edges, rootId)| == |kinds|
    && forall k :: 0 <= k < |kinds| ==> Children(edges, rootId)[k] in nodes && nodes[Children(edges, rootId)[k]] == kinds[k]
  }

  /** The copies of an input fill `[lo, count)` one-to-one with its kinds,
      one level below its depths. */
  ghost predicate FitsOf(nodes: map<nat, Formula>, rank: map<nat, nat>, count: nat,
                         gnodes: map<nat, Formula>, grank: map<nat, nat>, lookup: map<nat, nat>, lo: nat)
  {
    && Block(lookup, gnodes.Keys, lo, count)
    && CopiedVia(nodes, gnodes, lookup)
    && CopiedVia(rank, Levels(grank), lookup)
  }

  /** A root with one more child, of kind `kind`. */
  lemma TopAppend(rootId: nat, nodes: map<nat, Formula>, edges: map<nat, seq<nat>>, edges': map<nat, seq<nat>>, rank: map<nat, nat>,
                  reverse: map<nat, string>, op: Formula, name: string, kinds: seq<Formula>, c: nat, kind: Formula)
    requires TopOf(rootId, nodes, edges, rank, reverse, op, name, kinds)
    requires c in nodes && nodes[c] == kind && Children(edges', rootId) == Children(edges, rootId) + [c]
    ensures TopOf(rootId, nodes, edges', rank, reverse, op, name, kinds + [kind])
  {
  }

  /** The composed root and its children keep their kinds, depths and
      names while only identifiers from `lo` on change. */
  lemma TopKept(rootId: nat, nodes: map<nat, Formula>, edges: map<nat, seq<nat>>, rank: map<nat, nat>, reverse: map<nat, string>,
                op: Formula, name: string, kinds: seq<Formula>,
                nodes': map<nat, Formula>, rank': map<nat, nat>, reverse': map<nat, string>, lo: nat)
    requires TopOf(rootId, nodes, edges, rank, reverse, op, name, kinds)
    requires rootId < lo && (forall c :: c in Children(edges, rootId) ==> c < lo)
    requires SameOn(nodes', nodes, 0, lo) && SameOn(rank', rank, 0, lo) && SameOn(reverse', reverse, 0, lo)
    ensures TopOf(rootId, nodes', edges, rank', reverse', op, name, kinds)
  {
    forall k | 0 <= k < |kinds| ensures Children(edges, rootId)[k] < lo {
      assert Children(edges, rootId)[k] in Children(edges, rootId);
    }
  }

  class Expression<T> {
    var countId: nat
    /** `m_rootId`: set once, by the constructor's first `generateId`. */
    const rootId: nat
    var nodes: map<nat, Formula>
    var edges: map<nat, seq<nat>>
    var termData: map<nat, T>
    var namedNodes: map<string, nat>
    var namedNodesReverse: map<nat, string>
    /** Depth order of the nodes (children rank above their parents); used
        only to show that every walk ends. */
    ghost var rank: map<nat, nat>
    ghost var rankBound: nat

    /** Identifiers come from the counter and lie below it. */
    ghost predicate CounterOk()
      reads this
    {
      && countId <= UIntMax
      && forall id :: id in nodes ==> id < countId
    }

    ghost predicate Valid()
      reads this
    {
      Inv(countId, rootId, nodes, edges, termData, namedNodes, namedNodesReverse, rank, rankBound)
    }

    /** The arena before the constructor's first `generateId`; `start` is the
        uninitialised counter's value. */
    constructor Blank(start: nat)
      requires start <= UIntMax
      ensures CounterOk() && countId == start && rootId == start
      ensures nodes == map[] && edges == map[] && termData == map[]
      ensures namedNodes == map[] && namedNodesReverse == map[] && rank == map[] && rankBound == 0
    {
      countId := start;
      rootId := start;
      nodes := map[];
      edges := map[];
      termData := map[];
      namedNodes := map[];
      namedNodesReverse := map[];
      rank := map[];
      rankBound := 0;
    }

    /** The name `id` carries, `""` when none was recorded. */
    function NameOf(id: nat): string
      reads this
    {
      if id in namedNodesReverse then namedNodesReverse[id] else ""
    }

    method GenerateId() returns (r: Result<nat, ExprError>)
      requires CounterOk()
      modifies this`countId
      ensures CounterOk()
      ensures old(Valid()) ==> Valid()
      ensures old(countId) == UIntMax ==> r == Failure(MaxNodesReached) && countId == old(countId)
      ensures old(countId) < UIntMax ==> r == Success(old(countId)) && countId == old(countId) + 1
      ensures r.Success? ==> r.value !in nodes
    {
      r := NextId(countId, nodes);
      if r.Success? {
        countId := countId + 1;
      }
    }

    /** `addRelation`. The ghost precondition says the new edge goes down the
        depth order; the source's callers only link a freshly allocated child
        or copy an acyclic input. */
    method AddRelation(parentId: nat, childId: nat) returns (out: Outcome<ExprError>)
      requires Valid()
      requires parentId in rank && childId in rank ==> rank[parentId] < rank[childId]
      modifies this`edges
      ensures Valid()
      ensures (out, edges) == Link(nodes, old(edges), parentId, childId)
    {
      LinkValid(countId, rootId, nodes, edges, termData, namedNodes, namedNodesReverse, rank, rankBound, parentId, childId);
      var linked := Link(nodes, edges, parentId, childId);
      out, edges := linked.0, linked.1;
    }

    /** `addName`. Only ever applied to a node that has no name yet. */
    method AddName(nodeId: nat, name: string) returns (out: Outcome<ExprError>)
      requires Valid()
      requires nodeId !in namedNodesReverse
      modifies this`namedNodes, this`namedNodesReverse
      ensures Valid()
      ensures (out, namedNodes, namedNodesReverse) == Naming(nodes, old(namedNodes), old(namedNodesReverse), nodeId, name)
    {
      NamingValid(countId, rootId, nodes, edges, termData, namedNodes, namedNodesReverse, rank, rankBound, nodeId, name);
      var named := Naming(nodes, namedNodes, namedNodesReverse, nodeId, name);
      out, namedNodes, namedNodesReverse := named.0, named.1, named.2;
    }

    /** The whole effect of `addNode(formula, parentId, name)` on every table
        but the term payloads. The node is allocated and stored before the
        relation and the name are checked, so a rejected relation or name
        leaves it (and, for a rejected name, its edge) in the graph. */
    twostate predicate NodeAdded(formula: Formula, parentId: nat, name: string, new r: Result<nat, ExprError>)
      reads this
    {
      && (old(countId) == UIntMax ==>
            && r == Failure(MaxNodesReached)
            && countId == old(countId) && nodes == old(nodes) && edges == old(edges)
            && namedNodes == old(namedNodes) && namedNodesReverse == old(namedNodesReverse))
      && (old(countId) < UIntMax ==>
            var id := old(countId);
            && countId == id + 1
            && nodes == old(nodes)[id := formula]
            && (parentId !in old(nodes) ==>
                  && r == Failure(ParentMissing)
                  && edges == old(edges)[id := []]
                  && namedNodes == old(namedNodes) && namedNodesReverse == old(namedNodesReverse))
            && (parentId in old(nodes) ==>
                  var prior := Children(old(edges), parentId);
                  var verdict := RelationVerdict(old(nodes)[parentId], prior, id);
                  && edges == old(edges)[id := []][parentId := if verdict.Pass? then prior + [id] else prior]
                  && (verdict.Fail? ==>
                        && r == Failure(verdict.error)
                        && namedNodes == old(namedNodes) && namedNodesReverse == old(namedNodesReverse))
                  && (verdict.Pass? && NameVerdict(name, old(namedNodes)).Fail? ==>
                        && r == Failure(NameExists)
                        && namedNodes == old(namedNodes) && namedNodesReverse == old(namedNodesReverse))
                  && (verdict.Pass? && NameVerdict(name, old(namedNodes)).Pass? ==>
                        && r == Success(id)
                        && namedNodes == (if name == "" then old(namedNodes) else old(namedNodes)[name := id])
                        && namedNodesReverse == old(namedNodesReverse)[id := name])))
    }

    /** `addNode`, with the parent checked against the graph as it was before
        the new node was stored (see the self-parent finding). */
    method AddNode(formula: Formula, parentId: nat, name: string) returns (r: Result<nat, ExprError>)
      requires Valid()
      modifies this
      ensures Valid()
      ensures NodeAdded(formula, parentId, name, r)
      ensures termData == old(termData)
      ensures r.Success? ==> r.value == old(countId) && r.value !in old(nodes)
    {
      var generated := GenerateId();
      if generated.Failure? {
        return Failure(generated.error);
      }
      var id := generated.value;
      StoreNode(id, formula, parentId);
      if parentId == id {
        // the parent did not exist when addNode was called
        return Failure(ParentMissing);
      }
      var related := AddRelation(parentId, id);
      if related.Fail? {
        return Failure(related.error);
      }
      var named := AddName(id, name);
      if named.Fail? {
        return Failure(named.error);
      }
      r := Success(id);
    }

    /** `m_nodes[id] = formula; m_edges[id] = {};` for a freshly generated id,
        placing it just below `parentId` in the depth order. */
    method StoreNode(id: nat, formula: Formula, parentId: nat)
      requires Valid() && id !in nodes && id < countId
      modifies this`nodes, this`edges, this`rank, this`rankBound
      ensures Valid()
      ensures nodes == old(nodes)[id := formula] && edges == old(edges)[id := []]
      ensures rank == old(rank)[id := if parentId in old(rank) then old(rank)[parentId] + 1 else 0]
    {
      var level := if parentId in rank then rank[parentId] + 1 else 0;
      StoreValid(countId, rootId, nodes, edges, termData, namedNodes, namedNodesReverse, rank, rankBound, id, formula, level);
      nodes, edges, rank, rankBound := nodes[id := formula], edges[id := []], rank[id := level], if level > rankBound then level else rankBound;
    }

    /** `addOperation`: a Term kind is rejected before anything changes. */
    method AddOperation(operation: Formula, parentId: nat, name: string) returns (r: Result<nat, ExprError>)
      requires Valid()
      modifies this
      ensures Valid()
      ensures operation == Term ==> r == Failure(ExpectedOperation) && unchanged(this)
      ensures operation != Term ==> NodeAdded(operation, parentId, name, r) && termData == old(termData)
    {
      if operation == Term {
        return Failure(ExpectedOperation);
      }
      r := AddNode(operation, parentId, name);
    }

    /** `addTerm`: the payload is stored only once the node is fully linked. */
    method AddTerm(data: T, parentId: nat, name: string) returns (r: Result<nat, ExprError>)
      requires Valid()
      modifies this
      ensures Valid()
      ensures NodeAdded(Term, parentId, name, r)
      ensures termData == if r.Success? then old(termData)[r.value := data] else old(termData)
    {
      r := AddNode(Term, parentId, name);
      if r.Success? {
        termData := termData[r.value := data];
      }
    }

    /** The one-node graph both public constructors build. */
    ghost predicate SingleNode(formula: Formula, start: nat, name: string)
      reads this
    {
      && rootId == start && countId == start + 1
      && nodes == map[start := formula]
      && namedNodes == (if name == "" then map[] else map[name := start])
      && namedNodesReverse == map[start := name]
    }

    /** `Expression(Formula rootOperation, name)`. */
    static method NewOperation(operation: Formula, name: string, start: nat) returns (r: Result<Expression<T>, ExprError>)
      requires start <= UIntMax
      ensures operation == Term ==> r == Failure(ExpectedOperation)
      ensures operation != Term && start == UIntMax ==> r == Failure(MaxNodesReached)
      ensures operation != Term && start < UIntMax ==> r.Success?
      ensures r.Success? ==> fresh(r.value) && r.value.Valid() && r.value.SingleNode(operation, start, name)
      ensures r.Success? ==> r.value.edges == map[start := []] && r.value.termData == map[] && r.value.rank == map[start := 0]
    {
      if operation == Term {
        return Failure(ExpectedOperation);
      }
      var e := new Expression<T>.Blank(start);
      var generated := e.GenerateId();
      if generated.Failure? {
        return Failure(generated.error);
      }
      e.nodes := map[e.rootId := operation];
      e.edges := map[e.rootId := []];
      e.rank := map[e.rootId := 0];
      var named := e.AddName(e.rootId, name);
      assert named.Pass?;
      r := Success(e);
    }

    /** `Expression(T termData, name)`: the root gets no edge entry. */
    static method NewTerm(data: T, name: string, start: nat) returns (r: Result<Expression<T>, ExprError>)
      requires start <= UIntMax
      ensures start == UIntMax ==> r == Failure(MaxNodesReached)
      ensures start < UIntMax ==> r.Success?
      ensures r.Success? ==> fresh(r.value) && r.value.Valid() && r.value.SingleNode(Term, start, name)
      ensures r.Success? ==> r.value.edges == map[] && r.value.termData == map[start := data]
    {
      var e := new Expression<T>.Blank(start);
      var generated := e.GenerateId();
      if generated.Failure? {
        return Failure(generated.error);
      }
      e.nodes := map[e.rootId := Term];
      e.termData := map[e.rootId := data];
      e.rank := map[e.rootId := 0];
      var named := e.AddName(e.rootId, name);
      assert named.Pass?;
      r := Success(e);
    }

    /** The tables of this graph, as a value. */
    function Snapshot(): Shape<T>
      reads this
    {
      Shape(rootId, nodes, edges, termData, namedNodes, namedNodesReverse)
    }

    /** `compose(operation, inputs, name)`, with the result's counter starting
        at `start`: a new root of kind `operation` named `name`, then, input
        by input, a copy of every node and edge of the input whose root
        becomes the next child of the new root (see `Composed`). `lookups[i]`
        is the identifier table built for `inputs[i]`, whose copies fill
        `[bounds[i], bounds[i + 1])`. */
    static method Compose(operation: Formula, inputs: seq<Expression<T>>, name: string, start: nat)
      returns (r: Result<Expression<T>, ExprError>, ghost lookups: seq<map<nat, nat>>, ghost bounds: seq<nat>)
      requires start <= UIntMax
      requires forall i :: 0 <= i < |inputs| ==> inputs[i].Valid()
      ensures operation == Term ==> r == Failure(ExpectedOperation)
      ensures r.Success? <==>
        operation != Term && start + 1 + NodeCount(old(Shapes(inputs))) <= UIntMax && !(operation == Implication && |inputs| > 2)
      ensures r.Failure? ==> r.error in {ExpectedOperation, MaxNodesReached, ImplicationFull}
      ensures r.Success? ==> fresh(r.value) && r.value.Valid() && r.value.rootId == start
      ensures r.Success? ==> r.value.nodes[start] == operation && r.value.NameOf(start) == name
      ensures r.Success? ==>
        var e := r.value;
        Composed(start, name, e.countId, e.nodes, e.edges, e.termData, e.namedNodes, e.namedNodesReverse,
                 old(Shapes(inputs)), lookups, bounds)
    {
      lookups, bounds := [], [start + 1];
      if operation == Term {
        return Failure(ExpectedOperation), lookups, bounds;
      }
      ghost var all := Shapes(inputs);
      ShapesIndex(inputs);
      assert Inputs(inputs, all);
      var made := NewOperation(operation, name, start);
      if made.Failure? {
        assert NodeCount(all) >= 0;
        return Failure(made.error), lookups, bounds;
      }
      var e: Expression<T> := made.value;
      ComposedStart(start, name, e.nodes, e.edges, e.termData, e.namedNodes, e.namedNodesReverse);
      var out;
      ghost var kinds;
      out, kinds, lookups, bounds := Rounds(e, inputs, all, operation, name);
      if out.Fail? {
        return Failure(out.error), lookups, bounds;
      }
      r := Success(e);
    }

    /** The loop of `compose` over `inputs`, whose tables are `all`, adding
        their copies to `e`; it stops at the first round that fails. */
    static method Rounds(e: Expression<T>, inputs: seq<Expression<T>>, ghost all: seq<Shape<T>>, ghost op: Formula, ghost name: string)
      returns (out: Outcome<ExprError>, ghost kinds: seq<Formula>, ghost lookups: seq<map<nat, nat>>, ghost bounds: seq<nat>)
      requires op != Term && e.Building(op, name, [], [], [], [e.rootId + 1])
      requires Inputs(inputs, all) && forall j :: 0 <= j < |inputs| ==> inputs[j] != e
      modifies e
      ensures out.Pass? <==> e.rootId + 1 + NodeCount(all) <= UIntMax && !(op == Implication && |inputs| > 2)
      ensures out.Fail? ==> out.error in {MaxNodesReached, ImplicationFull}
      ensures out.Pass? ==> e.Building(op, name, kinds, all, lookups, bounds)
    {
      kinds, lookups, bounds := [], [], [e.rootId + 1];
      var i := 0;
      while i < |inputs|
        invariant i <= |inputs| && |kinds| == i
        invariant e.Building(op, name, kinds, all[..i], lookups, bounds)
        invariant !(op == Implication && i > 2)
      {
        var g := inputs[i];
        PrefixSnoc(all, i);
        ghost var count := e.countId;
        var lookup;
        out, lookup := e.Round(g, all[i], op, name, kinds, all[..i], lookups, bounds);
        if out.Fail? {
          Refused(all, i, e.rootId, count, op);
          return;
        }
        kinds := kinds + [g.nodes[g.rootId]];
        lookups, bounds := lookups + [lookup], bounds + [e.countId];
        i := i + 1;
      }
      assert all[..i] == all;
      out := Pass;
    }

    /** The result of `compose` after the rounds for the inputs `ins`,
        whose roots have the kinds `kinds`. */
    ghost predicate Building(op: Formula, name: string, kinds: seq<Formula>,
                             ins: seq<Shape<T>>, lookups: seq<map<nat, nat>>, bounds: seq<nat>)
      reads this
    {
      && Valid() && Top(op, name, kinds)
      && Composed(rootId, name, countId, nodes, edges, termData, namedNodes, namedNodesReverse, ins, lookups, bounds)
    }

    /** One round of `compose` on the result built so far from the inputs
        `ins`, for input `g` whose tables are `s` (see `ComposeInput`). */
    method Round(g: Expression<T>, ghost s: Shape<T>, ghost op: Formula, ghost name: string, ghost kinds: seq<Formula>,
                 ghost ins: seq<Shape<T>>, ghost lookups: seq<map<nat, nat>>, ghost bounds: seq<nat>)
      returns (out: Outcome<ExprError>, lookup: map<nat, nat>)
      requires g.Valid() && g != this && op != Term && s == g.Snapshot() && Building(op, name, kinds, ins, lookups, bounds)
      modifies this
      ensures out.Pass? <==> old(countId) + |s.nodes| <= UIntMax && !(op == Implication && |kinds| >= 2)
      ensures out.Fail? ==> out.error in {MaxNodesReached, ImplicationFull}
      ensures out.Pass? ==> Building(op, name, kinds + [s.nodes[s.rootId]], ins + [s], lookups + [lookup], bounds + [countId])
    {
      ghost var count, n0, e0, d0, r0, named0 := countId, nodes, edges, termData, namedNodesReverse, namedNodes;
      var order, ps;
      out, lookup, order, ps := ComposeInput(g, op, name, kinds);
      if out.Pass? {
        InputsNext(rootId, count, n0, e0, d0, r0, ins, lookups, bounds,
                   s, lookup, countId, nodes, edges, termData, namedNodesReverse, Children(e0, rootId) + [lookup[s.rootId]]);
        ComposedNext(rootId, name, count, n0, e0, d0, named0, r0, ins, lookups, bounds,
                     s, lookup, countId, nodes, edges, termData, namedNodes, namedNodesReverse);
      }
    }

    /** Every node a walk from the root pops is a node of the graph. */
    lemma WalkNodes()
      requires Valid()
      ensures forall k :: 0 <= k < |Walk(edges, rank, rankBound, rootId)| ==> Walk(edges, rank, rankBound, rootId)[k] in nodes
    {
      WalkClosed(edges, rank, rankBound, rootId);
    }

    /** Every node is popped by a walk from the root once for each path
        that leads to it, the paths `PathsTo` gives: `addRelation` never
        lists a child twice, and the walk keeps no visited set. */
    lemma {:induction false} PoppedPerPath(x: nat)
      requires Valid()
      ensures forall p :: p in PathsTo<nat>(edges, rank, rankBound, rootId, x) <==> IsPath(edges, p) && p[0] == rootId && p[|p| - 1] == x
      ensures multiset(Walk<nat>(edges, rank, rankBound, rootId))[x] == |PathsTo<nat>(edges, rank, rankBound, rootId, x)|
    {
      assert rootId in rank && Linked(nodes, edges, rank, rankBound);
      LinkedNoRepeats(nodes, edges, rank, rankBound);
      WalkCountsPaths<nat>(edges, rank, rankBound, rootId, x);
    }

    /** `visit`: the visitor is called on every node of the pre-order walk
        from the root, in order, until a node without an edge list is
        reached; that node is still visited, then `m_edges.at` throws. */
    method Visit() returns (trace: seq<nat>, ok: bool, ghost stop: nat)
      requires Valid()
      ensures var walk := Walk(edges, rank, rankBound, rootId);
        ok <==> forall k :: 0 <= k < |walk| ==> walk[k] in edges
      ensures ok ==> trace == Walk(edges, rank, rankBound, rootId)
      ensures var walk := Walk(edges, rank, rankBound, rootId);
        !ok ==> (stop < |walk| && walk[stop] !in edges && trace == walk[..stop + 1]
                    && forall k :: 0 <= k < stop ==> walk[k] in edges)
    {
      ghost var walk := Walk(edges, rank, rankBound, rootId);
      WalkNodes();
      trace, ok, stop := WalkStack(edges, rank, rankBound, rootId, nodes.Keys, {}, false);
      if ok {
        ReportedAll(walk, {});
      } else {
        ReportedAll(walk[..stop], {});
        assert walk[..stop + 1] == walk[..stop] + [walk[stop]];
        forall k | 0 <= k < stop ensures walk[k] in edges {
          assert walk[..stop][k] == walk[k];
        }
      }
    }

    /** A completed leaf visit reports exactly the Term nodes reachable
        from the root. */
    lemma LeavesReached(x: nat)
      requires Valid()
      ensures x in Terms(nodes, Walk(edges, rank, rankBound, rootId)) <==>
        x in nodes && nodes[x] == Term && Reachable(edges, rootId, x)
    {
      var walk := Walk(edges, rank, rankBound, rootId);
      TermsAreTerms(nodes, walk);
      WalkIsReachable(edges, rank, rankBound, rootId, x);
      if x in nodes && nodes[x] == Term && x in walk {
        var k :| 0 <= k < |walk| && walk[k] == x;
      }
    }

    /** The identifiers of the Term nodes. */
    function TermIds(): (r: set<nat>)
      reads this
      ensures forall id :: id in r <==> id in nodes && nodes[id] == Term
    {
      set id | id in nodes && nodes[id] == Term
    }

    /** `visitLeafs`: the visitor is called on the Term nodes of the
        pre-order walk from the root, in order; an operation node without an
        edge list stops it (`m_edges.at` throws). */
    method VisitLeafs() returns (trace: seq<nat>, ok: bool, ghost stop: nat)
      requires Valid()
      ensures var walk := Walk(edges, rank, rankBound, rootId);
        ok <==> forall k :: 0 <= k < |walk| ==> !LeafBlocked(nodes, edges, walk[k])
      ensures ok ==> trace == Terms(nodes, Walk(edges, rank, rankBound, rootId))
      ensures var walk := Walk(edges, rank, rankBound, rootId);
        !ok ==> (stop < |walk| && LeafBlocked(nodes, edges, walk[stop]) && trace == Terms(nodes, walk[..stop])
                    && forall k :: 0 <= k < stop ==> !LeafBlocked(nodes, edges, walk[k]))
    {
      ghost var walk := Walk(edges, rank, rankBound, rootId);
      WalkNodes();
      var leaves := TermIds();
      trace, ok, stop := WalkStack(edges, rank, rankBound, rootId, nodes.Keys, leaves, true);
      if ok {
        ReportedTerms(nodes, walk, leaves);
      } else {
        ReportedTerms(nodes, walk[..stop], leaves);
        forall k | 0 <= k < stop ensures !LeafBlocked(nodes, edges, walk[k]) {
          assert walk[..stop][k] == walk[k];
        }
      }
    }

    /** The tables `compose` reads from an input. */
    function Source(): Source<T>
      reads this
    {
      Copying.Source(nodes, termData, namedNodes, namedNodesReverse)
    }

    /** What the node loop relies on, of the arena it copies from and of
        the one it copies into. */
    lemma Sourced()
      requires Valid()
      ensures SourceOk(Source())
      ensures forall x :: x in nodes ==> x in rank && rank[x] <= rankBound
      ensures Below(nodes, countId) && Below(termData, countId) && Below(namedNodesReverse, countId) && Below(rank, countId)
      ensures Ready(countId)
    {
    }

    /** The tables the node loop of `compose` reads and writes. */
    function Tabled(): Tables<T>
      reads this
    {
      Tables(countId, nodes, termData, namedNodes, namedNodesReverse, map[])
    }

    /** The node loop, run to its end over `order`, keeps the invariant
        (the copies sit one level below their originals' depths). */
    lemma FoldValid(g: Expression<T>, order: seq<nat>)
      requires Valid() && g.Valid() && Enumerates(order, g.nodes.Keys) && countId + |order| <= UIntMax
      ensures TablesOk(CopyAll(Tabled(), g.Source(), order), rootId, edges,
                       Column(rank, countId, Levels(g.rank), order), rankBound + g.rankBound + 1)
    {
      g.Sourced();
      Sourced();
      CopyAllValid(Tabled(), g.Source(), order, rootId, edges, rank, rankBound, g.rank, g.rankBound);
    }

    /** The node loop, run to its end over `order`, copies what
        `NodesCopied` describes. */
    lemma FoldCopies(g: Expression<T>, order: seq<nat>)
      requires Valid() && g.Valid() && Enumerates(order, g.nodes.Keys)
      ensures var t := CopyAll(Tabled(), g.Source(), order);
        && t.count == countId + |order|
        && NodesCopied(countId, t.count, t.nodes, t.termData, t.reverse, t.named, Column(rank, countId, Levels(g.rank), order),
                       nodes, termData, namedNodesReverse, namedNodes, rank,
                       g.nodes, g.termData, g.namedNodesReverse, g.namedNodes, g.rank, t.lookup)
    {
      g.Sourced();
      Sourced();
      CopyAllCount(Tabled(), g.Source(), order);
      CopyAllDone(Tabled(), g.Source(), order, rank, g.rank);
    }

    /** Stores the tables the node loop has built. */
    method Install(t: Tables<T>, ghost rank': map<nat, nat>, ghost bound': nat)
      requires TablesOk(t, rootId, edges, rank', bound')
      modifies this`countId, this`nodes, this`termData, this`namedNodes, this`namedNodesReverse, this`rank, this`rankBound
      ensures Valid()
      ensures countId == t.count && nodes == t.nodes && termData == t.termData && namedNodes == t.named
      ensures namedNodesReverse == t.reverse && rank == rank' && rankBound == bound'
    {
      countId, nodes, termData, namedNodes, namedNodesReverse := t.count, t.nodes, t.termData, t.named, t.reverse;
      rank, rankBound := rank', bound';
    }

    /** The identifiers `[lo, countId)` hold copies of the nodes of `g`,
        through `lookup`, of the tables `n0` ... `rank0` (see `NodesCopied`). */
    ghost predicate Copies(g: Expression<T>, lo: nat, n0: map<nat, Formula>, d0: map<nat, T>, r0: map<nat, string>,
                           named0: map<string, nat>, rank0: map<nat, nat>, lookup: map<nat, nat>)
      reads this`countId, this`nodes, this`termData, this`namedNodesReverse, this`namedNodes, this`rank
      reads g`nodes, g`termData, g`namedNodesReverse, g`namedNodes, g`rank
    {
      NodesCopied(lo, countId, nodes, termData, namedNodesReverse, namedNodes, rank, n0, d0, r0, named0, rank0,
                  g.nodes, g.termData, g.namedNodesReverse, g.namedNodes, g.rank, lookup)
    }

    /** The node loop of `compose` for one input `g`: in the unspecified
        order `order` of the input's hash map, every node gets an identifier
        from `generateId`, its kind, its payload when it is a Term that has
        one, and its name (bound when the input binds it, by plain
        assignment); `CopyAll` is that loop. No edge list is created. */
    method CopyNodes(g: Expression<T>, order: seq<nat>) returns (r: Result<map<nat, nat>, ExprError>)
      requires Valid() && g.Valid() && g != this && Enumerates(order, g.nodes.Keys)
      modifies this`countId, this`nodes, this`termData, this`namedNodes, this`namedNodesReverse, this`rank, this`rankBound
      ensures r.Success? <==> old(countId) + |g.nodes| <= UIntMax
      ensures r.Failure? ==> r.error == MaxNodesReached && unchanged(this)
      ensures r.Success? ==> Valid() && Tables(countId, nodes, termData, namedNodes, namedNodesReverse, r.value) == CopyAll(old(Tabled()), g.Source(), order)
      ensures r.Success? ==> rank == Column(old(rank), old(countId), Levels(g.rank), order) && rankBound == old(rankBound) + g.rankBound + 1
    {
      var copied := CopyLoop(Tabled(), g.Source(), order);
      if copied.None? {
        return Failure(MaxNodesReached);
      }
      var t := copied.value;
      FoldValid(g, order);
      Install(t, Column(rank, countId, Levels(g.rank), order), rankBound + g.rankBound + 1);
      r := Success(t.lookup);
    }

    /** What the edge loop for input `g` finds once its nodes are copied
        from identifier `lo` on: the copies fill `[lo, countId)` with the
        input's kinds, one level below its depths. */
    ghost predicate Fits(g: Expression<T>, lookup: map<nat, nat>, lo: nat)
      reads this`countId, this`nodes, this`rank, g`nodes, g`rank
    {
      FitsOf(nodes, rank, countId, g.nodes, g.rank, lookup, lo)
    }

    /** The invariant with `e` in place of the edge table. */
    ghost predicate ValidWith(e: map<nat, seq<nat>>)
      reads this
    {
      Inv(countId, rootId, nodes, e, termData, namedNodes, namedNodesReverse, rank, rankBound)
    }

    /** The edge loop over every parent of `g`, in the order `ps`, rejects
        no relation and adds exactly the re-targeted lists, which keep the
        invariant. */
    lemma Relinked(g: Expression<T>, lookup: map<nat, nat>, lo: nat, ps: seq<nat>)
      requires Valid() && g.Valid() && Fits(g, lookup, lo) && Below(edges, lo) && Enumerates(ps, g.edges.Keys)
      ensures Retargetable(lookup, g.edges, ps)
      ensures LinkParents(nodes, edges, lookup, g.edges, ps) == (Pass, edges + Retarget(lookup, g.edges, ps))
      ensures ValidWith(edges + Retarget(lookup, g.edges, ps))
      ensures EdgesVia(edges + Retarget(lookup, g.edges, ps), g.edges, lookup)
    {
      assert Fresh(nodes, edges, lookup, g.nodes, g.edges);
      ParentsPass(nodes, edges, lookup, g.nodes, g.edges, ps);
      RetargetLinked(nodes, edges, rank, rankBound, lookup, g.nodes, g.edges, g.rank, g.rankBound, ps);
      RetargetVia(edges, lookup, g.nodes, g.edges, ps);
    }

    /** The edge loop of `compose` for one input `g`, in the (unspecified)
        order `ps` of the input's edge table: every list of the input is
        re-targeted onto the copies, and a copy whose original has no
        children gets no list. */
    method CopyEdges(g: Expression<T>, lookup: map<nat, nat>, ghost lo: nat) returns (ps: seq<nat>)
      requires Valid() && g.Valid() && g != this && Fits(g, lookup, lo) && Below(edges, lo)
      modifies this`edges
      ensures Valid() && Enumerates(ps, g.edges.Keys) && Retargetable(lookup, g.edges, ps)
      ensures edges == old(edges) + Retarget(lookup, g.edges, ps)
      ensures EdgesVia(edges, g.edges, lookup)
      ensures SameOn(edges, old(edges), 0, lo)
    {
      ps := Enumerate(g.edges.Keys);
      Relinked(g, lookup, lo, ps);
      var out, linked := LinkLoop(nodes, edges, lookup, g.edges, ps);
      RetargetAbove(edges, lookup, g.nodes.Keys, lo, countId, g.edges, ps);
      edges := linked;
    }

    /** The composed root so far (see `TopOf`). */
    ghost predicate Top(op: Formula, name: string, kinds: seq<Formula>)
      reads this`nodes, this`edges, this`rank, this`namedNodesReverse
    {
      TopOf(rootId, nodes, edges, rank, namedNodesReverse, op, name, kinds)
    }

    /** Every list, the root and its children lie below `lo`. */
    ghost predicate Ready(lo: nat)
      reads this`edges
    {
      && Below(edges, lo) && rootId < lo
      && forall c: nat :: c in Children(edges, rootId) ==> c < lo
    }

    /** A copy made from identifier `lo` on is not yet a child of the root. */
    lemma NotYetChild(lo: nat, c: nat)
      requires Ready(lo) && lo <= c
      ensures c !in Children(edges, rootId)
    {
    }

    /** The node loop for input `g`, run to its end over `order`, gives
        the rest of the round what it needs. */
    lemma Prepared(g: Expression<T>, order: seq<nat>)
      requires Valid() && g.Valid() && Enumerates(order, g.nodes.Keys)
      ensures var t := CopyAll(Tabled(), g.Source(), order);
        && t.count == countId + |g.nodes|
        && FitsOf(t.nodes, Column(rank, countId, Levels(g.rank), order), t.count, g.nodes, g.rank, t.lookup, countId)
    {
      FoldCopies(g, order);
    }

    /** The node loop, run to its end over `order`, leaves the composed
        root and its children alone. */
    lemma RootKept(g: Expression<T>, order: seq<nat>, op: Formula, name: string, kinds: seq<Formula>)
      requires Valid() && g.Valid() && Enumerates(order, g.nodes.Keys) && Top(op, name, kinds)
      ensures var t := CopyAll(Tabled(), g.Source(), order);
        TopOf(rootId, t.nodes, edges, Column(rank, countId, Levels(g.rank), order), t.reverse, op, name, kinds)
    {
      Sourced();
      g.Sourced();
      var t := CopyAll(Tabled(), g.Source(), order);
      CopyAllColumns(Tabled(), g.Source(), order);
      ColumnPrefix(nodes, countId, g.nodes, order);
      ColumnPrefix(namedNodesReverse, countId, NamesOf(g.nodes, g.namedNodesReverse), order);
      ColumnPrefix(rank, countId, Levels(g.rank), order);
      TopKept(rootId, nodes, edges, rank, namedNodesReverse, op, name, kinds, t.nodes, Column(rank, countId, Levels(g.rank), order), t.reverse, countId);
    }

    /** The rest of one round of `compose`: the copy of the input's root is
        linked under the composed root, which fails only for a third child
        of an Implication, and then the input's edges are copied. */
    method Attach(g: Expression<T>, lookup: map<nat, nat>, ghost lo: nat, ghost op: Formula, ghost name: string, ghost kinds: seq<Formula>)
      returns (out: Outcome<ExprError>, ps: seq<nat>)
      requires Valid() && g.Valid() && g != this && op != Term && Fits(g, lookup, lo) && Ready(lo) && Top(op, name, kinds)
      modifies this`edges
      ensures out.Pass? <==> !(op == Implication && |kinds| >= 2)
      ensures out.Fail? ==> out.error == ImplicationFull
      ensures out.Pass? ==> Valid() && Top(op, name, kinds + [g.nodes[g.rootId]])
      ensures out.Pass? ==> Retargetable(lookup, g.edges, ps)
      ensures out.Pass? ==> edges == old(edges)[rootId := Children(old(edges), rootId) + [lookup[g.rootId]]] + Retarget(lookup, g.edges, ps)
      ensures out.Pass? ==> EdgesVia(edges, g.edges, lookup)
      ensures out.Pass? ==> SameOn(edges, old(edges)[rootId := Children(old(edges), rootId) + [lookup[g.rootId]]], 0, lo)
    {
      assert g.rootId in g.nodes;
      var c := lookup[g.rootId];
      assert c in nodes && lo <= c;
      NotYetChild(lo, c);
      ghost var e0 := edges;
      assert TopOf(rootId, nodes, e0, rank, namedNodesReverse, op, name, kinds);
      out := AddRelation(rootId, c);
      if out.Fail? {
        return out, [];
      }
      ghost var e1 := edges;
      assert e1 == e0[rootId := Children(e0, rootId) + [c]];
      assert Below(e1, lo);
      ps := CopyEdges(g, lookup, lo);
      assert Children(edges, rootId) == Children(e1, rootId);
      TopAppend(rootId, nodes, e0, edges, rank, namedNodesReverse, op, name, kinds, c, g.nodes[g.rootId]);
    }

    /** What a finished round for input `g` leaves: `[old(countId), countId)`
        holds a copy of `g` through `lookup`, nothing below it changed but the
        root's list, which gained the copy of `g`'s root, and the names
        bound are the earlier ones and `g`'s. */
    twostate predicate Rounded(g: Expression<T>, lookup: map<nat, nat>)
      reads this, g
    {
      && g.rootId in lookup
      && CopyOf(old(countId), countId, nodes, edges, termData, namedNodesReverse,
                g.nodes, g.edges, g.termData, g.namedNodesReverse, lookup)
      && Untouched(old(countId), nodes, edges, termData, namedNodesReverse, old(nodes),
                   old(edges)[rootId := Children(old(edges), rootId) + [lookup[g.rootId]]],
                   old(termData), old(namedNodesReverse))
      && namedNodes.Keys == old(namedNodes).Keys + g.namedNodes.Keys
    }

    /** One round of the loop of `compose` over its inputs, for input `g`:
        its nodes are copied, the copy of its root becomes the last child of
        the composed root, and its edges are copied. The counter running out
        during the node loop, or a third child for an Implication root, is
        the round's only failure. */
    method ComposeInput(g: Expression<T>, ghost op: Formula, ghost name: string, ghost kinds: seq<Formula>)
      returns (out: Outcome<ExprError>, lookup: map<nat, nat>, order: seq<nat>, ps: seq<nat>)
      requires Valid() && g.Valid() && g != this && op != Term && Top(op, name, kinds)
      modifies this
      ensures out.Pass? <==> old(countId) + |g.nodes| <= UIntMax && !(op == Implication && |kinds| >= 2)
      ensures out.Fail? ==> out.error == if old(countId) + |g.nodes| <= UIntMax then ImplicationFull else MaxNodesReached
      ensures out.Pass? ==> Valid() && Top(op, name, kinds + [g.nodes[g.rootId]]) && countId == old(countId) + |g.nodes|
      ensures out.Pass? ==> Enumerates(order, g.nodes.Keys) && Rounded(g, lookup)
    {
      Sourced();
      g.Sourced();
      ghost var e0, rank0 := edges, rank;
      ghost var t0, src := Tabled(), g.Source();
      var copied;
      copied, order := CopyInput(g, op, name, kinds);
      if copied.Failure? {
        return Fail(copied.error), map[], order, [];
      }
      lookup := copied.value;
      ghost var t1 := Tables(countId, nodes, termData, namedNodes, namedNodesReverse, lookup);
      ghost var rank1 := rank;
      out, ps := Attach(g, lookup, old(countId), op, name, kinds);
      if out.Pass? {
        Finished(t0, t1, src, order, rank0, rank1, g.rank, g.edges, edges, e0[rootId := Children(e0, rootId) + [lookup[g.rootId]]]);
      }
    }

    /** The node loop of one round of `compose`, with what the rest of the
        round needs of its result. */
    method CopyInput(g: Expression<T>, ghost op: Formula, ghost name: string, ghost kinds: seq<Formula>)
      returns (r: Result<map<nat, nat>, ExprError>, order: seq<nat>)
      requires Valid() && g.Valid() && g != this && Top(op, name, kinds)
      modifies this`countId, this`nodes, this`termData, this`namedNodes, this`namedNodesReverse, this`rank, this`rankBound
      ensures Enumerates(order, g.nodes.Keys)
      ensures r.Success? <==> old(countId) + |g.nodes| <= UIntMax
      ensures r.Failure? ==> r.error == MaxNodesReached && unchanged(this)
      ensures r.Success? ==> Valid() && Fits(g, r.value, old(countId)) && Ready(old(countId)) && Top(op, name, kinds)
      ensures r.Success? ==> countId == old(countId) + |g.nodes|
      ensures r.Success? ==>
        Tables(countId, nodes, termData, namedNodes, namedNodesReverse, r.value) == CopyAll(old(Tabled()), g.Source(), order)
      ensures r.Success? ==> rank == Column(old(rank), old(countId), Levels(g.rank), order)
    {
      Sourced();
      order := Enumerate(g.nodes.Keys);
      Prepared(g, order);
      RootKept(g, order, op, name, kinds);
      r := CopyNodes(g, order);
    }
  }

  /** The graphs `inputs` keep the invariant and have the tables `all`. */
  ghost predicate Inputs<T>(inputs: seq<Expression<T>>, all: seq<Shape<T>>)
    reads set i | 0 <= i < |inputs| :: inputs[i]
  {
    && |all| == |inputs|
    && forall i :: 0 <= i < |inputs| ==> inputs[i].Valid() && inputs[i].Snapshot() == all[i]
  }

  /** The tables of the graphs `inputs`, in order. */
  ghost function Shapes<T>(inputs: seq<Expression<T>>): seq<Shape<T>>
    reads set i | 0 <= i < |inputs| :: inputs[i]
  {
    if inputs == [] then [] else Shapes(inputs[..|inputs| - 1]) + [inputs[|inputs| - 1].Snapshot()]
  }

  /** `Shapes` holds one snapshot per graph. */
  lemma {:induction false} ShapesIndex<T>(inputs: seq<Expression<T>>)
    ensures |Shapes(inputs)| == |inputs|
    ensures forall i :: 0 <= i < |inputs| ==> Shapes(inputs)[i] == inputs[i].Snapshot()
    decreases |inputs|
  {
    if inputs != [] {
      var init := inputs[..|inputs| - 1];
      ShapesIndex(init);
      forall i | 0 <= i < |inputs| ensures Shapes(inputs)[i] == inputs[i].Snapshot() {
        if i < |init| {
          assert init[i] == inputs[i];
        }
      }
    }
  }

  /** A finished round of `compose`: the node loop took the tables `t0`
      to `t1` (see `NodesCopied`) and the edge loop re-targeted every list
      of the input, leaving the lists below `t0.count` as in `e0`. */
  lemma Finished<T>(t0: Tables<T>, t1: Tables<T>, src: Source<T>, order: seq<nat>, rank0: map<nat, nat>, rank1: map<nat, nat>,
                    grank: map<nat, nat>, gedges: map<nat, seq<nat>>, edges: map<nat, seq<nat>>, e0: map<nat, seq<nat>>)
    requires Enumerates(order, src.nodes.Keys) && SourceOk(src) && t0.lookup == map[]
    requires forall x :: x in src.nodes ==> x in grank
    requires Below(t0.nodes, t0.count) && Below(t0.termData, t0.count) && Below(t0.reverse, t0.count) && Below(rank0, t0.count)
    requires t1 == CopyAll(t0, src, order) && rank1 == Column(rank0, t0.count, Levels(grank), order)
    requires EdgesVia(edges, gedges, t1.lookup) && SameOn(edges, e0, 0, t0.count)
    ensures CopyOf(t0.count, t1.count, t1.nodes, edges, t1.termData, t1.reverse, src.nodes, gedges, src.termData, src.reverse, t1.lookup)
    ensures Untouched(t0.count, t1.nodes, edges, t1.termData, t1.reverse, t0.nodes, e0, t0.termData, t0.reverse)
    ensures t1.named.Keys == t0.named.Keys + src.named.Keys
  {
    CopyAllCount(t0, src, order);
    CopyAllDone(t0, src, order, rank0, grank);
  }

  /** The loop of `compose` over the nodes of one input, in the order
      `order`; `generateId` stops it when the counter reaches its maximum. */
  method CopyLoop<T>(t0: Tables<T>, src: Source<T>, order: seq<nat>) returns (r: Option<Tables<T>>)
    requires forall k :: 0 <= k < |order| ==> order[k] in src.nodes
    requires t0.count <= UIntMax
    ensures r.Some? <==> t0.count + |order| <= UIntMax
    ensures r.Some? ==> r.value == CopyAll(t0, src, order)
  {
    var t := t0;
    var i := 0;
    while i < |order|
      invariant i <= |order| && t == CopyAll(t0, src, order[..i]) && t.count == t0.count + i <= UIntMax
    {
      if t.count == UIntMax {
        return None;
      }
      CopyAllNext(t0, src, order, i);
      t := CopyStep(t, src, order[i]);
      i := i + 1;
    }
    assert order[..i] == order;
    r := Some(t);
  }

  /** The keys of a hash map in its (unspecified) iteration order. */
  method Enumerate(keys: set<nat>) returns (order: seq<nat>)
    ensures Enumerates(order, keys)
  {
    order := [];
    var rest := keys;
    while rest != {}
      invariant rest <= keys && |order| + |rest| == |keys|
      invariant forall x :: x in keys <==> x in order || x in rest
      invariant forall x :: x in rest ==> x !in order
      invariant forall a, b :: 0 <= a < b < |order| ==> order[a] != order[b]
      decreases |rest|
    {
      var x :| x in rest;
      order := order + [x];
      rest := rest - {x};
    }
  }
}
