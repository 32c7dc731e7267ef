/**
 * The checks of the three guarded mutators of `Expression<T>`
 * (`generateId`, `addRelation`, `addName`) as functions on the tables:
 * each `throw` of the source is a failed outcome carrying its reason.
 */
module Checks {
  import opened Wrappers
  import opened Traversals
  import opened Arena

  datatype ExprError =
    | ExpectedOperation  // a Term kind where an operation is required
    | MaxNodesReached    // generateId: the counter reached UIntMax
    | NodeAlreadyExists  // generateId: the counter names an existing node
    | ParentMissing      // addRelation: no such parent
    | ChildMissing       // addRelation: no such child
    | RelationExists     // addRelation: the edge is already there
    | ParentIsTerm       // addRelation: a Term cannot have children
    | ImplicationFull    // addRelation: an Implication already has two children
    | NodeMissing        // addName: no such node
    | NameExists         // addName: the non-empty name is already bound

  /** The guards of `addRelation` that follow the two existence checks, in
      source order, given the parent's kind and its current children. */
  function RelationVerdict(parentFormula: Formula, prior: seq<nat>, childId: nat): (out: Outcome<ExprError>)
    ensures out.Pass? <==> childId !in prior && parentFormula != Term && !(parentFormula == Implication && |prior| >= 2)
  {
    if childId in prior then Fail(RelationExists)
    else if parentFormula == Term then Fail(ParentIsTerm)
    else if parentFormula == Implication && |prior| > 1 then Fail(ImplicationFull)
    else Pass
  }

  /** The guard of `addName` that follows the existence check: only a
      non-empty name can clash. */
  function NameVerdict(name: string, named: map<string, nat>): (out: Outcome<ExprError>)
    ensures out.Fail? <==> name != "" && name in named
  {
    if name != "" && name in named then Fail(NameExists) else Pass
  }

  /** `generateId` on the counter and the node table: the counter's value,
      unless it is at its maximum or already names a node. */
  function NextId(countId: nat, nodes: map<nat, Formula>): (r: Result<nat, ExprError>)
    requires countId <= UIntMax
    ensures r.Success? <==> countId < UIntMax && countId !in nodes
    ensures r.Success? ==> r.value == countId
    ensures r.Failure? ==> r.error == if countId == UIntMax then MaxNodesReached else NodeAlreadyExists
  {
    if countId == UIntMax then Failure(MaxNodesReached)
    else if countId in nodes then Failure(NodeAlreadyExists)
    else Success(countId)
  }

  /** `addRelation` on the node and edge tables: the outcome and the new
      edge table. `m_edges[parentId]` inserts an empty list for an existing
      parent before the remaining checks run, so a rejected relation may
      leave that (empty) entry behind; no adjacency list changes. */
  function Link(nodes: map<nat, Formula>, edges: map<nat, seq<nat>>, parentId: nat, childId: nat): (r: (Outcome<ExprError>, map<nat, seq<nat>>))
    ensures r.0.Pass? <==>
      && parentId in nodes && childId in nodes && childId !in Children(edges, parentId)
      && nodes[parentId] != Term && !(nodes[parentId] == Implication && |Children(edges, parentId)| >= 2)
    ensures r.0.Fail? ==>
      r.0.error == if parentId !in nodes then ParentMissing
                   else if childId !in nodes then ChildMissing
                   else RelationVerdict(nodes[parentId], Children(edges, parentId), childId).error
    ensures r.0.Pass? ==> r.1 == edges[parentId := Children(edges, parentId) + [childId]]
    ensures r.0.Fail? ==> forall q :: Children(r.1, q) == Children(edges, q)
    ensures r.1.Keys <= edges.Keys + {parentId} && (parentId !in nodes || childId !in nodes ==> r.1 == edges)
  {
    if parentId !in nodes then (Fail(ParentMissing), edges)
    else if childId !in nodes then (Fail(ChildMissing), edges)
    else
      var prior := Children(edges, parentId);
      var verdict := RelationVerdict(nodes[parentId], prior, childId);
      (verdict, edges[parentId := if verdict.Pass? then prior + [childId] else prior])
  }

  /** `addNode` as written stores the new node (with an empty edge list)
      before `addRelation` checks its parent, so a `parentId` equal to the
      freshly generated id passes every check and the new operation becomes
      its own child: the relation is a cycle. */
  lemma SelfParentAsWritten(nodes: map<nat, Formula>, edges: map<nat, seq<nat>>, id: nat, formula: Formula)
    requires id !in nodes && formula != Term
    ensures var r := Link(nodes[id := formula], edges[id := []], id, id);
      r.0.Pass? && r.1[id] == [id] && IsPath(r.1, [id, id])
  {
    var r := Link(nodes[id := formula], edges[id := []], id, id);
    assert Children(r.1, id) == [id];
  }

  /** `addName` on the name tables: a non-empty name is bound to the node
      unless it is bound already; the reverse entry is written either way. */
  function Naming(nodes: map<nat, Formula>, named: map<string, nat>, reverse: map<nat, string>, nodeId: nat, name: string)
    : (r: (Outcome<ExprError>, map<string, nat>, map<nat, string>))
    ensures r.0.Pass? <==> nodeId in nodes && !(name != "" && name in named)
    ensures r.0.Fail? ==> r.0.error == (if nodeId !in nodes then NodeMissing else NameExists) && r.1 == named && r.2 == reverse
    ensures r.0.Pass? ==> r.2 == reverse[nodeId := name] && r.1.Keys == named.Keys + (if name == "" then {} else {name})
    ensures r.0.Pass? && name != "" ==> r.1[name] == nodeId && r.2[r.1[name]] == name
    ensures forall n :: n in named ==> n in r.1 && r.1[n] == named[n]
  {
    if nodeId !in nodes then (Fail(NodeMissing), named, reverse)
    else match NameVerdict(name, named)
      case Fail(e) => (Fail(e), named, reverse)
      case Pass => (Pass, if name == "" then named else named[name := nodeId], reverse[nodeId := name])
  }

  /** A relation down the depth order keeps the arena invariant, whatever
      the checks decide. */
  lemma LinkValid<T>(countId: nat, rootId: nat, nodes: map<nat, Formula>, edges: map<nat, seq<nat>>, termData: map<nat, T>,
                     named: map<string, nat>, reverse: map<nat, string>, rank: map<nat, nat>, bound: nat, parentId: nat, childId: nat)
    requires Inv(countId, rootId, nodes, edges, termData, named, reverse, rank, bound)
    requires parentId in rank && childId in rank ==> rank[parentId] < rank[childId]
    ensures Inv(countId, rootId, nodes, Link(nodes, edges, parentId, childId).1, termData, named, reverse, rank, bound)
  {
    if parentId in nodes && childId in nodes {
      EntryKeeps(nodes, edges, rank, bound, parentId);
      if Link(nodes, edges, parentId, childId).0.Pass? {
        LinkKeeps(nodes, edges, rank, bound, parentId, childId);
      }
    }
  }

  /** Naming a node that has no name yet keeps the arena invariant. */
  lemma NamingValid<T>(countId: nat, rootId: nat, nodes: map<nat, Formula>, edges: map<nat, seq<nat>>, termData: map<nat, T>,
                       named: map<string, nat>, reverse: map<nat, string>, rank: map<nat, nat>, bound: nat, nodeId: nat, name: string)
    requires Inv(countId, rootId, nodes, edges, termData, named, reverse, rank, bound) && nodeId !in reverse
    ensures var r := Naming(nodes, named, reverse, nodeId, name);
      Inv(countId, rootId, nodes, edges, termData, r.1, r.2, rank, bound)
  {
    var r := Naming(nodes, named, reverse, nodeId, name);
    forall n | n in r.1 ensures n != "" && r.1[n] in r.2 && r.2[r.1[n]] == n {
      if n != name {
        assert named[n] != nodeId;
      }
    }
  }
}
