/**
 * `Graph<T>`, a name-keyed adjacency graph with a root, and the
 * `Environment` constructor, which builds every asset an environment
 * definition lists and links decoders, rules and outputs into one graph
 * each, under their declared parents. The catalog, the construction of an
 * asset and its parents are parameters.
 */
module Environments {
  import opened Wrappers
  import opened Traversals
  import opened JsonValues

  /** `Graph<T>`: the root's name, the nodes by name (`m_nodes`) and the
      children of each name (`m_edges`). */
  class Graph<T> {
    var root: string
    var nodes: map<string, T>
    var edges: map<string, seq<string>>

    /** Only `addEdge` creates an edge list, and it always adds a child to
        it, so no list is empty. */
    predicate Valid()
      reads this
    {
      forall p :: p in edges ==> edges[p] != []
    }

    /** `Graph() = default`: the root is the empty name. */
    constructor Empty()
      ensures Valid() && root == "" && nodes == map[] && edges == map[]
    {
      root, nodes, edges := "", map[], map[];
    }

    /** A graph holding only its root node, which has no edge list. */
    constructor (rootId: string, rootNode: T)
      ensures Valid() && root == rootId && nodes == map[rootId := rootNode] && edges == map[]
    {
      root, nodes, edges := rootId, map[rootId := rootNode], map[];
    }

    /** `addNode` inserts: a name that already has a node keeps it. */
    method AddNode(id: string, node: T)
      modifies this
      ensures root == old(root) && edges == old(edges)
      ensures nodes == if id in old(nodes) then old(nodes) else old(nodes)[id := node]
    {
      if id !in nodes {
        nodes := nodes[id := node];
      }
    }

    /** `addEdge` appends `to` to the children of `from`, creating the list
        if needed; neither name needs a node and the edge may already be
        there. */
    method AddEdge(from: string, to: string)
      modifies this
      ensures old(Valid()) ==> Valid()
      ensures root == old(root) && nodes == old(nodes)
      ensures edges == old(edges)[from := Children(old(edges), from) + [to]]
    {
      edges := edges[from := Children(edges, from) + [to]];
    }

    /** `visit` as written: a pre-order stack walk from the root that reads
        each popped node with `m_nodes.at`, calls the visitor on it and
        reads its children with `m_edges.at`; the first read that finds no
        entry stops the walk. The graph must be acyclic (`rank` grows along
        every edge): the walk keeps no visited set. */
    method Visit(ghost rank: map<string, nat>, ghost bound: nat) returns (trace: seq<string>, ok: bool, ghost stop: nat)
      requires Ranked(edges, rank, bound) && root in rank
      ensures var walk := Walk(edges, rank, bound, root);
        ok <==> forall k :: 0 <= k < |walk| ==> walk[k] in nodes && walk[k] in edges
      ensures ok ==> trace == Walk(edges, rank, bound, root)
      ensures var walk := Walk(edges, rank, bound, root);
        !ok ==> (&& stop < |walk| && (walk[stop] !in nodes || walk[stop] !in edges)
                    && (forall k :: 0 <= k < stop ==> walk[k] in nodes && walk[k] in edges)
                    && trace == walk[..stop] + (if walk[stop] in nodes then [walk[stop]] else []))
    {
      ghost var walk := Walk(edges, rank, bound, root);
      trace, ok, stop := WalkStack(edges, rank, bound, root, nodes.Keys, {}, false);
      if ok {
        ReportedAll(walk, {});
      } else {
        ReportedAll(walk[..stop], {});
        forall k | 0 <= k < stop ensures walk[k] in nodes && walk[k] in edges {
          assert walk[..stop][k] == walk[k];
        }
      }
    }

    /** The last node of every walk has no children, and so, since no edge
        list is empty, no edge list: `visit` as written never completes. */
    lemma VisitNeverCompletes(rank: map<string, nat>, bound: nat)
      requires Valid() && Ranked(edges, rank, bound) && root in rank
      ensures var walk := Walk(edges, rank, bound, root);
        |walk| > 0 && walk[|walk| - 1] !in edges
    {
      WalkEndsAtLeaf(edges, rank, bound, root);
    }

    /** `visit` as evidently intended: a node without an edge list has no
        children, so the walk only stops at a name without a node. */
    method VisitFixed(ghost rank: map<string, nat>, ghost bound: nat) returns (trace: seq<string>, ok: bool, ghost stop: nat)
      requires Ranked(edges, rank, bound) && root in rank
      ensures var walk := Walk(edges, rank, bound, root);
        ok <==> forall k :: 0 <= k < |walk| ==> walk[k] in nodes
      ensures ok ==> trace == Walk(edges, rank, bound, root)
      ensures var walk := Walk(edges, rank, bound, root);
        !ok ==> (&& stop < |walk| && walk[stop] !in nodes
                    && (forall k :: 0 <= k < stop ==> walk[k] in nodes)
                    && trace == walk[..stop])
    {
      ghost var walk := Walk(edges, rank, bound, root);
      var leaves := nodes.Keys - edges.Keys;
      trace, ok, stop := WalkStack(edges, rank, bound, root, nodes.Keys, leaves, false);
      if ok {
        ReportedAll(walk, leaves);
        forall k | 0 <= k < |walk| ensures walk[k] in nodes {
          assert !Blocks(walk[k], nodes.Keys, leaves, edges);
        }
      } else {
        ReportedAll(walk[..stop], leaves);
        forall k | 0 <= k < stop ensures walk[k] in nodes {
          assert walk[..stop][k] == walk[k];
          assert !Blocks(walk[k], nodes.Keys, leaves, edges);
        }
      }
    }
  }

  // ---------------------------------------------------------------------
  // Linking assets into graphs

  /** `Asset::Type` as the environment uses it. */
  datatype Kind = Decoder | Rule | Output | Filter

  /** The key of the environment definition that lists each kind. */
  function SectionKey(kind: Kind): string
  {
    match kind
    case Decoder => "decoders"
    case Rule => "rules"
    case Output => "outputs"
    case Filter => "filters"
  }

  function KindName(kind: Kind): string
  {
    match kind
    case Decoder => "decoder"
    case Rule => "rule"
    case Output => "output"
    case Filter => "filter"
  }

  datatype EnvError =
    | NotAnObject(what: string, typeName: string)
    | NotAnArray(what: string, typeName: string)
    | NotAString(what: string, typeName: string)
    | AssetFailed(name: string, reason: string)

  /** The edges after `addEdge(from[k], to)` for each `k` in order. */
  function AddEdges(edges: map<string, seq<string>>, from: seq<string>, to: string): map<string, seq<string>>
  {
    if from == [] then edges
    else
      var e := AddEdges(edges, from[..|from| - 1], to);
      var p := from[|from| - 1];
      e[p := Children(e, p) + [to]]
  }

  /** Each name of `from` gains `to` as a child once per occurrence, at the
      end of its list; no other name changes. */
  lemma {:induction false} AddEdgesChildren(edges: map<string, seq<string>>, from: seq<string>, to: string, p: string)
    ensures Children(AddEdges(edges, from, to), p) == Children(edges, p) + seq(multiset(from)[p], _ => to)
  {
    if from != [] {
      var init, last := from[..|from| - 1], from[|from| - 1];
      assert from == init + [last];
      AddEdgesChildren(edges, init, to, p);
      if p == last {
        assert seq(multiset(from)[p], _ => to) == seq(multiset(init)[p], _ => to) + [to];
      }
    }
  }

  /** A graph's state as values: its nodes and its edge lists. */
  datatype Wiring<A> = Wiring(nodes: map<string, A>, edges: map<string, seq<string>>)

  /** The assets built so far and the graph of the section being linked. */
  datatype Linking<A> = Linking(assets: map<string, A>, wiring: Wiring<A>)

  /** One element of a section list. The element must be a string, the
      asset's name; a decoder is built from the catalog's definition of that
      name, any other asset from the element itself. The asset replaces any
      earlier asset of that name; unless it is a filter it is added to the
      graph, which keeps an earlier node of that name, and linked under each
      of its parents, or under the graph's root when it is a decoder with no
      parents. */
  function Link<A>(kind: Kind, root: string, item: Json, catalog: string -> Json, make: (Json, Kind) -> Result<A, string>,
                   parents: A -> seq<string>, s: Linking<A>): (r: Result<Linking<A>, EnvError>)
    ensures r.Failure? ==> r.error.NotAString? || (r.error.AssetFailed? && item.Str? && r.error.name == item.s)
    ensures r.Success? ==> item.Str? && item.s in r.value.assets
  {
    if !item.Str? then Failure(NotAString(KindName(kind), TypeName(item)))
    else
      var name := item.s;
      match make(if kind == Decoder then catalog(name) else item, kind)
      case Failure(reason) => Failure(AssetFailed(name, reason))
      case Success(asset) =>
        var assets := s.assets[name := asset];
        if kind == Filter then Success(Linking(assets, s.wiring))
        else
          var w := s.wiring;
          var nodes := if name in w.nodes then w.nodes else w.nodes[name := asset];
          var from := if kind == Decoder && parents(asset) == [] then [root] else parents(asset);
          Success(Linking(assets, Wiring(nodes, AddEdges(w.edges, from, name))))
  }

  /** The names a section list gives, one per string element. */
  function Listed(items: seq<Json>): set<string>
  {
    set k | 0 <= k < |items| && items[k].Str? :: items[k].s
  }

  lemma ListedSnoc(items: seq<Json>)
    requires items != [] && items[|items| - 1].Str?
    ensures Listed(items) == Listed(items[..|items| - 1]) + {items[|items| - 1].s}
  {
    var init := items[..|items| - 1];
    forall n | n in Listed(items) ensures n in Listed(init) + {items[|items| - 1].s} {
      var k :| 0 <= k < |items| && items[k].Str? && items[k].s == n;
      if k < |init| { assert init[k] == items[k]; }
    }
    forall n | n in Listed(init) ensures n in Listed(items) {
      var k :| 0 <= k < |init| && init[k].Str? && init[k].s == n;
      assert items[k] == init[k];
    }
  }

  /** The loop over one section's list: the first element that fails stops
      it. A successful section records an asset under every name it lists
      and under no other new name, adds graph nodes only for listed names,
      and keeps every node the graph had. */
  function Section<A>(kind: Kind, root: string, items: seq<Json>, catalog: string -> Json,
                      make: (Json, Kind) -> Result<A, string>, parents: A -> seq<string>, s: Linking<A>)
    : (r: Result<Linking<A>, EnvError>)
  {
    if items == [] then Success(s)
    else match Section(kind, root, items[..|items| - 1], catalog, make, parents, s)
      case Failure(e) => Failure(e)
      case Success(t) => Link(kind, root, items[|items| - 1], catalog, make, parents, t)
  }

  /** Linking one element records exactly its name and adds at most that
      name to the graph. */
  lemma LinkNames<A>(kind: Kind, root: string, item: Json, catalog: string -> Json,
                     make: (Json, Kind) -> Result<A, string>, parents: A -> seq<string>, s: Linking<A>)
    requires Link(kind, root, item, catalog, make, parents, s).Success?
    ensures var t := Link(kind, root, item, catalog, make, parents, s).value;
      && t.assets.Keys == s.assets.Keys + {item.s}
      && t.wiring.nodes.Keys <= s.wiring.nodes.Keys + {item.s}
  {
  }

  /** After a section, the assets recorded are those before plus every name
      the list gives, and the graph holds no node beyond those before and
      the names listed. */
  lemma {:induction false} SectionNames<A>(kind: Kind, root: string, items: seq<Json>, catalog: string -> Json,
                                           make: (Json, Kind) -> Result<A, string>, parents: A -> seq<string>,
                                           s: Linking<A>)
    requires Section(kind, root, items, catalog, make, parents, s).Success?
    ensures var t := Section(kind, root, items, catalog, make, parents, s).value;
      && t.assets.Keys == s.assets.Keys + Listed(items)
      && t.wiring.nodes.Keys <= s.wiring.nodes.Keys + Listed(items)
  {
    if items != [] {
      var init := items[..|items| - 1];
      SectionNames(kind, root, init, catalog, make, parents, s);
      var t := Section(kind, root, init, catalog, make, parents, s).value;
      LinkNames(kind, root, items[|items| - 1], catalog, make, parents, t);
      ListedSnoc(items);
    }
  }

  lemma {:induction false} SectionPrefixFail<A>(kind: Kind, root: string, items: seq<Json>, catalog: string -> Json,
                                                make: (Json, Kind) -> Result<A, string>, parents: A -> seq<string>,
                                                s: Linking<A>, n: nat)
    requires n <= |items| && Section(kind, root, items[..n], catalog, make, parents, s).Failure?
    ensures Section(kind, root, items, catalog, make, parents, s) == Section(kind, root, items[..n], catalog, make, parents, s)
    decreases |items| - n
  {
    if n < |items| {
      assert items[..n + 1][..n] == items[..n];
      SectionPrefixFail(kind, root, items, catalog, make, parents, s, n + 1);
    } else {
      assert items[..n] == items;
    }
  }

  /** The edges a linked asset adds: one from each declared parent, in
      order; a decoder with no parents gets one from the root instead, while
      a rule or an output with no parents gets none. */
  lemma LinkedEdges<A>(kind: Kind, root: string, item: Json, catalog: string -> Json,
                       make: (Json, Kind) -> Result<A, string>, parents: A -> seq<string>, s: Linking<A>, p: string)
    requires kind != Filter && Link(kind, root, item, catalog, make, parents, s).Success?
    ensures item.Str? && make(if kind == Decoder then catalog(item.s) else item, kind).Success?
    ensures var asset := make(if kind == Decoder then catalog(item.s) else item, kind).value;
      var edges := Link(kind, root, item, catalog, make, parents, s).value.wiring.edges;
      && (parents(asset) != [] || kind != Decoder ==>
            Children(edges, p) == Children(s.wiring.edges, p) + seq(multiset(parents(asset))[p], _ => item.s))
      && (parents(asset) == [] && kind == Decoder ==>
            Children(edges, p) == Children(s.wiring.edges, p) + (if p == root then [item.s] else []))
  {
    var asset := make(if kind == Decoder then catalog(item.s) else item, kind).value;
    var from := if kind == Decoder && parents(asset) == [] then [root] else parents(asset);
    AddEdgesChildren(s.wiring.edges, from, item.s, p);
    if kind == Decoder && parents(asset) == [] && p == root {
      assert multiset(from)[p] == 1;
      assert seq(1, _ => item.s) == [item.s];
    }
  }

  /** Filters are never linked: a filter section leaves the graph as it was. */
  lemma {:induction false} FiltersUnwired<A>(root: string, items: seq<Json>, catalog: string -> Json,
                                             make: (Json, Kind) -> Result<A, string>, parents: A -> seq<string>, s: Linking<A>)
    requires Section(Filter, root, items, catalog, make, parents, s).Success?
    ensures Section(Filter, root, items, catalog, make, parents, s).value.wiring == s.wiring
  {
    if items != [] {
      FiltersUnwired(root, items[..|items| - 1], catalog, make, parents, s);
    }
  }

  /** The asset built from the element at `i` (which the loop reached, so
      it is a string that builds). */
  function AssetAt<A>(kind: Kind, items: seq<Json>, catalog: string -> Json, make: (Json, Kind) -> Result<A, string>, i: nat)
    : Result<A, string>
    requires i < |items| && items[i].Str?
  {
    make(if kind == Decoder then catalog(items[i].s) else items[i], kind)
  }

  /** A successful section's elements are strings that all build. */
  lemma {:induction false} SectionBuilt<A>(kind: Kind, root: string, items: seq<Json>, catalog: string -> Json,
                                           make: (Json, Kind) -> Result<A, string>, parents: A -> seq<string>,
                                           s: Linking<A>, i: nat)
    requires Section(kind, root, items, catalog, make, parents, s).Success? && i < |items|
    ensures items[i].Str? && AssetAt(kind, items, catalog, make, i).Success?
  {
    var init := items[..|items| - 1];
    if i < |init| {
      assert init[i] == items[i];
      SectionBuilt(kind, root, init, catalog, make, parents, s, i);
    }
  }

  /** `m_assets[name] = asset`: after a section, each name listed maps to
      the asset of its last element. */
  lemma {:induction false} SectionLastAsset<A>(kind: Kind, root: string, items: seq<Json>, catalog: string -> Json,
                                               make: (Json, Kind) -> Result<A, string>, parents: A -> seq<string>,
                                               s: Linking<A>, i: nat)
    requires Section(kind, root, items, catalog, make, parents, s).Success? && i < |items|
    requires forall j :: i < j < |items| ==> items[j] != items[i]
    ensures items[i].Str? && AssetAt(kind, items, catalog, make, i).Success?
    ensures var assets := Section(kind, root, items, catalog, make, parents, s).value.assets;
      items[i].s in assets && assets[items[i].s] == AssetAt(kind, items, catalog, make, i).value
  {
    SectionBuilt(kind, root, items, catalog, make, parents, s, i);
    var init := items[..|items| - 1];
    if i < |init| {
      assert init[i] == items[i];
      assert forall j :: i < j < |init| ==> init[j] == items[j];
      SectionLastAsset(kind, root, init, catalog, make, parents, s, i);
      SectionBuilt(kind, root, items, catalog, make, parents, s, |init|);
    }
  }

  /** `addNode` keeps the first: after a section of linked kind, a name
      listed that had no node before maps to the asset of its first element. */
  lemma {:induction false} SectionFirstNode<A>(kind: Kind, root: string, items: seq<Json>, catalog: string -> Json,
                                               make: (Json, Kind) -> Result<A, string>, parents: A -> seq<string>,
                                               s: Linking<A>, i: nat)
    requires kind != Filter
    requires Section(kind, root, items, catalog, make, parents, s).Success? && i < |items|
    requires forall j :: 0 <= j < i ==> items[j] != items[i]
    ensures items[i].Str? && AssetAt(kind, items, catalog, make, i).Success?
    ensures var nodes := Section(kind, root, items, catalog, make, parents, s).value.wiring.nodes;
      items[i].s in nodes
      && (items[i].s !in s.wiring.nodes ==> nodes[items[i].s] == AssetAt(kind, items, catalog, make, i).value)
      && (items[i].s in s.wiring.nodes ==> nodes[items[i].s] == s.wiring.nodes[items[i].s])
  {
    SectionBuilt(kind, root, items, catalog, make, parents, s, i);
    var init := items[..|items| - 1];
    if i < |init| {
      assert init[i] == items[i];
      assert forall j :: 0 <= j < i ==> init[j] == items[j];
      SectionFirstNode(kind, root, init, catalog, make, parents, s, i);
    } else {
      SectionUnlisted(kind, root, init, catalog, make, parents, s, items[i]);
    }
  }

  /** A name none of the elements lists keeps its node. */
  lemma {:induction false} SectionUnlisted<A>(kind: Kind, root: string, items: seq<Json>, catalog: string -> Json,
                                              make: (Json, Kind) -> Result<A, string>, parents: A -> seq<string>,
                                              s: Linking<A>, item: Json)
    requires kind != Filter && item.Str?
    requires Section(kind, root, items, catalog, make, parents, s).Success?
    requires forall j :: 0 <= j < |items| ==> items[j] != item
    ensures var nodes := Section(kind, root, items, catalog, make, parents, s).value.wiring.nodes;
      (item.s in nodes <==> item.s in s.wiring.nodes)
      && (item.s in s.wiring.nodes ==> nodes[item.s] == s.wiring.nodes[item.s])
  {
    if items != [] {
      var init := items[..|items| - 1];
      assert forall j :: 0 <= j < |init| ==> init[j] == items[j];
      SectionUnlisted(kind, root, init, catalog, make, parents, s, item);
      SectionBuilt(kind, root, items, catalog, make, parents, s, |init|);
    }
  }

  /** The list of a section, which must be an array when present; an absent
      section lists nothing. */
  function ListIn(members: seq<(string, Json)>, kind: Kind): Result<seq<Json>, EnvError>
  {
    match FindKey(members, SectionKey(kind))
    case None => Success([])
    case Some(i) =>
      if members[i].1.Array? then Success(members[i].1.items)
      else Failure(NotAnArray(SectionKey(kind), TypeName(members[i].1)))
  }

  /** One section of an environment, linked into a default graph (root "");
      every node of the graph is the name of a recorded asset. */
  function Sections<A>(members: seq<(string, Json)>, kind: Kind, catalog: string -> Json,
                       make: (Json, Kind) -> Result<A, string>, parents: A -> seq<string>, assets: map<string, A>)
    : (r: Result<Linking<A>, EnvError>)
    ensures r.Success? ==> assets.Keys <= r.value.assets.Keys && r.value.wiring.nodes.Keys <= r.value.assets.Keys
  {
    match ListIn(members, kind)
    case Failure(e) => Failure(e)
    case Success(items) =>
      var s := Linking(assets, Wiring(map[], map[]));
      var r := Section(kind, "", items, catalog, make, parents, s);
      if r.Success? then SectionNames(kind, "", items, catalog, make, parents, s); r else r
  }

  /** What a constructed environment holds. */
  datatype Contents<A> = Contents(assets: map<string, A>, decoders: Wiring<A>, rules: Wiring<A>, outputs: Wiring<A>)

  /** The `Environment` constructor on a definition: decoders, then rules,
      then outputs, then filters, sharing one asset map. Only an object can
      be constructed, and every node of the three graphs names an asset of
      the environment. */
  function Constructed<A>(definition: Json, catalog: string -> Json, make: (Json, Kind) -> Result<A, string>,
                          parents: A -> seq<string>): (r: Result<Contents<A>, EnvError>)
    ensures !definition.Object? ==> r.Failure?
    ensures r.Success? ==> && r.value.decoders.nodes.Keys <= r.value.assets.Keys
                           && r.value.rules.nodes.Keys <= r.value.assets.Keys
                           && r.value.outputs.nodes.Keys <= r.value.assets.Keys
  {
    if !definition.Object? then Failure(NotAnObject("environment", TypeName(definition)))
    else
      var members := definition.members;
      match Sections(members, Decoder, catalog, make, parents, map[])
      case Failure(e) => Failure(e)
      case Success(d) =>
        match Sections(members, Rule, catalog, make, parents, d.assets)
        case Failure(e) => Failure(e)
        case Success(r) =>
          match Sections(members, Output, catalog, make, parents, r.assets)
          case Failure(e) => Failure(e)
          case Success(o) =>
            match Sections(members, Filter, catalog, make, parents, o.assets)
            case Failure(e) => Failure(e)
            case Success(f) => Success(Contents(f.assets, d.wiring, r.wiring, o.wiring))
  }

  /** `Environment`: its name, its assets by name and its three graphs. */
  class Environment<A> {
    var name: string
    var assets: map<string, A>
    const decoders: Graph<A>
    const rules: Graph<A>
    const outputs: Graph<A>

    predicate Valid()
      reads decoders, rules, outputs
    {
      && decoders != rules && decoders != outputs && rules != outputs
      && decoders.Valid() && rules.Valid() && outputs.Valid()
    }

    /** What the environment holds, as values. */
    function Snapshot(): Contents<A>
      reads this, decoders, rules, outputs
    {
      Contents(assets, Wiring(decoders.nodes, decoders.edges), Wiring(rules.nodes, rules.edges),
               Wiring(outputs.nodes, outputs.edges))
    }

    /** An environment with no assets and three default graphs. */
    constructor (name: string)
      ensures Valid() && this.name == name && fresh(decoders) && fresh(rules) && fresh(outputs)
      ensures decoders.root == "" && rules.root == "" && outputs.root == ""
      ensures Snapshot() == Contents(map[], Wiring(map[], map[]), Wiring(map[], map[]), Wiring(map[], map[]))
    {
      this.name := name;
      assets := map[];
      decoders := new Graph.Empty();
      rules := new Graph.Empty();
      outputs := new Graph.Empty();
    }

    /** The constructor of `Environment`, which throws on the first
        malformed section or asset. */
    static method Create(name: string, definition: Json, catalog: string -> Json,
                         make: (Json, Kind) -> Result<A, string>, parents: A -> seq<string>)
      returns (r: Result<Environment<A>, EnvError>)
      ensures var c := Constructed(definition, catalog, make, parents);
        && (r.Success? <==> c.Success?)
        && (r.Failure? ==> r.error == c.error)
        && (r.Success? ==> && fresh(r.value) && r.value.Valid() && r.value.name == name
                           && r.value.decoders.root == "" && r.value.rules.root == "" && r.value.outputs.root == ""
                           && r.value.Snapshot() == c.value)
    {
      var env := new Environment(name);
      var outcome := env.Load(definition, catalog, make, parents);
      if outcome.Fail? {
        return Failure(outcome.error);
      }
      r := Success(env);
    }

    /** The body of the constructor, on a fresh environment. */
    method Load(definition: Json, catalog: string -> Json, make: (Json, Kind) -> Result<A, string>,
                parents: A -> seq<string>) returns (r: Outcome<EnvError>)
      requires Valid() && decoders.root == "" && rules.root == "" && outputs.root == ""
      requires Snapshot() == Contents(map[], Wiring(map[], map[]), Wiring(map[], map[]), Wiring(map[], map[]))
      modifies this, decoders, rules, outputs
      ensures Valid() && name == old(name) && decoders.root == "" && rules.root == "" && outputs.root == ""
      ensures var c := Constructed(definition, catalog, make, parents);
        && (r.Pass? <==> c.Success?)
        && (r.Fail? ==> r.error == c.error)
        && (r.Pass? ==> Snapshot() == c.value)
    {
      if !definition.Object? {
        return Fail(NotAnObject("environment", TypeName(definition)));
      }
      var members := definition.members;
      r := WireSection(decoders, Decoder, members, catalog, make, parents);
      if r.Fail? {
        return;
      }
      r := WireSection(rules, Rule, members, catalog, make, parents);
      if r.Fail? {
        return;
      }
      r := WireSection(outputs, Output, members, catalog, make, parents);
      if r.Fail? {
        return;
      }
      var list := ListIn(members, Filter);
      if list.Failure? {
        return Fail(list.error);
      }
      ghost var o := assets;
      r := RecordFilters(list.value, catalog, make, parents);
      if r.Pass? {
        FiltersUnwired("", list.value, catalog, make, parents, Linking(o, Wiring(map[], map[])));
      }
    }

    /** The section of one linked kind: its list, when present, must be an
        array, whose elements are linked into a default `graph`. */
    method WireSection(graph: Graph<A>, kind: Kind, members: seq<(string, Json)>, catalog: string -> Json,
                       make: (Json, Kind) -> Result<A, string>, parents: A -> seq<string>) returns (r: Outcome<EnvError>)
      requires kind != Filter && graph.Valid() && graph.root == "" && graph.nodes == map[] && graph.edges == map[]
      modifies this, graph
      ensures graph.Valid() && graph.root == "" && name == old(name)
      ensures var s := Sections(members, kind, catalog, make, parents, old(assets));
        && (r.Pass? <==> s.Success?)
        && (r.Fail? ==> r.error == s.error)
        && (r.Pass? ==> Linking(assets, Wiring(graph.nodes, graph.edges)) == s.value)
    {
      var list := ListIn(members, kind);
      if list.Failure? {
        return Fail(list.error);
      }
      r := Wire(graph, kind, list.value, catalog, make, parents);
    }

    /** The loop over the list of decoders, rules or outputs, linking each
        into `graph`. */
    method Wire(graph: Graph<A>, kind: Kind, items: seq<Json>, catalog: string -> Json,
                make: (Json, Kind) -> Result<A, string>, parents: A -> seq<string>) returns (r: Outcome<EnvError>)
      requires kind != Filter && graph.Valid()
      modifies this, graph
      ensures graph.Valid() && graph.root == old(graph.root) && name == old(name)
      ensures var s := Section(kind, old(graph.root), items, catalog, make, parents,
                               Linking(old(assets), Wiring(old(graph.nodes), old(graph.edges))));
        && (r.Pass? <==> s.Success?)
        && (r.Fail? ==> r.error == s.error)
        && (r.Pass? ==> Linking(assets, Wiring(graph.nodes, graph.edges)) == s.value)
    {
      ghost var s0 := Linking(assets, Wiring(graph.nodes, graph.edges));
      var i := 0;
      while i < |items|
        invariant i <= |items| && graph.Valid() && graph.root == old(graph.root) && name == old(name)
        invariant Section(kind, graph.root, items[..i], catalog, make, parents, s0)
               == Success(Linking(assets, Wiring(graph.nodes, graph.edges)))
      {
        assert items[..i + 1][..i] == items[..i];
        ghost var before := Linking(assets, Wiring(graph.nodes, graph.edges));
        var item := items[i];
        if !item.Str? {
          SectionPrefixFail(kind, graph.root, items, catalog, make, parents, s0, i + 1);
          return Fail(NotAString(KindName(kind), TypeName(item)));
        }
        var assetName := item.s;
        var made := make(if kind == Decoder then catalog(assetName) else item, kind);
        if made.Failure? {
          SectionPrefixFail(kind, graph.root, items, catalog, make, parents, s0, i + 1);
          return Fail(AssetFailed(assetName, made.error));
        }
        var asset := made.value;
        assets := assets[assetName := asset];
        graph.AddNode(assetName, asset);
        var declared := parents(asset);
        if kind == Decoder && |declared| == 0 {
          graph.AddEdge(graph.root, assetName);
          assert AddEdges(before.wiring.edges, [graph.root], assetName) == graph.edges by {
            assert [graph.root][..0] == [];
          }
        } else {
          Attach(graph, declared, assetName);
        }
        assert Link(kind, graph.root, item, catalog, make, parents, before)
            == Success(Linking(assets, Wiring(graph.nodes, graph.edges)));
        i := i + 1;
      }
      assert items[..i] == items;
      r := Pass;
    }

    /** `addEdge(parent, name)` for each declared parent, in order. */
    method Attach(graph: Graph<A>, declared: seq<string>, assetName: string)
      modifies graph
      ensures graph.root == old(graph.root) && graph.nodes == old(graph.nodes)
      ensures old(graph.Valid()) ==> graph.Valid()
      ensures graph.edges == AddEdges(old(graph.edges), declared, assetName)
    {
      var j := 0;
      while j < |declared|
        invariant j <= |declared| && graph.root == old(graph.root) && graph.nodes == old(graph.nodes)
        invariant old(graph.Valid()) ==> graph.Valid()
        invariant graph.edges == AddEdges(old(graph.edges), declared[..j], assetName)
      {
        assert declared[..j + 1][..j] == declared[..j];
        graph.AddEdge(declared[j], assetName);
        j := j + 1;
      }
      assert declared[..j] == declared;
    }

    /** The loop over the list of filters: each is only recorded as an asset. */
    method RecordFilters(items: seq<Json>, catalog: string -> Json, make: (Json, Kind) -> Result<A, string>,
                         parents: A -> seq<string>) returns (r: Outcome<EnvError>)
      modifies this
      ensures name == old(name)
      ensures var s := Section(Filter, "", items, catalog, make, parents, Linking(old(assets), Wiring(map[], map[])));
        && (r.Pass? <==> s.Success?)
        && (r.Fail? ==> r.error == s.error)
        && (r.Pass? ==> assets == s.value.assets)
    {
      ghost var s0 := Linking(assets, Wiring(map[], map[]));
      var i := 0;
      while i < |items|
        invariant i <= |items| && name == old(name)
        invariant Section(Filter, "", items[..i], catalog, make, parents, s0) == Success(Linking(assets, Wiring(map[], map[])))
      {
        assert items[..i + 1][..i] == items[..i];
        var item := items[i];
        if !item.Str? {
          SectionPrefixFail(Filter, "", items, catalog, make, parents, s0, i + 1);
          return Fail(NotAString(KindName(Filter), TypeName(item)));
        }
        var made := make(item, Filter);
        if made.Failure? {
          SectionPrefixFail(Filter, "", items, catalog, make, parents, s0, i + 1);
          return Fail(AssetFailed(item.s, made.error));
        }
        assets := assets[item.s := made.value];
        i := i + 1;
      }
      assert items[..i] == items;
      r := Pass;
    }
  }
}
