/**
 * The graph builders: `orGraphBuilder` splits every asset definition into
 * its check, its parents and its stages, and the two graph visitors fold an
 * asset graph (a root name, the compiled node of every asset and the
 * children of every asset) into one connectable tree, under the
 * first-success policy (rules, outputs) or the fallible-chain policy
 * (decoders).
 */
module GraphBuilders {
  import opened Wrappers
  import opened Traversals
  import opened Arena
  import opened Formulas
  import opened JsonValues
  import opened Registry

  // ---------------------------------------------------------------------
  // Splitting an asset definition

  /** What the loop of `orGraphBuilder` keeps of one asset definition: the
      built check, the parent names and the stages composed under one And. */
  datatype Definition<P> = Definition(check: Expr<P>, parents: seq<string>, stages: Expr<P>)

  /** The members left once the first member with `key`, if any, is erased. */
  function Without(members: seq<(string, Json)>, key: string): seq<(string, Json)>
  {
    match FindKey(members, key)
    case None => members
    case Some(i) => Erase(members, i)
  }

  /** Erasing a key removes one occurrence of it, if there is one, and
      nothing else. */
  lemma WithoutKeys(members: seq<(string, Json)>, key: string)
    ensures multiset(Keys(Without(members, key))) == multiset(Keys(members)) - multiset{key}
  {
    if FindKey(members, key).Some? {
      EraseFirst(members, key);
    } else {
      assert key !in multiset(Keys(members));
    }
  }

  /** Erasing one key does not change which member is the first with
      another key. */
  lemma {:induction false} FindAfterErase(members: seq<(string, Json)>, i: nat, key: string)
    requires i < |members| && members[i].0 != key
    ensures FindKey(Erase(members, i), key).None? <==> FindKey(members, key).None?
    ensures FindKey(members, key).Some? ==>
      Erase(members, i)[FindKey(Erase(members, i), key).value] == members[FindKey(members, key).value]
  {
    var r := Erase(members, i);
    match FindKey(members, key)
    case None =>
    case Some(j) =>
      var j' := if j < i then j else j - 1;
      assert r[j'] == members[j];
      assert forall k :: 0 <= k < j' ==> r[k].0 != key by {
        forall k | 0 <= k < j' ensures r[k].0 != key {
          if k < i { assert r[k] == members[k]; } else { assert r[k] == members[k + 1]; }
        }
      }
  }

  /** The members that become stages: all but "check", "parents" and
      "metadata". */
  function StageMembers(members: seq<(string, Json)>): seq<(string, Json)>
  {
    Without(Without(Without(members, "check"), "parents"), "metadata")
  }

  /** The parents listed by a "parents" array, each of which must be a string. */
  function ParentNames(items: seq<Json>): (r: Result<seq<string>, BuildError>)
    ensures r.Success? <==> forall k :: 0 <= k < |items| ==> items[k].Str?
    ensures r.Success? ==> |r.value| == |items| && forall k :: 0 <= k < |items| ==> r.value[k] == items[k].s
  {
    if items == [] then Success([])
    else match ParentNames(items[..|items| - 1])
      case Failure(e) => Failure(e)
      case Success(names) =>
        var last := items[|items| - 1];
        if last.Str? then Success(names + [last.s]) else Failure(NotAString("parent", TypeName(last)))
  }

  /** The parents of a definition without its check: the listed names, or
      `["Root"]` when there is no "parents" member. */
  function Parents(members: seq<(string, Json)>): Result<seq<string>, BuildError>
  {
    match FindKey(members, "parents")
    case None => Success(["Root"])
    case Some(i) =>
      var listed := members[i].1;
      if listed.Array? then ParentNames(listed.items) else Failure(NotAnArray("parents", TypeName(listed)))
  }

  /** A "metadata" member, when present, must be an object. */
  function MetadataShape(members: seq<(string, Json)>): Outcome<BuildError>
  {
    match FindKey(members, "metadata")
    case None => Pass
    case Some(i) => if members[i].1.Object? then Pass else Fail(NotAnObject("metadata", TypeName(members[i].1)))
  }

  /** One pass of the definition loop of `orGraphBuilder` on asset `name`:
      only an object with a "check" member splits, a definition that is not
      an object or has no check is rejected naming the asset, and the
      stages are always composed under one And. */
  function Splitting<P>(registry: Builders<Expr<P>>, name: string, definition: Json): (r: Result<Definition<P>, BuildError>)
    ensures !definition.Object? ==> r == Failure(NotAnObject(name, TypeName(definition)))
    ensures definition.Object? && FindKey(definition.members, "check").None? ==> r == Failure(MissingCheck(name))
    ensures r.Success? ==> r.value.stages.Op? && r.value.stages.kind == And
  {
    if !definition.Object? then Failure(NotAnObject(name, TypeName(definition)))
    else
      var members := definition.members;
      match FindKey(members, "check")
      case None => Failure(MissingCheck(name))
      case Some(c) =>
        var afterCheck := Erase(members, c);
        match Dispatch(registry, CheckKey, members[c].1)
        case Failure(e) => Failure(e)
        case Success(check) =>
          match Parents(afterCheck)
          case Failure(e) => Failure(e)
          case Success(parents) =>
            var afterParents := Without(afterCheck, "parents");
            match MetadataShape(afterParents)
            case Fail(e) => Failure(e)
            case Pass =>
              match Stages(registry, Without(afterParents, "metadata"))
              case Failure(e) => Failure(e)
              case Success(stages) => Success(Definition(check, parents, Op(And, "", stages)))
  }

  /** The check is the "stage.check" build of the first "check" member;
      the parents are `["Root"]` when the definition has no "parents"
      member, and otherwise the strings its first "parents" member lists, in
      order. */
  lemma SplitParents<P>(registry: Builders<Expr<P>>, name: string, definition: Json)
    requires Splitting(registry, name, definition).Success?
    ensures definition.Object? && FindKey(definition.members, "check").Some?
    ensures var members := definition.members;
      var d := Splitting(registry, name, definition).value;
      && Dispatch(registry, CheckKey, members[FindKey(members, "check").value].1) == Success(d.check)
      && (FindKey(members, "parents").None? ==> d.parents == ["Root"])
      && (FindKey(members, "parents").Some? ==>
            var listed := members[FindKey(members, "parents").value].1;
            listed.Array? && |d.parents| == |listed.items|
            && forall k :: 0 <= k < |listed.items| ==> listed.items[k] == Str(d.parents[k]))
  {
    var members := definition.members;
    var c := FindKey(members, "check").value;
    FindAfterErase(members, c, "parents");
  }

  /** The stages are one And over the stages built, in order, from the
      members that remain once the first "check", "parents" and "metadata"
      members are erased: every other member yields exactly one stage, and
      when keys are not repeated no reserved key becomes a stage. */
  lemma SplitStages<P>(registry: Builders<Expr<P>>, name: string, definition: Json)
    requires Splitting(registry, name, definition).Success?
    ensures definition.Object?
    ensures var rest := StageMembers(definition.members);
      && Stages(registry, rest).Success?
      && Splitting(registry, name, definition).value.stages == Op(And, "", Stages(registry, rest).value)
  {
    var members := definition.members;
    var c := FindKey(members, "check").value;
    assert Without(members, "check") == Erase(members, c);
  }

  /** Every member other than the first "check", "parents" and "metadata"
      members yields exactly one stage. */
  lemma StageKeys(members: seq<(string, Json)>)
    ensures multiset(Keys(StageMembers(members)))
         == multiset(Keys(members)) - multiset{"check"} - multiset{"parents"} - multiset{"metadata"}
  {
    var a := Without(members, "check");
    var b := Without(a, "parents");
    WithoutKeys(members, "check");
    WithoutKeys(a, "parents");
    WithoutKeys(b, "metadata");
  }

  /** With keys that do not repeat, none of "check", "parents" and
      "metadata" is the key of a stage. */
  lemma NoReservedStage(members: seq<(string, Json)>, key: string)
    requires multiset(Keys(members))[key] <= 1
    requires key in ["check", "parents", "metadata"]
    ensures key !in Keys(StageMembers(members))
  {
    var a := Without(members, "check");
    var b := Without(a, "parents");
    WithoutKeys(members, "check");
    WithoutKeys(a, "parents");
    WithoutKeys(b, "metadata");
    assert key in multiset(Keys(StageMembers(members))) <==> key in Keys(StageMembers(members));
  }

  /** The maps the definition loop fills, by asset name. The source
      computes the parents and then drops them; they are kept here. */
  datatype Tables<P> = Tables(checks: map<string, Expr<P>>, stages: map<string, Expr<P>>, parents: map<string, seq<string>>)

  /** The definition loop over `assets`, for the body `split` (the
      loop of `orGraphBuilder` uses `Splitting`): a later definition of a
      name replaces an earlier one; the first definition that fails stops it. */
  function SplitEach<P>(split: (string, Json) -> Result<Definition<P>, BuildError>, assets: seq<(string, Json)>)
    : (r: Result<Tables<P>, BuildError>)
    ensures r.Success? ==>
      && r.value.checks.Keys == Names(assets)
      && r.value.stages.Keys == Names(assets)
      && r.value.parents.Keys == Names(assets)
  {
    if assets == [] then Success(Tables(map[], map[], map[]))
    else match SplitEach(split, assets[..|assets| - 1])
      case Failure(e) => Failure(e)
      case Success(t) =>
        var (name, definition) := assets[|assets| - 1];
        match split(name, definition)
        case Failure(e) => Failure(e)
        case Success(d) =>
          NamesSnoc(assets);
          Success(Tables(t.checks[name := d.check], t.stages[name := d.stages], t.parents[name := d.parents]))
  }

  /** The loop succeeds exactly when every definition splits. */
  lemma {:induction false} SplitEachSucceeds<P>(split: (string, Json) -> Result<Definition<P>, BuildError>, assets: seq<(string, Json)>)
    ensures SplitEach(split, assets).Success? <==>
      forall i :: 0 <= i < |assets| ==> split(assets[i].0, assets[i].1).Success?
  {
    if assets != [] {
      var init := assets[..|assets| - 1];
      SplitEachSucceeds(split, init);
      assert forall i :: 0 <= i < |init| ==> init[i] == assets[i];
    }
  }

  /** The names defined in `assets`. */
  function Names(assets: seq<(string, Json)>): set<string>
  {
    set i | 0 <= i < |assets| :: assets[i].0
  }

  lemma NamesSnoc(assets: seq<(string, Json)>)
    requires assets != []
    ensures Names(assets) == Names(assets[..|assets| - 1]) + {assets[|assets| - 1].0}
  {
    var init := assets[..|assets| - 1];
    assert forall i :: 0 <= i < |init| ==> init[i] == assets[i];
  }

  /** After a successful loop, each name maps to the parts of its last
      definition. */
  lemma {:induction false} SplitEachLast<P>(split: (string, Json) -> Result<Definition<P>, BuildError>, assets: seq<(string, Json)>, i: nat)
    requires SplitEach(split, assets).Success?
    requires i < |assets| && forall j :: i < j < |assets| ==> assets[j].0 != assets[i].0
    ensures split(assets[i].0, assets[i].1).Success?
    ensures var t := SplitEach(split, assets).value;
      assets[i].0 in t.checks && assets[i].0 in t.stages && assets[i].0 in t.parents
    ensures var t, d := SplitEach(split, assets).value, split(assets[i].0, assets[i].1).value;
      t.checks[assets[i].0] == d.check && t.stages[assets[i].0] == d.stages && t.parents[assets[i].0] == d.parents
  {
    var init := assets[..|assets| - 1];
    if i < |init| {
      assert init[i] == assets[i];
      assert forall j :: i < j < |init| ==> init[j] == assets[j];
      SplitEachLast(split, init, i);
    }
  }

  /** The definition loop of `orGraphBuilder`. */
  method SplitAll<P>(registry: Builders<Expr<P>>, assets: seq<(string, Json)>) returns (r: Result<Tables<P>, BuildError>)
    ensures r == SplitEach((name, definition) => Splitting(registry, name, definition), assets)
  {
    ghost var split := (name, definition) => Splitting(registry, name, definition);
    var checks: map<string, Expr<P>> := map[];
    var stages: map<string, Expr<P>> := map[];
    var parents: map<string, seq<string>> := map[];
    var i := 0;
    while i < |assets|
      invariant i <= |assets| && SplitEach(split, assets[..i]) == Success(Tables(checks, stages, parents))
    {
      var (name, definition) := assets[i];
      var d := Splitting(registry, name, definition);
      assert split(name, definition) == d;
      if d.Failure? {
        assert assets[..i + 1][..i] == assets[..i];
        SplitPrefixFail(split, assets, i + 1);
        return Failure(d.error);
      }
      SplitEachStep(split, assets, i, Tables(checks, stages, parents), d.value);
      checks, stages, parents := checks[name := d.value.check], stages[name := d.value.stages], parents[name := d.value.parents];
      i := i + 1;
    }
    assert assets[..i] == assets;
    r := Success(Tables(checks, stages, parents));
  }

  /** One more definition that splits extends the tables by its parts. */
  lemma SplitEachStep<P>(split: (string, Json) -> Result<Definition<P>, BuildError>, assets: seq<(string, Json)>, i: nat,
                         t: Tables<P>, d: Definition<P>)
    requires i < |assets| && SplitEach(split, assets[..i]) == Success(t)
    requires split(assets[i].0, assets[i].1) == Success(d)
    ensures SplitEach(split, assets[..i + 1])
         == Success(Tables(t.checks[assets[i].0 := d.check], t.stages[assets[i].0 := d.stages], t.parents[assets[i].0 := d.parents]))
  {
    assert assets[..i + 1][..i] == assets[..i];
  }

  lemma {:induction false} SplitPrefixFail<P>(split: (string, Json) -> Result<Definition<P>, BuildError>, assets: seq<(string, Json)>, n: nat)
    requires n <= |assets| && SplitEach(split, assets[..n]).Failure?
    ensures SplitEach(split, assets) == SplitEach(split, assets[..n])
    decreases |assets| - n
  {
    if n < |assets| {
      assert assets[..n + 1][..n] == assets[..n];
      SplitPrefixFail(split, assets, n + 1);
    } else {
      assert assets[..n] == assets;
    }
  }

  // ---------------------------------------------------------------------
  // Folding an asset graph

  datatype Policy = FirstSuccess | FallibleChain

  /** What a connectable is: a compiled asset, the root of a compiled
      graph (`ConnectableAsset::create`) or a group (`ConnectableGroup::create`). */
  datatype Head<A> = Compiled(asset: A) | AssetRoot(name: string, policy: Policy) | Group(name: string, policy: Policy)

  /** A connectable with its operands (`m_connectables`). */
  datatype Connectable<A> = Connectable(head: Head<A>, connectables: seq<Connectable<A>>)

  /** The visitors need the children map to be acyclic (they keep no
      visited set; `rank` grows along every edge) and every child to have a
      node (`assetsNodes[current]` on a missing name holds no node). */
  ghost predicate Compilable<A>(nodes: map<string, Connectable<A>>, children: map<string, seq<string>>,
                                rank: map<string, nat>, bound: nat)
  {
    && Ranked(children, rank, bound)
    && forall p, k :: p in children && 0 <= k < |children[p]| ==> children[p][k] in nodes
  }

  /** The node `current` compiles to. Under the first-success policy a
      node with an entry in the children map gains one more operand, a
      first-success group "children" of its children's compiled nodes in
      order; under the fallible-chain policy it becomes a fallible chain
      "children" of its children's compiled nodes followed by the node
      itself. A node without an entry compiles to itself. */
  ghost function Fold<A>(policy: Policy, nodes: map<string, Connectable<A>>, children: map<string, seq<string>>,
                         rank: map<string, nat>, bound: nat, current: string): (r: Connectable<A>)
    requires Compilable(nodes, children, rank, bound) && current in nodes
    ensures current !in children ==> r == nodes[current]
    ensures current in children && policy == FirstSuccess ==>
      && r.head == nodes[current].head
      && |r.connectables| == |nodes[current].connectables| + 1
      && r.connectables[..|nodes[current].connectables|] == nodes[current].connectables
    ensures current in children && policy == FallibleChain ==>
      && r.head == Group("children", FallibleChain)
      && |r.connectables| == |children[current]| + 1
      && r.connectables[|children[current]|] == nodes[current]
    decreases Height(rank, bound, current)
  {
    var node := nodes[current];
    if current !in children then node
    else
      var names := children[current];
      var folded := seq(|names|, k requires 0 <= k < |names| => Fold(policy, nodes, children, rank, bound, names[k]));
      match policy
      case FirstSuccess => Connectable(node.head, node.connectables + [Connectable(Group("children", FirstSuccess), folded)])
      case FallibleChain => Connectable(Group("children", FallibleChain), folded + [node])
  }

  /** `folded` holds the compiled nodes of the first `n` names. */
  ghost predicate FoldedPrefix<A>(policy: Policy, nodes: map<string, Connectable<A>>, children: map<string, seq<string>>,
                                  rank: map<string, nat>, bound: nat, names: seq<string>, n: nat, folded: seq<Connectable<A>>)
    requires Compilable(nodes, children, rank, bound)
    requires forall k :: 0 <= k < |names| ==> names[k] in nodes
  {
    && n <= |names| && |folded| == n
    && forall k :: 0 <= k < n ==> folded[k] == Fold(policy, nodes, children, rank, bound, names[k])
  }

  /** The recursive visitor of both graph builders, with the fallible
      chain attached as evidently intended (see `FoldFallibleAsWritten`). */
  method FoldNode<A>(policy: Policy, nodes: map<string, Connectable<A>>, children: map<string, seq<string>>,
                     ghost rank: map<string, nat>, ghost bound: nat, current: string) returns (c: Connectable<A>)
    requires Compilable(nodes, children, rank, bound) && current in nodes
    ensures c == Fold(policy, nodes, children, rank, bound, current)
    decreases Height(rank, bound, current), 2
  {
    var node := nodes[current];
    if current !in children {
      return node;
    }
    var names := children[current];
    ChildrenBelow(nodes, children, rank, bound, current);
    var folded := FoldAll(policy, nodes, children, rank, bound, names, Height(rank, bound, current));
    if policy == FirstSuccess {
      c := Connectable(node.head, node.connectables + [Connectable(Group("children", FirstSuccess), folded)]);
    } else {
      c := Connectable(Group("children", FallibleChain), folded + [node]);
    }
  }

  /** The loop over a node's children, each folded in turn and appended to
      the group; every child ranks below `height`. */
  method FoldAll<A>(policy: Policy, nodes: map<string, Connectable<A>>, children: map<string, seq<string>>,
                    ghost rank: map<string, nat>, ghost bound: nat, names: seq<string>, ghost height: nat)
    returns (folded: seq<Connectable<A>>)
    requires Compilable(nodes, children, rank, bound)
    requires forall k :: 0 <= k < |names| ==> names[k] in nodes && Height(rank, bound, names[k]) < height
    ensures folded == seq(|names|, k requires 0 <= k < |names| => Fold(policy, nodes, children, rank, bound, names[k]))
    decreases height, 1
  {
    folded := [];
    var i := 0;
    while i < |names|
      invariant FoldedPrefix(policy, nodes, children, rank, bound, names, i, folded)
    {
      var child := FoldNode(policy, nodes, children, rank, bound, names[i]);
      folded := folded + [child];
      i := i + 1;
    }
  }

  /** The children of `current` rank below it. */
  lemma ChildrenBelow<A>(nodes: map<string, Connectable<A>>, children: map<string, seq<string>>,
                         rank: map<string, nat>, bound: nat, current: string)
    requires Compilable(nodes, children, rank, bound) && current in children
    ensures forall k :: 0 <= k < |children[current]| ==>
      children[current][k] in nodes && Height(rank, bound, children[current][k]) < Height(rank, bound, current)
  {
  }

  /** The graph builder's result: a root named `rootName` of the policy's
      kind whose operands are the compiled direct children of `rootName`,
      in order (none when `rootName` has no entry). */
  method BuildGraph<A>(policy: Policy, rootName: string, nodes: map<string, Connectable<A>>, children: map<string, seq<string>>,
                       ghost rank: map<string, nat>, ghost bound: nat) returns (root: Connectable<A>)
    requires Compilable(nodes, children, rank, bound)
    ensures root.head == AssetRoot(rootName, policy)
    ensures |root.connectables| == |Children(children, rootName)|
    ensures forall k :: 0 <= k < |root.connectables| ==>
      root.connectables[k] == Fold(policy, nodes, children, rank, bound, Children(children, rootName)[k])
  {
    var names := Children(children, rootName);
    if rootName in children {
      ChildrenBelow(nodes, children, rank, bound, rootName);
    }
    var folded := FoldAll(policy, nodes, children, rank, bound, names, Height(rank, bound, rootName) + 1);
    root := Connectable(AssetRoot(rootName, policy), folded);
  }

  /** The heads found anywhere in a connectable. */
  function Heads<A(==)>(c: Connectable<A>): set<Head<A>>
  {
    {c.head} + HeadsOf(c.connectables)
  }

  function HeadsOf<A(==)>(cs: seq<Connectable<A>>): set<Head<A>>
  {
    if cs == [] then {} else HeadsOf(cs[..|cs| - 1]) + Heads(cs[|cs| - 1])
  }

  lemma {:induction false} HeadsOfAt<A>(cs: seq<Connectable<A>>, k: nat)
    requires k < |cs|
    ensures Heads(cs[k]) <= HeadsOf(cs)
  {
    if k < |cs| - 1 {
      HeadsOfAt(cs[..|cs| - 1], k);
    }
  }

  /** Under both policies the compiled node of every asset reachable from
      `current` (along the children map) occurs in `current`'s compiled
      node: nothing reachable is dropped. */
  lemma {:induction false} FoldReaches<A>(policy: Policy, nodes: map<string, Connectable<A>>, children: map<string, seq<string>>,
                                          rank: map<string, nat>, bound: nat, path: seq<string>)
    requires Compilable(nodes, children, rank, bound) && IsPath(children, path) && path[0] in nodes
    ensures path[|path| - 1] in nodes
    ensures nodes[path[|path| - 1]].head in Heads(Fold(policy, nodes, children, rank, bound, path[0]))
    decreases |path|
  {
    var current := path[0];
    if |path| == 1 {
      OwnHead(policy, nodes, children, rank, bound, current);
    } else {
      var c := Fold(policy, nodes, children, rank, bound, current);
      assert path[1] in Children(children, current);
      var names := children[current];
      var folded := seq(|names|, k requires 0 <= k < |names| => Fold(policy, nodes, children, rank, bound, names[k]));
      var j :| 0 <= j < |names| && names[j] == path[1];
      assert IsPath(children, path[1..]);
      FoldReaches(policy, nodes, children, rank, bound, path[1..]);
      if policy == FirstSuccess {
        var group := Connectable(Group("children", FirstSuccess), folded);
        assert c.connectables[|c.connectables| - 1] == group;
        HeadsOfAt(c.connectables, |c.connectables| - 1);
        HeadsOfAt(folded, j);
      } else {
        assert c.connectables[j] == folded[j];
        HeadsOfAt(c.connectables, j);
      }
    }
  }

  /** An asset's own head occurs in its compiled node. */
  lemma OwnHead<A>(policy: Policy, nodes: map<string, Connectable<A>>, children: map<string, seq<string>>,
                   rank: map<string, nat>, bound: nat, current: string)
    requires Compilable(nodes, children, rank, bound) && current in nodes
    ensures nodes[current].head in Heads(Fold(policy, nodes, children, rank, bound, current))
  {
    var c := Fold(policy, nodes, children, rank, bound, current);
    if current in children && policy == FallibleChain {
      assert c.connectables[|c.connectables| - 1] == nodes[current];
      HeadsOfAt(c.connectables, |c.connectables| - 1);
    }
  }

  /** The two policies differ on every asset that has children: the
      first-success node keeps the asset at its head and adds its children
      as an alternative, while the fallible chain puts the children ahead
      of the asset. */
  lemma PoliciesDiffer<A>(nodes: map<string, Connectable<A>>, children: map<string, seq<string>>,
                          rank: map<string, nat>, bound: nat, current: string)
    requires Compilable(nodes, children, rank, bound) && current in nodes && current in children
    requires nodes[current].head.Compiled?
    ensures Fold(FirstSuccess, nodes, children, rank, bound, current).head == nodes[current].head
    ensures Fold(FallibleChain, nodes, children, rank, bound, current).head == Group("children", FallibleChain)
    ensures Fold(FallibleChain, nodes, children, rank, bound, current).connectables[|children[current]|] == nodes[current]
    ensures Fold(FirstSuccess, nodes, children, rank, bound, current) != Fold(FallibleChain, nodes, children, rank, bound, current)
  {
  }

  /** The fallible visitor as written: the chain of the children and the
      node is built and then dropped, so every node is returned unchanged
      (the children are still visited). */
  method FoldFallibleAsWritten<A>(nodes: map<string, Connectable<A>>, children: map<string, seq<string>>,
                                  ghost rank: map<string, nat>, ghost bound: nat, current: string) returns (c: Connectable<A>)
    requires Compilable(nodes, children, rank, bound) && current in nodes
    ensures c == nodes[current]
    decreases Height(rank, bound, current)
  {
    var currentNode := nodes[current];
    if current in children {
      var names := children[current];
      var group: seq<Connectable<A>> := [];
      var i := 0;
      // The loop only visits the children: what it collects goes into the
      // discarded chain, so nothing about `group` needs to be kept.
      while i < |names|
        invariant i <= |names|
      {
        var child := FoldFallibleAsWritten(nodes, children, rank, bound, names[i]);
        group := group + [child];
        i := i + 1;
      }
      // The chain is built and then discarded: neither the node nor its
      // caller ever receives `childrenNode`.
      var childrenNode := Connectable(Group("children", FallibleChain), group + [currentNode]);
    }
    return currentNode;
  }

  /** As written, the fallible graph of the decoders R -> [X], X -> [Z]
      attaches X unchanged, with no trace of Z; the intended chain puts Z
      ahead of X. */
  lemma FallibleDropsChildren()
    ensures var x := Connectable(Compiled("X"), []);
      var z := Connectable(Compiled("Z"), []);
      var nodes := map["X" := x, "Z" := z];
      var children := map["R" := ["X"], "X" := ["Z"]];
      var rank := map["R" := 0, "X" := 1, "Z" := 2];
      && Compilable(nodes, children, rank, 2)
      && z.head !in Heads(x)
      && Fold(FallibleChain, nodes, children, rank, 2, "X") == Connectable(Group("children", FallibleChain), [z, x])
      && Fold(FirstSuccess, nodes, children, rank, 2, "X") == Connectable(Compiled("X"), [Connectable(Group("children", FirstSuccess), [z])])
  {
    var x := Connectable(Compiled("X"), []);
    var z := Connectable(Compiled("Z"), []);
    var nodes := map["X" := x, "Z" := z];
    var children := map["R" := ["X"], "X" := ["Z"]];
    var rank := map["R" := 0, "X" := 1, "Z" := 2];
    assert Compilable(nodes, children, rank, 2);
    assert Heads(x) == {x.head} by {
      assert HeadsOf(x.connectables) == {};
    }
    assert Fold(FallibleChain, nodes, children, rank, 2, "Z") == z;
    assert Fold(FirstSuccess, nodes, children, rank, 2, "Z") == z;
    assert [z] + [x] == [z, x];
    var group := Connectable(Group("children", FirstSuccess), [z]);
    assert seq(1, k requires 0 <= k < 1 => Fold(FirstSuccess, nodes, children, rank, 2, ["Z"][k])) == [z];
    assert x.connectables + [group] == [group];
  }
}
