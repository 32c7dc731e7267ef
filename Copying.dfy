/**
 * The node loop of `Expression::compose` for one input graph, as a fold:
 * in the input's hash-map order, every node is given the result's next
 * identifier, its kind, its payload and its name, and the lookup table
 * records the new identifier. The facts about the fold are proved one
 * table at a time, by induction on the number of nodes copied.
 */
module Copying {
  import opened Wrappers
  import opened Traversals
  import opened Arena

  /** What the node loop writes: the result's counter and tables, and the
      lookup table from the input's identifiers to the result's. */
  datatype Tables<T> = Tables(count: nat, nodes: map<nat, Formula>, termData: map<nat, T>,
                              named: map<string, nat>, reverse: map<nat, string>, lookup: map<nat, nat>)

  /** What the node loop reads from the input graph. */
  datatype Source<T> = Source(nodes: map<nat, Formula>, termData: map<nat, T>,
                              named: map<string, nat>, reverse: map<nat, string>)

  /** The input invariants the copy relies on: payloads sit on Term nodes
      and the input's name tables agree. */
  ghost predicate SourceOk<T>(g: Source<T>)
  {
    && (forall x :: x in g.termData ==> x in g.nodes && g.nodes[x] == Term)
    && NamesAgree(g.nodes, g.named, g.reverse)
  }

  /** The arena invariant of the tables being written. */
  ghost predicate TablesOk<T>(t: Tables<T>, rootId: nat, edges: map<nat, seq<nat>>, rank: map<nat, nat>, bound: nat)
  {
    Inv(t.count, rootId, t.nodes, edges, t.termData, t.named, t.reverse, rank, bound)
  }

  /** `order` lists every key of a hash map exactly once. */
  ghost predicate Enumerates(order: seq<nat>, keys: set<nat>)
  {
    && |order| == |keys|
    && (forall x :: x in keys <==> x in order)
    && (forall a, b :: 0 <= a < b < |order| ==> order[a] != order[b])
  }

  /** One round of the loop, on node `x` of the input: the new node takes
      the counter's value, the kind of `x`, its payload when `x` is a Term
      that has one, and its name; the name is bound in the result when the
      input binds it, by plain assignment. */
  function CopyStep<T>(t: Tables<T>, g: Source<T>, x: nat): Tables<T>
    requires x in g.nodes
  {
    var name := NameIn(g.reverse, x);
    Tables(t.count + 1,
           t.nodes[t.count := g.nodes[x]],
           if g.nodes[x] == Term && x in g.termData then t.termData[t.count := g.termData[x]] else t.termData,
           if name in g.named then t.named[name := t.count] else t.named,
           t.reverse[t.count := name],
           t.lookup[x := t.count])
  }

  /** The loop after it has copied the nodes `xs`, in that order. */
  function CopyAll<T>(t: Tables<T>, g: Source<T>, xs: seq<nat>): (r: Tables<T>)
    requires forall k :: 0 <= k < |xs| ==> xs[k] in g.nodes
    decreases |xs|
  {
    if xs == [] then t else CopyStep(CopyAll(t, g, xs[..|xs| - 1]), g, xs[|xs| - 1])
  }

  /** One table of the node loop on its own: after copying `xs` from
      identifier `c0`, the copy of `xs[k]` sits at `c0 + k` when the input
      table has an entry for `xs[k]`. */
  ghost function Column<V>(m0: map<nat, V>, c0: nat, gm: map<nat, V>, xs: seq<nat>): map<nat, V>
    decreases |xs|
  {
    if xs == [] then m0
    else
      var m := Column(m0, c0, gm, xs[..|xs| - 1]);
      var x := xs[|xs| - 1];
      if x in gm then m[c0 + |xs| - 1 := gm[x]] else m
  }

  /** The counter advances by one per node copied. */
  lemma {:induction false} CopyAllCount<T>(t: Tables<T>, g: Source<T>, xs: seq<nat>)
    requires forall k :: 0 <= k < |xs| ==> xs[k] in g.nodes
    ensures CopyAll(t, g, xs).count == t.count + |xs|
    decreases |xs|
  {
    if xs != [] {
      CopyAllCount(t, g, xs[..|xs| - 1]);
    }
  }

  /** A column holds, at `c0 + k`, the entry of the `k`-th node copied, and
      keeps every entry below `c0`. */
  lemma {:induction false} ColumnPrefix<V>(m0: map<nat, V>, c0: nat, gm: map<nat, V>, xs: seq<nat>)
    requires Below(m0, c0)
    ensures CopiedPrefix(Column(m0, c0, gm, xs), m0, gm, xs, c0, |xs|)
    decreases |xs|
  {
    if xs == [] {
      PrefixStart(m0, gm, xs, c0);
    } else {
      var n := |xs| - 1;
      ColumnPrefix(m0, c0, gm, xs[..n]);
      PrefixWiden(Column(m0, c0, gm, xs[..n]), m0, gm, xs[..n], xs, c0);
      PrefixStep(Column(m0, c0, gm, xs[..n]), m0, gm, xs, c0, n);
    }
  }

  /** The kinds, payloads and names the fold writes are its columns. */
  lemma {:induction false} CopyAllColumns<T>(t: Tables<T>, g: Source<T>, xs: seq<nat>)
    requires forall k :: 0 <= k < |xs| ==> xs[k] in g.nodes
    requires forall x :: x in g.termData ==> x in g.nodes && g.nodes[x] == Term
    ensures var r := CopyAll(t, g, xs);
      && r.nodes == Column(t.nodes, t.count, g.nodes, xs)
      && r.termData == Column(t.termData, t.count, g.termData, xs)
      && r.reverse == Column(t.reverse, t.count, NamesOf(g.nodes, g.reverse), xs)
    decreases |xs|
  {
    if xs != [] {
      var n := |xs| - 1;
      CopyAllColumns(t, g, xs[..n]);
      CopyAllCount(t, g, xs[..n]);
    }
  }

  /** A prefix of a shorter order is a prefix of any order extending it. */
  lemma PrefixWiden<V>(m: map<nat, V>, m0: map<nat, V>, gm: map<nat, V>, front: seq<nat>, xs: seq<nat>, c0: nat)
    requires CopiedPrefix(m, m0, gm, front, c0, |front|) && front <= xs
    ensures CopiedPrefix(m, m0, gm, xs, c0, |front|)
  {
    forall k | 0 <= k < |front| ensures xs[k] == front[k] { }
  }

  /** The lookup table sends the `k`-th node copied to `t.count + k`, and
      lists nothing else, when no node is copied twice. */
  lemma {:induction false} CopyAllLookup<T>(t: Tables<T>, g: Source<T>, xs: seq<nat>)
    requires forall k :: 0 <= k < |xs| ==> xs[k] in g.nodes
    requires forall a, b :: 0 <= a < b < |xs| ==> xs[a] != xs[b]
    requires t.lookup == map[]
    ensures var r := CopyAll(t, g, xs);
      && (forall x :: x in r.lookup <==> x in xs)
      && (forall k :: 0 <= k < |xs| ==> r.lookup[xs[k]] == t.count + k)
    decreases |xs|
  {
    if xs != [] {
      var n := |xs| - 1;
      var front := xs[..n];
      CopyAllLookup(t, g, front);
      CopyAllCount(t, g, front);
      var r := CopyAll(t, g, xs);
      forall x ensures x in r.lookup <==> x in xs {
        assert x in xs <==> x in front || x == xs[n] by {
          assert xs == front + [xs[n]];
        }
      }
      forall k | 0 <= k < |xs| ensures r.lookup[xs[k]] == t.count + k {
        if k < n {
          assert xs[k] == front[k] && xs[k] != xs[n];
        }
      }
    }
  }

  /** Names: every name bound before stays bound and, unless the input
      binds it too, to the same node; the only new names are the input's;
      and every name the input binds to a node already copied is bound. */
  lemma {:induction false} CopyAllNames<T>(t: Tables<T>, g: Source<T>, xs: seq<nat>)
    requires forall k :: 0 <= k < |xs| ==> xs[k] in g.nodes
    requires SourceOk(g)
    ensures var r := CopyAll(t, g, xs);
      && t.named.Keys <= r.named.Keys <= t.named.Keys + g.named.Keys
      && (forall n :: n in t.named && n !in g.named ==> r.named[n] == t.named[n])
      && (forall n :: n in g.named && g.named[n] in xs ==> n in r.named)
    decreases |xs|
  {
    if xs != [] {
      var n := |xs| - 1;
      var front := xs[..n];
      CopyAllNames(t, g, front);
      var r := CopyAll(t, g, xs);
      forall nm | nm in g.named && g.named[nm] in xs ensures nm in r.named {
        if g.named[nm] in front {
        } else {
          assert xs == front + [xs[n]];
          assert g.named[nm] == xs[n];
        }
      }
    }
  }

  /** One round keeps the arena invariant, when the copy's depth fits the bound. */
  lemma CopyStepValid<T>(p: Tables<T>, g: Source<T>, x: nat, rootId: nat, edges: map<nat, seq<nat>>,
                         ranks: map<nat, nat>, b: nat, level: nat)
    requires x in g.nodes && SourceOk(g) && level <= b
    requires TablesOk(p, rootId, edges, ranks, b) && p.count < UIntMax
    ensures var r := CopyStep(p, g, x);
      TablesOk(r, rootId, edges, ranks[p.count := level], b)
  {
    NameKeeps(p.nodes, p.named, p.reverse, p.count, g.nodes[x], NameIn(g.reverse, x), NameIn(g.reverse, x) in g.named);
    CopyKeeps(p.nodes, edges, ranks, b, p.count, g.nodes[x], level);
  }

  /** The last round of `CopyAll`. */
  lemma CopyAllLast<T>(t: Tables<T>, g: Source<T>, front: seq<nat>, x: nat)
    requires x in g.nodes && forall k :: 0 <= k < |front| ==> front[k] in g.nodes
    ensures forall k :: 0 <= k < |front + [x]| ==> (front + [x])[k] in g.nodes
    ensures CopyAll(t, g, front + [x]) == CopyStep(CopyAll(t, g, front), g, x)
  {
    assert (front + [x])[..|front|] == front;
  }

  /** The loop's next round, on the `i`-th node of `order`. */
  lemma CopyAllNext<T>(t: Tables<T>, g: Source<T>, order: seq<nat>, i: nat)
    requires i < |order| && forall k :: 0 <= k < |order| ==> order[k] in g.nodes
    ensures CopyAll(t, g, order[..i + 1]) == CopyStep(CopyAll(t, g, order[..i]), g, order[i])
  {
    assert order[..i + 1] == order[..i] + [order[i]];
    CopyAllLast(t, g, order[..i], order[i]);
  }

  /** The depth column after one more round, whose copy sits at `c`. */
  lemma LevelStep(rank: map<nat, nat>, c0: nat, grank: map<nat, nat>, front: seq<nat>, x: nat, c: nat)
    requires x in grank && c == c0 + |front|
    ensures Column(rank, c0, Levels(grank), front + [x]) == Column(rank, c0, Levels(grank), front)[c := grank[x] + 1]
  {
    assert (front + [x])[..|front|] == front;
  }

  /** The last round of `CopyAll` keeps the arena invariant. */
  lemma CopyAllStepValid<T>(t: Tables<T>, g: Source<T>, front: seq<nat>, x: nat, rootId: nat, edges: map<nat, seq<nat>>,
                            rank: map<nat, nat>, b: nat, grank: map<nat, nat>)
    requires x in g.nodes && x in grank && grank[x] < b && SourceOk(g)
    requires forall k :: 0 <= k < |front| ==> front[k] in g.nodes
    requires t.count + |front| < UIntMax
    requires TablesOk(CopyAll(t, g, front), rootId, edges, Column(rank, t.count, Levels(grank), front), b)
    ensures forall k :: 0 <= k < |front + [x]| ==> (front + [x])[k] in g.nodes
    ensures TablesOk(CopyAll(t, g, front + [x]), rootId, edges, Column(rank, t.count, Levels(grank), front + [x]), b)
  {
    CopyAllCount(t, g, front);
    var p := CopyAll(t, g, front);
    LevelStep(rank, t.count, grank, front, x, p.count);
    CopyAllLast(t, g, front, x);
    CopyStepValid(p, g, x, rootId, edges, Column(rank, t.count, Levels(grank), front), b, grank[x] + 1);
  }

  /** The arena invariant holds after every round, when the counter does
      not run past its maximum; the depth bound grows by the input's. */
  lemma {:induction false} CopyAllValid<T>(t: Tables<T>, g: Source<T>, xs: seq<nat>, rootId: nat, edges: map<nat, seq<nat>>,
                                           rank: map<nat, nat>, bound: nat, grank: map<nat, nat>, gbound: nat)
    requires forall k :: 0 <= k < |xs| ==> xs[k] in g.nodes && xs[k] in grank && grank[xs[k]] <= gbound
    requires SourceOk(g)
    requires TablesOk(t, rootId, edges, rank, bound)
    requires t.count + |xs| <= UIntMax
    ensures TablesOk(CopyAll(t, g, xs), rootId, edges, Column(rank, t.count, Levels(grank), xs), bound + gbound + 1)
    decreases |xs|
  {
    if xs == [] {
      InvWiden(t.count, rootId, t.nodes, edges, t.termData, t.named, t.reverse, rank, bound, bound + gbound + 1);
    } else {
      CopyAllValid(t, g, xs[..|xs| - 1], rootId, edges, rank, bound, grank, gbound);
      var front, x := xs[..|xs| - 1], xs[|xs| - 1];
      assert xs == front + [x];
      CopyAllStepValid(t, g, front, x, rootId, edges, rank, bound + gbound + 1, grank);
    }
  }

  /** The lookup table of the finished loop, over every node of the input
      in a repetition-free order. */
  lemma CopyAllBlock<T>(t: Tables<T>, g: Source<T>, order: seq<nat>)
    requires |order| == |g.nodes| && (forall x :: x in g.nodes <==> x in order)
    requires forall a, b :: 0 <= a < b < |order| ==> order[a] != order[b]
    requires t.lookup == map[]
    ensures var lookup := CopyAll(t, g, order).lookup;
      && Block(lookup, g.nodes.Keys, t.count, t.count + |order|)
      && Positions(lookup, order, t.count)
  {
    CopyAllLookup(t, g, order);
    LookupBlock(CopyAll(t, g, order).lookup, order, g.nodes.Keys, t.count);
  }

  /** A finished column, read through the lookup table. */
  lemma ColumnVia<V>(m0: map<nat, V>, c0: nat, gm: map<nat, V>, order: seq<nat>, lookup: map<nat, nat>)
    requires Below(m0, c0) && Positions(lookup, order, c0)
    ensures CopiedVia(Column(m0, c0, gm, order), gm, lookup) && SameOn(Column(m0, c0, gm, order), m0, 0, c0)
  {
    ColumnPrefix(m0, c0, gm, order);
    PrefixVia(Column(m0, c0, gm, order), m0, gm, order, c0, lookup);
  }

  /** The names of the finished loop: all of the input's are bound. */
  lemma CopyAllNamed<T>(t: Tables<T>, g: Source<T>, order: seq<nat>)
    requires forall x :: x in g.nodes <==> x in order
    requires SourceOk(g)
    ensures var named := CopyAll(t, g, order).named;
      && named.Keys == t.named.Keys + g.named.Keys
      && (forall n :: n in t.named && n !in g.named ==> named[n] == t.named[n])
  {
    CopyAllNames(t, g, order);
    var r := CopyAll(t, g, order);
    forall n | n in g.named ensures n in r.named {
      assert g.named[n] in g.nodes;
    }
  }

  /** The finished node loop, over every node of the input in a repetition-
      free order, copies exactly what `NodesCopied` describes. */
  lemma CopyAllDone<T>(t: Tables<T>, g: Source<T>, order: seq<nat>, rank: map<nat, nat>, grank: map<nat, nat>)
    requires |order| == |g.nodes| && (forall x :: x in g.nodes <==> x in order)
    requires forall a, b :: 0 <= a < b < |order| ==> order[a] != order[b]
    requires forall x :: x in g.nodes ==> x in grank
    requires SourceOk(g)
    requires Below(t.nodes, t.count) && Below(t.termData, t.count) && Below(t.reverse, t.count) && Below(rank, t.count)
    requires t.lookup == map[]
    ensures var r := CopyAll(t, g, order);
      NodesCopied(t.count, t.count + |order|, r.nodes, r.termData, r.reverse, r.named, Column(rank, t.count, Levels(grank), order),
                  t.nodes, t.termData, t.reverse, t.named, rank,
                  g.nodes, g.termData, g.reverse, g.named, grank, r.lookup)
  {
    var r := CopyAll(t, g, order);
    CopyAllColumns(t, g, order);
    CopyAllBlock(t, g, order);
    ColumnVia(t.nodes, t.count, g.nodes, order, r.lookup);
    ColumnVia(t.termData, t.count, g.termData, order, r.lookup);
    ColumnVia(t.reverse, t.count, NamesOf(g.nodes, g.reverse), order, r.lookup);
    ColumnVia(rank, t.count, Levels(grank), order, r.lookup);
    CopyAllNamed(t, g, order);
  }

  /** What the node loop needs of the arena it copies from and of the one it
      copies into. */
  lemma InvSource<T>(countId: nat, rootId: nat, nodes: map<nat, Formula>, edges: map<nat, seq<nat>>, termData: map<nat, T>,
                     named: map<string, nat>, reverse: map<nat, string>, rank: map<nat, nat>, bound: nat)
    requires Inv(countId, rootId, nodes, edges, termData, named, reverse, rank, bound)
    ensures SourceOk(Source(nodes, termData, named, reverse))
    ensures forall x :: x in nodes ==> x in rank && rank[x] <= bound
    ensures Below(nodes, countId) && Below(termData, countId) && Below(reverse, countId) && Below(rank, countId)
  {
  }

  /** The finished node loop as a whole: `r` and `rank'` are the loop's
      tables and depths once every node of the input has been copied. */
  lemma CopiedInto<T>(t: Tables<T>, g: Source<T>, order: seq<nat>, r: Tables<T>, rootId: nat, edges: map<nat, seq<nat>>,
                      rank: map<nat, nat>, rank': map<nat, nat>, bound: nat, grank: map<nat, nat>, gbound: nat)
    requires |order| == |g.nodes| && (forall x :: x in g.nodes <==> x in order)
    requires forall a, b :: 0 <= a < b < |order| ==> order[a] != order[b]
    requires forall x :: x in g.nodes ==> x in grank && grank[x] <= gbound
    requires SourceOk(g)
    requires TablesOk(t, rootId, edges, rank, bound)
    requires Below(t.nodes, t.count) && Below(t.termData, t.count) && Below(t.reverse, t.count) && Below(rank, t.count)
    requires t.count + |order| <= UIntMax && t.lookup == map[]
    requires r == CopyAll(t, g, order) && rank' == Column(rank, t.count, Levels(grank), order)
    ensures r.count == t.count + |order|
    ensures TablesOk(r, rootId, edges, rank', bound + gbound + 1)
    ensures NodesCopied(t.count, r.count, r.nodes, r.termData, r.reverse, r.named, rank',
                        t.nodes, t.termData, t.reverse, t.named, rank,
                        g.nodes, g.termData, g.reverse, g.named, grank, r.lookup)
  {
    CopyAllCount(t, g, order);
    CopyAllValid(t, g, order, rootId, edges, rank, bound, grank, gbound);
    CopyAllDone(t, g, order, rank, grank);
  }
}
