/**
 * The loop of `Expression::compose` over its input graphs, on values: what
 * the result holds once the first inputs have been copied under the new
 * root, and why one more round keeps it.
 */
module Composing {
  import opened Traversals
  import opened Arena

  /** The tables of one input graph, as `compose` reads them. */
  datatype Shape<T> = Shape(rootId: nat, nodes: map<nat, Formula>, edges: map<nat, seq<nat>>, termData: map<nat, T>,
                            named: map<string, nat>, reverse: map<nat, string>)

  /** The number of nodes of the graphs `ins` together. */
  function NodeCount<T>(ins: seq<Shape<T>>): nat
  {
    if ins == [] then 0 else NodeCount(ins[..|ins| - 1]) + |ins[|ins| - 1].nodes|
  }

  /** The names bound in any of the graphs `ins`. */
  function NameKeys<T>(ins: seq<Shape<T>>): set<string>
  {
    if ins == [] then {} else NameKeys(ins[..|ins| - 1]) + ins[|ins| - 1].named.Keys
  }

  /** The totals over `ins + [g]` extend those over `ins`. */
  lemma TotalsSnoc<T>(ins: seq<Shape<T>>, g: Shape<T>)
    ensures NodeCount(ins + [g]) == NodeCount(ins) + |g.nodes|
    ensures NameKeys(ins + [g]) == NameKeys(ins) + g.named.Keys
  {
    assert (ins + [g])[..|ins|] == ins;
  }

  /** The node count of a prefix is at most the whole count. */
  lemma {:induction false} CountPrefix<T>(ins: seq<Shape<T>>, i: nat)
    requires i <= |ins|
    ensures NodeCount(ins[..i]) <= NodeCount(ins)
    decreases |ins| - i
  {
    if i < |ins| {
      assert ins[..i + 1] == ins[..i] + [ins[i]];
      TotalsSnoc(ins[..i], ins[i]);
      CountPrefix(ins, i + 1);
    } else {
      assert ins[..i] == ins;
    }
  }

  /** A round that runs out of identifiers, or gives an Implication a
      third child, means `compose` over all of `ins` cannot succeed. */
  lemma Refused<T>(ins: seq<Shape<T>>, i: nat, start: nat, count: nat, op: Formula)
    requires i < |ins| && count == start + 1 + NodeCount(ins[..i])
    requires count + |ins[i].nodes| > UIntMax || (op == Implication && i >= 2)
    ensures !(start + 1 + NodeCount(ins) <= UIntMax && !(op == Implication && |ins| > 2))
  {
    assert ins[..i + 1] == ins[..i] + [ins[i]];
    TotalsSnoc(ins[..i], ins[i]);
    CountPrefix(ins, i + 1);
  }

  /** Taking one more element of `ins`. */
  lemma PrefixSnoc<T>(ins: seq<Shape<T>>, i: nat)
    requires i < |ins|
    ensures ins[..i + 1] == ins[..i] + [ins[i]]
  {
  }

  /** Input `g` is copied, through `lookup`, into `[lo, hi)`, and its root's
      copy is `child`. */
  ghost predicate InputCopied<T>(lo: nat, hi: nat, nodes: map<nat, Formula>, edges: map<nat, seq<nat>>, termData: map<nat, T>,
                                 reverse: map<nat, string>, g: Shape<T>, lookup: map<nat, nat>, child: nat)
  {
    && g.rootId in lookup && child == lookup[g.rootId]
    && CopyOf(lo, hi, nodes, edges, termData, reverse, g.nodes, g.edges, g.termData, g.reverse, lookup)
  }

  /** The result of `compose` after the rounds for `ins`: the counter has
      advanced by one identifier per copied node past the root `start`,
      the names bound are the root's and the inputs', the root has one
      child per input, and input `j` is copied into `[bounds[j],
      bounds[j + 1])` through `lookups[j]`, its root's copy being the
      root's `j`-th child. */
  ghost predicate Composed<T>(start: nat, name: string, count: nat, nodes: map<nat, Formula>, edges: map<nat, seq<nat>>,
                              termData: map<nat, T>, named: map<string, nat>, reverse: map<nat, string>,
                              ins: seq<Shape<T>>, lookups: seq<map<nat, nat>>, bounds: seq<nat>)
  {
    && count == start + 1 + NodeCount(ins)
    && named.Keys == (if name == "" then {} else {name}) + NameKeys(ins)
    && |lookups| == |ins| && |bounds| == |ins| + 1 && bounds[0] == start + 1 && bounds[|ins|] == count
    && (forall j :: 0 <= j < |bounds| ==> start + 1 <= bounds[j] <= count)
    && InputsCopied(start, nodes, edges, termData, reverse, ins, lookups, bounds)
  }

  /** Input `j` is copied into `[bounds[j], bounds[j + 1])` through
      `lookups[j]`, its root's copy being the `j`-th child of `start`. */
  ghost predicate InputsCopied<T>(start: nat, nodes: map<nat, Formula>, edges: map<nat, seq<nat>>, termData: map<nat, T>,
                                  reverse: map<nat, string>, ins: seq<Shape<T>>, lookups: seq<map<nat, nat>>, bounds: seq<nat>)
  {
    && |lookups| == |ins| && |bounds| == |ins| + 1 && |Children(edges, start)| == |ins|
    && forall j :: 0 <= j < |ins| ==>
         InputCopied(bounds[j], bounds[j + 1], nodes, edges, termData, reverse, ins[j], lookups[j], Children(edges, start)[j])
  }

  /** Before the first round only the root is there. */
  lemma ComposedStart<T>(start: nat, name: string, nodes: map<nat, Formula>, edges: map<nat, seq<nat>>,
                         termData: map<nat, T>, named: map<string, nat>, reverse: map<nat, string>)
    requires named.Keys == (if name == "" then {} else {name}) && Children(edges, start) == []
    ensures Composed(start, name, start + 1, nodes, edges, termData, named, reverse, [], [], [start + 1])
  {
  }

  /** A copy made in an earlier round survives a later one, which touches
      nothing below its own first identifier but the root's list. */
  lemma EarlierKept<T>(lo: nat, hi: nat, nodes: map<nat, Formula>, edges: map<nat, seq<nat>>, termData: map<nat, T>,
                       reverse: map<nat, string>, gnodes: map<nat, Formula>, gedges: map<nat, seq<nat>>,
                       gdata: map<nat, T>, greverse: map<nat, string>, lookup: map<nat, nat>,
                       nodes': map<nat, Formula>, edges': map<nat, seq<nat>>, termData': map<nat, T>, reverse': map<nat, string>,
                       rootId: nat, list: seq<nat>, lo': nat)
    requires CopyOf(lo, hi, nodes, edges, termData, reverse, gnodes, gedges, gdata, greverse, lookup)
    requires Untouched(lo', nodes', edges', termData', reverse', nodes, edges[rootId := list], termData, reverse)
    requires rootId < lo && hi <= lo'
    ensures CopyOf(lo, hi, nodes', edges', termData', reverse', gnodes, gedges, gdata, greverse, lookup)
  {
    assert SameOn(edges', edges, lo, hi) by {
      forall id: nat | lo <= id < hi ensures (id in edges' <==> id in edges) && (id in edges' ==> edges'[id] == edges[id]) {
        assert id in edges[rootId := list] <==> id in edges;
      }
    }
    CopyOfKept(lo, hi, nodes, edges, termData, reverse, gnodes, gedges, gdata, greverse, lookup,
               nodes', edges', termData', reverse', lo, hi);
  }

  /** One more round, for an earlier input: its copy is kept. */
  lemma EarlierInput<T>(lo: nat, hi: nat, nodes: map<nat, Formula>, edges: map<nat, seq<nat>>, termData: map<nat, T>,
                        reverse: map<nat, string>, g: Shape<T>, lookup: map<nat, nat>, child: nat,
                        nodes': map<nat, Formula>, edges': map<nat, seq<nat>>, termData': map<nat, T>, reverse': map<nat, string>,
                        start: nat, list: seq<nat>, count: nat)
    requires InputCopied(lo, hi, nodes, edges, termData, reverse, g, lookup, child)
    requires Untouched(count, nodes', edges', termData', reverse', nodes, edges[start := list], termData, reverse)
    requires start < lo && hi <= count
    ensures InputCopied(lo, hi, nodes', edges', termData', reverse', g, lookup, child)
  {
    EarlierKept(lo, hi, nodes, edges, termData, reverse, g.nodes, g.edges, g.termData, g.reverse, lookup,
                nodes', edges', termData', reverse', start, list, count);
  }

  /** The input of the current round is copied, its root's copy being `child`. */
  lemma NewInput<T>(lo: nat, hi: nat, nodes: map<nat, Formula>, edges: map<nat, seq<nat>>, termData: map<nat, T>,
                    reverse: map<nat, string>, g: Shape<T>, lookup: map<nat, nat>, child: nat)
    requires CopyOf(lo, hi, nodes, edges, termData, reverse, g.nodes, g.edges, g.termData, g.reverse, lookup)
    requires g.rootId in lookup && child == lookup[g.rootId]
    ensures InputCopied(lo, hi, nodes, edges, termData, reverse, g, lookup, child)
  {
  }

  /** Bounds between `lo` and `count` stay between `lo` and `count'`
      when `count'` is appended. */
  lemma BoundsSnoc(bounds: seq<nat>, lo: nat, count: nat, count': nat)
    requires forall k :: 0 <= k < |bounds| ==> lo <= bounds[k] <= count
    requires count <= count' && lo <= count'
    ensures forall k :: 0 <= k < |bounds| + 1 ==> lo <= (bounds + [count'])[k] <= count'
  {
  }

  /** One more round, for input `j` of `ins + [g]`. */
  lemma InputNext<T>(j: nat, start: nat, count: nat, nodes: map<nat, Formula>, edges: map<nat, seq<nat>>,
                     termData: map<nat, T>, reverse: map<nat, string>,
                     ins: seq<Shape<T>>, lookups: seq<map<nat, nat>>, bounds: seq<nat>,
                     g: Shape<T>, lookup: map<nat, nat>, count': nat, nodes': map<nat, Formula>, edges': map<nat, seq<nat>>,
                     termData': map<nat, T>, reverse': map<nat, string>, list: seq<nat>)
    requires InputsCopied(start, nodes, edges, termData, reverse, ins, lookups, bounds)
    requires |bounds| == |ins| + 1 && bounds[0] == start + 1 && bounds[|ins|] == count
    requires forall k :: 0 <= k < |bounds| ==> start + 1 <= bounds[k] <= count
    requires g.rootId in lookup && list == Children(edges, start) + [lookup[g.rootId]]
    requires CopyOf(count, count', nodes', edges', termData', reverse', g.nodes, g.edges, g.termData, g.reverse, lookup)
    requires Untouched(count, nodes', edges', termData', reverse', nodes, edges[start := list], termData, reverse)
    requires j <= |ins|
    ensures InputCopied((bounds + [count'])[j], (bounds + [count'])[j + 1], nodes', edges', termData', reverse',
                        (ins + [g])[j], (lookups + [lookup])[j], list[j])
  {
    if j < |ins| {
      var child := Children(edges, start)[j];
      assert InputCopied(bounds[j], bounds[j + 1], nodes, edges, termData, reverse, ins[j], lookups[j], child);
      EarlierInput(bounds[j], bounds[j + 1], nodes, edges, termData, reverse, ins[j], lookups[j], child,
                   nodes', edges', termData', reverse', start, list, count);
    } else {
      NewInput(count, count', nodes', edges', termData', reverse', g, lookup, list[j]);
    }
  }

  /** One more round, for every input of `ins + [g]`. */
  lemma InputsNext<T>(start: nat, count: nat, nodes: map<nat, Formula>, edges: map<nat, seq<nat>>,
                      termData: map<nat, T>, reverse: map<nat, string>,
                      ins: seq<Shape<T>>, lookups: seq<map<nat, nat>>, bounds: seq<nat>,
                      g: Shape<T>, lookup: map<nat, nat>, count': nat, nodes': map<nat, Formula>, edges': map<nat, seq<nat>>,
                      termData': map<nat, T>, reverse': map<nat, string>, list: seq<nat>)
    requires InputsCopied(start, nodes, edges, termData, reverse, ins, lookups, bounds)
    requires |bounds| == |ins| + 1 && bounds[0] == start + 1 && bounds[|ins|] == count
    requires forall k :: 0 <= k < |bounds| ==> start + 1 <= bounds[k] <= count
    requires g.rootId in lookup && list == Children(edges, start) + [lookup[g.rootId]]
    requires CopyOf(count, count', nodes', edges', termData', reverse', g.nodes, g.edges, g.termData, g.reverse, lookup)
    requires Untouched(count, nodes', edges', termData', reverse', nodes, edges[start := list], termData, reverse)
    ensures InputsCopied(start, nodes', edges', termData', reverse', ins + [g], lookups + [lookup], bounds + [count'])
  {
    assert Children(edges', start) == list by {
      assert start in edges[start := list] && start < count;
    }
    forall j | 0 <= j < |ins| + 1
      ensures InputCopied((bounds + [count'])[j], (bounds + [count'])[j + 1], nodes', edges', termData', reverse',
                          (ins + [g])[j], (lookups + [lookup])[j], list[j])
    {
      InputNext(j, start, count, nodes, edges, termData, reverse, ins, lookups, bounds,
                g, lookup, count', nodes', edges', termData', reverse', list);
    }
  }

  /** One more round: input `g` copied into `[count, count')`, the inputs
      so far and `g` copied as `InputsNext` concludes, and the names of `g`
      added. */
  lemma ComposedNext<T>(start: nat, name: string, count: nat, nodes: map<nat, Formula>, edges: map<nat, seq<nat>>,
                        termData: map<nat, T>, named: map<string, nat>, reverse: map<nat, string>,
                        ins: seq<Shape<T>>, lookups: seq<map<nat, nat>>, bounds: seq<nat>,
                        g: Shape<T>, lookup: map<nat, nat>, count': nat, nodes': map<nat, Formula>, edges': map<nat, seq<nat>>,
                        termData': map<nat, T>, named': map<string, nat>, reverse': map<nat, string>)
    requires Composed(start, name, count, nodes, edges, termData, named, reverse, ins, lookups, bounds)
    requires count' == count + |g.nodes|
    requires InputsCopied(start, nodes', edges', termData', reverse', ins + [g], lookups + [lookup], bounds + [count'])
    requires named'.Keys == named.Keys + g.named.Keys
    ensures Composed(start, name, count', nodes', edges', termData', named', reverse', ins + [g], lookups + [lookup], bounds + [count'])
  {
    TotalsSnoc(ins, g);
    BoundsSnoc(bounds, start + 1, count, count');
  }
}
