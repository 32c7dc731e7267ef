/**
 * Formulas as values: the tree a formula graph unfolds to from its root.
 * The builders of assets and of asset graphs (`And::create`,
 * `Or::create`, `Implication::create`, `Expression::compose`) assemble
 * fragments into such trees; the id-indexed arena that stores them is
 * modelled in `Expressions`.
 */
module Formulas {
  import opened Arena

  datatype Expr<P> =
    | Leaf(payload: P)
    | Op(kind: Formula, name: string, operands: seq<Expr<P>>)

  /** The payloads of the leaves, left to right: what a depth-first leaf
      walk that keeps operand order yields. */
  function Leaves<P>(e: Expr<P>): seq<P>
  {
    match e
    case Leaf(p) => [p]
    case Op(_, _, operands) => LeavesOf(operands)
  }

  function LeavesOf<P>(es: seq<Expr<P>>): seq<P>
  {
    if es == [] then [] else LeavesOf(es[..|es| - 1]) + Leaves(es[|es| - 1])
  }

  /** The leaves of a concatenation of operand lists. */
  lemma {:induction false} LeavesOfAppend<P>(xs: seq<Expr<P>>, ys: seq<Expr<P>>)
    ensures LeavesOf(xs + ys) == LeavesOf(xs) + LeavesOf(ys)
    decreases |ys|
  {
    if ys == [] {
      assert xs + ys == xs;
    } else {
      var init := ys[..|ys| - 1];
      assert (xs + ys)[..|xs + ys| - 1] == xs + init;
      LeavesOfAppend(xs, init);
    }
  }

  /** The leaves of a two-element operand list. */
  lemma LeavesOfPair<P>(a: Expr<P>, b: Expr<P>)
    ensures LeavesOf([a, b]) == Leaves(a) + Leaves(b)
  {
    assert [a, b][..1] == [a] && [a, b][1] == b;
    assert [a][..0] == [] && [a][0] == a;
    assert LeavesOf([a]) == LeavesOf([]) + Leaves(a);
  }

  /** No operation node has a Term kind. */
  predicate WellFormed<P>(e: Expr<P>)
  {
    match e
    case Leaf(_) => true
    case Op(kind, _, operands) =>
      && kind != Term
      && (kind == Implication ==> |operands| <= 2)
      && forall k :: 0 <= k < |operands| ==> WellFormed(operands[k])
  }
}
