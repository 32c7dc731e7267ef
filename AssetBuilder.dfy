/**
 * `assetBuilder`: the formula of one asset, given the formulas of its
 * children in the asset graph. The asset's check implies a consequence
 * that requires all of the asset's stages and then one of its children:
 *
 *   Implication(name, [check, And("consequence", [And("stages", stages), Or("children", children)])])
 */
module AssetBuilders {
  import opened Wrappers
  import opened Arena
  import opened Formulas
  import Assets

  /** The formula of `asset` over the formulas of its children: an
      Implication named after the asset whose operands are the check and a
      consequence; the consequence is an And named "consequence" with
      exactly two operands, an And named "stages" holding the stages in
      order and an Or named "children" holding the children in order (with
      no operands when there are no children). `Unpack` reads every part
      back. */
  function AssetExpr<P>(asset: Assets.Asset<Expr<P>>, children: seq<Expr<P>>): (r: Expr<P>)
    ensures Unpack(r) == Some(Parts(asset.name, asset.check, asset.stages, children))
  {
    var stages := Op(And, "stages", asset.stages);
    var consequence := Op(And, "consequence", [stages]);
    assert consequence.operands + [Op(Or, "children", children)] == [stages, Op(Or, "children", children)];
    Op(Implication, asset.name, [asset.check, Op(And, "consequence", consequence.operands + [Op(Or, "children", children)])])
  }

  /** The parts an asset formula is made of. */
  datatype Parts<P> = Parts(name: string, check: Expr<P>, stages: seq<Expr<P>>, children: seq<Expr<P>>)

  /** Reads the parts back from a formula of the shape `assetBuilder`
      builds; `None` for any other formula. */
  function Unpack<P>(e: Expr<P>): Option<Parts<P>>
  {
    if e.Op? && e.kind == Implication && |e.operands| == 2 then
      var consequence := e.operands[1];
      if consequence.Op? && consequence.kind == And && consequence.name == "consequence" && |consequence.operands| == 2 then
        var stages, children := consequence.operands[0], consequence.operands[1];
        if stages.Op? && stages.kind == And && stages.name == "stages" && children.Op? && children.kind == Or && children.name == "children"
        then Some(Parts(e.name, e.operands[0], stages.operands, children.operands))
        else None
      else None
    else None
  }

  /** Conversely to `AssetExpr`'s contract, every formula of that shape is
      the formula of the asset its parts describe, whatever the asset's
      type. */
  lemma BuiltUnpacked<P>(e: Expr<P>, kind: Assets.AssetType)
    requires Unpack(e).Some?
    ensures var p := Unpack(e).value;
      AssetExpr(Assets.Asset(p.name, p.check, p.stages, kind), p.children) == e
  {
    var p := Unpack(e).value;
    var consequence := e.operands[1];
    assert consequence.operands == [Op(And, "stages", p.stages)] + [Op(Or, "children", p.children)];
    assert e.operands == [p.check, consequence];
  }

  /** The leaves of an asset formula: the check's, then the stages', then
      the children's, each in order. */
  lemma {:induction false} AssetLeaves<P>(asset: Assets.Asset<Expr<P>>, children: seq<Expr<P>>)
    ensures Leaves(AssetExpr(asset, children)) == Leaves(asset.check) + LeavesOf(asset.stages) + LeavesOf(children)
  {
    var stages, alternatives := Op(And, "stages", asset.stages), Op(Or, "children", children);
    var consequence := Op(And, "consequence", [stages, alternatives]);
    assert [stages] + [alternatives] == [stages, alternatives];
    assert AssetExpr(asset, children) == Op(Implication, asset.name, [asset.check, consequence]);
    LeavesOfPair(stages, alternatives);
    LeavesOfPair(asset.check, consequence);
  }

  /** Built from well-formed parts, the formula is well formed: its
      Implication has exactly the two operands it may have. */
  lemma AssetWellFormed<P>(asset: Assets.Asset<Expr<P>>, children: seq<Expr<P>>)
    requires WellFormed(asset.check)
    requires forall k :: 0 <= k < |asset.stages| ==> WellFormed(asset.stages[k])
    requires forall k :: 0 <= k < |children| ==> WellFormed(children[k])
    ensures WellFormed(AssetExpr(asset, children))
  {
    var stages, alternatives := Op(And, "stages", asset.stages), Op(Or, "children", children);
    assert WellFormed(stages) && WellFormed(alternatives);
    var consequence := Op(And, "consequence", [stages, alternatives]);
    assert [stages] + [alternatives] == [stages, alternatives];
    assert WellFormed(consequence);
  }
}
