/**
 * `Asset`: one compiled unit of an environment, with its name, its check
 * and its stages built through the registry, and its type.
 */
module Assets {
  import opened Wrappers
  import opened JsonValues
  import opened Registry

  /** `Asset::Type`. */
  datatype AssetType = ChainType | AndType | OrType | BroadcastType

  /** The fields of an asset, read back by its accessors `name()`,
      `check()`, `stages()` and `type()`. */
  datatype Asset<F> = Asset(name: string, check: F, stages: seq<F>, kind: AssetType)

  /** The constructor. The check is built first, by the "stage.check"
      builder, so a check that fails to build is reported even when the
      stages are malformed; then the stages must be an object, and each
      member becomes one stage, built by "stage." + its key, in member order. */
  method NewAsset<F>(registry: Builders<F>, name: string, checkDefinition: Json, stagesDefinition: Json, kind: AssetType)
    returns (r: Result<Asset<F>, BuildError>)
    ensures var check := Dispatch(registry, CheckKey, checkDefinition);
      && (check.Failure? ==> r == Failure(check.error))
      && (check.Success? && !stagesDefinition.Object? ==>
            r == Failure(NotAnObject("asset definition", TypeName(stagesDefinition))))
      && (check.Success? && stagesDefinition.Object? && Stages(registry, stagesDefinition.members).Failure? ==>
            r == Failure(Stages(registry, stagesDefinition.members).error))
      && (r.Success? <==>
            check.Success? && stagesDefinition.Object? && Stages(registry, stagesDefinition.members).Success?)
      && (r.Success? ==> r.value.name == name && r.value.kind == kind && r.value.check == check.value)
    ensures r.Success? ==>
      var members := stagesDefinition.members;
      && |r.value.stages| == |members|
      && forall k :: 0 <= k < |members| ==> StageAt(registry, members, k) == Success(r.value.stages[k])
  {
    var check := Dispatch(registry, CheckKey, checkDefinition);
    if check.Failure? {
      return Failure(check.error);
    }
    if !stagesDefinition.Object? {
      return Failure(NotAnObject("asset definition", TypeName(stagesDefinition)));
    }
    var stages := BuildStages(registry, stagesDefinition.members);
    if stages.Failure? {
      return Failure(stages.error);
    }
    StagesBuilt(registry, stagesDefinition.members);
    r := Success(Asset(name, check.value, stages.value, kind));
  }
}
