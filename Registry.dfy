/**
 * The stage dispatch registry as the builders use it: `Registry::getBuilder(key)`
 * looks up a builder by its key ("stage.check" or "stage." + a stage's
 * name) and applies it to a definition. The registry's contents are a
 * parameter: a map from keys to builders, each of which may fail.
 */
module Registry {
  import opened Wrappers
  import opened JsonValues

  /** A builder turns a definition into a fragment `F`, or fails with a reason. */
  type Builders<F> = map<string, Json -> Result<F, string>>

  datatype BuildError =
    | MissingBuilder(key: string)                 // no builder registered under the key
    | BuilderFailed(key: string, reason: string)  // the builder rejected the definition
    | NotAnObject(what: string, typeName: string) // an object was expected
    | MissingCheck(asset: string)                 // the asset definition has no "check"
    | NotAnArray(what: string, typeName: string)  // an array was expected
    | NotAString(what: string, typeName: string)  // a string was expected

  const CheckKey: string := "stage.check"

  /** The registry key of a stage named `name`: the prefix "stage."
      followed by the name, which can be read back from the key. */
  function StageKey(name: string): (r: string)
    ensures |r| == |name| + 6 && r[..6] == "stage." && r[6..] == name
  {
    "stage." + name
  }

  /** Distinct stage names have distinct keys, and only the stage named
      "check" shares its key with the check. */
  lemma StageKeyInjective(a: string, b: string)
    ensures StageKey(a) == StageKey(b) <==> a == b
    ensures StageKey(a) == CheckKey <==> a == "check"
  {
    if StageKey(a) == StageKey(b) {
      assert a == StageKey(a)[6..] == StageKey(b)[6..] == b;
    }
    if StageKey(a) == CheckKey {
      assert a == CheckKey[6..] == "check";
    }
  }

  /** `Registry::getBuilder(key)(definition)`: a missing key fails with
      `MissingBuilder`; otherwise the builder's fragment, or its reason
      wrapped in `BuilderFailed`. Every failure names the key. */
  function Dispatch<F>(registry: Builders<F>, key: string, definition: Json): (r: Result<F, BuildError>)
    ensures key !in registry ==> r == Failure(MissingBuilder(key))
    ensures key in registry ==> (r.Success? <==> registry[key](definition).Success?)
    ensures key in registry && r.Success? ==> r.value == registry[key](definition).value
    ensures key in registry && r.Failure? ==> r.error == BuilderFailed(key, registry[key](definition).error)
    ensures r.Failure? ==> (r.error.MissingBuilder? || r.error.BuilderFailed?) && r.error.key == key
  {
    if key !in registry then Failure(MissingBuilder(key))
    else match registry[key](definition)
      case Success(f) => Success(f)
      case Failure(reason) => Failure(BuilderFailed(key, reason))
  }

  /** The stage at position `k` of `members`, built by "stage." + its key. */
  function StageAt<F>(registry: Builders<F>, members: seq<(string, Json)>, k: nat): Result<F, BuildError>
    requires k < |members|
  {
    Dispatch(registry, StageKey(members[k].0), members[k].1)
  }

  /** One stage per member, in member order; the first member whose stage
      fails fails the whole list. */
  function Stages<F>(registry: Builders<F>, members: seq<(string, Json)>): (r: Result<seq<F>, BuildError>)
    ensures r.Success? ==> |r.value| == |members|
    ensures r.Failure? ==>
      && (r.error.MissingBuilder? || r.error.BuilderFailed?)
      && exists k :: 0 <= k < |members| && r.error.key == StageKey(members[k].0)
  {
    if members == [] then Success([])
    else match Stages(registry, members[..|members| - 1])
      case Failure(e) =>
        var k :| 0 <= k < |members| - 1 && e.key == StageKey(members[..|members| - 1][k].0);
        assert members[..|members| - 1][k] == members[k];
        Failure(e)
      case Success(done) =>
        match StageAt(registry, members, |members| - 1)
        case Failure(e) => Failure(e)
        case Success(f) => Success(done + [f])
  }

  /** The stages built: exactly one per member, built by the member's own
      key from the member's own definition, in order. */
  lemma {:induction false} StagesBuilt<F>(registry: Builders<F>, members: seq<(string, Json)>)
    requires Stages(registry, members).Success?
    ensures var stages := Stages(registry, members).value;
      && |stages| == |members|
      && forall k :: 0 <= k < |members| ==> StageAt(registry, members, k) == Success(stages[k])
  {
    if members != [] {
      var init := members[..|members| - 1];
      StagesBuilt(registry, init);
      forall k | 0 <= k < |init| ensures StageAt(registry, members, k) == StageAt(registry, init, k) {
        assert members[k] == init[k];
      }
    }
  }

  /** The list fails exactly when some member's stage fails, and then with
      the error of the first such member. */
  lemma {:induction false} StagesFail<F>(registry: Builders<F>, members: seq<(string, Json)>)
    ensures Stages(registry, members).Failure? <==> exists k :: 0 <= k < |members| && StageAt(registry, members, k).Failure?
    ensures Stages(registry, members).Failure? ==>
      exists k :: 0 <= k < |members| && StageAt(registry, members, k) == Failure(Stages(registry, members).error)
        && forall j :: 0 <= j < k ==> StageAt(registry, members, j).Success?
  {
    if members != [] {
      var init := members[..|members| - 1];
      StagesFail(registry, init);
      forall k | 0 <= k < |init| ensures StageAt(registry, members, k) == StageAt(registry, init, k) {
        assert members[k] == init[k];
      }
      if Stages(registry, init).Success? {
        StagesBuilt(registry, init);
      }
    }
  }

  /** The loop that builds the stages of an object's members one after the
      other (the `std::transform` of `Asset`, the stage loop of
      `orGraphBuilder`). */
  method BuildStages<F>(registry: Builders<F>, members: seq<(string, Json)>) returns (r: Result<seq<F>, BuildError>)
    ensures r == Stages(registry, members)
  {
    var stages: seq<F> := [];
    var i := 0;
    while i < |members|
      invariant i <= |members| && Stages(registry, members[..i]) == Success(stages)
    {
      assert members[..i + 1][..i] == members[..i];
      var built := Dispatch(registry, StageKey(members[i].0), members[i].1);
      if built.Failure? {
        assert StageAt(registry, members[..i + 1], i) == built;
        StagesPrefixFail(registry, members, i + 1);
        return Failure(built.error);
      }
      assert StageAt(registry, members[..i + 1], i) == built;
      stages := stages + [built.value];
      i := i + 1;
    }
    assert members[..i] == members;
    r := Success(stages);
  }

  /** A failed prefix fails the whole list with the same error. */
  lemma {:induction false} StagesPrefixFail<F>(registry: Builders<F>, members: seq<(string, Json)>, n: nat)
    requires n <= |members| && Stages(registry, members[..n]).Failure?
    ensures Stages(registry, members) == Stages(registry, members[..n])
    decreases |members| - n
  {
    if n < |members| {
      assert members[..n + 1][..n] == members[..n];
      StagesPrefixFail(registry, members, n + 1);
    } else {
      assert members[..n] == members;
    }
  }
}
