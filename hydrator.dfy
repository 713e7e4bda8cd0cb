/**
 * ObjectConstructorFromArrayHydrator: builds objects of a class by matching
 * the names of its constructor parameters against the keys of raw data.
 *
 * Reflection is abstracted: a class is described by the declared names of
 * its constructor parameters (None when the class has no constructor,
 * declared or inherited, so that getConstructor() returns null),
 * and the constructed object by the way it is built (Outcome).
 */
module Hydrator {
  import opened RawData
  import opened ParameterKeys

  /** What reflection reports about the target class. */
  datatype ClassInfo = ClassInfo(constructorParameters: Option<seq<string>>)

  /** How the object is constructed: positionally with the resolved
      arguments (newInstanceArgs), or with no arguments (new $className()). */
  datatype Outcome = WithArgs(args: seq<Value>) | Default

  /** getConstructor() returned null and a method was called on it. */
  datatype Error = NoConstructor

  datatype Result<T> = Ok(value: T) | Err(error: Error)

  /** The value found for one parameter: the first of its candidate keys
      that isset() accepts. */
  function Resolve(name: string, raw: Record, underscored: Underscorer): (r: Option<Value>)
  {
    Lookup(PossibleParameterKeys(name, underscored), raw)
  }

  /** The call arguments collected for a parameter list: each parameter
      contributes its resolved value, or nothing when it has none. */
  function ResolvedArgs(parameters: seq<string>, raw: Record, underscored: Underscorer): (r: seq<Value>)
  {
    if parameters == [] then []
    else
      var last := parameters[|parameters| - 1];
      ResolvedArgs(parameters[..|parameters| - 1], raw, underscored)
        + match Resolve(last, raw, underscored) {
            case Some(v) => [v]
            case None => []
          }
  }

  /** The result of hydrating one record. */
  function Hydrated(cls: ClassInfo, raw: Record, underscored: Underscorer): (r: Result<Outcome>)
  {
    match cls.constructorParameters
    case None => Err(NoConstructor)
    case Some(parameters) =>
      var args := ResolvedArgs(parameters, raw, underscored);
      if |args| != |parameters| then Ok(Default) else Ok(WithArgs(args))
  }

  /** hydrate(): for each parameter in declared order, try its candidate keys
      in order and append the first value isset() accepts; construct with
      those arguments when every parameter contributed one, otherwise with
      none. */
  method Hydrate(cls: ClassInfo, raw: Record, underscored: Underscorer) returns (r: Result<Outcome>)
    ensures r == Hydrated(cls, raw, underscored)
    ensures r.Err? <==> cls.constructorParameters.None?
    ensures r.Ok? && r.value.WithArgs? ==> |r.value.args| == |cls.constructorParameters.value|
  {
    if cls.constructorParameters.None? {
      return Err(NoConstructor);
    }
    var constructorParameters := cls.constructorParameters.value;
    var callParameters: seq<Value> := [];

    for i := 0 to |constructorParameters|
      invariant callParameters == ResolvedArgs(constructorParameters[..i], raw, underscored)
    {
      var parameter := constructorParameters[i];
      var possibleKeys := PossibleParameterKeys(parameter, underscored);
      ghost var before := callParameters;
      for k := 0 to |possibleKeys|
        invariant forall j :: 0 <= j < k ==> !Isset(raw, possibleKeys[j])
        invariant callParameters == before
      {
        if Isset(raw, possibleKeys[k]) {
          callParameters := callParameters + [raw[possibleKeys[k]]];
          LookupFirstMatch(possibleKeys, raw, k);
          break;
        }
      }
      assert constructorParameters[..i + 1][..i] == constructorParameters[..i];
    }
    assert constructorParameters[..|constructorParameters|] == constructorParameters;

    if |callParameters| != |constructorParameters| {
      return Ok(Default);
    }
    return Ok(WithArgs(callParameters));
  }

  /** hydrateCollection(): hydrate each record in order. The first failure
      aborts the whole collection; an empty collection never reflects on
      the class and so never fails. */
  method HydrateCollection(cls: ClassInfo, rawDataCollection: seq<Record>, underscored: Underscorer)
    returns (r: Result<seq<Outcome>>)
    ensures r.Err? <==> cls.constructorParameters.None? && |rawDataCollection| > 0
    ensures r.Err? ==> r.error == NoConstructor
    ensures r.Ok? ==> |r.value| == |rawDataCollection|
    ensures r.Ok? ==> forall i :: 0 <= i < |rawDataCollection| ==>
                        Ok(r.value[i]) == Hydrated(cls, rawDataCollection[i], underscored)
  {
    var hydratedObjects: seq<Outcome> := [];
    for i := 0 to |rawDataCollection|
      invariant i > 0 ==> cls.constructorParameters.Some?
      invariant |hydratedObjects| == i
      invariant forall j :: 0 <= j < i ==> Ok(hydratedObjects[j]) == Hydrated(cls, rawDataCollection[j], underscored)
    {
      var hydrated := Hydrate(cls, rawDataCollection[i], underscored);
      if hydrated.Err? {
        return Err(hydrated.error);
      }
      hydratedObjects := hydratedObjects + [hydrated.value];
    }
    return Ok(hydratedObjects);
  }
}
