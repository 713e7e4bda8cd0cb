/**
 * What the hydrator promises about its result: at most one argument per
 * parameter, arguments in declared order, all-or-nothing construction,
 * null treated as absent, and the concrete scenarios of its documentation.
 */
module HydratorProperties {
  import opened RawData
  import opened ParameterKeys
  import opened Hydrator

  /** Every parameter resolves to some value. */
  ghost predicate AllResolve(parameters: seq<string>, raw: Record, underscored: Underscorer)
  {
    forall i :: 0 <= i < |parameters| ==> Resolve(parameters[i], raw, underscored).Some?
  }

  /** Each parameter contributes at most one argument, so there are never more
      arguments than parameters, and there are exactly as many precisely when
      every parameter found a candidate key. */
  lemma {:induction false} ResolvedArgsCount(parameters: seq<string>, raw: Record, underscored: Underscorer)
    ensures |ResolvedArgs(parameters, raw, underscored)| <= |parameters|
    ensures |ResolvedArgs(parameters, raw, underscored)| == |parameters| <==> AllResolve(parameters, raw, underscored)
  {
    if parameters != [] {
      var init := parameters[..|parameters| - 1];
      ResolvedArgsCount(init, raw, underscored);
      if AllResolve(parameters, raw, underscored) {
        assert AllResolve(init, raw, underscored) by {
          forall i | 0 <= i < |init| ensures Resolve(init[i], raw, underscored).Some? {
            assert init[i] == parameters[i];
          }
        }
      } else if AllResolve(init, raw, underscored) {
        var i :| 0 <= i < |parameters| && Resolve(parameters[i], raw, underscored).None?;
        assert i == |parameters| - 1;
      }
    }
  }

  /** When every parameter resolves, the i-th argument is the value resolved
      for the i-th declared parameter. */
  lemma {:induction false} ResolvedArgsInOrder(parameters: seq<string>, raw: Record, underscored: Underscorer)
    requires AllResolve(parameters, raw, underscored)
    ensures |ResolvedArgs(parameters, raw, underscored)| == |parameters|
    ensures forall i :: 0 <= i < |parameters| ==>
              ResolvedArgs(parameters, raw, underscored)[i] == Resolve(parameters[i], raw, underscored).value
  {
    if parameters != [] {
      var init := parameters[..|parameters| - 1];
      assert AllResolve(init, raw, underscored) by {
        forall i | 0 <= i < |init| ensures Resolve(init[i], raw, underscored).Some? {
          assert init[i] == parameters[i];
        }
      }
      ResolvedArgsInOrder(init, raw, underscored);
      assert Resolve(parameters[|parameters| - 1], raw, underscored).Some?;
      forall i | 0 <= i < |init|
        ensures ResolvedArgs(parameters, raw, underscored)[i] == Resolve(parameters[i], raw, underscored).value
      {
        assert init[i] == parameters[i];
      }
    }
  }

  /** No argument is ever null: a key mapped to null satisfies no parameter. */
  lemma {:induction false} ResolvedArgsNeverNull(parameters: seq<string>, raw: Record, underscored: Underscorer)
    ensures forall v :: v in ResolvedArgs(parameters, raw, underscored) ==> !v.Null?
  {
    if parameters != [] {
      ResolvedArgsNeverNull(parameters[..|parameters| - 1], raw, underscored);
    }
  }

  /** Argument-based construction: when every parameter resolves, the object is
      built with one argument per parameter, in declared order. */
  lemma HydratedWithArgs(cls: ClassInfo, raw: Record, underscored: Underscorer)
    requires cls.constructorParameters.Some?
    requires AllResolve(cls.constructorParameters.value, raw, underscored)
    ensures Hydrated(cls, raw, underscored).Ok?
    ensures Hydrated(cls, raw, underscored).value.WithArgs?
    ensures var parameters := cls.constructorParameters.value;
            var args := Hydrated(cls, raw, underscored).value.args;
            |args| == |parameters| &&
            forall i :: 0 <= i < |parameters| ==> Resolve(parameters[i], raw, underscored) == Some(args[i])
  {
    ResolvedArgsInOrder(cls.constructorParameters.value, raw, underscored);
  }

  /** Fallback: when any parameter is unresolved the object is built with no
      arguments, and the partial argument list is not used. */
  lemma HydratedFallsBack(cls: ClassInfo, raw: Record, underscored: Underscorer, k: nat)
    requires cls.constructorParameters.Some?
    requires k < |cls.constructorParameters.value|
    requires Resolve(cls.constructorParameters.value[k], raw, underscored).None?
    ensures Hydrated(cls, raw, underscored) == Ok(Default)
  {
    ResolvedArgsCount(cls.constructorParameters.value, raw, underscored);
  }

  /** Constructing with arguments happens only when all parameters resolved,
      and no argument passed is null. */
  lemma HydratedWithArgsOnlyIfResolved(cls: ClassInfo, raw: Record, underscored: Underscorer)
    requires Hydrated(cls, raw, underscored).Ok? && Hydrated(cls, raw, underscored).value.WithArgs?
    ensures AllResolve(cls.constructorParameters.value, raw, underscored)
    ensures forall v :: v in Hydrated(cls, raw, underscored).value.args ==> !v.Null?
  {
    ResolvedArgsCount(cls.constructorParameters.value, raw, underscored);
    ResolvedArgsNeverNull(cls.constructorParameters.value, raw, underscored);
  }

  /** A raw key mapped to null behaves exactly like a missing key. */
  lemma {:induction false} ResolvedArgsNullKey(parameters: seq<string>, raw: Record, k: string, underscored: Underscorer)
    requires k in raw && raw[k].Null?
    ensures ResolvedArgs(parameters, raw, underscored) == ResolvedArgs(parameters, raw - {k}, underscored)
  {
    if parameters != [] {
      ResolvedArgsNullKey(parameters[..|parameters| - 1], raw, k, underscored);
      NullKeyIsAbsent(PossibleParameterKeys(parameters[|parameters| - 1], underscored), raw, k);
    }
  }

  lemma HydratedNullKey(cls: ClassInfo, raw: Record, k: string, underscored: Underscorer)
    requires k in raw && raw[k].Null?
    ensures Hydrated(cls, raw, underscored) == Hydrated(cls, raw - {k}, underscored)
  {
    if cls.constructorParameters.Some? {
      ResolvedArgsNullKey(cls.constructorParameters.value, raw, k, underscored);
    }
  }

  /** The declared name is always a candidate: a parameter whose own name is
      set in the raw data always resolves. */
  lemma DeclaredNameAlwaysTried(name: string, raw: Record, underscored: Underscorer)
    requires Isset(raw, name)
    ensures Resolve(name, raw, underscored).Some?
  {
    assert PossibleParameterKeys(name, underscored)[2] == name;
  }

  /** A class whose constructor takes no parameters is always built, by
      newInstanceArgs with an empty argument list, whatever the raw data. */
  lemma HydratedNoParameters(raw: Record, underscored: Underscorer)
    ensures Hydrated(ClassInfo(Some([])), raw, underscored) == Ok(WithArgs([]))
  {
  }

  /** Point(x, y) from {"x": 3, "y": 4} is built as Point(3, 4). */
  lemma PointScenario(underscored: Underscorer)
    requires underscored("x") == "x" && underscored("y") == "y"
    ensures Hydrated(ClassInfo(Some(["x", "y"])), map["x" := Int(3), "y" := Int(4)], underscored)
            == Ok(WithArgs([Int(3), Int(4)]))
  {
    var cls, raw := ClassInfo(Some(["x", "y"])), map["x" := Int(3), "y" := Int(4)];
    LookupFirstMatch(PossibleParameterKeys("x", underscored), raw, 0);
    LookupFirstMatch(PossibleParameterKeys("y", underscored), raw, 0);
    HydratedWithArgs(cls, raw, underscored);
    var args := Hydrated(cls, raw, underscored).value.args;
    assert args == [Int(3), Int(4)];
  }

  /** Point(x, y) from {"x": 3} falls back to the zero-argument constructor. */
  lemma PointMissingScenario(underscored: Underscorer)
    requires underscored("y") != "x"
    ensures Hydrated(ClassInfo(Some(["x", "y"])), map["x" := Int(3)], underscored) == Ok(Default)
  {
    assert SeparateDigits("y") == "y";
    HydratedFallsBack(ClassInfo(Some(["x", "y"])), map["x" := Int(3)], underscored, 1);
  }

  /** userId is found under "user_id" through the underscored candidate. */
  lemma UserIdScenario(underscored: Underscorer)
    requires underscored("userId") == "user_id"
    ensures Hydrated(ClassInfo(Some(["userId"])), map["user_id" := Int(42)], underscored)
            == Ok(WithArgs([Int(42)]))
  {
    var cls, raw := ClassInfo(Some(["userId"])), map["user_id" := Int(42)];
    LookupFirstMatch(PossibleParameterKeys("userId", underscored), raw, 0);
    HydratedWithArgs(cls, raw, underscored);
    assert Hydrated(cls, raw, underscored).value.args == [Int(42)];
  }

  /** alpha2 with {"alpha2": 5} resolves to 5 whatever underscored() yields:
      if it does not give "alpha2", the declared-name candidate does. */
  lemma Alpha2Scenario(underscored: Underscorer)
    ensures Hydrated(ClassInfo(Some(["alpha2"])), map["alpha2" := Int(5)], underscored)
            == Ok(WithArgs([Int(5)]))
  {
    var cls, raw := ClassInfo(Some(["alpha2"])), map["alpha2" := Int(5)];
    var keys := PossibleParameterKeys("alpha2", underscored);
    SeparateDigitsAlpha2();
    if Isset(raw, keys[0]) {
      LookupFirstMatch(keys, raw, 0);
    } else {
      LookupFirstMatch(keys, raw, 2);
    }
    HydratedWithArgs(cls, raw, underscored);
    assert Hydrated(cls, raw, underscored).value.args == [Int(5)];
  }

  /** A value that PHP treats as false still satisfies a parameter: isset()
      rejects only null. */
  lemma FalsyValueScenario(underscored: Underscorer)
    ensures Hydrated(ClassInfo(Some(["enabled"])), map["enabled" := Bool(false)], underscored)
            == Ok(WithArgs([Bool(false)]))
  {
    var cls, raw := ClassInfo(Some(["enabled"])), map["enabled" := Bool(false)];
    DeclaredNameAlwaysTried("enabled", raw, underscored);
    HydratedWithArgs(cls, raw, underscored);
    assert Hydrated(cls, raw, underscored).value.args == [Bool(false)];
  }
}
