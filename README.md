# Object constructor hydrator, modelled in Dafny

`ObjectConstructorFromArrayHydrator` builds an object of a given class from a
raw data array. It reads the names of the class's constructor parameters by
reflection. For each parameter, in declared order, it tries three candidate keys
in the raw data:

1. the Stringy `underscored()` form of the name;
2. the declared name with `_` inserted between a lowercase letter and a
   following digit (`alpha2` → `alpha_2`);
3. the declared name itself.

The first candidate that `isset()` accepts supplies the argument. If every
parameter found a value, the object is constructed positionally with those
values. Otherwise it is constructed with no arguments, and the partial list is
dropped. `hydrateCollection` does this for each record of a list, in order.

The model has four modules:

- `ParameterKeys` (`parameter_keys.dfy`) holds the candidate-key heuristic.
  `SeparateDigits` is the regular-expression rewrite
  `([a-z]+)([0-9]+)` → `\1_\2`, applied to every match. It is specified by
  where each character of the input lands in the output, and by the fact that
  no letter/digit boundary is left. `PossibleParameterKeys` is the list of
  three candidates.
- `RawData` (`raw_data.dfy`) holds the raw record (`map<string, Value>`),
  `isset()` (`Isset`) and the first-match lookup over a candidate list
  (`FirstSetIndex`, `Lookup`).
- `Hydrator` (`hydrator.dfy`) holds the specification functions `Resolve`,
  `ResolvedArgs` and `Hydrated`. It also holds the two operations, written as
  the source writes them. `Hydrate` has nested loops that append to the call
  arguments and `break` at the first match. `HydrateCollection` has a loop
  that appends each hydrated object. Both are proved against the
  specification functions.
- `HydratorProperties` (`hydrator_properties.dfy`) holds the lemmas about the
  specification: argument count, argument order, all-or-nothing construction,
  null treated as absent, and the documented scenarios.

Reflection is abstracted as follows. A class is a `ClassInfo` that holds the
declared parameter names, or `None` when the class has no constructor, declared
or inherited (`getConstructor()` returns null).
The constructed object is an `Outcome`: `WithArgs(args)` for
`newInstanceArgs($callParameters)`, or `Default` for `new $className()`.
Stringy's `underscored()` is a library outside this model, so every operation
takes it as a parameter `underscored: string -> string` and nothing is assumed
about it.

Points where the behaviour differs from what the hydrator's names suggest:

- `isset()` treats a key mapped to null as absent, so a null value never
  satisfies a parameter (`Isset`, `NullKeyIsAbsent`, `HydratedNullKey`).
- The digit-separated candidate is derived from the declared name, not from
  the underscored form: `regexReplace` is applied to the original Stringy
  object, and Stringy objects are immutable (`PossibleParameterKeysOrder`).
- A class with no constructor, declared or inherited, is not treated as having
  an empty parameter list. `getConstructor()` returns null and the code calls
  `getParameters()` on it, which raises an error. The model returns
  `Err(NoConstructor)`. `hydrateCollection` calls `hydrate` once per record,
  so an empty collection still succeeds with an empty result.
- A constructor with no parameters gives zero resolved arguments, which equals
  the parameter count. So the code takes the `newInstanceArgs([])` path
  (`WithArgs([])`), not the `new $className()` path.

## Model

| member | source | states |
|---|---|---|
| `ParameterKeys.SeparateDigits` | src/Hydrator/ObjectConstructorFromArrayHydrator.php:84 | the rewrite adds exactly one character per lowercase/digit boundary of the name, keeps the first character, and leaves no lowercase letter directly followed by a digit |
| `ParameterKeys.SeparateDigitsAt` | src/Hydrator/ObjectConstructorFromArrayHydrator.php:84 | the i-th character of the name moves right by the number of boundaries before it, and an inserted `_` follows each boundary letter |
| `ParameterKeys.SeparateDigitsUnique` | src/Hydrator/ObjectConstructorFromArrayHydrator.php:84 | any string of the rewrite's length that places the characters and underscores as `SeparateDigitsAt` describes is the rewrite's result, so those placements fix it completely |
| `ParameterKeys.SeparateDigitsUnchangedIff` | src/Hydrator/ObjectConstructorFromArrayHydrator.php:82-84 | the rewrite returns the name unchanged if and only if the name has no lowercase/digit boundary |
| `ParameterKeys.SeparateDigitsIdempotent` | src/Hydrator/ObjectConstructorFromArrayHydrator.php:84 | applying the rewrite to its own result changes nothing |
| `ParameterKeys.SeparateDigitsAlpha2` | src/Hydrator/ObjectConstructorFromArrayHydrator.php:82-84 | the example in the source comment: `alpha2` becomes `alpha_2`; every match is rewritten (`a1b22` becomes `a_1b_22`) |
| `ParameterKeys.PossibleParameterKeysOrder` | src/Hydrator/ObjectConstructorFromArrayHydrator.php:78-86 | exactly three candidates in order: underscored form, digit-separated declared name, declared name; only the first depends on `underscored()` |
| `RawData.FirstSetIndex` | src/Hydrator/ObjectConstructorFromArrayHydrator.php:33-37 | the index returned is the first candidate that `isset()` accepts: every earlier candidate is rejected, and it is the list length when none is accepted |
| `RawData.Lookup` | src/Hydrator/ObjectConstructorFromArrayHydrator.php:33-37 | a value is found if and only if some candidate is set, and a found value is never null |
| `RawData.LookupFirstMatch` | src/Hydrator/ObjectConstructorFromArrayHydrator.php:33-37 | when candidate k is the first one set, its value is the result, and later candidates are not consulted |
| `RawData.LookupAgrees` | src/Hydrator/ObjectConstructorFromArrayHydrator.php:34 | the lookup depends only on which candidates `isset()` accepts and on their values |
| `RawData.NullKeyIsAbsent` | src/Hydrator/ObjectConstructorFromArrayHydrator.php:34 | a candidate key mapped to null gives the same lookup as the key being missing |
| `Hydrator.Hydrate` | src/Hydrator/ObjectConstructorFromArrayHydrator.php:25-46 | the nested loops with `break` compute exactly `Hydrated`: an error if and only if the class has no constructor, declared or inherited (`getConstructor()` returns null), and construction with arguments only with one argument per parameter |
| `Hydrator.HydrateCollection` | src/Hydrator/ObjectConstructorFromArrayHydrator.php:59-67 | same length as the input, and element i is the hydration of record i; fails with `NoConstructor` if and only if the class has no constructor and the collection is not empty |
| `HydratorProperties.ResolvedArgsCount` | src/Hydrator/ObjectConstructorFromArrayHydrator.php:29-39 | each parameter adds at most one argument, so there are at most as many arguments as parameters, with equality if and only if every parameter resolves |
| `HydratorProperties.ResolvedArgsInOrder` | src/Hydrator/ObjectConstructorFromArrayHydrator.php:32-39 | when every parameter resolves, argument i is the value resolved for declared parameter i |
| `HydratorProperties.ResolvedArgsNeverNull` | src/Hydrator/ObjectConstructorFromArrayHydrator.php:34-35 | no collected argument is null |
| `HydratorProperties.HydratedWithArgs` | src/Hydrator/ObjectConstructorFromArrayHydrator.php:41-45 | when every parameter resolves, the object is constructed with one argument per parameter, in declared order |
| `HydratorProperties.HydratedFallsBack` | src/Hydrator/ObjectConstructorFromArrayHydrator.php:41-42 | when any one parameter is unresolved, the object is constructed with no arguments |
| `HydratorProperties.HydratedWithArgsOnlyIfResolved` | src/Hydrator/ObjectConstructorFromArrayHydrator.php:41-45 | construction with arguments happens only when every parameter resolved, and never passes a null |
| `HydratorProperties.ResolvedArgsNullKey` | src/Hydrator/ObjectConstructorFromArrayHydrator.php:32-39 | removing a key mapped to null leaves the collected arguments unchanged |
| `HydratorProperties.HydratedNullKey` | src/Hydrator/ObjectConstructorFromArrayHydrator.php:34 | removing a key mapped to null leaves the hydration result unchanged |
| `HydratorProperties.DeclaredNameAlwaysTried` | src/Hydrator/ObjectConstructorFromArrayHydrator.php:85 | a parameter whose declared name is set in the raw data always resolves |
| `HydratorProperties.HydratedNoParameters` | src/Hydrator/ObjectConstructorFromArrayHydrator.php:41-45 | a constructor with no parameters is always called, with an empty argument list, whatever the raw data |
| `HydratorProperties.PointScenario` | src/Hydrator/ObjectConstructorFromArrayHydrator.php:25-46 | `Point(x, y)` from `{"x": 3, "y": 4}` is constructed with `(3, 4)` |
| `HydratorProperties.PointMissingScenario` | src/Hydrator/ObjectConstructorFromArrayHydrator.php:41-42 | `Point(x, y)` from `{"x": 3}` falls back to the no-argument constructor |
| `HydratorProperties.UserIdScenario` | src/Hydrator/ObjectConstructorFromArrayHydrator.php:81 | `userId` is found under `user_id` through the underscored candidate |
| `HydratorProperties.Alpha2Scenario` | src/Hydrator/ObjectConstructorFromArrayHydrator.php:80-86 | `alpha2` with `{"alpha2": 5}` resolves to 5 whatever `underscored()` returns, at the latest through the declared-name candidate |
| `HydratorProperties.FalsyValueScenario` | src/Hydrator/ObjectConstructorFromArrayHydrator.php:34 | a `false` value still satisfies a parameter, because `isset()` rejects only null |

## Left out

- Reflection and construction (`ReflectionClass`, `newInstanceArgs`, `new $className()`) are outside the model. The class is given as its parameter names, and the result says which way the object would be constructed. Constructor side effects and exceptions from the constructor are not modelled.
- A class name that does not resolve (`ReflectionException` from `new \ReflectionClass`) is not modelled. `ClassInfo` stands for a class that reflection has already found.
- Whether `new $className()` succeeds is not modelled. It throws when the constructor has required parameters without defaults, and parameter defaults are not part of `ClassInfo`. `Default` only records that this path is taken.
- Stringy's `underscored()` is a parameter with no assumed behaviour. The scenarios that depend on it state what they need from it as a precondition.
- The multibyte semantics of `mb_ereg_replace` behind `regexReplace` are not modelled. Only the ASCII `[a-z]`/`[0-9]` boundary rule is.
- PHP values are reduced to null, booleans, integers and strings. Arrays, objects and floats behave like any non-null value and are not modelled separately. PHP's conversion of numeric-string array keys to integers is not modelled either: raw data keys are strings.
