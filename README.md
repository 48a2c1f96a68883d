# TypedArray in Dafny

A model of the abstract PHP class `TypedArray` (`src/TypedArray.php`): an
`ArrayObject` whose subclasses declare one `expected_type`, and which checks
every value against that type before storing it. The model has four parts.

- `php_values.dfy` (module `PhpValues`) holds the PHP values a container can
  hold, their `gettype` kind tags and the host's type table. `class_exists`
  and `instanceof` are read from the `Host` value, which has three parts:
  - `types`: every declared class-like name (classes, interfaces, traits,
    enums);
  - `classes`: the names `class_exists` accepts, which excludes interfaces
    and traits;
  - `isA`: the pairs (C, T) for which an instance of C is an `instanceof` T.
- `validation.dfy` (module `Validation`) holds the rules as functions on
  values:
  - the constructor's configuration check (`CheckConfig`);
  - the `validate` decision (`Validate`) with its error message;
  - the key an append receives (`NextKey`);
  - what `__construct`, `append` and `offsetSet` do to the stored entries
    (`ConstructSpec`, `AppendSpec`, `OffsetSetSpec`).

  The lemmas in this module prove the properties of these rules.
- `typed_array.dfy` (module `TypedArrays`) holds the class `TypedArray`:
  - `expectedType` and `host` are `const` fields;
  - the inherited storage is `entries: seq<(Key, Value)>`;
  - `Valid()` is the invariant. It requires that the expected type passed the
    configuration check, that the keys are distinct and that every stored
    value passes `validate`.

  `Create` models `new`. It runs the `foreach` validation loop
  (`ValidateItems`) before the single store, and returns either the built
  container or the exception. `Append` and `OffsetSet` are proved against
  `AppendSpec` and `OffsetSetSpec`. `JsonSerialize` returns the stored
  entries.
- `scenarios.dfy` (module `Scenarios`) holds concrete cases. Most replay
  lines of the repository's usage scripts (`examples/boolean.php`,
  `examples/class.php`, `examples/string.php`). `BooleanArrayRejectsString`,
  `UnrelatedObjectRejected`, `ConfigurationExamples` and
  `AppendAfterExplicitKey` replay no script line; they apply the rules of
  `src/TypedArray.php` to small inputs. The scripts' `BooleanArray` and
  `StringArray` are not part of this model; their expected types are taken
  to be "boolean" and "string".

Exceptions are values of `Validation.Error`. `Message` gives the exact text of
each one.

Four behaviours of `src/TypedArray.php` that a reader might not expect:
- `offsetSet` throws for every non-null key (src/TypedArray.php:95-97).
  The keyed writes in the usage scripts (examples/boolean.php:19,
  examples/class.php:51, examples/string.php:19) therefore throw "Keys are
  not allowed in a array." and store nothing.
- A value of kind `"resource (closed)"` passes only when its `gettype` tag
  equals the expected type (src/TypedArray.php:68). No other rule applies
  to it.
- The `empty()` test on the expected type (src/TypedArray.php:27) is true
  for `"0"` as well as for `""` and an uninitialised property. An expected
  type of `"0"` is therefore refused as not defined.
- The configuration check accepts class names through `class_exists`
  (src/TypedArray.php:42), which is false for interfaces and traits. An
  interface is therefore refused as an expected type, although
  `instanceof` would accept its implementations.

## Model

| member | source | states |
|---|---|---|
| PhpValues.GetType | src/TypedArray.php:62 | `gettype` gives "object" exactly for objects, "resource" exactly for open resources and "resource (closed)" exactly for closed ones |
| PhpValues.ClassExists | src/TypedArray.php:42 | on a well-formed type table, a name `class_exists` accepts is a declared type and an `instanceof` itself |
| PhpValues.InstanceOf | src/TypedArray.php:65 | `instanceof` holds only for objects, and on a well-formed type table only between declared types |
| Validation.Message | src/TypedArray.php:28-96 | each exception's message opens with the words that tell its kind: "The expected type must be" for the two configuration errors, "Keys are not allowed" for a refused key, "Incorrect array item. Must be of type {expected}, " for a mismatch |
| Validation.MessagesTellErrorsApart | src/TypedArray.php:28-96 | equal messages mean the same kind of error, and the same error unless both are mismatches |
| Validation.IsEmptyType | src/TypedArray.php:27 | `empty()` on the expected type: no string of two or more characters is empty, and a one-character string is empty exactly when it is "0" |
| PhpValues.GetTypeIsListedTag | src/TypedArray.php:31-42 | every `gettype` result is one of the ten tags the configuration check lists |
| Validation.CheckConfig | src/TypedArray.php:27-44 | fails with TypeNotDefined exactly when `expected_type` is empty (unset, "" or "0"); fails with TypeNotValid exactly when it is non-empty, not a listed tag and not an existing class; otherwise yields the declared type |
| Validation.InterfaceIsNotValidConfig | src/TypedArray.php:31-43 | on a well-formed type table, a declared interface or trait name (declared but not a class, not a kind tag) fails with TypeNotValid |
| Validation.KindTagsConfigure | src/TypedArray.php:31-42 | every tag `gettype` can return passes the configuration check as itself |
| Validation.Validate | src/TypedArray.php:60-71 | accepts exactly when the value's tag equals the expected type or the value is an object that is an `instanceof` the expected class; a failure is IncorrectItem naming the class of an object and the tag of anything else |
| Validation.MismatchMessage | src/TypedArray.php:64-70 | a failed validation's message is "Incorrect array item. Must be of type {expected}, {given} given.", with the class of an object or the tag of anything else as {given} |
| Validation.ObjectTagAcceptsExactlyObjects | src/TypedArray.php:64-68 | the "object" tag accepts every object and nothing else |
| Validation.SubclassInstancesPass | src/TypedArray.php:64-67 | on a well-formed class table an object passes its own class and every ancestor, also through an intermediate class |
| Validation.UnrelatedClassFails | src/TypedArray.php:64-66 | an object whose class is not an `instanceof` the expected type fails, and the error names its class |
| Validation.ResourceTagsAreExact | src/TypedArray.php:68-70 | "resource (closed)" accepts closed resources only and "resource" open ones only |
| Validation.MaxIntKey | src/TypedArray.php:82 | the largest integer key: absent exactly when no key is an integer, otherwise a key of the array and at least every integer key |
| Validation.NextKey | src/TypedArray.php:82 | the append key is above every integer key, is 0 when there is no integer key, and is one past an existing integer key otherwise |
| Validation.NextKeyIsFresh | src/TypedArray.php:82 | no stored entry has the append key |
| Validation.NextKeyAfterAppend | src/TypedArray.php:82 | after an append the next append key is one higher |
| Validation.AppendSpec | src/TypedArray.php:79-83 | `append` succeeds exactly when the value passes `validate`; on failure the error is IncorrectItem naming what was given; on success one entry holding the value is added after the unchanged entries |
| Validation.OffsetSetSpec | src/TypedArray.php:93-101 | `offsetSet` succeeds exactly for a null key and a valid value; a non-null key fails with KeysNotAllowed, a null key with an invalid value with IncorrectItem |
| Validation.FirstInvalid | src/TypedArray.php:46-48 | the item loop's error, when there is one, is an IncorrectItem for the expected type naming what some item gave |
| Validation.ConstructSpec | src/TypedArray.php:25-50 | construction succeeds only after a passing configuration check and then stores the items unchanged; a configuration error is thrown as such; any other failure is an IncorrectItem for the declared type |
| Validation.FirstInvalidNoneIffAllPass | src/TypedArray.php:46-48 | the item loop reports no error exactly when every item passes |
| Validation.FirstInvalidIsEarliestFailure | src/TypedArray.php:46-48 | when item k is the earliest failing item, the item loop reports the error of item k |
| Validation.ConstructAllOrNothing | src/TypedArray.php:25-50 | construction succeeds exactly when the configuration is valid and every item passes, and then stores the items unchanged, with the same keys and order; an empty or invalid expected type fails with its configuration error whatever the items |
| Validation.ConstructFailsAtFirstInvalid | src/TypedArray.php:46-48 | with a valid configuration, construction fails with the error of the earliest failing item |
| Validation.ConstructEstablishesInvariant | src/TypedArray.php:46-50 | a successful construction yields storage with distinct keys in which every value passes `validate` |
| Validation.AppendAddsOneEntry | src/TypedArray.php:79-83 | `append` succeeds exactly when the value passes; on success it adds exactly one entry at the end under a new integer key above every integer key, with the prefix unchanged; on failure the error is IncorrectItem |
| Validation.AppendPreservesInvariant | src/TypedArray.php:79-83 | `append` keeps the keys distinct and every stored value valid |
| Validation.AppendThenLookup | src/TypedArray.php:79-83 | after a valid append the new key finds the appended value, and every other key finds what it found before |
| Validation.OffsetSetIsAppendOnly | src/TypedArray.php:93-101 | a non-null key fails with KeysNotAllowed whatever the value; a null key behaves exactly like `append`; success happens exactly for a null key with a valid value |
| Validation.AppendsNumberConsecutively | src/TypedArray.php:79-83 | appending valid values one after another succeeds and stores them in order under consecutive keys from the next key on |
| TypedArrays.ValidateItems | src/TypedArray.php:46-48 | the `foreach` loop returns the first failing item's error and stores nothing; it returns no error exactly when every item passes |
| TypedArrays.TypedArray.constructor | src/TypedArray.php:50 | storing items that passed establishes the invariant and keeps the items as given |
| TypedArrays.TypedArray.Create | src/TypedArray.php:25-51 | `new` either returns the construction error and no container, or returns a fresh valid container whose expected type is the declared one and whose entries are the items |
| TypedArrays.TypedArray.Append | src/TypedArray.php:79-83 | keeps the invariant; on success the entries are the ones `AppendSpec` gives; on failure it returns the error and leaves the entries unchanged |
| TypedArrays.TypedArray.OffsetSet | src/TypedArray.php:93-101 | keeps the invariant; on success the entries are the ones `OffsetSetSpec` gives; on failure it returns the error and leaves the entries unchanged |
| TypedArrays.TypedArray.JsonSerialize | src/TypedArray.php:110-113 | returns exactly the stored entries in order, with distinct keys and every value passing `validate` |
| Scenarios.BooleanArrayAppends | examples/boolean.php:9-12 | `[true, false, true]` is stored as given and `$array[] = true` adds key 3 |
| Scenarios.BooleanArrayRejectsString | src/TypedArray.php:79-83 | a string appended to a boolean array fails with IncorrectItem("boolean", "string") |
| Scenarios.BooleanArrayKeyed | examples/boolean.php:16-19 | the string-keyed construction keeps its keys in order, and the keyed write is refused with KeysNotAllowed |
| Scenarios.BooleanArrayInvalidItem | examples/boolean.php:23 | a string after two booleans fails the whole construction with IncorrectItem("boolean", "string") |
| Scenarios.UserArrayAppends | examples/class.php:34-41 | users and an admin user are accepted and the append adds key 3 |
| Scenarios.UserArrayKeyed | examples/class.php:45-51 | the keyed user construction keeps its keys, and the keyed write is refused with KeysNotAllowed |
| Scenarios.UserArrayInvalidItem | examples/class.php:55-58 | a string after a user fails the construction with IncorrectItem("User", "string") |
| Scenarios.UnrelatedObjectRejected | src/TypedArray.php:64-66 | an object of the unrelated `InvalidClass` (declared at examples/class.php:19-21) fails a `User` construction with IncorrectItem("User", "InvalidClass") |
| Scenarios.StringArrayScript | examples/string.php:9-23 | `['one', 'two', 'three']` is stored as given, `$array[] = 'four'` adds key 3, the keyed construction keeps its keys and the keyed write is refused with KeysNotAllowed, and the integer 123 after two strings fails the construction with IncorrectItem("string", "integer") |
| Scenarios.ConfigurationExamples | src/TypedArray.php:27-44 | "0" and an unset type are empty; an undeclared class name is invalid; a declared class and every listed tag pass |
| Scenarios.AppendAfterExplicitKey | src/TypedArray.php:79-83 | after the integer key 10 the next append takes key 11 |

## Left out

- `__toString` (src/TypedArray.php:115-119) only raises a user warning and returns the class name. It is a diagnostic and is not modelled.
- Inherited `ArrayObject` operations that the class does not override are not modelled: `offsetGet`, `offsetUnset`, `exchangeArray`, `count`, iteration and sorting. The "every stored value passes `validate`" invariant is claimed only for construction, `append` and `offsetSet`. `Lookup` is a specification helper, not a model of `offsetGet`.
- `gettype`, `class_exists` (with autoloading), `instanceof` and `get_class` are host facilities. They appear as the `Host` input and the value's variant. PHP's case-insensitive class-name matching is not modelled: class names compare as exact strings.
- PHP references inside the constructor's items are not modelled: values here are unaliased. The array passed to `__construct` is copied into the storage (src/TypedArray.php:25, :50), but a reference element such as `[&$x]` stays shared with the caller. A stored value can therefore later change kind without passing `validate`, and `offsetGet` and `jsonSerialize` then return it. The "every stored value passes `validate`" invariant holds only for values that are not such references. `append` and `offsetSet` take their value by value and are not affected.
- `json_encode` and the recursive serialisation of nested objects belong to the host library. Only the entries `jsonSerialize` returns are modelled.
- Floats carry a `real` payload. No floating-point arithmetic happens, and only their "double" tag matters.
- Validation.NextKey: PHP refuses an append once the next key would pass `PHP_INT_MAX`. Integers here are unbounded, so that failure is not modelled.
- Validation.NextKey: the key is computed from the keys currently stored, as "largest integer key plus one, or 0". It does not model PHP's remembered next-free counter, which can be higher if the caller's array had elements removed before it was passed to the constructor. It also does not model runtimes before PHP 8.3, which restart at 0 after negative keys only.
- Keys are taken as PHP has already normalised them, as they are in any PHP array: a decimal-integer string key arrives as an integer key.
- The configuration check's `in_array` compares loosely. For the ten tags, none of which is numeric, that coincides with the exact string comparison used here.
- All four exceptions are `InvalidArgumentException`. Only their messages tell them apart, and `Error` models just those.
