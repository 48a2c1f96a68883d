/** The `TypedArray` container: an ordered key/value store whose every
    value was checked by `validate` against one expected type before it was
    stored. The storage the PHP class inherits from `ArrayObject` is the
    field `entries`; the expected type and the host's class table are fixed
    for the life of an instance. */
module TypedArrays {
  import opened PhpValues
  import opened Validation

  /** The outcome of `new`: the constructed container, or the exception the
      constructor threw (then no container exists). */
  datatype Construction = Built(arr: TypedArray) | Failed(error: Error)

  /** The `foreach` over the constructor's items: every item is validated,
      in input order, and the first failure is reported. Nothing is stored
      here. */
  method ValidateItems(expected: string, h: Host, items: seq<Entry>) returns (err: Option<Error>)
    ensures err == FirstInvalid(expected, h, items)
    ensures err.None? <==> forall i :: 0 <= i < |items| ==> Accepts(expected, h, items[i].1)
  {
    FirstInvalidNoneIffAllPass(expected, h, items);
    var i := 0;
    while i < |items|
      invariant 0 <= i <= |items|
      invariant FirstInvalid(expected, h, items) == FirstInvalid(expected, h, items[i..])
    {
      assert items[i..][0] == items[i];
      err := Validate(expected, h, items[i].1);
      if err.Some? {
        return;
      }
      assert items[i..][1..] == items[i + 1..];
      i := i + 1;
    }
    assert items[i..] == [];
    err := None;
  }

  class TypedArray {
    /** `expected_type`, as the implementing class declares it. */
    const expectedType: string
    /** The class table `validate` consults through `instanceof`. */
    const host: Host
    /** The `ArrayObject` storage, in order. */
    var entries: seq<Entry>

    /** The invariant: the expected type passed the configuration check and
        every stored value passes `validate`, under distinct keys. */
    ghost predicate Valid()
      reads this
    {
      ValidConfig(expectedType, host) && AllValid(expectedType, host, entries)
    }

    /** `parent::__construct($items)`: store items that already passed. */
    constructor (expected: string, h: Host, items: seq<Entry>)
      requires ValidConfig(expected, h) && AllValid(expected, h, items)
      ensures Valid()
      ensures expectedType == expected && host == h && entries == items
    {
      expectedType := expected;
      host := h;
      entries := items;
    }

    /** `__construct`: the configuration check, then every item validated,
        then one store. An exception leaves no container behind. */
    static method Create(declared: Option<string>, h: Host, items: seq<Entry>) returns (r: Construction)
      requires DistinctKeys(items)
      ensures ConstructSpec(declared, h, items).Err? ==> r == Failed(ConstructSpec(declared, h, items).error)
      ensures ConstructSpec(declared, h, items).Ok? ==>
        r.Built? && fresh(r.arr) && r.arr.Valid() &&
        r.arr.expectedType == declared.value && r.arr.host == h &&
        r.arr.entries == ConstructSpec(declared, h, items).value
    {
      var config := CheckConfig(declared, h);
      if config.Err? {
        return Failed(config.error);
      }
      var err := ValidateItems(config.value, h, items);
      if err.Some? {
        return Failed(err.value);
      }
      ConstructEstablishesInvariant(declared, h, items);
      var a := new TypedArray(config.value, h, items);
      return Built(a);
    }

    /** `append`: validate, then add under the next integer key; a failing
        value throws and changes nothing. */
    method Append(v: Value) returns (err: Option<Error>)
      requires Valid()
      modifies this
      ensures Valid()
      ensures match AppendSpec(expectedType, host, old(entries), v)
        case Ok(t) => err.None? && entries == t
        case Err(e) => err == Some(e) && entries == old(entries)
    {
      err := Validate(expectedType, host, v);
      if err.None? {
        AppendPreservesInvariant(expectedType, host, entries, v);
        entries := entries + [(IntKey(NextKey(entries)), v)];
      }
    }

    /** `offsetSet`: any non-null key throws before validation; a null key
        (`$a[] = $v`) validates and appends. Either it adds one entry or it
        changes nothing. */
    method OffsetSet(key: Value, v: Value) returns (err: Option<Error>)
      requires Valid()
      modifies this
      ensures Valid()
      ensures match OffsetSetSpec(expectedType, host, old(entries), key, v)
        case Ok(t) => err.None? && entries == t
        case Err(e) => err == Some(e) && entries == old(entries)
    {
      if !key.Null? {
        return Some(KeysNotAllowed);
      }
      err := Validate(expectedType, host, v);
      if err.None? {
        AppendPreservesInvariant(expectedType, host, entries, v);
        entries := entries + [(IntKey(NextKey(entries)), v)];
      }
    }

    /** `jsonSerialize`: the stored entries, in order, with their keys; the
        expected type is not part of it. Every value in it passes
        `validate`. */
    function JsonSerialize(): (r: seq<Entry>)
      reads this
      requires Valid()
      ensures r == entries
      ensures DistinctKeys(r)
      ensures forall i :: 0 <= i < |r| ==> Validate(expectedType, host, r[i].1).None?
    {
      entries
    }
  }
}
