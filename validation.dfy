/** The rules of `TypedArray`, as values: the configuration check, the
    `validate` decision, the key an append receives, and what each
    mutating entry point does to the stored entries. The class in
    TypedArrays is proved against these definitions. */
module Validation {
  import opened PhpValues

  /** The four `InvalidArgumentException`s the class throws. */
  datatype Error =
    | TypeNotDefined                                  // expected type empty
    | TypeNotValid                                    // neither a kind tag nor a class
    | KeysNotAllowed                                  // offsetSet with a non-null key
    | IncorrectItem(expected: string, given: string)  // a value fails `validate`

  datatype Result<T> = Ok(value: T) | Err(error: Error)

  /** The exception message of each error. The opening words already tell
      a configuration error, a refused key and a type mismatch apart. */
  function Message(e: Error): (m: string)
    ensures e.TypeNotDefined? || e.TypeNotValid? ==> "The expected type must be " <= m
    ensures e.KeysNotAllowed? ==> "Keys are not allowed" <= m
    ensures e.IncorrectItem? ==> "Incorrect array item. Must be of type " + e.expected + ", " <= m
  {
    match e
    case TypeNotDefined => "The expected type must be defined in the implementing class."
    case TypeNotValid => "The expected type must be a valid primitive type or a class name."
    case KeysNotAllowed => "Keys are not allowed in a array."
    case IncorrectItem(expected, given) =>
      "Incorrect array item. Must be of type " + expected + ", " + given + " given."
  }

  /** All four exceptions share one class, so the message is what tells
      them apart: equal messages mean the same kind of error, and the same
      error outright unless both are type mismatches. */
  lemma MessagesTellErrorsApart(e1: Error, e2: Error)
    requires Message(e1) == Message(e2)
    ensures e1.IncorrectItem? == e2.IncorrectItem?
    ensures !e1.IncorrectItem? ==> e1 == e2
  {
    assert Message(e1)[0] == Message(e2)[0];
    assert Message(TypeNotDefined)[26] != Message(TypeNotValid)[26];
  }

  // ---------------------------------------------------------------------------
  // Configuration check

  /** PHP's `empty()` on the `expected_type` property: true when the property
      was never initialised (None), or holds "" or "0". */
  predicate IsEmptyType(declared: Option<string>): (b: bool)
    ensures declared.Some? && |declared.value| >= 2 ==> !b
    ensures declared.Some? && |declared.value| == 1 ==> (b <==> declared.value[0] == '0')
  {
    declared.None? || declared.value == "" || declared.value == "0"
  }

  /** The configuration check the constructor runs before looking at any
      item; on success it yields the expected type. */
  function CheckConfig(declared: Option<string>, h: Host): (r: Result<string>)
    ensures r.Err? && r.error == TypeNotDefined <==> IsEmptyType(declared)
    ensures r.Err? && r.error == TypeNotValid <==>
      !IsEmptyType(declared) && declared.value !in KindTags && !ClassExists(h, declared.value)
    ensures r.Err? ==> r.error == TypeNotDefined || r.error == TypeNotValid
    ensures r.Ok? ==> declared == Some(r.value) && r.value != "" && r.value != "0"
    ensures r.Ok? ==> r.value in KindTags || ClassExists(h, r.value)
  {
    if IsEmptyType(declared) then Err(TypeNotDefined)
    else if declared.value !in KindTags && !ClassExists(h, declared.value) then Err(TypeNotValid)
    else Ok(declared.value)
  }

  /** An interface or trait name is not a valid expected type:
      `class_exists` is false for it and it is no kind tag. */
  lemma InterfaceIsNotValidConfig(h: Host, name: string)
    requires WellFormedHost(h)
    requires !IsEmptyType(Some(name))
    requires name in h.types && name !in h.classes && name !in KindTags
    ensures CheckConfig(Some(name), h) == Err(TypeNotValid)
  { }

  /** Every kind tag `gettype` can return is a valid expected type. */
  lemma KindTagsConfigure(h: Host, v: Value)
    ensures CheckConfig(Some(GetType(v)), h) == Ok(GetType(v))
  {
    GetTypeIsListedTag(v);
  }

  /** An expected type a constructed typed array can hold. */
  predicate ValidConfig(expected: string, h: Host) {
    CheckConfig(Some(expected), h).Ok?
  }

  // ---------------------------------------------------------------------------
  // The validate decision

  /** When a value is acceptable, stated declaratively: its kind tag is the
      expected type, or it is an object of a class that is an instance of
      the expected class. */
  predicate Accepts(expected: string, h: Host, v: Value) {
    GetType(v) == expected || InstanceOf(h, v, expected)
  }

  /** What an error message names as the type it was given: the class of an
      object, the kind tag of anything else. */
  function Given(v: Value): string {
    if v.Obj? then v.className else GetType(v)
  }

  /** `validate`: None when the value passes, otherwise the error thrown. */
  function Validate(expected: string, h: Host, v: Value): (r: Option<Error>)
    ensures r.None? <==> Accepts(expected, h, v)
    ensures r.Some? ==> r.value == IncorrectItem(expected, Given(v))
  {
    var tag := GetType(v);
    if tag == "object" && expected != "object" then
      if InstanceOf(h, v, expected) then None else Some(IncorrectItem(expected, v.className))
    else if tag != expected then
      Some(IncorrectItem(expected, tag))
    else
      None
  }

  /** The message of a failed validation names the expected type and what
      was given. */
  lemma MismatchMessage(expected: string, h: Host, v: Value)
    requires !Accepts(expected, h, v)
    ensures Validate(expected, h, v).Some?
    ensures Message(Validate(expected, h, v).value) ==
      "Incorrect array item. Must be of type " + expected + ", " + Given(v) + " given."
  { }

  /** The object tag takes every object and nothing else. */
  lemma ObjectTagAcceptsExactlyObjects(h: Host, v: Value)
    ensures Validate("object", h, v).None? <==> v.Obj?
  { }

  /** A subclass instance passes where its superclass is expected, also
      through intermediate classes; an object of an unrelated class fails
      and the message names its class. */
  lemma SubclassInstancesPass(h: Host, derived: string, middle: string, base: string, id: nat)
    requires WellFormedHost(h)
    requires (derived, middle) in h.isA && (middle, base) in h.isA
    ensures Validate(base, h, Obj(derived, id)).None?
    ensures Validate(derived, h, Obj(derived, id)).None?
  { }

  lemma UnrelatedClassFails(h: Host, cls: string, expected: string, id: nat)
    requires expected != "object" && (cls, expected) !in h.isA
    ensures Validate(expected, h, Obj(cls, id)) == Some(IncorrectItem(expected, cls))
  { }

  /** Against a primitive tag a non-object passes exactly when its own tag
      is that tag: "resource (closed)" takes closed resources only and
      "resource" open ones only, since no class can carry those names. */
  lemma ResourceTagsAreExact(h: Host, v: Value)
    requires WellFormedHost(h)
    requires "resource" !in h.types && "resource (closed)" !in h.types
    ensures Validate("resource (closed)", h, v).None? <==> v.ClosedResource?
    ensures Validate("resource", h, v).None? <==> v.Resource?
  { }

  // ---------------------------------------------------------------------------
  // Stored entries and their keys

  /** No two entries share a key: the shape of every PHP array. */
  predicate DistinctKeys(s: seq<Entry>) {
    forall i, j :: 0 <= i < j < |s| ==> s[i].0 != s[j].0
  }

  predicate HasKey(s: seq<Entry>, k: Key) {
    exists i :: 0 <= i < |s| && s[i].0 == k
  }

  /** The invariant of a typed array's storage. */
  predicate AllValid(expected: string, h: Host, s: seq<Entry>) {
    DistinctKeys(s) && forall i :: 0 <= i < |s| ==> Accepts(expected, h, s[i].1)
  }

  /** The largest integer key, if any. */
  function MaxIntKey(s: seq<Entry>): (m: Option<int>)
    ensures m.None? <==> forall i :: 0 <= i < |s| ==> !s[i].0.IntKey?
    ensures m.Some? ==> HasKey(s, IntKey(m.value))
    ensures m.Some? ==> forall i :: 0 <= i < |s| && s[i].0.IntKey? ==> s[i].0.i <= m.value
    decreases |s|
  {
    if s == [] then None
    else
      var init := s[..|s| - 1];
      var rest := MaxIntKey(init);
      var last := s[|s| - 1].0;
      assert forall i :: 0 <= i < |init| ==> init[i] == s[i];
      PrefixKeys(s, |s| - 1);
      if !last.IntKey? then rest
      else if rest.None? || rest.value < last.i then
        assert s[|s| - 1].0 == IntKey(last.i);
        Some(last.i)
      else rest
  }

  /** A key of a prefix is a key of the whole. */
  lemma PrefixKeys(s: seq<Entry>, n: nat)
    requires n <= |s|
    ensures forall k :: HasKey(s[..n], k) ==> HasKey(s, k)
  { }

  /** The key `append` assigns: one more than the largest integer key, or 0
      when the array has no integer key. */
  function NextKey(s: seq<Entry>): (k: int)
    ensures forall i :: 0 <= i < |s| && s[i].0.IntKey? ==> s[i].0.i < k
    ensures (forall i :: 0 <= i < |s| ==> !s[i].0.IntKey?) ==> k == 0
    ensures (exists i :: 0 <= i < |s| && s[i].0.IntKey?) ==> HasKey(s, IntKey(k - 1))
  {
    match MaxIntKey(s)
    case None => 0
    case Some(m) => m + 1
  }

  /** The appended key is new. */
  lemma NextKeyIsFresh(s: seq<Entry>)
    ensures !HasKey(s, IntKey(NextKey(s)))
  { }

  /** After an append the next key is one further on. */
  lemma NextKeyAfterAppend(s: seq<Entry>, v: Value)
    ensures NextKey(s + [(IntKey(NextKey(s)), v)]) == NextKey(s) + 1
  { }

  /** The value stored under a key, if any (the first match; there is at
      most one when the keys are distinct). */
  function Lookup(s: seq<Entry>, k: Key): (r: Option<Value>)
    ensures r.None? <==> !HasKey(s, k)
    ensures r.Some? ==> exists i :: 0 <= i < |s| && s[i] == (k, r.value)
    decreases |s|
  {
    if s == [] then None
    else if s[0].0 == k then Some(s[0].1)
    else
      var r := Lookup(s[1..], k);
      assert forall i :: 0 <= i < |s| - 1 ==> s[1..][i] == s[i + 1];
      assert HasKey(s, k) ==> HasKey(s[1..], k) by {
        if HasKey(s, k) {
          var i :| 0 <= i < |s| && s[i].0 == k;
          assert i > 0 && s[1..][i - 1].0 == k;
        }
      }
      r
  }

  /** Lookup after adding one entry under a new key: that key finds the new
      value, every other key finds what it found before. */
  lemma {:induction false} LookupAfterAdd(s: seq<Entry>, k: Key, v: Value, q: Key)
    requires !HasKey(s, k)
    ensures Lookup(s + [(k, v)], q) == if q == k then Some(v) else Lookup(s, q)
    decreases |s|
  {
    var t := s + [(k, v)];
    if s == [] {
      assert t == [(k, v)];
    } else {
      assert t[0] == s[0];
      assert t[1..] == s[1..] + [(k, v)];
      if s[0].0 != q {
        forall i | 0 <= i < |s| - 1 ensures s[1..][i].0 != k {
          assert s[1..][i] == s[i + 1];
        }
        LookupAfterAdd(s[1..], k, v, q);
      } else {
        assert s[0].0 != k;
      }
    }
  }

  // ---------------------------------------------------------------------------
  // The entry points, as functions on the stored entries

  /** `append`: validate, then store under the next integer key. */
  function AppendSpec(expected: string, h: Host, s: seq<Entry>, v: Value): (r: Result<seq<Entry>>)
    ensures r.Ok? <==> Accepts(expected, h, v)
    ensures r.Err? ==> r.error == IncorrectItem(expected, Given(v))
    ensures r.Ok? ==> |r.value| == |s| + 1 && r.value[..|s|] == s && r.value[|s|].1 == v
  {
    match Validate(expected, h, v)
    case Some(e) => Err(e)
    case None => Ok(s + [(IntKey(NextKey(s)), v)])
  }

  /** `offsetSet`: a non-null key is refused before the value is looked at;
      a null key is an append. */
  function OffsetSetSpec(expected: string, h: Host, s: seq<Entry>, key: Value, v: Value): (r: Result<seq<Entry>>)
    ensures r.Ok? <==> key.Null? && Accepts(expected, h, v)
    ensures r.Err? ==> r.error == if key.Null? then IncorrectItem(expected, Given(v)) else KeysNotAllowed
  {
    if !key.Null? then Err(KeysNotAllowed) else AppendSpec(expected, h, s, v)
  }

  /** The first item that fails `validate`, in input order. */
  function FirstInvalid(expected: string, h: Host, items: seq<Entry>): (r: Option<Error>)
    ensures r.Some? ==> r.value.IncorrectItem? && r.value.expected == expected
    ensures r.Some? ==> exists i :: 0 <= i < |items| && r.value.given == Given(items[i].1)
    decreases |items|
  {
    if items == [] then None
    else
      match Validate(expected, h, items[0].1)
      case Some(e) => Some(e)
      case None => FirstInvalid(expected, h, items[1..])
  }

  /** `__construct`: the configuration check, then every item validated,
      then the items stored as given. */
  function ConstructSpec(declared: Option<string>, h: Host, items: seq<Entry>): (r: Result<seq<Entry>>)
    ensures r.Ok? ==> CheckConfig(declared, h).Ok? && r.value == items
    ensures CheckConfig(declared, h).Err? ==> r == Err(CheckConfig(declared, h).error)
    ensures CheckConfig(declared, h).Ok? && r.Err? ==>
      r.error.IncorrectItem? && r.error.expected == declared.value
  {
    match CheckConfig(declared, h)
    case Err(e) => Err(e)
    case Ok(expected) =>
      match FirstInvalid(expected, h, items)
      case Some(e) => Err(e)
      case None => Ok(items)
  }

  // ---------------------------------------------------------------------------
  // Properties of the entry points

  /** FirstInvalid finds nothing exactly when every item passes. */
  lemma {:induction false} FirstInvalidNoneIffAllPass(expected: string, h: Host, items: seq<Entry>)
    ensures FirstInvalid(expected, h, items).None? <==>
      forall i :: 0 <= i < |items| ==> Accepts(expected, h, items[i].1)
    decreases |items|
  {
    if items != [] {
      var tail := items[1..];
      FirstInvalidNoneIffAllPass(expected, h, tail);
      if Accepts(expected, h, items[0].1) {
        if FirstInvalid(expected, h, tail).None? {
          forall i | 0 <= i < |items| ensures Accepts(expected, h, items[i].1) {
            if i > 0 { assert items[i] == tail[i - 1]; }
          }
        } else {
          var i :| 0 <= i < |tail| && !Accepts(expected, h, tail[i].1);
          assert items[i + 1] == tail[i];
        }
      }
    }
  }

  /** When item k is the earliest that fails, FirstInvalid reports its
      error. */
  lemma {:induction false} FirstInvalidIsEarliestFailure(expected: string, h: Host, items: seq<Entry>, k: nat)
    requires k < |items|
    requires forall j :: 0 <= j < k ==> Accepts(expected, h, items[j].1)
    requires !Accepts(expected, h, items[k].1)
    ensures FirstInvalid(expected, h, items) == Some(IncorrectItem(expected, Given(items[k].1)))
    decreases k
  {
    if k > 0 {
      var tail := items[1..];
      assert Accepts(expected, h, items[0].1);
      forall j | 0 <= j < k - 1 ensures Accepts(expected, h, tail[j].1) {
        assert tail[j] == items[j + 1];
      }
      assert tail[k - 1] == items[k];
      FirstInvalidIsEarliestFailure(expected, h, tail, k - 1);
    }
  }

  /** Construction is all or nothing: it succeeds exactly when the
      configuration is valid and every item passes, and then stores the
      items unchanged; an empty or invalid expected type fails before any
      item is looked at. */
  lemma ConstructAllOrNothing(declared: Option<string>, h: Host, items: seq<Entry>)
    ensures ConstructSpec(declared, h, items).Ok? <==>
      CheckConfig(declared, h).Ok? &&
      forall i :: 0 <= i < |items| ==> Accepts(declared.value, h, items[i].1)
    ensures ConstructSpec(declared, h, items).Ok? ==> ConstructSpec(declared, h, items).value == items
    ensures IsEmptyType(declared) ==> ConstructSpec(declared, h, items) == Err(TypeNotDefined)
    ensures CheckConfig(declared, h) == Err(TypeNotValid) ==> ConstructSpec(declared, h, items) == Err(TypeNotValid)
  {
    if CheckConfig(declared, h).Ok? {
      FirstInvalidNoneIffAllPass(declared.value, h, items);
    }
  }

  /** With a valid configuration, construction fails with the error of the
      earliest failing item. */
  lemma ConstructFailsAtFirstInvalid(declared: Option<string>, h: Host, items: seq<Entry>, k: nat)
    requires CheckConfig(declared, h).Ok?
    requires k < |items|
    requires forall j :: 0 <= j < k ==> Accepts(declared.value, h, items[j].1)
    requires !Accepts(declared.value, h, items[k].1)
    ensures ConstructSpec(declared, h, items) == Err(IncorrectItem(declared.value, Given(items[k].1)))
  {
    FirstInvalidIsEarliestFailure(declared.value, h, items, k);
  }

  /** A successful construction from a PHP array establishes the storage
      invariant. */
  lemma ConstructEstablishesInvariant(declared: Option<string>, h: Host, items: seq<Entry>)
    requires DistinctKeys(items)
    ensures ConstructSpec(declared, h, items).Ok? ==>
      ValidConfig(declared.value, h) && AllValid(declared.value, h, ConstructSpec(declared, h, items).value)
  {
    ConstructAllOrNothing(declared, h, items);
  }

  /** `append` adds exactly one entry, at the end, under a key no entry had,
      and changes nothing else; a failing value leaves nothing to store. */
  lemma AppendAddsOneEntry(expected: string, h: Host, s: seq<Entry>, v: Value)
    ensures AppendSpec(expected, h, s, v).Ok? <==> Accepts(expected, h, v)
    ensures AppendSpec(expected, h, s, v).Err? ==>
      AppendSpec(expected, h, s, v).error == IncorrectItem(expected, Given(v))
    ensures AppendSpec(expected, h, s, v).Ok? ==>
      var t := AppendSpec(expected, h, s, v).value;
      |t| == |s| + 1 && t[..|s|] == s && t[|s|].1 == v &&
      t[|s|].0.IntKey? && !HasKey(s, t[|s|].0) &&
      forall i :: 0 <= i < |s| && s[i].0.IntKey? ==> s[i].0.i < t[|s|].0.i
  { }

  /** `append` keeps the storage invariant. */
  lemma AppendPreservesInvariant(expected: string, h: Host, s: seq<Entry>, v: Value)
    requires AllValid(expected, h, s)
    ensures AppendSpec(expected, h, s, v).Ok? ==> AllValid(expected, h, AppendSpec(expected, h, s, v).value)
  { }

  /** After a successful append the new value is found under the returned
      key, and every other key finds what it found before. */
  lemma AppendThenLookup(expected: string, h: Host, s: seq<Entry>, v: Value, q: Key)
    requires Accepts(expected, h, v)
    ensures AppendSpec(expected, h, s, v).Ok?
    ensures Lookup(AppendSpec(expected, h, s, v).value, IntKey(NextKey(s))) == Some(v)
    ensures q != IntKey(NextKey(s)) ==> Lookup(AppendSpec(expected, h, s, v).value, q) == Lookup(s, q)
  {
    NextKeyIsFresh(s);
    LookupAfterAdd(s, IntKey(NextKey(s)), v, IntKey(NextKey(s)));
    LookupAfterAdd(s, IntKey(NextKey(s)), v, q);
  }

  /** `offsetSet` refuses every non-null key, whatever the value, and with a
      null key is exactly `append`. */
  lemma OffsetSetIsAppendOnly(expected: string, h: Host, s: seq<Entry>, key: Value, v: Value)
    ensures !key.Null? ==> OffsetSetSpec(expected, h, s, key, v) == Err(KeysNotAllowed)
    ensures key.Null? ==> OffsetSetSpec(expected, h, s, key, v) == AppendSpec(expected, h, s, v)
    ensures OffsetSetSpec(expected, h, s, key, v).Ok? <==> key.Null? && Accepts(expected, h, v)
  { }

  /** Several appends in a row, stopping at the first failure. */
  function AppendAll(expected: string, h: Host, s: seq<Entry>, vs: seq<Value>): Result<seq<Entry>>
    decreases |vs|
  {
    if vs == [] then Ok(s)
    else
      match AppendSpec(expected, h, s, vs[0])
      case Err(e) => Err(e)
      case Ok(t) => AppendAll(expected, h, t, vs[1..])
  }

  /** The entries a run of appends adds from key n on. */
  function Numbered(n: int, vs: seq<Value>): seq<Entry>
    decreases |vs|
  {
    if vs == [] then [] else [(IntKey(n), vs[0])] + Numbered(n + 1, vs[1..])
  }

  /** The i-th entry of such a run is the i-th value under key n + i. */
  lemma {:induction false} NumberedAt(n: int, vs: seq<Value>, i: nat)
    requires i < |vs|
    ensures |Numbered(n, vs)| == |vs|
    ensures Numbered(n, vs)[i] == (IntKey(n + i), vs[i])
    decreases |vs|
  {
    if |vs| > 1 {
      NumberedAt(n + 1, vs[1..], if i > 0 then i - 1 else 0);
    }
  }

  /** One step of a run of appends with a valid first value. */
  lemma AppendAllStep(expected: string, h: Host, s: seq<Entry>, vs: seq<Value>)
    requires vs != [] && Accepts(expected, h, vs[0])
    ensures AppendAll(expected, h, s, vs) == AppendAll(expected, h, s + [(IntKey(NextKey(s)), vs[0])], vs[1..])
  { }

  /** A numbered run is its first entry followed by the run from the next
      key on. */
  lemma NumberedStep(s: seq<Entry>, n: int, vs: seq<Value>)
    requires vs != []
    ensures (s + [(IntKey(n), vs[0])]) + Numbered(n + 1, vs[1..]) == s + Numbered(n, vs)
  { }

  /** Appending valid values one after another numbers them consecutively
      from the next key: from an array without integer keys that is 0, 1,
      2, ...; after an integer key 10 it is 11, 12, .... */
  lemma {:induction false} AppendsNumberConsecutively(expected: string, h: Host, s: seq<Entry>, vs: seq<Value>)
    requires forall i :: 0 <= i < |vs| ==> Accepts(expected, h, vs[i])
    ensures AppendAll(expected, h, s, vs) == Ok(s + Numbered(NextKey(s), vs))
    decreases |vs|
  {
    if vs == [] {
      assert s + Numbered(NextKey(s), vs) == s;
    } else {
      var rest := vs[1..];
      AppendAllStep(expected, h, s, vs);
      NumberedStep(s, NextKey(s), vs);
      NextKeyAfterAppend(s, vs[0]);
      forall i | 0 <= i < |rest| ensures Accepts(expected, h, rest[i]) {
        assert rest[i] == vs[i + 1];
      }
      AppendsNumberConsecutively(expected, h, s + [(IntKey(NextKey(s)), vs[0])], rest);
    }
  }
}
