/** Concrete cases: the usage scripts of the repository replayed against
    the model (what each construction, append and keyed write in them leads
    to), and a few further cases of the rules on small inputs.

    The scripts use `BooleanArray` and `StringArray`, whose declarations
    are not part of this model; their `expected_type` is taken to be
    "boolean" and "string". */
module Scenarios {
  import opened PhpValues
  import opened Validation

  /** `new BooleanArray([true, false, true])`, then `$array[] = true`:
      the items are stored as given and the append takes key 3. */
  lemma BooleanArrayAppends(h: Host)
    ensures var items := [(IntKey(0), Bool(true)), (IntKey(1), Bool(false)), (IntKey(2), Bool(true))];
      ConstructSpec(Some("boolean"), h, items) == Ok(items) &&
      OffsetSetSpec("boolean", h, items, Null, Bool(true)) == Ok(items + [(IntKey(3), Bool(true))])
  { }

  /** Not from a script: appending a string to an array of expected type
      "boolean" is refused, and the error names "boolean" as expected and
      "string" as given. */
  lemma BooleanArrayRejectsString(h: Host, s: seq<Entry>)
    ensures AppendSpec("boolean", h, s, Str("not-a-boolean")) == Err(IncorrectItem("boolean", "string"))
  { }

  /** `new BooleanArray(['foo' => true, 'bar' => false])` keeps its keys in
      order; the keyed write `$keyed_array['baz'] = true` is refused. */
  lemma BooleanArrayKeyed(h: Host)
    ensures var keyed := [(StrKey("foo"), Bool(true)), (StrKey("bar"), Bool(false))];
      ConstructSpec(Some("boolean"), h, keyed) == Ok(keyed) &&
      OffsetSetSpec("boolean", h, keyed, Str("baz"), Bool(true)) == Err(KeysNotAllowed)
  { }

  /** A string after two booleans fails the whole construction. */
  lemma BooleanArrayInvalidItem(h: Host)
    ensures ConstructSpec(Some("boolean"), h,
        [(IntKey(0), Bool(true)), (IntKey(1), Bool(false)), (IntKey(2), Str("not-a-boolean"))])
      == Err(IncorrectItem("boolean", "string"))
  { }

  /** The class table of the `User` script: `AdminUser extends User`. */
  function UserHost(): (h: Host)
    ensures WellFormedHost(h)
  {
    Host({"User", "AdminUser", "InvalidClass"}, {"User", "AdminUser", "InvalidClass"},
         {("User", "User"), ("AdminUser", "AdminUser"), ("InvalidClass", "InvalidClass"), ("AdminUser", "User")})
  }

  /** `UserArray` without keys: users and an admin user are accepted and
      `$userArray[] = ...` takes key 3. */
  lemma UserArrayAppends()
    ensures var items := [(IntKey(0), Obj("User", 1)), (IntKey(1), Obj("User", 2)), (IntKey(2), Obj("AdminUser", 3))];
      ConstructSpec(Some("User"), UserHost(), items) == Ok(items) &&
      OffsetSetSpec("User", UserHost(), items, Null, Obj("User", 4)) == Ok(items + [(IntKey(3), Obj("User", 4))])
  { }

  /** `UserArray` with string keys keeps them in order; the keyed write
      `$keyedUserArray['viewer'] = ...` is refused. */
  lemma UserArrayKeyed()
    ensures var keyed := [(StrKey("admin"), Obj("AdminUser", 5)), (StrKey("editor"), Obj("User", 6))];
      ConstructSpec(Some("User"), UserHost(), keyed) == Ok(keyed) &&
      OffsetSetSpec("User", UserHost(), keyed, Str("viewer"), Obj("User", 7)) == Err(KeysNotAllowed)
  { }

  /** A string after a user fails the whole construction; the error names
      "string" as given. */
  lemma UserArrayInvalidItem()
    ensures ConstructSpec(Some("User"), UserHost(), [(IntKey(0), Obj("User", 8)), (IntKey(1), Str("invalid-value"))])
      == Err(IncorrectItem("User", "string"))
  { }

  /** Not from a script (the script declares `InvalidClass` but never uses
      it): an object of that unrelated class fails the construction, and the
      error names its class. */
  lemma UnrelatedObjectRejected()
    ensures ConstructSpec(Some("User"), UserHost(), [(IntKey(0), Obj("InvalidClass", 9))])
      == Err(IncorrectItem("User", "InvalidClass"))
  { }

  /** `new StringArray(['one', 'two', 'three'])`, then `$array[] = 'four'`:
      stored as given, the append takes key 3; the keyed construction keeps
      its keys and the keyed write `$keyed_array['baz'] = '!'` is refused;
      the integer 123 after two strings fails the construction. */
  lemma StringArrayScript(h: Host)
    ensures var items := [(IntKey(0), Str("one")), (IntKey(1), Str("two")), (IntKey(2), Str("three"))];
      ConstructSpec(Some("string"), h, items) == Ok(items) &&
      OffsetSetSpec("string", h, items, Null, Str("four")) == Ok(items + [(IntKey(3), Str("four"))])
    ensures var keyed := [(StrKey("foo"), Str("hello")), (StrKey("bar"), Str("world"))];
      ConstructSpec(Some("string"), h, keyed) == Ok(keyed) &&
      OffsetSetSpec("string", h, keyed, Str("baz"), Str("!")) == Err(KeysNotAllowed)
    ensures ConstructSpec(Some("string"), h,
        [(IntKey(0), Str("valid-string")), (IntKey(1), Str("another-string")), (IntKey(2), Int(123))])
      == Err(IncorrectItem("string", "integer"))
  { }

  /** Not from a script: the configuration check on a few declarations:
      "0" counts as empty,
      an undeclared class name is refused, every kind tag is accepted. */
  lemma ConfigurationExamples()
    ensures CheckConfig(Some("0"), UserHost()) == Err(TypeNotDefined)
    ensures CheckConfig(None, UserHost()) == Err(TypeNotDefined)
    ensures CheckConfig(Some("Customer"), UserHost()) == Err(TypeNotValid)
    ensures CheckConfig(Some("User"), UserHost()) == Ok("User")
    ensures forall t :: t in KindTags ==> CheckConfig(Some(t), UserHost()) == Ok(t)
  { }

  /** Not from a script: after an explicit integer key 10 the next append
      takes key 11. */
  lemma AppendAfterExplicitKey(h: Host, v: Value, w: Value)
    requires Accepts("integer", h, w)
    ensures var s := [(StrKey("a"), v), (IntKey(10), v)];
      AppendSpec("integer", h, s, w) == Ok(s + [(IntKey(11), w)])
  { }
}
