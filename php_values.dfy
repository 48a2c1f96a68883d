/** The PHP runtime values a typed array can hold, their `gettype` kind
    tags, and the class table of the host (`class_exists`, `instanceof`).
    The host facilities are inputs of the model, not logic of it. */
module PhpValues {

  datatype Option<T> = None | Some(value: T)

  /** A PHP array key: an integer or a string. */
  datatype Key = IntKey(i: int) | StrKey(s: string)

  /** A PHP value. The variant is its runtime kind; objects carry the name
      of their class and an identity, resources an identity. */
  datatype Value =
    | Bool(b: bool)
    | Int(n: int)
    | Double(d: real)
    | Str(s: string)
    | Arr(items: seq<(Key, Value)>)
    | Obj(className: string, id: nat)
    | Resource(rid: nat)
    | ClosedResource(rid: nat)
    | Null
    | Unknown

  /** One key/value pair of an array, in storage order. */
  type Entry = (Key, Value)

  /** The ten strings `gettype` can return, in the order the configuration
      check lists them. */
  const KindTags: seq<string> :=
    ["boolean", "integer", "double", "string", "array", "object",
     "resource", "NULL", "unknown type", "resource (closed)"]

  /** `gettype`: the kind tag of a value. */
  function GetType(v: Value): (tag: string)
    ensures tag == "object" <==> v.Obj?
    ensures tag == "resource (closed)" <==> v.ClosedResource?
    ensures tag == "resource" <==> v.Resource?
  {
    match v
    case Bool(_) => "boolean"
    case Int(_) => "integer"
    case Double(_) => "double"
    case Str(_) => "string"
    case Arr(_) => "array"
    case Obj(_, _) => "object"
    case Resource(_) => "resource"
    case ClosedResource(_) => "resource (closed)"
    case Null => "NULL"
    case Unknown => "unknown type"
  }

  /** Every kind tag `gettype` returns is one of the ten listed tags. */
  lemma GetTypeIsListedTag(v: Value)
    ensures GetType(v) in KindTags
  { }

  /** The type table of the running program.
      - `types`: every declared class-like name (classes, interfaces,
        traits, enums), the names `instanceof` can relate;
      - `classes`: the names `class_exists` accepts, which are the classes
        and enums but not the interfaces or traits;
      - `isA`: the pairs (C, T) such that an instance of C is an
        `instanceof` T (C's own name, its ancestors, its interfaces). */
  datatype Host = Host(classes: set<string>, types: set<string>, isA: set<(string, string)>)

  /** What the runtime guarantees of its type table: every class is a
      declared type, `instanceof` is reflexive on declared types, transitive,
      and relates declared types only. */
  ghost predicate WellFormedHost(h: Host) {
    h.classes <= h.types &&
    (forall c :: c in h.types ==> (c, c) in h.isA) &&
    (forall p :: p in h.isA ==> p.0 in h.types && p.1 in h.types) &&
    (forall a, b, c :: (a, b) in h.isA && (b, c) in h.isA ==> (a, c) in h.isA)
  }

  /** `class_exists`: true for classes (and enums), false for interfaces,
      traits and undeclared names. */
  predicate ClassExists(h: Host, name: string): (b: bool)
    ensures b && WellFormedHost(h) ==> name in h.types && (name, name) in h.isA
  {
    name in h.classes
  }

  /** `$value instanceof $name`: false for every non-object, and, on a
      well-formed table, false for every undeclared name. */
  predicate InstanceOf(h: Host, v: Value, name: string): (b: bool)
    ensures b ==> v.Obj?
    ensures b && WellFormedHost(h) ==> name in h.types && v.className in h.types
  {
    v.Obj? && (v.className, name) in h.isA
  }
}
