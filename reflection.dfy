/** The parts of the host's type reflection and object construction that the
    container consumes, as explicit data: a type descriptor in place of
    `System.Type`/`TypeInfo`, and an abstract object value in place of what
    `Activator.CreateInstance` produces. */
module Reflection {

  /** Identity of a type: the registry's key. */
  type TypeId = string

  /** One declared constructor: its parameter types in declaration order. */
  datatype Ctor = Ctor(params: seq<TypeId>)

  /** What the container asks reflection about a type: its identity, whether
      it is abstract (an interface or abstract class), the types it derives
      from or implements, and its declared constructors in enumeration order. */
  datatype TypeDesc = TypeDesc(id: TypeId, isAbstract: bool, supertypes: set<TypeId>, ctors: seq<Ctor>)

  /** `key.IsAssignableFrom(t)`: `t` is `key` itself or derives from or
      implements it. */
  predicate IsAssignableFrom(key: TypeId, t: TypeDesc)
  {
    key == t.id || key in t.supertypes
  }

  /** An already-built object handed to the container: a reference identity and
      its runtime type (what `GetType()` returns). */
  datatype Instance = Instance(ref: nat, runtimeType: TypeDesc)

  /** What a resolution yields: either a stored instance, handed out as it is,
      or a newly constructed object that records its type, the index of the
      constructor used and the objects passed to it. */
  datatype Object =
    | Existing(instance: Instance)
    | Constructed(impl: TypeDesc, ctor: nat, args: seq<Object>)

  /** `GetType()` of an object. */
  function TypeOf(o: Object): TypeDesc
  {
    match o
    case Existing(inst) => inst.runtimeType
    case Constructed(t, _, _) => t
  }
}
