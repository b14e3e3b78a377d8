/** The registry of the container: its entries, its failures and the
    validation that guards every insertion. */
module Registry {
  import opened Reflection

  /** The container's failures, finer than the exception types it throws. */
  datatype Error =
    | AlreadyRegistered    // the key already has an entry
    | NotConstructible     // the implementation type is abstract
    | NotAssignable        // the implementation type does not satisfy the key
    | NotRegistered        // resolution of a key with no entry
    | NoViableConstructor  // no constructor has all its parameter types registered
    | StackExhausted       // the call stack ran out (no cycle detection); .NET ends the process

  /** The .NET exception types the source throws. */
  datatype Exception = InvalidOperationException | ArgumentException | StackOverflowException

  function ExceptionOf(e: Error): Exception
  {
    match e
    case AlreadyRegistered => InvalidOperationException
    case NotRegistered => InvalidOperationException
    case NoViableConstructor => InvalidOperationException
    case NotConstructible => ArgumentException
    case NotAssignable => ArgumentException
    case StackExhausted => StackOverflowException
  }

  datatype Result<T> = Ok(value: T) | Err(error: Error)
  {
    predicate IsFailure() { Err? }

    function PropagateFailure<U>(): Result<U>
      requires Err?
    {
      Err(error)
    }

    function Extract(): T
      requires Ok?
    {
      value
    }
  }

  /** The result of an operation that returns nothing or throws. */
  datatype Outcome = Pass | Fail(error: Error)

  /** The factory stored under a key: construct `impl` anew on every
      resolution, or hand out one fixed instance. */
  datatype Entry = Transient(impl: TypeDesc) | Shared(instance: Instance)

  /** The `_registeredTypes` dictionary. */
  type Registrations = map<TypeId, Entry>

  /** The type of the objects an entry's factory yields. */
  function Produces(e: Entry): TypeDesc
  {
    match e
    case Transient(t) => t
    case Shared(inst) => inst.runtimeType
  }

  /** A type may serve a key when it is concrete and assignable to the key. */
  predicate Admissible(key: TypeId, t: TypeDesc)
  {
    !t.isAbstract && IsAssignableFrom(key, t)
  }

  /** The registry invariant: every entry yields a concrete type assignable
      to its key. */
  ghost predicate WellFormed(reg: Registrations)
  {
    forall k | k in reg :: Admissible(k, Produces(reg[k]))
  }

  /** `ValidateRegistration`: a duplicate key first, then an abstract
      implementation type, then one that is not assignable to the key. */
  function ValidateRegistration(reg: Registrations, registerType: TypeId, resolveType: TypeDesc): (r: Outcome)
    ensures r.Pass? <==> registerType !in reg && Admissible(registerType, resolveType)
    ensures r.Fail? ==>
      ExceptionOf(r.error) == if registerType in reg then InvalidOperationException else ArgumentException
  {
    if registerType in reg then Fail(AlreadyRegistered)
    else if resolveType.isAbstract then Fail(NotConstructible)
    else if !IsAssignableFrom(registerType, resolveType) then Fail(NotAssignable)
    else Pass
  }

  /** The checks are made in a fixed order: each failure is reported only when
      the earlier checks pass. */
  lemma ValidationOrder(reg: Registrations, registerType: TypeId, resolveType: TypeDesc)
    ensures registerType in reg ==>
      ValidateRegistration(reg, registerType, resolveType) == Fail(AlreadyRegistered)
    ensures registerType !in reg && resolveType.isAbstract ==>
      ValidateRegistration(reg, registerType, resolveType) == Fail(NotConstructible)
    ensures registerType !in reg && !resolveType.isAbstract && !IsAssignableFrom(registerType, resolveType) ==>
      ValidateRegistration(reg, registerType, resolveType) == Fail(NotAssignable)
  {
  }

  /** `Dictionary.Add` of a key that is not yet present: exactly one new key,
      every other entry as it was. */
  function Insert(reg: Registrations, key: TypeId, e: Entry): (reg': Registrations)
    requires key !in reg
    ensures reg'.Keys == reg.Keys + {key}
    ensures |reg'| == |reg| + 1
    ensures key in reg' && reg'[key] == e
    ensures forall k | k in reg :: k in reg' && reg'[k] == reg[k]
  {
    reg[key := e]
  }

  /** An insertion that passed validation keeps the registry invariant. */
  lemma ValidatedInsertKeepsWellFormed(reg: Registrations, key: TypeId, e: Entry)
    requires WellFormed(reg)
    requires ValidateRegistration(reg, key, Produces(e)) == Pass
    ensures WellFormed(Insert(reg, key, e))
  {
  }
}
