/** The `Container` class: the registry dictionary, the two registration
    operations that validate and then insert, and resolution, which only
    reads the registry. */
module LiteIoC {
  import opened Reflection
  import opened Registry
  import opened Resolution

  class Container {
    /** `_registeredTypes`: key type to factory. */
    var registeredTypes: Registrations
    /** How many nested constructions the call stack allows. */
    const stackDepth: nat

    ghost predicate Valid()
      reads this
    {
      WellFormed(registeredTypes)
    }

    constructor (stackDepth: nat)
      ensures Valid()
      ensures registeredTypes == map[]
      ensures this.stackDepth == stackDepth
    {
      registeredTypes := map[];
      this.stackDepth := stackDepth;
    }

    /** `Register<T>(type)`: on a failed validation nothing changes; otherwise
        exactly one new key, mapped to a deferred construction of `t`. */
    method Register(registerType: TypeId, t: TypeDesc) returns (outcome: Outcome)
      requires Valid()
      modifies this
      ensures Valid()
      ensures outcome == ValidateRegistration(old(registeredTypes), registerType, t)
      ensures outcome.Fail? ==> registeredTypes == old(registeredTypes)
      ensures outcome.Pass? ==>
        registerType !in old(registeredTypes) &&
        registeredTypes == Insert(old(registeredTypes), registerType, Transient(t))
    {
      outcome := ValidateRegistration(registeredTypes, registerType, t);
      if outcome.Pass? {
        ValidatedInsertKeepsWellFormed(registeredTypes, registerType, Transient(t));
        registeredTypes := Insert(registeredTypes, registerType, Transient(t));
      }
    }

    /** `RegisterInstance<T>(instance)`: validated against the instance's
        runtime type; on success the key maps to that very instance. */
    method RegisterInstance(registerType: TypeId, instance: Instance) returns (outcome: Outcome)
      requires Valid()
      modifies this
      ensures Valid()
      ensures outcome == ValidateRegistration(old(registeredTypes), registerType, instance.runtimeType)
      ensures outcome.Fail? ==> registeredTypes == old(registeredTypes)
      ensures outcome.Pass? ==>
        registerType !in old(registeredTypes) &&
        registeredTypes == Insert(old(registeredTypes), registerType, Shared(instance))
    {
      outcome := ValidateRegistration(registeredTypes, registerType, instance.runtimeType);
      if outcome.Pass? {
        ValidatedInsertKeepsWellFormed(registeredTypes, registerType, Shared(instance));
        registeredTypes := Insert(registeredTypes, registerType, Shared(instance));
      }
    }

    /** `Resolve<T>()`: reads the registry and changes nothing. A result is an
        object of a concrete type assignable to the key, built from the
        registry. */
    method Resolve(registerType: TypeId) returns (r: Result<Object>)
      requires Valid()
      ensures r == ResolveType(registeredTypes, registerType, stackDepth)
      ensures registerType !in registeredTypes ==> r == Err(NotRegistered)
      ensures r.Ok? ==> Admissible(registerType, TypeOf(r.value)) && Built(registeredTypes, r.value)
    {
      r := ResolveType(registeredTypes, registerType, stackDepth);
      if r.Ok? {
        ResolveWellTyped(registeredTypes, registerType, stackDepth);
      }
    }
  }
}
