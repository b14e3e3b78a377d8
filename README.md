# LiteIoCContainer in Dafny

A model of the `Container` class of LiteIoCContainer, a minimal
dependency-injection container. The container keeps a dictionary from key
types to factories. `Register<T>(type)` stores a deferred construction of an
implementation type under the key `T`. `RegisterInstance<T>(instance)` stores
one fixed instance. Both validate first: a duplicate key, then an abstract
implementation type, then an implementation type not assignable to the key.
`Resolve<T>()` looks the key up. A fixed instance is handed out as it is. A
transient entry is constructed: keep the declared constructors whose parameter
types are all registered, fail if there is none, take the one with the most
parameters (the first in `DeclaredConstructors`' enumeration order among
equals, since `OrderByDescending` is a stable sort and `First` takes its head), and resolve its parameter types left
to right, the first failure being the result.

Files and modules:

- `reflection.dfy`, module `Reflection`: the type descriptor that stands in
  for .NET reflection (identity, `isAbstract`, the set of supertypes that
  decides `IsAssignableFrom`, the declared constructors in enumeration order, each an
  ordered list of parameter types), the instances handed to
  `RegisterInstance`, and the object trees resolution produces.
- `registry.dfy`, module `Registry`: the error kinds and the exception type each
  is thrown as, the registry entries (`Transient(impl)` or `Shared(instance)`),
  the registry invariant (every entry yields a concrete type assignable to its
  key), `ValidateRegistration` and the insertion.
- `selection.dfy`, module `Selection`: `IsViableConstructor`, the viable
  filter, the stable descending sort by parameter count, and `GetConstructor`,
  proved to return the unique constructor that is viable, has the most
  parameters, and comes first in enumeration order among those.
- `resolution.dfy`, module `Resolution`: `ResolveType` (the private
  `Resolve(Type)`), `Construct` and `GetParameters`, with lemmas on failure
  propagation, instance identity, exact result types, the depth bound and the
  well-typedness of every resolved object tree.
- `container.dfy`, module `LiteIoC`: class `Container` with the
  `registeredTypes` map field, `Register` and `RegisterInstance` (which
  `modify` it) and `Resolve` (which only reads it).
- `scenarios.dfy`, module `Scenarios`: client methods that replay the
  behaviours the repository's tests check, on test types whose shapes follow
  the tests (`ISimple`, `IBase`, `SimpleAbstract`, `SimpleObject`,
  `CompositeObject`, `MultiConstructorObject`).

Modelling assumptions:

- Termination. The source has no cycle detection: a type that depends on
  itself recurses until the call stack overflows. The container carries a
  constant `stackDepth`, the number of nested constructions the stack allows.
  Each transient construction uses one unit. When none is left, resolution
  fails with `StackExhausted`, the model of `StackOverflowException`.
  `ResolveDepthMonotone` shows that the bound never changes any other
  answer: a result other than `StackExhausted` stays the same with a larger
  bound. `ResolveRankedTerminates` shows that a registry without dependency
  cycles never exhausts a bound above the key's rank, and
  `SelfDependenceExhaustsStack` that a type depending on itself exhausts
  every bound.
- `GetParameterTypes` (Container.cs:58-61) is the parameter list of the
  selected constructor, `t.ctors[i].params`, read inside `Construct`.
- The constructor picked by `GetConstructor` is recorded in each constructed
  object as its index in the declared constructor list.
- The host's reflection is the data in `TypeDesc`. `IsAssignableFrom(key, t)`
  holds when `key` is `t` itself or one of `t`'s supertypes.

## Model

| member | source | states |
|---|---|---|
| Registry.ValidateRegistration | LiteIoCContainer/LiteIoCContainer/Container.cs:38-46 | validation passes exactly when the key is unregistered and the implementation type is concrete and assignable to the key; a duplicate key fails as InvalidOperationException, the other two failures as ArgumentException |
| Registry.ValidationOrder | LiteIoCContainer/LiteIoCContainer/Container.cs:40-45 | the checks run in a fixed order: a duplicate key is reported whatever the type; an abstract type is reported only for a fresh key; non-assignability only for a fresh key and a concrete type |
| Registry.Insert | LiteIoCContainer/LiteIoCContainer/Container.cs:16 | adding a fresh key adds exactly that key, maps it to the new entry, grows the registry by one and leaves every other entry as it was |
| Registry.ValidatedInsertKeepsWellFormed | LiteIoCContainer/LiteIoCContainer/Container.cs:15-16 | an insertion that passed validation keeps every entry concrete and assignable to its key |
| Selection.AllRegistered | LiteIoCContainer/LiteIoCContainer/Container.cs:75-77 | true exactly when every parameter type in the list is a key of the registry |
| Selection.IsViableConstructor | LiteIoCContainer/LiteIoCContainer/Container.cs:73-78 | a constructor is viable exactly when all of its parameter types are registered |
| Selection.ViableFrom | LiteIoCContainer/LiteIoCContainer/Container.cs:65 | the `Where(...).ToList()` filter over the constructors from a position on; no contract of its own: `ViableFromExactly` states what it keeps |
| Selection.ViableConstructors | LiteIoCContainer/LiteIoCContainer/Container.cs:65 | the filter over all declared constructors; no contract of its own: `ViableFromExactly` at position 0 states what it keeps |
| Selection.ViableFromExactly | LiteIoCContainer/LiteIoCContainer/Container.cs:65 | the filter keeps every viable constructor and only viable ones, in enumeration order |
| Selection.InsertByArity | LiteIoCContainer/LiteIoCContainer/Container.cs:68-69 | one step of the descending sort: its own contract gives the length; `InsertByArityPermutes`, `InsertByAritySorted` and `InsertByArityStable` state that it inserts without losing elements, keeps order by arity and keeps equal arities in input order |
| Selection.OrderByDescending | LiteIoCContainer/LiteIoCContainer/Container.cs:68-69 | `OrderByDescending` by parameter count: its own contract gives the length; `OrderByDescendingSorted`, `OrderByDescendingStable` and `OrderByDescendingFirst` state permutation, order, stability and the head |
| Selection.OrderByDescendingSorted | LiteIoCContainer/LiteIoCContainer/Container.cs:68-69 | the sort returns a permutation of the viable constructors ordered by non-increasing parameter count |
| Selection.OrderByDescendingStable | LiteIoCContainer/LiteIoCContainer/Container.cs:68-69 | the sort is stable: viable constructors with equally many parameters stay in enumeration order |
| Selection.MostParameters | LiteIoCContainer/LiteIoCContainer/Container.cs:68-70 | reference definition of the pick: a position whose arity no element exceeds and which every earlier element falls short of |
| Selection.OrderByDescendingFirst | LiteIoCContainer/LiteIoCContainer/Container.cs:68-70 | the head of the stable descending sort is the first element of greatest parameter count |
| Selection.MostParametersSelects | LiteIoCContainer/LiteIoCContainer/Container.cs:65-70 | the first viable constructor of greatest arity satisfies the selection rule |
| Selection.SelectionIsUnique | LiteIoCContainer/LiteIoCContainer/Container.cs:68-70 | at most one constructor satisfies the selection rule, so the pick is determined |
| Selection.GetConstructor | LiteIoCContainer/LiteIoCContainer/Container.cs:63-71 | fails with NoViableConstructor exactly when no declared constructor is viable; otherwise returns a viable constructor with the most parameters, earlier in enumeration order than any other viable one with as many |
| Selection.ViabilityPersists | LiteIoCContainer/LiteIoCContainer/Container.cs:73-78 | registering more keys never makes a viable constructor unviable (viability is decided at resolution time) |
| Resolution.ResolveType | LiteIoCContainer/LiteIoCContainer/Container.cs:31-36 | the private `Resolve(Type)`; no contract of its own: `ResolveUnregistered`, `ResolveSharedIdentity`, `ResolveTransient`, `ResolveDepthMonotone`, `ResolveRankedTerminates` and `ResolveWellTyped` state its behaviour |
| Resolution.Construct | LiteIoCContainer/LiteIoCContainer/Container.cs:48-51 | `Construct`; no contract of its own: `ResolveTransient`, `ConstructDepthMonotone` and `ConstructBuilt` state its behaviour |
| Resolution.GetParameters | LiteIoCContainer/LiteIoCContainer/Container.cs:53-61 | `GetParameters` over `GetParameterTypes`; no contract of its own: `GetParametersInOrder`, `GetParametersDepthMonotone`, `GetParametersRankedTerminates` and `GetParametersBuilt` state its behaviour |
| Resolution.ResolveUnregistered | LiteIoCContainer/LiteIoCContainer/Container.cs:33-34 | resolving a key with no entry fails with NotRegistered, an InvalidOperationException |
| Resolution.ResolveSharedIdentity | LiteIoCContainer/LiteIoCContainer/Container.cs:23 | an instance entry resolves to the stored instance itself, on every resolution |
| Resolution.ResolveTransient | LiteIoCContainer/LiteIoCContainer/Container.cs:48-61 | a transient entry with no viable constructor fails with NoViableConstructor; once a constructor is selected, an error resolving one of its parameter types is the result unchanged, and if every parameter resolves the result is the implementation type built with that constructor from those resolutions; a successful resolution yields an object of exactly the implementation type, built with the selected constructor from the resolutions of its parameter types |
| Resolution.GetParametersInOrder | LiteIoCContainer/LiteIoCContainer/Container.cs:53-56 | the parameter types are resolved left to right: success exactly when each resolves, with their results in order; otherwise the error of the first one that fails, unchanged |
| Resolution.ResolveDepthMonotone | LiteIoCContainer/LiteIoCContainer/Container.cs:31-36 | a result other than StackExhausted is the same under any larger stack bound |
| Resolution.ConstructDepthMonotone | LiteIoCContainer/LiteIoCContainer/Container.cs:48-51 | the same for a construction |
| Resolution.GetParametersDepthMonotone | LiteIoCContainer/LiteIoCContainer/Container.cs:53-56 | the same for resolving a parameter list |
| Resolution.ResolveRankedTerminates | LiteIoCContainer/LiteIoCContainer/Container.cs:31-36 | in a registry without dependency cycles (a rank on keys that every selected constructor's parameter types lie below), a stack bound above the key's rank never gives StackExhausted |
| Resolution.GetParametersRankedTerminates | LiteIoCContainer/LiteIoCContainer/Container.cs:53-56 | the same for a parameter list whose types all rank below the bound |
| Resolution.ResolveWellTyped | LiteIoCContainer/LiteIoCContainer/Container.cs:31-36 | in a well-formed registry a resolved object is of a concrete type assignable to the key, and its whole tree was built from registered factories with selected constructors and arguments assignable to their parameter types |
| Resolution.ConstructBuilt | LiteIoCContainer/LiteIoCContainer/Container.cs:48-51 | a construction uses the constructor GetConstructor selects and builds a well-formed tree |
| Resolution.GetParametersBuilt | LiteIoCContainer/LiteIoCContainer/Container.cs:53-56 | each resolved argument is assignable to its parameter type and is itself well built |
| Scenarios.SelfDependenceExhaustsStack | LiteIoCContainer/LiteIoCContainer/Container.cs:31-56 | with no cycle detection, a type whose only constructor takes itself exhausts the stack whatever its size |
| LiteIoC.Container.constructor | LiteIoCContainer/LiteIoCContainer/Container.cs:10 | a new container has an empty registry |
| LiteIoC.Container.Register | LiteIoCContainer/LiteIoCContainer/Container.cs:12-17 | the outcome is the validation's; a failure leaves the registry unchanged; a success adds the fresh key with a deferred construction of the type and changes nothing else; the registry invariant is kept |
| LiteIoC.Container.RegisterInstance | LiteIoCContainer/LiteIoCContainer/Container.cs:19-24 | validation uses the instance's runtime type; a failure leaves the registry unchanged; a success adds the fresh key mapped to that instance and changes nothing else |
| LiteIoC.Container.Resolve | LiteIoCContainer/LiteIoCContainer/Container.cs:26-36 | resolution reads the registry without changing it; an unregistered key fails with NotRegistered; a result is of a concrete type assignable to the key and built from the registry |

## Left out

- .NET reflection (`GetTypeInfo`, `IsAbstract`, `IsAssignableFrom`, `DeclaredConstructors`, `GetParameters`): replaced by the fields of `TypeDesc`; CLR type semantics are not reimplemented.
- `Activator.CreateInstance` (Container.cs:50): replaced by building a `Constructed` value that records the type, the constructor index and the arguments; user constructor code is not run. The real call is not given the selected `ConstructorInfo`: it picks a public instance constructor by the runtime types of the arguments, while `DeclaredConstructors` (Container.cs:65) also lists non-public and static ones, so the program can throw `MissingMethodException` or run a different constructor of the same arity. "Built with the selected constructor" (`ResolveTransient`, `ConstructBuilt`, `Built`) holds of this replacement, not of the call.
- Generic type parameters and the `(T)` cast of `Resolve<T>` (Container.cs:28): keys are `TypeId` values; `Container.Resolve` proves the result assignable to the key instead.
- The `NullReferenceException` of `instance.GetType()` on a null instance (Container.cs:22): an incidental runtime fault; instances always have a runtime type here.
- The fault of `GetTypeInfo` on a null `type` passed to `Register` (Container.cs:42): an incidental runtime fault; a `TypeDesc` is always present here.
- Exception messages: only the error kind and the exception type it is thrown as are modelled.
- Cyclic dependencies: the stack overflow is modelled by the `stackDepth` bound and `StackExhausted`, not by the real stack size. In .NET a `StackOverflowException` cannot be caught and ends the process; the model returns as an error to the caller what the program turns into a process crash.
- Distinct identity of two transient resolutions (ContainerTests.cs:63-72): objects are values here, so two resolutions of one transient key give equal trees; identity needs runtime allocation, which is not modelled.
- The duplicate-key exception of `Dictionary.Add` itself: unreachable, because validation rejects a present key first; `Insert` requires the key to be fresh.
- Thread safety: the source has none and the model is sequential.
- The test object types are not part of this model; their shapes in `Scenarios` follow the test names and assertions.
