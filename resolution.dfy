/** Resolution: look a key up, hand out a stored instance or construct the
    implementation type by resolving the selected constructor's parameter
    types, recursively and left to right.

    The source has no cycle detection: a type that depends on itself recurses
    until the call stack is exhausted. Here `depth` bounds the number of nested
    constructions (the stack still available); running out gives
    `StackExhausted`. */
module Resolution {
  import opened Reflection
  import opened Registry
  import opened Selection

  /** The private `Resolve(Type)`. */
  function ResolveType(reg: Registrations, key: TypeId, depth: nat): Result<Object>
    decreases depth, 0, 0
  {
    if key !in reg then Err(NotRegistered)
    else
      match reg[key]
      case Shared(inst) => Ok(Existing(inst))
      case Transient(impl) => if depth == 0 then Err(StackExhausted) else Construct(reg, impl, depth - 1)
  }

  /** `Construct`: pick the constructor, resolve its parameter types, build. */
  function Construct(reg: Registrations, t: TypeDesc, depth: nat): Result<Object>
    decreases depth, 2, 0
  {
    var i :- GetConstructor(reg, t);
    var args :- GetParameters(reg, t.ctors[i].params, depth);
    Ok(Constructed(t, i, args))
  }

  /** `GetParameters`: resolve each parameter type in order; the first
      failure is the result. */
  function GetParameters(reg: Registrations, ps: seq<TypeId>, depth: nat): Result<seq<Object>>
    decreases depth, 1, |ps|
  {
    if ps == [] then Ok([])
    else
      var first :- ResolveType(reg, ps[0], depth);
      var rest :- GetParameters(reg, ps[1..], depth);
      Ok([first] + rest)
  }

  /** An object tree as resolution builds it from `reg`: a stored instance
      that is registered, or an object of a registered transient type built
      with the selected constructor, from one argument per parameter, each
      assignable to its parameter type and itself built from `reg`. */
  ghost predicate Built(reg: Registrations, o: Object)
    decreases o
  {
    match o
    case Existing(inst) => Shared(inst) in reg.Values
    case Constructed(t, i, args) =>
      && Transient(t) in reg.Values
      && GetConstructor(reg, t) == Ok(i)
      && i < |t.ctors|
      && |args| == |t.ctors[i].params|
      && forall k | 0 <= k < |args| ::
           IsAssignableFrom(t.ctors[i].params[k], TypeOf(args[k])) && Built(reg, args[k])
  }

  /** A key with no entry fails with `NotRegistered`. */
  lemma ResolveUnregistered(reg: Registrations, key: TypeId, depth: nat)
    requires key !in reg
    ensures ResolveType(reg, key, depth) == Err(NotRegistered)
    ensures ExceptionOf(ResolveType(reg, key, depth).error) == InvalidOperationException
  {
  }

  /** An instance entry yields the stored instance itself, at any depth. */
  lemma ResolveSharedIdentity(reg: Registrations, key: TypeId, inst: Instance, depth: nat, depth': nat)
    requires key in reg && reg[key] == Shared(inst)
    ensures ResolveType(reg, key, depth) == ResolveType(reg, key, depth') == Ok(Existing(inst))
  {
  }

  /** A transient entry for `impl`: with no viable constructor resolution fails
      with `NoViableConstructor`; once a constructor is selected, a failing
      parameter's error is the result unchanged, and if every parameter
      resolves the result is `impl` built with that constructor from the
      parameters' resolutions. A successful result has type exactly `impl`,
      was built with the selected constructor, and its arguments are the
      resolutions of that constructor's parameter types. */
  lemma ResolveTransient(reg: Registrations, key: TypeId, impl: TypeDesc, depth: nat)
    requires key in reg && reg[key] == Transient(impl)
    ensures depth > 0 && GetConstructor(reg, impl).Err? ==> ResolveType(reg, key, depth) == Err(NoViableConstructor)
    ensures depth > 0 && GetConstructor(reg, impl).Ok? ==>
      var i := GetConstructor(reg, impl).value;
      ResolveType(reg, key, depth) ==
        match GetParameters(reg, impl.ctors[i].params, depth - 1)
        case Ok(args) => Ok(Constructed(impl, i, args))
        case Err(e) => Err(e)
    ensures ResolveType(reg, key, depth).Ok? ==>
      var o := ResolveType(reg, key, depth).value;
      && o.Constructed?
      && o.impl == impl
      && TypeOf(o) == impl
      && IsSelected(reg, impl.ctors, o.ctor)
      && GetParameters(reg, impl.ctors[o.ctor].params, depth - 1) == Ok(o.args)
  {
  }

  /** `GetParameters` resolves the parameter types left to right: it succeeds
      exactly when each of them resolves, with their results in order, and
      otherwise fails with the error of the first one that fails. */
  lemma {:induction false} GetParametersInOrder(reg: Registrations, ps: seq<TypeId>, depth: nat)
    ensures GetParameters(reg, ps, depth).Ok? <==> forall k | 0 <= k < |ps| :: ResolveType(reg, ps[k], depth).Ok?
    ensures GetParameters(reg, ps, depth).Ok? ==>
      var args := GetParameters(reg, ps, depth).value;
      |args| == |ps| && forall k | 0 <= k < |ps| :: args[k] == ResolveType(reg, ps[k], depth).value
    ensures GetParameters(reg, ps, depth).Err? ==>
      exists k | 0 <= k < |ps| ::
        && (forall j | 0 <= j < k :: ResolveType(reg, ps[j], depth).Ok?)
        && ResolveType(reg, ps[k], depth) == Err(GetParameters(reg, ps, depth).error)
  {
    if ps != [] {
      GetParametersInOrder(reg, ps[1..], depth);
      var r := GetParameters(reg, ps, depth);
      if ResolveType(reg, ps[0], depth).Ok? && r.Err? {
        var k :| 0 <= k < |ps[1..]|
          && (forall j | 0 <= j < k :: ResolveType(reg, ps[1..][j], depth).Ok?)
          && ResolveType(reg, ps[1..][k], depth) == Err(r.error);
        assert ResolveType(reg, ps[k + 1], depth) == Err(r.error);
      }
    }
  }

  /** A result other than `StackExhausted` is the same with any larger depth:
      the bound only cuts off recursion, it never changes an answer. */
  lemma {:induction false} ResolveDepthMonotone(reg: Registrations, key: TypeId, depth: nat, depth': nat)
    requires depth <= depth'
    requires ResolveType(reg, key, depth) != Err(StackExhausted)
    ensures ResolveType(reg, key, depth') == ResolveType(reg, key, depth)
    decreases depth, 0, 0
  {
    if key in reg {
      match reg[key]
      case Shared(_) =>
      case Transient(impl) =>
        ConstructDepthMonotone(reg, impl, depth - 1, depth' - 1);
    }
  }

  lemma {:induction false} ConstructDepthMonotone(reg: Registrations, t: TypeDesc, depth: nat, depth': nat)
    requires depth <= depth'
    requires Construct(reg, t, depth) != Err(StackExhausted)
    ensures Construct(reg, t, depth') == Construct(reg, t, depth)
    decreases depth, 2, 0
  {
    var c := GetConstructor(reg, t);
    if c.Ok? {
      GetParametersDepthMonotone(reg, t.ctors[c.value].params, depth, depth');
    }
  }

  lemma {:induction false} GetParametersDepthMonotone(reg: Registrations, ps: seq<TypeId>, depth: nat, depth': nat)
    requires depth <= depth'
    requires GetParameters(reg, ps, depth) != Err(StackExhausted)
    ensures GetParameters(reg, ps, depth') == GetParameters(reg, ps, depth)
    decreases depth, 1, |ps|
  {
    if ps != [] {
      ResolveDepthMonotone(reg, ps[0], depth, depth');
      if ResolveType(reg, ps[0], depth).Ok? {
        GetParametersDepthMonotone(reg, ps[1..], depth, depth');
      }
    }
  }

  /** In a well-formed registry, a successful resolution of `key` yields a
      concrete object assignable to `key`, built from the registry. */
  lemma {:induction false} ResolveWellTyped(reg: Registrations, key: TypeId, depth: nat)
    requires WellFormed(reg)
    requires ResolveType(reg, key, depth).Ok?
    ensures Admissible(key, TypeOf(ResolveType(reg, key, depth).value))
    ensures Built(reg, ResolveType(reg, key, depth).value)
    decreases depth, 0, 0
  {
    assert reg[key] in reg.Values;
    if reg[key].Transient? {
      ConstructBuilt(reg, reg[key].impl, depth - 1);
    }
  }

  lemma {:induction false} ConstructBuilt(reg: Registrations, t: TypeDesc, depth: nat)
    requires WellFormed(reg)
    requires Transient(t) in reg.Values
    requires Construct(reg, t, depth).Ok?
    ensures Construct(reg, t, depth).value == Constructed(t, GetConstructor(reg, t).value, Construct(reg, t, depth).value.args)
    ensures Built(reg, Construct(reg, t, depth).value)
    decreases depth, 2, 0
  {
    var i := GetConstructor(reg, t).value;
    GetParametersBuilt(reg, t.ctors[i].params, depth);
  }

  lemma {:induction false} GetParametersBuilt(reg: Registrations, ps: seq<TypeId>, depth: nat)
    requires WellFormed(reg)
    requires GetParameters(reg, ps, depth).Ok?
    ensures |GetParameters(reg, ps, depth).value| == |ps|
    ensures forall k | 0 <= k < |ps| ::
      var a := GetParameters(reg, ps, depth).value[k];
      IsAssignableFrom(ps[k], TypeOf(a)) && Built(reg, a)
    decreases depth, 1, |ps|
  {
    if ps != [] {
      ResolveWellTyped(reg, ps[0], depth);
      GetParametersBuilt(reg, ps[1..], depth);
      var args := GetParameters(reg, ps, depth).value;
      var rest := GetParameters(reg, ps[1..], depth).value;
      assert args == [ResolveType(reg, ps[0], depth).value] + rest;
      forall k | 0 < k < |ps|
        ensures IsAssignableFrom(ps[k], TypeOf(args[k])) && Built(reg, args[k])
      {
        assert ps[k] == ps[1..][k - 1] && args[k] == rest[k - 1];
      }
    }
  }

  /** `rank` orders the keys so that every parameter type of a transient
      entry's selected constructor ranks below the entry's key: the registry has
      no dependency cycle. */
  ghost predicate Ranked(reg: Registrations, rank: map<TypeId, nat>)
  {
    && reg.Keys <= rank.Keys
    && forall key | key in reg && reg[key].Transient? ::
         var t := reg[key].impl;
         GetConstructor(reg, t).Ok? ==>
           forall p | p in t.ctors[GetConstructor(reg, t).value].params && p in rank :: rank[p] < rank[key]
  }

  /** In a registry without dependency cycles, a depth above the key's rank
      never exhausts the stack. */
  lemma {:induction false} ResolveRankedTerminates(reg: Registrations, rank: map<TypeId, nat>, key: TypeId, depth: nat)
    requires Ranked(reg, rank)
    requires key in rank && rank[key] < depth
    ensures ResolveType(reg, key, depth) != Err(StackExhausted)
    decreases depth, 0, 0
  {
    if key in reg && reg[key].Transient? {
      var t := reg[key].impl;
      var c := GetConstructor(reg, t);
      if c.Ok? {
        GetParametersRankedTerminates(reg, rank, t.ctors[c.value].params, depth - 1);
      }
    }
  }

  lemma {:induction false} GetParametersRankedTerminates(reg: Registrations, rank: map<TypeId, nat>, ps: seq<TypeId>, depth: nat)
    requires Ranked(reg, rank)
    requires forall k | 0 <= k < |ps| && ps[k] in rank :: rank[ps[k]] < depth
    ensures GetParameters(reg, ps, depth) != Err(StackExhausted)
    decreases depth, 1, |ps|
  {
    if ps != [] {
      if ps[0] in rank {
        ResolveRankedTerminates(reg, rank, ps[0], depth);
      }
      GetParametersRankedTerminates(reg, rank, ps[1..], depth);
    }
  }
}
