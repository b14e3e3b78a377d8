/** Constructor selection: keep the declared constructors whose parameter
    types are all registered, order them by parameter count (a stable sort,
    most parameters first) and take the first. */
module Selection {
  import opened Reflection
  import opened Registry

  /** `All(x => _registeredTypes.ContainsKey(x))` over parameter types. */
  function AllRegistered(reg: Registrations, ps: seq<TypeId>): (b: bool)
    ensures b <==> forall k | 0 <= k < |ps| :: ps[k] in reg
  {
    if ps == [] then true else ps[0] in reg && AllRegistered(reg, ps[1..])
  }

  /** `IsViableConstructor`. */
  function IsViableConstructor(reg: Registrations, c: Ctor): (b: bool)
    ensures b <==> forall p | p in c.params :: p in reg
  {
    AllRegistered(reg, c.params)
  }

  /** The indices, in enumeration order, of the viable constructors among
      `ctors[from..]` (the `Where(...).ToList()`). */
  function ViableFrom(reg: Registrations, ctors: seq<Ctor>, from: nat): (vs: seq<nat>)
    requires from <= |ctors|
    decreases |ctors| - from
  {
    if from == |ctors| then []
    else if IsViableConstructor(reg, ctors[from]) then [from] + ViableFrom(reg, ctors, from + 1)
    else ViableFrom(reg, ctors, from + 1)
  }

  function ViableConstructors(reg: Registrations, ctors: seq<Ctor>): seq<nat>
  {
    ViableFrom(reg, ctors, 0)
  }

  /** The filter keeps exactly the viable constructors, in enumeration order. */
  lemma {:induction false} ViableFromExactly(reg: Registrations, ctors: seq<Ctor>, from: nat)
    requires from <= |ctors|
    decreases |ctors| - from
    ensures var vs := ViableFrom(reg, ctors, from);
      && (forall k | 0 <= k < |vs| :: from <= vs[k] < |ctors| && IsViableConstructor(reg, ctors[vs[k]]))
      && (forall j | from <= j < |ctors| && IsViableConstructor(reg, ctors[j]) :: j in vs)
      && (forall k, l | 0 <= k < l < |vs| :: vs[k] < vs[l])
  {
    if from < |ctors| {
      ViableFromExactly(reg, ctors, from + 1);
      var rest := ViableFrom(reg, ctors, from + 1);
      if IsViableConstructor(reg, ctors[from]) {
        var vs := [from] + rest;
        assert ViableFrom(reg, ctors, from) == vs;
        forall k | 0 < k < |vs|
          ensures from < vs[k]
        {
          assert vs[k] == rest[k - 1];
        }
      }
    }
  }

  /** The sort key `x.GetParameters().Count()` of the constructor at index `i`. */
  function Arity(ctors: seq<Ctor>, i: nat): nat
  {
    if i < |ctors| then |ctors[i].params| else 0
  }

  ghost predicate SortedByArity(ctors: seq<Ctor>, s: seq<nat>)
  {
    forall k, l | 0 <= k < l < |s| :: Arity(ctors, s[k]) >= Arity(ctors, s[l])
  }

  /** Insert `x`, which precedes every element of `s` in the input order,
      before the first element whose arity is not greater: equal keys keep
      their input order. */
  function InsertByArity(ctors: seq<Ctor>, x: nat, s: seq<nat>): (r: seq<nat>)
    ensures |r| == |s| + 1
  {
    if s == [] || Arity(ctors, s[0]) <= Arity(ctors, x) then [x] + s
    else [s[0]] + InsertByArity(ctors, x, s[1..])
  }

  /** `OrderByDescending(x => x.GetParameters().Count())`: a stable sort of
      constructor indices, most parameters first. */
  function OrderByDescending(ctors: seq<Ctor>, vs: seq<nat>): (r: seq<nat>)
    ensures |r| == |vs|
  {
    if vs == [] then [] else InsertByArity(ctors, vs[0], OrderByDescending(ctors, vs[1..]))
  }

  lemma {:induction false} InsertByArityPermutes(ctors: seq<Ctor>, x: nat, s: seq<nat>)
    ensures multiset(InsertByArity(ctors, x, s)) == multiset([x] + s)
  {
    if s != [] && Arity(ctors, s[0]) > Arity(ctors, x) {
      InsertByArityPermutes(ctors, x, s[1..]);
      assert s == [s[0]] + s[1..];
    }
  }

  lemma {:induction false} InsertByAritySorted(ctors: seq<Ctor>, x: nat, s: seq<nat>)
    requires SortedByArity(ctors, s)
    ensures SortedByArity(ctors, InsertByArity(ctors, x, s))
  {
    if s != [] && Arity(ctors, s[0]) > Arity(ctors, x) {
      var tail := InsertByArity(ctors, x, s[1..]);
      InsertByAritySorted(ctors, x, s[1..]);
      assert tail[0] == x || tail[0] == s[1];
      var r := [s[0]] + tail;
      forall k, l | 0 <= k < l < |r|
        ensures Arity(ctors, r[k]) >= Arity(ctors, r[l])
      {
        if k == 0 && l > 1 {
          assert Arity(ctors, tail[0]) >= Arity(ctors, tail[l - 1]);
        }
      }
    }
  }

  /** The sort returns a permutation of its input, ordered by non-increasing
      parameter count. */
  lemma {:induction false} OrderByDescendingSorted(ctors: seq<Ctor>, vs: seq<nat>)
    ensures multiset(OrderByDescending(ctors, vs)) == multiset(vs)
    ensures SortedByArity(ctors, OrderByDescending(ctors, vs))
  {
    if vs != [] {
      OrderByDescendingSorted(ctors, vs[1..]);
      InsertByArityPermutes(ctors, vs[0], OrderByDescending(ctors, vs[1..]));
      InsertByAritySorted(ctors, vs[0], OrderByDescending(ctors, vs[1..]));
      assert vs == [vs[0]] + vs[1..];
    }
  }

  /** Elements of equal arity keep their input order, when that order is
      increasing index order. */
  ghost predicate StableByArity(ctors: seq<Ctor>, s: seq<nat>)
  {
    forall k, l | 0 <= k < l < |s| && Arity(ctors, s[k]) == Arity(ctors, s[l]) :: s[k] < s[l]
  }

  /** Every element of the insertion is `x` or an element of `s`. */
  lemma {:induction false} InsertByArityElements(ctors: seq<Ctor>, x: nat, s: seq<nat>)
    ensures forall y | y in InsertByArity(ctors, x, s) :: y == x || y in s
  {
    if s != [] && Arity(ctors, s[0]) > Arity(ctors, x) {
      InsertByArityElements(ctors, x, s[1..]);
      assert forall y | y in s[1..] :: y in s;
    }
  }

  lemma {:induction false} InsertByArityStable(ctors: seq<Ctor>, x: nat, s: seq<nat>)
    requires forall k | 0 <= k < |s| :: x < s[k]
    requires StableByArity(ctors, s)
    ensures StableByArity(ctors, InsertByArity(ctors, x, s))
  {
    if s != [] && Arity(ctors, s[0]) > Arity(ctors, x) {
      var tail := InsertByArity(ctors, x, s[1..]);
      InsertByArityStable(ctors, x, s[1..]);
      InsertByArityElements(ctors, x, s[1..]);
      var r := [s[0]] + tail;
      forall l | 0 < l < |r| && Arity(ctors, r[0]) == Arity(ctors, r[l])
        ensures r[0] < r[l]
      {
        var y := tail[l - 1];
        assert y in tail;
        if y != x {
          var j :| 0 <= j < |s[1..]| && s[1..][j] == y;
          assert s[1 + j] == y;
        }
      }
      forall k, l | 0 < k < l < |r|
        ensures r[k] == tail[k - 1] && r[l] == tail[l - 1]
      {
      }
    }
  }

  /** The sort is stable: constructors of equal arity stay in enumeration
      order. */
  lemma {:induction false} OrderByDescendingStable(ctors: seq<Ctor>, vs: seq<nat>)
    requires forall k, l | 0 <= k < l < |vs| :: vs[k] < vs[l]
    ensures StableByArity(ctors, OrderByDescending(ctors, vs))
  {
    if vs != [] {
      var rest := OrderByDescending(ctors, vs[1..]);
      OrderByDescendingStable(ctors, vs[1..]);
      OrderByDescendingSorted(ctors, vs[1..]);
      forall k | 0 <= k < |rest|
        ensures vs[0] < rest[k]
      {
        assert rest[k] in multiset(vs[1..]);
        var j :| 0 <= j < |vs[1..]| && vs[1..][j] == rest[k];
        assert vs[1 + j] == rest[k];
      }
      InsertByArityStable(ctors, vs[0], rest);
    }
  }

  /** Reference definition of the pick: the position in `vs` of the first
      element of greatest arity. */
  function MostParameters(ctors: seq<Ctor>, vs: seq<nat>): (m: nat)
    requires vs != []
    ensures m < |vs|
    ensures forall k | 0 <= k < |vs| :: Arity(ctors, vs[k]) <= Arity(ctors, vs[m])
    ensures forall k | 0 <= k < m :: Arity(ctors, vs[k]) < Arity(ctors, vs[m])
  {
    if |vs| == 1 then 0
    else
      var m := MostParameters(ctors, vs[1..]);
      if Arity(ctors, vs[0]) >= Arity(ctors, vs[1 + m]) then 0 else 1 + m
  }

  /** `First()` of the stable descending sort is the first element of greatest
      arity. */
  lemma {:induction false} OrderByDescendingFirst(ctors: seq<Ctor>, vs: seq<nat>)
    requires vs != []
    ensures OrderByDescending(ctors, vs)[0] == vs[MostParameters(ctors, vs)]
  {
    if |vs| > 1 {
      OrderByDescendingFirst(ctors, vs[1..]);
    }
  }

  /** The constructor that resolution must use: viable, with no viable
      constructor having more parameters, and every earlier viable
      constructor having fewer. */
  ghost predicate IsSelected(reg: Registrations, ctors: seq<Ctor>, i: nat)
  {
    && i < |ctors|
    && IsViableConstructor(reg, ctors[i])
    && (forall j | 0 <= j < |ctors| && IsViableConstructor(reg, ctors[j]) :: |ctors[j].params| <= |ctors[i].params|)
    && (forall j | 0 <= j < i && IsViableConstructor(reg, ctors[j]) :: |ctors[j].params| < |ctors[i].params|)
  }

  /** At most one constructor meets the selection rule. */
  lemma SelectionIsUnique(reg: Registrations, ctors: seq<Ctor>, i: nat, i': nat)
    requires IsSelected(reg, ctors, i) && IsSelected(reg, ctors, i')
    ensures i == i'
  {
  }

  /** The element at the reference position of the viable list meets the
      selection rule. */
  lemma {:induction false} MostParametersSelects(reg: Registrations, ctors: seq<Ctor>)
    requires ViableConstructors(reg, ctors) != []
    ensures IsSelected(reg, ctors, ViableConstructors(reg, ctors)[MostParameters(ctors, ViableConstructors(reg, ctors))])
  {
    var vs := ViableConstructors(reg, ctors);
    ViableFromExactly(reg, ctors, 0);
    var m := MostParameters(ctors, vs);
    var c := vs[m];
    forall j | 0 <= j < |ctors| && IsViableConstructor(reg, ctors[j])
      ensures |ctors[j].params| <= |ctors[c].params|
      ensures j < c ==> |ctors[j].params| < |ctors[c].params|
    {
      var k :| 0 <= k < |vs| && vs[k] == j;
      assert Arity(ctors, vs[k]) <= Arity(ctors, vs[m]);
      if j < c {
        assert k < m;
      }
    }
  }

  /** `GetConstructor`: fails exactly when no declared constructor is viable,
      and otherwise yields the index of the selected one. */
  function GetConstructor(reg: Registrations, t: TypeDesc): (r: Result<nat>)
    ensures r.Err? <==> forall j | 0 <= j < |t.ctors| :: !IsViableConstructor(reg, t.ctors[j])
    ensures r.Err? ==> r.error == NoViableConstructor
    ensures r.Ok? ==> IsSelected(reg, t.ctors, r.value)
  {
    var viable := ViableConstructors(reg, t.ctors);
    ViableFromExactly(reg, t.ctors, 0);
    if viable == [] then Err(NoViableConstructor)
    else
      OrderByDescendingFirst(t.ctors, viable);
      MostParametersSelects(reg, t.ctors);
      Ok(OrderByDescending(t.ctors, viable)[0])
  }

  /** Registering more keys never makes a viable constructor unviable. */
  lemma ViabilityPersists(reg: Registrations, reg': Registrations, c: Ctor)
    requires reg.Keys <= reg'.Keys
    requires IsViableConstructor(reg, c)
    ensures IsViableConstructor(reg', c)
  {
  }
}
