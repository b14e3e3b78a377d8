/** Clients of the container that replay the behaviours its tests exercise,
    over test types whose shapes follow the tests: an interface `ISimple`, a
    base interface `IBase`, an abstract class and concrete classes with
    their constructors. */
module Scenarios {
  import opened Reflection
  import opened Registry
  import opened Selection
  import opened Resolution
  import opened LiteIoC

  const IBase := TypeDesc("IBase", true, {}, [])
  const ISimple := TypeDesc("ISimple", true, {"IBase"}, [])
  const SimpleAbstract := TypeDesc("SimpleAbstract", true, {"ISimple", "IBase"}, [Ctor([])])
  const SimpleObject := TypeDesc("SimpleObject", false, {"ISimple", "IBase"}, [Ctor([])])
  /** One constructor taking an `ISimple`. */
  const CompositeObject := TypeDesc("CompositeObject", false, {}, [Ctor(["ISimple"])])
  /** A default constructor and one taking an `ISimple`. */
  const MultiConstructorObject := TypeDesc("MultiConstructorObject", false, {}, [Ctor([]), Ctor(["ISimple"])])

  method ResolveUnregisteredFails()
  {
    var c := new Container(8);
    var r := c.Resolve("SimpleObject");
    assert r == Err(NotRegistered);
  }

  method RegistrationFailures()
  {
    var c := new Container(8);
    var o := c.Register("SimpleObject", SimpleObject);
    assert o == Pass;
    var regs := c.registeredTypes;
    o := c.Register("SimpleObject", SimpleObject);
    assert o == Fail(AlreadyRegistered) && ExceptionOf(o.error) == InvalidOperationException;
    o := c.Register("ISimple", ISimple);
    assert o == Fail(NotConstructible) && ExceptionOf(o.error) == ArgumentException;
    o := c.Register("ISimple", SimpleAbstract);
    assert o == Fail(NotConstructible) && ExceptionOf(o.error) == ArgumentException;
    o := c.Register("CompositeObject", SimpleObject);
    assert o == Fail(NotAssignable) && ExceptionOf(o.error) == ArgumentException;
    assert c.registeredTypes == regs;
  }

  method ResolveUnderInterfaceKeys()
  {
    var c := new Container(8);
    var o := c.Register("ISimple", SimpleObject);
    o := c.Register("IBase", SimpleObject);
    o := c.Register("SimpleObject", SimpleObject);
    assert c.registeredTypes["ISimple"] == Transient(SimpleObject);
    var r1 := c.Resolve("ISimple");
    var r2 := c.Resolve("IBase");
    var r3 := c.Resolve("SimpleObject");
    assert GetConstructor(c.registeredTypes, SimpleObject) == Ok(0);
    assert r1 == r2 == r3 == Ok(Constructed(SimpleObject, 0, []));
    assert TypeOf(r1.value) == SimpleObject;
  }

  method ViabilityIsDecidedAtResolution()
  {
    var c := new Container(8);
    var o := c.Register("CompositeObject", CompositeObject);
    assert o == Pass;
    var r := c.Resolve("CompositeObject");
    assert !IsViableConstructor(c.registeredTypes, CompositeObject.ctors[0]);
    assert r == Err(NoViableConstructor);
    o := c.Register("ISimple", SimpleObject);
    var regs := c.registeredTypes;
    assert IsViableConstructor(regs, CompositeObject.ctors[0]);
    assert GetConstructor(regs, CompositeObject) == Ok(0);
    assert GetConstructor(regs, SimpleObject) == Ok(0);
    var simple := Constructed(SimpleObject, 0, []);
    assert ResolveType(regs, "ISimple", 7) == Ok(simple);
    var ps: seq<TypeId> := ["ISimple"];
    assert ps[0] == "ISimple";
    GetParametersInOrder(regs, ps, 7);
    var args := GetParameters(regs, ps, 7).value;
    assert |args| == 1 && args[0] == simple;
    assert args == [simple];
    r := c.Resolve("CompositeObject");
    assert r == Ok(Constructed(CompositeObject, 0, [simple]));
  }

  method MostParametersWins()
  {
    var c := new Container(8);
    var o := c.Register("MultiConstructorObject", MultiConstructorObject);
    assert GetConstructor(c.registeredTypes, MultiConstructorObject) == Ok(0);
    var r := c.Resolve("MultiConstructorObject");
    assert r == Ok(Constructed(MultiConstructorObject, 0, []));
    o := c.Register("ISimple", SimpleObject);
    var regs := c.registeredTypes;
    assert GetConstructor(regs, MultiConstructorObject) == Ok(1);
    assert GetConstructor(regs, SimpleObject) == Ok(0);
    var simple := Constructed(SimpleObject, 0, []);
    assert ResolveType(regs, "ISimple", 7) == Ok(simple);
    var ps: seq<TypeId> := ["ISimple"];
    assert ps[0] == "ISimple";
    GetParametersInOrder(regs, ps, 7);
    var args := GetParameters(regs, ps, 7).value;
    assert |args| == 1 && args[0] == simple;
    assert args == [simple];
    r := c.Resolve("MultiConstructorObject");
    assert r == Ok(Constructed(MultiConstructorObject, 1, [simple]));
  }

  method InstanceIsShared()
  {
    var c := new Container(8);
    var obj := Instance(1, SimpleObject);
    var o := c.RegisterInstance("ISimple", obj);
    assert o == Pass;
    var r1 := c.Resolve("ISimple");
    var r2 := c.Resolve("ISimple");
    assert r1 == r2 == Ok(Existing(obj));
  }

  /** Viability asks only whether each parameter type has an entry, not
      whether it can be resolved: registering a dependency whose own
      constructors are not viable turns a working resolution into a failure. */
  method ViabilityDoesNotLookDeeper()
  {
    var holder := TypeDesc("Holder", false, {}, [Ctor([]), Ctor(["CompositeObject"])]);
    var c := new Container(8);
    var o := c.Register("Holder", holder);
    assert GetConstructor(c.registeredTypes, holder) == Ok(0);
    var r := c.Resolve("Holder");
    assert r == Ok(Constructed(holder, 0, []));
    o := c.Register("CompositeObject", CompositeObject);
    var regs := c.registeredTypes;
    assert GetConstructor(regs, holder) == Ok(1);
    assert GetConstructor(regs, CompositeObject) == Err(NoViableConstructor);
    var ps: seq<TypeId> := ["CompositeObject"];
    assert ps[0] == "CompositeObject";
    GetParametersInOrder(regs, ps, 7);
    assert GetParameters(regs, ps, 7) == Err(NoViableConstructor);
    r := c.Resolve("Holder");
    assert r == Err(NoViableConstructor);
  }

  /** A type whose only constructor takes itself. */
  const SelfDependent := TypeDesc("SelfDependent", false, {}, [Ctor(["SelfDependent"])])

  /** Without cycle detection, a type that depends on itself exhausts the
      stack whatever its size. */
  lemma {:induction false} SelfDependenceExhaustsStack(depth: nat)
    ensures ResolveType(map["SelfDependent" := Transient(SelfDependent)], "SelfDependent", depth) == Err(StackExhausted)
  {
    var reg := map["SelfDependent" := Transient(SelfDependent)];
    if depth > 0 {
      SelfDependenceExhaustsStack(depth - 1);
      assert IsViableConstructor(reg, SelfDependent.ctors[0]);
      assert GetConstructor(reg, SelfDependent) == Ok(0);
      var ps := SelfDependent.ctors[0].params;
      assert ps[0] == "SelfDependent";
      assert GetParameters(reg, ps, depth - 1) == Err(StackExhausted);
      assert Construct(reg, SelfDependent, depth - 1) == Err(StackExhausted);
    }
  }
}
