/**
  The runtime surface the comparer works against, as data.

  The C# code discovers properties by reflection (`GetProperties`), reads them
  through delegates (`DynamicInvoke`, `PropertyInfo.GetValue`), creates objects
  with `Activator.CreateInstance` and writes them with `PropertyInfo.SetValue`.
  Here a type is a `ClrType`, an object graph is a `Value`, the declared
  properties of every type come from a `Schema`, and each reflective call is a
  function that either yields a value or fails with an `Error`.
*/
module Model {
  import opened Wrappers

  /** A .NET type, as far as the comparer inspects it. */
  datatype ClrType =
    | Primitive(name: string)          // a type whose `IsPrimitive` holds: Int32, Boolean, Char, Double, ...
    | StringType                        // System.String
    | NullableOf(underlying: ClrType)   // Nullable<T>
    | ListOf(element: ClrType)          // List<T>
    | Named(name: string)               // every other class or struct (user classes, DateTime, decimal, enums, ...)

  /**
    A value type, as far as the model tells types apart: a primitive or a
    `Nullable<>`. Every `Named` type is treated as a class.
  */
  predicate IsValueType(t: ClrType) {
    t.Primitive? || t.NullableOf?
  }

  /** A runtime value. Boxed primitives carry their type name and an integer payload. */
  datatype Value =
    | Null
    | Prim(ty: string, bits: int)
    | Str(s: string)
    | Obj(ty: string, fields: map<string, Value>)
    | List(element: ClrType, items: seq<Value>)

  /** One public property of a type, in declaration order. */
  datatype Property = Property(name: string, ty: ClrType)

  /** What `typeof(T).GetProperties()` returns for every type T. */
  type Schema = map<ClrType, seq<Property>>

  /** The registry's identity for a mapping: (source type, destination type, diff type). */
  datatype MappingKey = MappingKey(source: ClrType, destination: ClrType, diff: ClrType)

  /** The exceptions the comparer can raise. */
  datatype Error =
    | NotConfigured(key: MappingKey)   // "No mapping configuration exists for these types"
    | NotMemberAccess                  // "Expression is not a member access"
    | RuntimeError                     // a reflection, cast or runtime-binder exception
    | DepthExhausted                   // the recursion did not bottom out within the fuel given

  /**
    How a rule reads one side. `Getter` is the `PropertyInfo.GetValue` delegate
    installed by automatic registration; `Lambda` is a caller-supplied
    `Func<T, TProperty>` invoked through `DynamicInvoke`.
  */
  datatype Accessor =
    | Getter(owner: ClrType, property: string)
    | Lambda(param: ClrType, f: Value -> Value)

  /** `GetType()` of a non-null value. */
  function RuntimeType(v: Value): (t: ClrType)
    requires !v.Null?
    ensures t.ListOf? <==> v.List?
    ensures t.Named? <==> v.Obj?
    ensures v.Obj? ==> t == Named(v.ty)
    ensures v.List? ==> t == ListOf(v.element)
  {
    match v
    case Prim(ty, _) => Primitive(ty)
    case Str(_) => StringType
    case Obj(ty, _) => Named(ty)
    case List(e, _) => ListOf(e)
  }

  /** The declared properties of `t`; a type the schema does not list has none. */
  function Props(schema: Schema, t: ClrType): seq<Property> {
    if t in schema then schema[t] else []
  }

  /** `props.FirstOrDefault(p => p.Name == name) != null`. */
  predicate HasProperty(props: seq<Property>, name: string) {
    exists i :: 0 <= i < |props| && props[i].name == name
  }

  predicate DistinctNames(props: seq<Property>) {
    forall i, j :: 0 <= i < j < |props| ==> props[i].name != props[j].name
  }

  /** A C# type never declares two public properties with the same name. */
  predicate WellFormed(schema: Schema) {
    forall t :: t in schema ==> DistinctNames(schema[t])
  }

  /**
    The value a property of type `t` holds in a freshly constructed object, and
    what `SetValue(obj, null)` stores in it: zero for a non-nullable primitive,
    null for everything else.
  */
  function DefaultValue(t: ClrType): (v: Value)
    ensures v == Null <==> !t.Primitive?
    ensures t.Primitive? ==> v == Prim(t.name, 0)
  {
    if t.Primitive? then Prim(t.name, 0) else Null
  }

  /** The property values of a freshly constructed object of a type with `props`. */
  function DefaultFields(props: seq<Property>): (fields: map<string, Value>)
    ensures props != [] ==> props[0].name in fields
  {
    if props == [] then map[]
    else DefaultFields(props[1..])[props[0].name := DefaultValue(props[0].ty)]
  }

  /** A fresh object has a slot for exactly the declared properties. */
  lemma {:induction false} DefaultFieldsDomain(props: seq<Property>)
    ensures forall n :: n in DefaultFields(props) <==> HasProperty(props, n)
    ensures forall i :: 0 <= i < |props| ==> props[i].name in DefaultFields(props)
    decreases |props|
  {
    if props != [] {
      var tail := props[1..];
      DefaultFieldsDomain(tail);
      forall n | HasProperty(props, n) && n != props[0].name ensures HasProperty(tail, n) {
        var i :| 0 <= i < |props| && props[i].name == n;
        assert tail[i - 1] == props[i];
      }
      forall n | HasProperty(tail, n) ensures HasProperty(props, n) {
        var i :| 0 <= i < |tail| && tail[i].name == n;
        assert props[i + 1] == tail[i];
      }
    }
  }

  /** When the names are distinct, each slot of a fresh object holds its property type's default. */
  lemma {:induction false} DefaultFieldsValues(props: seq<Property>)
    requires DistinctNames(props)
    ensures forall i :: 0 <= i < |props| ==>
      props[i].name in DefaultFields(props) && DefaultFields(props)[props[i].name] == DefaultValue(props[i].ty)
    decreases |props|
  {
    if props != [] {
      var tail := props[1..];
      assert DistinctNames(tail) by {
        forall k, l | 0 <= k < l < |tail| ensures tail[k].name != tail[l].name {
          assert tail[k] == props[k + 1] && tail[l] == props[l + 1];
        }
      }
      DefaultFieldsValues(tail);
      forall i | 0 < i < |props|
        ensures props[i].name in DefaultFields(props) && DefaultFields(props)[props[i].name] == DefaultValue(props[i].ty)
      {
        assert tail[i - 1] == props[i];
      }
    }
  }

  /**
    `Activator.CreateInstance(t)`: a class gets all its properties at their
    defaults, a primitive is zero, `Nullable<T>` is null, a list is empty, and
    `string` has no parameterless constructor.
  */
  function Instantiate(schema: Schema, t: ClrType): (r: Result<Value, Error>)
    ensures r.Success? <==> !t.StringType?
    ensures t.Named? ==> r == Success(Obj(t.name, DefaultFields(Props(schema, t))))
  {
    match t
    case Named(n) => Success(Obj(n, DefaultFields(Props(schema, t))))
    case Primitive(n) => Success(Prim(n, 0))
    case NullableOf(_) => Success(Null)
    case ListOf(e) => Success(List(e, []))
    case StringType => Failure(RuntimeError)
  }

  /**
    Calls an accessor on `arg`. `GetValue` needs a non-null target of the
    declaring type; `DynamicInvoke` needs an argument of the parameter type or
    null. A property missing from an object's field map reads as null.
  */
  function Invoke(acc: Accessor, arg: Value): (r: Result<Value, Error>)
    ensures acc.Getter? ==>
      (r.Success? <==> arg.Obj? && RuntimeType(arg) == acc.owner)
    ensures acc.Getter? && r.Success? && acc.property in arg.fields ==> r.value == arg.fields[acc.property]
    ensures acc.Lambda? ==>
      (r.Success? <==> arg.Null? || RuntimeType(arg) == acc.param)
    ensures acc.Lambda? && r.Success? ==> r.value == acc.f(arg)
  {
    match acc
    case Getter(owner, name) =>
      if arg.Obj? && RuntimeType(arg) == owner then
        Success(if name in arg.fields then arg.fields[name] else Null)
      else Failure(RuntimeError)
    case Lambda(param, f) =>
      if arg.Null? || RuntimeType(arg) == param then Success(f(arg)) else Failure(RuntimeError)
  }

  /**
    `IsPropertyTypeIsPrimitive`: a property is compared as a scalar when its
    type, with one `Nullable<>` removed, is a .NET primitive or `string`.
  */
  function IsPrimitiveProperty(t: ClrType): (r: bool)
    ensures t.Primitive? || t.StringType? ==> r
    ensures t.ListOf? || t.Named? ==> !r
    ensures t.NullableOf? && !t.underlying.NullableOf? ==> r == IsPrimitiveProperty(t.underlying)
    ensures t.NullableOf? && t.underlying.NullableOf? ==> !r
  {
    var u := if t.NullableOf? then t.underlying else t;
    u.Primitive? || u.StringType?
  }
}
