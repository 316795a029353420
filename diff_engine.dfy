/**
  What one diff computes: `EntityComparer.Map` and `MappingExpression.Map`
  written as functions. The imperative versions in `DiffExecution` are proved
  to compute exactly these.

  `MappingExpression.Map` walks the diff type's properties in declaration
  order and, for each one, either compares it as a scalar, reconciles it as a
  correlated list, diffs it recursively through the registry, or leaves it
  alone. The recursion is bounded by `fuel`: each nested `Map` call spends
  one unit, and running out yields `DepthExhausted` where the C# code would
  recurse without end.
*/
module DiffEngine {
  import opened Wrappers
  import opened Model
  import opened ListComparison
  import opened MappingExpressions

  /** `EntityComparer._mappings`, keyed by type triple. */
  type Registry = map<MappingKey, RuleTable>

  /** `GetMappingExpression`: the rule table registered for `key`, or the "no mapping" exception. */
  function Resolve(reg: Registry, key: MappingKey): (r: Result<RuleTable, Error>)
    ensures r.Success? <==> key in reg
    ensures r.Success? ==> r.value == reg[key]
    ensures r.Failure? ==> r.error == NotConfigured(key)
  {
    if key in reg then Success(reg[key]) else Failure(NotConfigured(key))
  }

  /** What `SetValue` leaves in a property of type `t` when given `v`: null becomes the type's default. */
  function Stored(v: Value, t: ClrType): (s: Value)
    ensures v != Null ==> s == v
    ensures v == Null ==> s == DefaultValue(t)
  {
    if v == Null then DefaultValue(t) else v
  }

  /** Every property of `before` other than `name` holds the same value in `after`. */
  ghost predicate AgreeExcept(after: map<string, Value>, before: map<string, Value>, name: string) {
    forall n :: n in before && n != name ==> n in after && after[n] == before[n]
  }

  /** `p.SetValue(target, v)`: only an object has properties to set. */
  function SetValue(target: Value, p: Property, v: Value): (r: Result<Value, Error>)
    ensures r.Success? <==> target.Obj?
    ensures r.Success? ==> r.value.Obj? && r.value.ty == target.ty && r.value.fields.Keys == target.fields.Keys + {p.name}
    ensures r.Success? ==> r.value.fields[p.name] == Stored(v, p.ty)
    ensures r.Success? ==> AgreeExcept(r.value.fields, target.fields, p.name)
  {
    if target.Obj? then Success(Obj(target.ty, target.fields[p.name := Stored(v, p.ty)])) else Failure(RuntimeError)
  }

  /**
    `ComparePrimitiveType`: the value handed to `SetValue` is the destination
    value when `Equals(sourceValue, newValue)` is false, and null otherwise.
  */
  function ComparePrimitive(m: PropertyMapping, source: Value, destination: Value): (r: Result<Value, Error>)
    ensures r.Success? <==> Invoke(m.source, source).Success? && Invoke(m.compare, destination).Success?
    ensures r.Success? ==>
      var sv, dv := Invoke(m.source, source).value, Invoke(m.compare, destination).value;
      (sv != dv ==> r.value == dv) && (sv == dv ==> r.value == Null)
  {
    var sv :- Invoke(m.source, source);
    var dv :- Invoke(m.compare, destination);
    Success(if sv == dv then Null else dv)
  }

  /**
    `EntityComparer.Map<TSource, TDestination, TDiff>`: resolve the static
    type triple, construct an empty diff and fill it.
  */
  function Diff(schema: Schema, reg: Registry, key: MappingKey, source: Value, destination: Value, fuel: nat)
    : (r: Result<Value, Error>)
    ensures key !in reg ==> r == Failure(NotConfigured(key))
    ensures r.Success? ==> key in reg && fuel > 0
  {
    var rules :- Resolve(reg, key);
    var diff :- Instantiate(schema, key.diff);
    MapInto(schema, reg, rules, key.diff, source, destination, diff, fuel)
  }

  /** `MappingExpression<_, _, diffType>.Map(source, destination, diff)`, returning the filled diff. */
  function MapInto(schema: Schema, reg: Registry, rules: RuleTable, diffType: ClrType,
                   source: Value, destination: Value, diff: Value, fuel: nat): (r: Result<Value, Error>)
    ensures r.Success? ==> fuel > 0
    decreases fuel, 0, 0
  {
    if fuel == 0 then Failure(DepthExhausted)
    else ApplyProps(schema, reg, rules, Props(schema, diffType), source, destination, diff, fuel - 1)
  }

  /** The `foreach` over the diff properties, from the property `props[0]` on. */
  function ApplyProps(schema: Schema, reg: Registry, rules: RuleTable, props: seq<Property>,
                      source: Value, destination: Value, diff: Value, fuel: nat): (r: Result<Value, Error>)
    ensures r.Success? && diff.Obj? ==> r.value.Obj? && r.value.ty == diff.ty
    decreases fuel, 4, |props|
  {
    if props == [] then Success(diff)
    else
      var outcome :- EvalProperty(schema, reg, rules, props[0], source, destination, fuel);
      var diff' :- if outcome.Some? then SetValue(diff, props[0], outcome.value) else Success(diff);
      ApplyProps(schema, reg, rules, props[1..], source, destination, diff', fuel)
  }

  /**
    The body of the `foreach` for one diff property: `Some(v)` when the code
    calls `SetValue` with `v`, `None` when it leaves the property alone.
  */
  function EvalProperty(schema: Schema, reg: Registry, rules: RuleTable, p: Property,
                        source: Value, destination: Value, fuel: nat): (r: Result<Option<Value>, Error>)
    ensures p.name !in rules ==> r == Success(None)
    ensures r.Success? && r.value.Some? && p.ty.ListOf? ==> r.value.value.List? && r.value.value.element == p.ty.element
    decreases fuel, 3, 0
  {
    if IsPrimitiveProperty(p.ty) && p.name in rules then
      var v :- ComparePrimitive(rules[p.name], source, destination);
      Success(Some(v))
    else if p.name in rules then
      var sv :- Invoke(rules[p.name].source, source);
      var dv :- Invoke(rules[p.name].compare, destination);
      if sv == Null || dv == Null then Success(None)
      else if p.ty.ListOf? then
        var list :- MapList(schema, reg, p.ty.element, sv, dv, fuel);
        Success(Some(list))
      else
        var inner :- Resolve(reg, MappingKey(RuntimeType(sv), RuntimeType(dv), p.ty));
        var diffValue :- Instantiate(schema, p.ty);
        var nested :- MapInto(schema, reg, inner, p.ty, sv, dv, diffValue, fuel);
        Success(Some(nested))
    else
      Success(None)
  }

  /**
    The `List<>` branch: both values must be lists of reference-type
    elements (the casts to `IEnumerable<dynamic>` refuse a list of value-type
    elements); the element triple must be registered; Added entries come
    first, then Modified entries.
  */
  function MapList(schema: Schema, reg: Registry, diffElement: ClrType, sourceValue: Value, destinationValue: Value,
                   fuel: nat): (r: Result<Value, Error>)
    ensures r.Success? ==> sourceValue.List? && destinationValue.List?
    ensures r.Success? ==> MappingKey(sourceValue.element, destinationValue.element, diffElement) in reg
    ensures r.Success? ==> r.value.List? && r.value.element == diffElement
    decreases fuel, 2, 0
  {
    if !sourceValue.List? || !destinationValue.List? then Failure(RuntimeError)
    else if IsValueType(sourceValue.element) || IsValueType(destinationValue.element) then Failure(RuntimeError)
    else
      var inner :- Resolve(reg, MappingKey(sourceValue.element, destinationValue.element, diffElement));
      var partition :- CompareLists(sourceValue.items, destinationValue.items);
      var added :- MapAdded(schema, reg, inner, sourceValue.element, diffElement, partition.added, fuel);
      var modified :- MapModified(schema, reg, inner, diffElement, destinationValue.items, partition.modified, fuel);
      Success(List(diffElement, added + modified))
  }

  /** One diff entry per added element: a fresh, default source element diffed against it. */
  function MapAdded(schema: Schema, reg: Registry, inner: RuleTable, sourceElement: ClrType, diffElement: ClrType,
                    added: seq<Value>, fuel: nat): (r: Result<seq<Value>, Error>)
    ensures r.Success? ==> |r.value| == |added|
    decreases fuel, 1, |added|
  {
    if added == [] then Success([])
    else
      var entry :- AddedEntry(schema, reg, inner, sourceElement, diffElement, added[0], fuel);
      var rest :- MapAdded(schema, reg, inner, sourceElement, diffElement, added[1..], fuel);
      Success([entry] + rest)
  }

  function AddedEntry(schema: Schema, reg: Registry, inner: RuleTable, sourceElement: ClrType, diffElement: ClrType,
                      addedObject: Value, fuel: nat): (r: Result<Value, Error>)
    ensures r.Success? ==> fuel > 0 && !diffElement.StringType? && !sourceElement.StringType?
    decreases fuel, 1, 0
  {
    var destinationElement :- Instantiate(schema, diffElement);
    var placeholder :- Instantiate(schema, sourceElement);
    MapInto(schema, reg, inner, diffElement, placeholder, addedObject, destinationElement, fuel)
  }

  /**
    One diff entry per modified element, diffed against the first element of
    the DESTINATION list with the same `Id`; an element for which no such
    partner is found contributes nothing.
  */
  function MapModified(schema: Schema, reg: Registry, inner: RuleTable, diffElement: ClrType,
                       destinationItems: seq<Value>, modified: seq<Value>, fuel: nat): (r: Result<seq<Value>, Error>)
    ensures r.Success? ==> |r.value| <= |modified|
    decreases fuel, 1, |modified|
  {
    if modified == [] then Success([])
    else
      var head :- ModifiedEntry(schema, reg, inner, diffElement, destinationItems, modified[0], fuel);
      var rest :- MapModified(schema, reg, inner, diffElement, destinationItems, modified[1..], fuel);
      Success(head + rest)
  }

  /** The entries one modified element contributes: none, or the one its partner yields. */
  function ModifiedEntry(schema: Schema, reg: Registry, inner: RuleTable, diffElement: ClrType,
                         destinationItems: seq<Value>, item: Value, fuel: nat): (r: Result<seq<Value>, Error>)
    ensures r.Success? ==> |r.value| <= 1 && (|r.value| == 1 <==> Partner(destinationItems, item).Some?)
    decreases fuel, 1, 0
  {
    var partner := Partner(destinationItems, item);
    if partner.None? then Success([])
    else
      var destinationElement :- Instantiate(schema, diffElement);
      var entry :- MapInto(schema, reg, inner, diffElement, partner.value, item, destinationElement, fuel);
      Success([entry])
  }

  /** `destinationArray.FirstOrDefault(x => x.Id == item.Id)`. */
  function Partner(destinationItems: seq<Value>, item: Value): (r: Option<Value>)
    ensures r.Some? ==> r.value in destinationItems && HasId(item) && HasId(r.value) && IdOf(r.value) == IdOf(item)
    ensures r.None? ==>
      !HasId(item) || forall i :: 0 <= i < |destinationItems| && HasId(destinationItems[i]) ==>
        IdOf(destinationItems[i]) != IdOf(item)
  {
    if HasId(item) then FirstWithId(destinationItems, IdOf(item)) else None
  }
}
