/**
  `MappingExpression.Map` as the C# code runs it: a `foreach` over the diff
  properties that sets them one by one on the diff object, and, for a list
  property, two `foreach` loops that append entries to a fresh diff list.
  Each method is proved to compute the function of `DiffEngine` that it
  implements, so everything proved about those functions holds of them.
*/
module DiffExecution {
  import opened Wrappers
  import opened Model
  import opened ListComparison
  import opened MappingExpressions
  import opened DiffEngine

  /** The entries gathered so far, followed by those the remaining work yields, unless that work fails. */
  function Prepend(prefix: seq<Value>, rest: Result<seq<Value>, Error>): (r: Result<seq<Value>, Error>)
    ensures r.Success? <==> rest.Success?
    ensures r.Success? ==> |r.value| == |prefix| + |rest.value| && r.value[..|prefix|] == prefix
    ensures r.Failure? ==> r.error == rest.error
  {
    if rest.Success? then Success(prefix + rest.value) else Failure(rest.error)
  }

  lemma PrependAppend(prefix: seq<Value>, entries: seq<Value>, rest: Result<seq<Value>, Error>)
    ensures Prepend(prefix, Prepend(entries, rest)) == Prepend(prefix + entries, rest)
  {
    if rest.Success? {
      assert prefix + (entries + rest.value) == prefix + entries + rest.value;
    }
  }

  /** One step of `MapAdded`: the first entry, then the rest. */
  lemma MapAddedStep(schema: Schema, reg: Registry, inner: RuleTable, sourceElement: ClrType, diffElement: ClrType,
                     added: seq<Value>, fuel: nat)
    requires added != []
    ensures var entry := AddedEntry(schema, reg, inner, sourceElement, diffElement, added[0], fuel);
      MapAdded(schema, reg, inner, sourceElement, diffElement, added, fuel) ==
        if entry.Failure? then Failure(entry.error)
        else Prepend([entry.value], MapAdded(schema, reg, inner, sourceElement, diffElement, added[1..], fuel))
  {
  }

  /** One step of `MapModified`: the first element's entries, then the rest. */
  lemma MapModifiedStep(schema: Schema, reg: Registry, inner: RuleTable, diffElement: ClrType,
                        destinationItems: seq<Value>, modified: seq<Value>, fuel: nat)
    requires modified != []
    ensures var head := ModifiedEntry(schema, reg, inner, diffElement, destinationItems, modified[0], fuel);
      MapModified(schema, reg, inner, diffElement, destinationItems, modified, fuel) ==
        if head.Failure? then Failure(head.error)
        else Prepend(head.value, MapModified(schema, reg, inner, diffElement, destinationItems, modified[1..], fuel))
  {
  }

  /**
    `Map(source, destination, diff, configuration)` for a mapping with
    `rules` and diff type `diffType`: every nested call spends one unit of fuel.
  */
  method MapObject(schema: Schema, reg: Registry, rules: RuleTable, diffType: ClrType,
                   source: Value, destination: Value, diff: Value, fuel: nat) returns (r: Result<Value, Error>)
    ensures r == MapInto(schema, reg, rules, diffType, source, destination, diff, fuel)
    decreases fuel, 0
  {
    if fuel == 0 {
      return Failure(DepthExhausted);
    }
    r := MapProperties(schema, reg, rules, Props(schema, diffType), source, destination, diff, fuel - 1);
  }

  /**
    The `foreach` over the diff properties: each one, in declaration order, is
    evaluated and, when its step says so, set on the diff object; the first
    exception ends the walk.
  */
  method MapProperties(schema: Schema, reg: Registry, rules: RuleTable, props: seq<Property>,
                       source: Value, destination: Value, diff: Value, fuel: nat) returns (r: Result<Value, Error>)
    ensures r == ApplyProps(schema, reg, rules, props, source, destination, diff, fuel)
    decreases fuel, 4
  {
    var current := diff;
    var rest := props;
    while rest != []
      invariant ApplyProps(schema, reg, rules, props, source, destination, diff, fuel)
             == ApplyProps(schema, reg, rules, rest, source, destination, current, fuel)
    {
      var outcome := EvaluateProperty(schema, reg, rules, rest[0], source, destination, fuel);
      if outcome.Failure? {
        return Failure(outcome.error);
      }
      if outcome.value.Some? {
        var updated := SetValue(current, rest[0], outcome.value.value);
        if updated.Failure? {
          return Failure(updated.error);
        }
        current := updated.value;
      }
      rest := rest[1..];
    }
    return Success(current);
  }

  /**
    The body of the `foreach` for diff property `p`: a property without a
    rule is left alone, a scalar property is compared, anything else is
    handed to `EvaluateReference`.
  */
  method EvaluateProperty(schema: Schema, reg: Registry, rules: RuleTable, p: Property,
                          source: Value, destination: Value, fuel: nat) returns (r: Result<Option<Value>, Error>)
    ensures r == EvalProperty(schema, reg, rules, p, source, destination, fuel)
    decreases fuel, 3, 1
  {
    if p.name !in rules {
      return Success(None);
    }
    if IsPrimitiveProperty(p.ty) {
      var v := ComparePrimitive(rules[p.name], source, destination);
      r := if v.Failure? then Failure(v.error) else Success(Some(v.value));
      assert r == EvalProperty(schema, reg, rules, p, source, destination, fuel);
      return;
    }
    r := EvaluateReference(schema, reg, rules, p, source, destination, fuel);
  }

  /**
    A list or object property with a rule: both sides are read; when either
    is null the property is left alone, a list is reconciled, and an object is
    diffed through the mapping registered for the runtime types of the two
    values.
  */
  method EvaluateReference(schema: Schema, reg: Registry, rules: RuleTable, p: Property,
                           source: Value, destination: Value, fuel: nat) returns (r: Result<Option<Value>, Error>)
    requires p.name in rules && !IsPrimitiveProperty(p.ty)
    ensures r == EvalProperty(schema, reg, rules, p, source, destination, fuel)
    decreases fuel, 3, 0
  {
    var rule := rules[p.name];
    var sourceValue := Invoke(rule.source, source);
    if sourceValue.Failure? {
      return Failure(sourceValue.error);
    }
    var destinationValue := Invoke(rule.compare, destination);
    if destinationValue.Failure? {
      return Failure(destinationValue.error);
    }
    if sourceValue.value == Null || destinationValue.value == Null {
      return Success(None);
    }
    if p.ty.ListOf? {
      var list := ReconcileList(schema, reg, p.ty.element, sourceValue.value, destinationValue.value, fuel);
      r := if list.Failure? then Failure(list.error) else Success(Some(list.value));
      assert r == EvalProperty(schema, reg, rules, p, source, destination, fuel);
    } else {
      var nested := MapNested(schema, reg, p.ty, sourceValue.value, destinationValue.value, fuel);
      r := if nested.Failure? then Failure(nested.error) else Success(Some(nested.value));
      assert r == EvalProperty(schema, reg, rules, p, source, destination, fuel);
    }
  }

  /**
    The object branch: `GetMappingExpression` for the runtime types of the two
    values and the diff property's type, a fresh diff object, and a nested `Map`.
  */
  method MapNested(schema: Schema, reg: Registry, diffType: ClrType, sourceValue: Value, destinationValue: Value,
                   fuel: nat) returns (r: Result<Value, Error>)
    requires sourceValue != Null && destinationValue != Null && !diffType.StringType?
    ensures r == (var inner :- Resolve(reg, MappingKey(RuntimeType(sourceValue), RuntimeType(destinationValue), diffType));
                  var diff :- Instantiate(schema, diffType);
                  MapInto(schema, reg, inner, diffType, sourceValue, destinationValue, diff, fuel))
    decreases fuel, 2
  {
    var inner := Resolve(reg, MappingKey(RuntimeType(sourceValue), RuntimeType(destinationValue), diffType));
    if inner.Failure? {
      return Failure(inner.error);
    }
    // A `string` property is compared as a scalar, so the diff type here has a parameterless constructor.
    var diff := Instantiate(schema, diffType);
    if diff.Failure? {
      assert false;
    }
    r := MapObject(schema, reg, inner.value, diffType, sourceValue, destinationValue, diff.value, fuel);
  }

  /**
    The `List<>` branch: the element triple must be registered and both lists
    must have `Id`s; one diff list then collects the Added entries followed by
    the Modified ones.
  */
  method ReconcileList(schema: Schema, reg: Registry, diffElement: ClrType, sourceValue: Value,
                       destinationValue: Value, fuel: nat) returns (r: Result<Value, Error>)
    ensures r == MapList(schema, reg, diffElement, sourceValue, destinationValue, fuel)
    decreases fuel, 2
  {
    if !sourceValue.List? || !destinationValue.List? {
      return Failure(RuntimeError);
    }
    if IsValueType(sourceValue.element) || IsValueType(destinationValue.element) {
      return Failure(RuntimeError);
    }
    var inner := Resolve(reg, MappingKey(sourceValue.element, destinationValue.element, diffElement));
    if inner.Failure? {
      return Failure(inner.error);
    }
    var result := CompareLists(sourceValue.items, destinationValue.items);
    if result.Failure? {
      return Failure(result.error);
    }
    var diffArray := AppendAdded(schema, reg, inner.value, sourceValue.element, diffElement, [],
                                 result.value.added, fuel);
    if diffArray.Failure? {
      return Failure(diffArray.error);
    }
    var complete := AppendModified(schema, reg, inner.value, diffElement, destinationValue.items, diffArray.value,
                                   result.value.modified, fuel);
    if complete.Failure? {
      return Failure(complete.error);
    }
    return Success(List(diffElement, complete.value));
  }

  /**
    The first `foreach`: for each added element, a fresh diff element and a
    fresh, default source element, diffed against the added element and
    appended to `diffArray`.
  */
  method AppendAdded(schema: Schema, reg: Registry, inner: RuleTable, sourceElement: ClrType, diffElement: ClrType,
                     diffArray: seq<Value>, added: seq<Value>, fuel: nat) returns (r: Result<seq<Value>, Error>)
    ensures r == Prepend(diffArray, MapAdded(schema, reg, inner, sourceElement, diffElement, added, fuel))
    decreases fuel, 1
  {
    var entries := diffArray;
    var rest := added;
    while rest != []
      invariant Prepend(diffArray, MapAdded(schema, reg, inner, sourceElement, diffElement, added, fuel))
             == Prepend(entries, MapAdded(schema, reg, inner, sourceElement, diffElement, rest, fuel))
    {
      MapAddedStep(schema, reg, inner, sourceElement, diffElement, rest, fuel);
      var destinationElement := Instantiate(schema, diffElement);
      if destinationElement.Failure? {
        return Failure(destinationElement.error);
      }
      var placeholder := Instantiate(schema, sourceElement);
      if placeholder.Failure? {
        return Failure(placeholder.error);
      }
      var entry := MapObject(schema, reg, inner, diffElement, placeholder.value, rest[0], destinationElement.value, fuel);
      if entry.Failure? {
        return Failure(entry.error);
      }
      PrependAppend(entries, [entry.value], MapAdded(schema, reg, inner, sourceElement, diffElement, rest[1..], fuel));
      entries := entries + [entry.value];
      rest := rest[1..];
    }
    assert entries + [] == entries;
    return Success(entries);
  }

  /**
    The second `foreach`: for each modified element whose `Id` occurs in the
    destination list, a fresh diff element, diffed from that partner to the
    modified element and appended to `diffArray`.
  */
  method AppendModified(schema: Schema, reg: Registry, inner: RuleTable, diffElement: ClrType,
                        destinationItems: seq<Value>, diffArray: seq<Value>, modified: seq<Value>, fuel: nat)
    returns (r: Result<seq<Value>, Error>)
    ensures r == Prepend(diffArray, MapModified(schema, reg, inner, diffElement, destinationItems, modified, fuel))
    decreases fuel, 1
  {
    var entries := diffArray;
    var rest := modified;
    while rest != []
      invariant Prepend(diffArray, MapModified(schema, reg, inner, diffElement, destinationItems, modified, fuel))
             == Prepend(entries, MapModified(schema, reg, inner, diffElement, destinationItems, rest, fuel))
    {
      MapModifiedStep(schema, reg, inner, diffElement, destinationItems, rest, fuel);
      ghost var later := MapModified(schema, reg, inner, diffElement, destinationItems, rest[1..], fuel);
      var partner := Partner(destinationItems, rest[0]);
      if partner.Some? {
        var destinationElement := Instantiate(schema, diffElement);
        if destinationElement.Failure? {
          return Failure(destinationElement.error);
        }
        var entry := MapObject(schema, reg, inner, diffElement, partner.value, rest[0], destinationElement.value, fuel);
        if entry.Failure? {
          return Failure(entry.error);
        }
        PrependAppend(entries, [entry.value], later);
        entries := entries + [entry.value];
      } else {
        assert Prepend([], later) == later;
      }
      rest := rest[1..];
    }
    assert entries + [] == entries;
    return Success(entries);
  }
}
