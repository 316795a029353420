/**
  What a diff promises, property by property: the scalar rule, the silent
  skip of unmapped properties, the null skip and unconditional assignment of
  nested diffs, the shape of a reconciled list, and the failure of the whole
  call when a nested mapping is missing.
*/
module DiffProperties {
  import opened Wrappers
  import opened Model
  import opened ListComparison
  import opened MappingExpressions
  import opened DiffEngine

  /** Every property in `props` already has a slot in the object `diff`, as in a freshly constructed one. */
  predicate HasSlots(diff: Value, props: seq<Property>) {
    diff.Obj? && forall i :: 0 <= i < |props| ==> props[i].name in diff.fields
  }

  /** The value property `p` ends with, given what its step of the `foreach` decided. */
  function Settled(diff: Value, p: Property, outcome: Option<Value>): Value
    requires diff.Obj? && p.name in diff.fields
  {
    if outcome.Some? then Stored(outcome.value, p.ty) else diff.fields[p.name]
  }

  /** What each step of the `foreach` decides, property by property. */
  function Outcomes(schema: Schema, reg: Registry, rules: RuleTable, props: seq<Property>,
                    source: Value, destination: Value, fuel: nat): (outcomes: seq<Result<Option<Value>, Error>>)
    ensures |outcomes| == |props|
  {
    if props == [] then []
    else [EvalProperty(schema, reg, rules, props[0], source, destination, fuel)]
         + Outcomes(schema, reg, rules, props[1..], source, destination, fuel)
  }

  /**
    The `foreach` once every step's outcome is known: the first failure
    ends it, and each `Some` outcome is set on the diff object in turn.
  */
  function Fold(props: seq<Property>, outcomes: seq<Result<Option<Value>, Error>>, diff: Value): Result<Value, Error>
    requires |outcomes| == |props|
  {
    if props == [] then Success(diff)
    else
      var outcome :- outcomes[0];
      var diff' :- if outcome.Some? then SetValue(diff, props[0], outcome.value) else Success(diff);
      Fold(props[1..], outcomes[1..], diff')
  }

  /** One step of the `foreach`: the first property's outcome, then the rest on the updated diff. */
  lemma {:induction false} ApplyPropsStep(schema: Schema, reg: Registry, rules: RuleTable, props: seq<Property>,
                                         source: Value, destination: Value, diff: Value, fuel: nat)
    requires props != []
    ensures var outcome := EvalProperty(schema, reg, rules, props[0], source, destination, fuel);
      ApplyProps(schema, reg, rules, props, source, destination, diff, fuel) ==
        if outcome.Failure? then Failure(outcome.error)
        else if outcome.value.None? then ApplyProps(schema, reg, rules, props[1..], source, destination, diff, fuel)
        else if !diff.Obj? then Failure(RuntimeError)
        else ApplyProps(schema, reg, rules, props[1..], source, destination,
                        SetValue(diff, props[0], outcome.value.value).value, fuel)
  {
  }

  /** One step of `Outcomes`. */
  lemma OutcomesStep(schema: Schema, reg: Registry, rules: RuleTable, props: seq<Property>,
                     source: Value, destination: Value, fuel: nat)
    requires props != []
    ensures var outcomes := Outcomes(schema, reg, rules, props, source, destination, fuel);
      outcomes[0] == EvalProperty(schema, reg, rules, props[0], source, destination, fuel) &&
      outcomes[1..] == Outcomes(schema, reg, rules, props[1..], source, destination, fuel)
  {
  }

  /** `ApplyProps` is the fold of its properties' outcomes. */
  lemma {:induction false} ApplyPropsIsFold(schema: Schema, reg: Registry, rules: RuleTable, props: seq<Property>,
                                            source: Value, destination: Value, diff: Value, fuel: nat)
    ensures ApplyProps(schema, reg, rules, props, source, destination, diff, fuel)
         == Fold(props, Outcomes(schema, reg, rules, props, source, destination, fuel), diff)
    decreases |props|
  {
    if props != [] {
      ApplyPropsStep(schema, reg, rules, props, source, destination, diff, fuel);
      OutcomesStep(schema, reg, rules, props, source, destination, fuel);
      var outcome := EvalProperty(schema, reg, rules, props[0], source, destination, fuel);
      if outcome.Success? && outcome.value.None? {
        ApplyPropsIsFold(schema, reg, rules, props[1..], source, destination, diff, fuel);
      } else if outcome.Success? && diff.Obj? {
        ApplyPropsIsFold(schema, reg, rules, props[1..], source, destination,
                         SetValue(diff, props[0], outcome.value.value).value, fuel);
      }
    }
  }

  /** The `i`-th outcome is the `i`-th property's step. */
  lemma {:induction false} OutcomesAt(schema: Schema, reg: Registry, rules: RuleTable, props: seq<Property>,
                                      source: Value, destination: Value, fuel: nat)
    ensures forall i :: 0 <= i < |props| ==>
      Outcomes(schema, reg, rules, props, source, destination, fuel)[i]
        == EvalProperty(schema, reg, rules, props[i], source, destination, fuel)
    decreases |props|
  {
    if props != [] {
      OutcomesAt(schema, reg, rules, props[1..], source, destination, fuel);
      assert forall i :: 1 <= i < |props| ==> props[i] == props[1..][i - 1];
    }
  }

  /** A fold over an object succeeds exactly when no outcome is a failure, and yields an object of the same type. */
  lemma {:induction false} FoldSucceeds(props: seq<Property>, outcomes: seq<Result<Option<Value>, Error>>, diff: Value)
    requires |outcomes| == |props| && diff.Obj?
    ensures Fold(props, outcomes, diff).Success? <==> forall i :: 0 <= i < |outcomes| ==> outcomes[i].Success?
    ensures Fold(props, outcomes, diff).Success? ==>
      Fold(props, outcomes, diff).value.Obj? && Fold(props, outcomes, diff).value.ty == diff.ty
    decreases |props|
  {
    if props != [] && outcomes[0].Success? {
      var outcome := outcomes[0].value;
      var diff' := if outcome.Some? then SetValue(diff, props[0], outcome.value).value else diff;
      FoldSucceeds(props[1..], outcomes[1..], diff');
      assert forall i :: 1 <= i < |outcomes| ==> outcomes[i] == outcomes[1..][i - 1];
    }
  }

  /**
    After a successful fold, each property ends with what its own outcome
    decided, independently of the others, and names outside the list keep
    their values.
  */
  lemma {:induction false} FoldSettles(props: seq<Property>, outcomes: seq<Result<Option<Value>, Error>>, diff: Value)
    requires |outcomes| == |props| && HasSlots(diff, props) && DistinctNames(props)
    requires Fold(props, outcomes, diff).Success?
    ensures forall i :: 0 <= i < |outcomes| ==> outcomes[i].Success?
    ensures var r := Fold(props, outcomes, diff).value;
      && r.Obj?
      && (forall i :: 0 <= i < |props| ==>
            props[i].name in r.fields && r.fields[props[i].name] == Settled(diff, props[i], outcomes[i].value))
      && (forall n :: !HasProperty(props, n) ==>
            (n in r.fields <==> n in diff.fields) && (n in diff.fields ==> r.fields[n] == diff.fields[n]))
    decreases |props|
  {
    FoldSucceeds(props, outcomes, diff);
    if props != [] {
      var p := props[0];
      var tail := props[1..];
      var outcome := outcomes[0].value;
      assert forall i :: 1 <= i < |props| ==> props[i] == tail[i - 1] && outcomes[i] == outcomes[1..][i - 1];
      assert DistinctNames(tail) by {
        forall i, j | 0 <= i < j < |tail| ensures tail[i].name != tail[j].name {
          assert tail[i] == props[i + 1] && tail[j] == props[j + 1];
        }
      }
      assert !HasProperty(tail, p.name) by {
        forall i | 0 <= i < |tail| ensures tail[i].name != p.name {
          assert tail[i] == props[i + 1];
        }
      }
      var diff' := if outcome.Some? then SetValue(diff, p, outcome.value).value else diff;
      assert diff'.fields[p.name] == Settled(diff, p, outcome);
      assert HasSlots(diff', tail);
      FoldSettles(tail, outcomes[1..], diff');
      var r := Fold(props, outcomes, diff).value;
      forall i | 0 <= i < |props|
        ensures props[i].name in r.fields && r.fields[props[i].name] == Settled(diff, props[i], outcomes[i].value)
      {
        if i > 0 {
          assert props[i] == tail[i - 1];
        }
      }
      forall n | !HasProperty(props, n)
        ensures (n in r.fields <==> n in diff.fields) && (n in diff.fields ==> r.fields[n] == diff.fields[n])
      {
        assert n != p.name;
      }
    }
  }

  /**
    The whole `foreach`: it succeeds exactly when every property's step
    does, and then the diff keeps its type, each property ends with what its
    own step decided, and properties outside the list keep their values.
  */
  lemma {:induction false} ApplyPropsFields(schema: Schema, reg: Registry, rules: RuleTable, props: seq<Property>,
                                          source: Value, destination: Value, diff: Value, fuel: nat)
    requires HasSlots(diff, props) && DistinctNames(props)
    ensures ApplyProps(schema, reg, rules, props, source, destination, diff, fuel).Success? <==>
      forall i :: 0 <= i < |props| ==> EvalProperty(schema, reg, rules, props[i], source, destination, fuel).Success?
    ensures ApplyProps(schema, reg, rules, props, source, destination, diff, fuel).Success? ==>
      var r := ApplyProps(schema, reg, rules, props, source, destination, diff, fuel).value;
      && r.Obj? && r.ty == diff.ty
      && (forall i :: 0 <= i < |props| ==>
            props[i].name in r.fields &&
            r.fields[props[i].name] ==
              Settled(diff, props[i], EvalProperty(schema, reg, rules, props[i], source, destination, fuel).value))
      && (forall n :: !HasProperty(props, n) ==>
            (n in r.fields <==> n in diff.fields) && (n in diff.fields ==> r.fields[n] == diff.fields[n]))
  {
    var outcomes := Outcomes(schema, reg, rules, props, source, destination, fuel);
    ApplyPropsIsFold(schema, reg, rules, props, source, destination, diff, fuel);
    OutcomesAt(schema, reg, rules, props, source, destination, fuel);
    FoldSucceeds(props, outcomes, diff);
    if Fold(props, outcomes, diff).Success? {
      FoldSettles(props, outcomes, diff);
    }
  }

  /** A diff object of `diffType` that `MapInto` may be handed: an object with a slot per declared property. */
  predicate Fillable(schema: Schema, diffType: ClrType, diff: Value) {
    DistinctNames(Props(schema, diffType)) && HasSlots(diff, Props(schema, diffType))
  }

  /** A property `p` of the diff type ends with what its own step decided. */
  lemma FieldOutcome(schema: Schema, reg: Registry, rules: RuleTable, diffType: ClrType,
                     source: Value, destination: Value, diff: Value, fuel: nat, p: Property)
    requires Fillable(schema, diffType, diff) && p in Props(schema, diffType)
    requires MapInto(schema, reg, rules, diffType, source, destination, diff, fuel).Success?
    ensures fuel > 0
    ensures EvalProperty(schema, reg, rules, p, source, destination, fuel - 1).Success?
    ensures var r := MapInto(schema, reg, rules, diffType, source, destination, diff, fuel).value;
      r.Obj? && p.name in r.fields &&
      r.fields[p.name] == Settled(diff, p, EvalProperty(schema, reg, rules, p, source, destination, fuel - 1).value)
  {
    ApplyPropsFields(schema, reg, rules, Props(schema, diffType), source, destination, diff, fuel - 1);
  }

  /**
    Scalar rule. For a property classified primitive that has a rule, the
    diff holds the destination value when it differs from the source value,
    and the property's default (null, or zero for a non-nullable primitive)
    when the two are equal or the destination value is null.
  */
  lemma ScalarRule(schema: Schema, reg: Registry, rules: RuleTable, diffType: ClrType,
                   source: Value, destination: Value, diff: Value, fuel: nat, p: Property)
    requires Fillable(schema, diffType, diff) && p in Props(schema, diffType)
    requires IsPrimitiveProperty(p.ty) && p.name in rules
    requires MapInto(schema, reg, rules, diffType, source, destination, diff, fuel).Success?
    ensures Invoke(rules[p.name].source, source).Success? && Invoke(rules[p.name].compare, destination).Success?
    ensures var r := MapInto(schema, reg, rules, diffType, source, destination, diff, fuel).value;
      var sv, dv := Invoke(rules[p.name].source, source).value, Invoke(rules[p.name].compare, destination).value;
      r.Obj? && p.name in r.fields &&
      (sv != dv && dv != Null ==> r.fields[p.name] == dv) &&
      (sv == dv || dv == Null ==> r.fields[p.name] == DefaultValue(p.ty))
  {
    FieldOutcome(schema, reg, rules, diffType, source, destination, diff, fuel, p);
  }

  /** A diff property without a rule keeps the value it had: unmapped properties are inert. */
  lemma UnmappedPropertyInert(schema: Schema, reg: Registry, rules: RuleTable, diffType: ClrType,
                              source: Value, destination: Value, diff: Value, fuel: nat, p: Property)
    requires Fillable(schema, diffType, diff) && p in Props(schema, diffType)
    requires p.name !in rules
    requires MapInto(schema, reg, rules, diffType, source, destination, diff, fuel).Success?
    ensures var r := MapInto(schema, reg, rules, diffType, source, destination, diff, fuel).value;
      r.Obj? && p.name in r.fields && r.fields[p.name] == diff.fields[p.name]
  {
    FieldOutcome(schema, reg, rules, diffType, source, destination, diff, fuel, p);
  }

  /**
    A non-primitive property (nested object or list) whose rule yields null
    on either side is left untouched.
  */
  lemma NullSideSkipped(schema: Schema, reg: Registry, rules: RuleTable, diffType: ClrType,
                        source: Value, destination: Value, diff: Value, fuel: nat, p: Property)
    requires Fillable(schema, diffType, diff) && p in Props(schema, diffType)
    requires !IsPrimitiveProperty(p.ty) && p.name in rules
    requires Invoke(rules[p.name].source, source) == Success(Null) ||
             Invoke(rules[p.name].compare, destination) == Success(Null)
    requires MapInto(schema, reg, rules, diffType, source, destination, diff, fuel).Success?
    ensures var r := MapInto(schema, reg, rules, diffType, source, destination, diff, fuel).value;
      r.Obj? && p.name in r.fields && r.fields[p.name] == diff.fields[p.name]
  {
    FieldOutcome(schema, reg, rules, diffType, source, destination, diff, fuel, p);
  }

  /** `MapInto` on an object yields an object of the same type. */
  lemma MapIntoKeepsObject(schema: Schema, reg: Registry, rules: RuleTable, diffType: ClrType,
                           source: Value, destination: Value, diff: Value, fuel: nat)
    requires Fillable(schema, diffType, diff)
    requires MapInto(schema, reg, rules, diffType, source, destination, diff, fuel).Success?
    ensures var r := MapInto(schema, reg, rules, diffType, source, destination, diff, fuel).value;
      r.Obj? && r.ty == diff.ty
  {
    ApplyPropsFields(schema, reg, rules, Props(schema, diffType), source, destination, diff, fuel - 1);
  }

  /**
    Nested rule. When both sides of a nested (non-primitive, non-list)
    property are non-null, the triple (runtime source type, runtime
    destination type, declared diff type) is registered and the property is
    assigned the nested diff computed from a blank diff object, always, even
    when none of its own fields changed.
  */
  lemma NestedAlwaysAssigned(schema: Schema, reg: Registry, rules: RuleTable, diffType: ClrType,
                             source: Value, destination: Value, diff: Value, fuel: nat, p: Property)
    requires WellFormed(schema)
    requires Fillable(schema, diffType, diff) && p in Props(schema, diffType)
    requires !IsPrimitiveProperty(p.ty) && !p.ty.ListOf? && p.name in rules
    requires MapInto(schema, reg, rules, diffType, source, destination, diff, fuel).Success?
    requires Invoke(rules[p.name].source, source).Success? && Invoke(rules[p.name].compare, destination).Success?
    requires Invoke(rules[p.name].source, source).value != Null
    requires Invoke(rules[p.name].compare, destination).value != Null
    ensures var sv, dv := Invoke(rules[p.name].source, source).value, Invoke(rules[p.name].compare, destination).value;
      var key := MappingKey(RuntimeType(sv), RuntimeType(dv), p.ty);
      var r := MapInto(schema, reg, rules, diffType, source, destination, diff, fuel).value;
      && key in reg
      && Instantiate(schema, p.ty).Success?
      && MapInto(schema, reg, reg[key], p.ty, sv, dv, Instantiate(schema, p.ty).value, fuel - 1).Success?
      && r.Obj? && p.name in r.fields
      && r.fields[p.name] == MapInto(schema, reg, reg[key], p.ty, sv, dv, Instantiate(schema, p.ty).value, fuel - 1).value
      && (p.ty.Named? ==> r.fields[p.name].Obj? && r.fields[p.name].ty == p.ty.name)
  {
    FieldOutcome(schema, reg, rules, diffType, source, destination, diff, fuel, p);
    var sv, dv := Invoke(rules[p.name].source, source).value, Invoke(rules[p.name].compare, destination).value;
    var key := MappingKey(RuntimeType(sv), RuntimeType(dv), p.ty);
    if p.ty.Named? {
      var blank := Instantiate(schema, p.ty).value;
      assert DistinctNames(Props(schema, p.ty));
      DefaultFieldsDomain(Props(schema, p.ty));
      assert Fillable(schema, p.ty, blank);
      MapIntoKeepsObject(schema, reg, reg[key], p.ty, sv, dv, blank, fuel - 1);
    }
  }

  /**
    Missing mapping. When both sides of a nested property are non-null but
    their type triple was never registered, the whole `Map` fails: no diff
    object is produced at all.
  */
  lemma MissingNestedMappingFails(schema: Schema, reg: Registry, rules: RuleTable, diffType: ClrType,
                                  source: Value, destination: Value, diff: Value, fuel: nat, p: Property)
    requires Fillable(schema, diffType, diff) && p in Props(schema, diffType)
    requires !IsPrimitiveProperty(p.ty) && !p.ty.ListOf? && p.name in rules
    requires Invoke(rules[p.name].source, source).Success? && Invoke(rules[p.name].compare, destination).Success?
    requires Invoke(rules[p.name].source, source).value != Null
    requires Invoke(rules[p.name].compare, destination).value != Null
    requires MappingKey(RuntimeType(Invoke(rules[p.name].source, source).value),
                        RuntimeType(Invoke(rules[p.name].compare, destination).value), p.ty) !in reg
    ensures MapInto(schema, reg, rules, diffType, source, destination, diff, fuel).Failure?
  {
    if MapInto(schema, reg, rules, diffType, source, destination, diff, fuel).Success? {
      FieldOutcome(schema, reg, rules, diffType, source, destination, diff, fuel, p);
      assert false;
    }
  }

  /** Missing mapping for the elements of a list property: the whole `Map` fails as well. */
  lemma MissingListMappingFails(schema: Schema, reg: Registry, rules: RuleTable, diffType: ClrType,
                                source: Value, destination: Value, diff: Value, fuel: nat, p: Property)
    requires Fillable(schema, diffType, diff) && p in Props(schema, diffType)
    requires p.ty.ListOf? && p.name in rules
    requires Invoke(rules[p.name].source, source).Success? && Invoke(rules[p.name].compare, destination).Success?
    requires Invoke(rules[p.name].source, source).value.List?
    requires Invoke(rules[p.name].compare, destination).value.List?
    requires MappingKey(Invoke(rules[p.name].source, source).value.element,
                        Invoke(rules[p.name].compare, destination).value.element, p.ty.element) !in reg
    ensures MapInto(schema, reg, rules, diffType, source, destination, diff, fuel).Failure?
  {
    if MapInto(schema, reg, rules, diffType, source, destination, diff, fuel).Success? {
      FieldOutcome(schema, reg, rules, diffType, source, destination, diff, fuel, p);
      assert false;
    }
  }

  /**
    A list property whose lists hold value-type elements: the casts to
    `IEnumerable<dynamic>` throw, and the whole `Map` fails.
  */
  lemma ValueTypeListFails(schema: Schema, reg: Registry, rules: RuleTable, diffType: ClrType,
                           source: Value, destination: Value, diff: Value, fuel: nat, p: Property)
    requires Fillable(schema, diffType, diff) && p in Props(schema, diffType)
    requires p.ty.ListOf? && p.name in rules
    requires Invoke(rules[p.name].source, source).Success? && Invoke(rules[p.name].compare, destination).Success?
    requires Invoke(rules[p.name].source, source).value.List?
    requires Invoke(rules[p.name].compare, destination).value.List?
    requires IsValueType(Invoke(rules[p.name].source, source).value.element) ||
             IsValueType(Invoke(rules[p.name].compare, destination).value.element)
    ensures MapInto(schema, reg, rules, diffType, source, destination, diff, fuel).Failure?
  {
    if MapInto(schema, reg, rules, diffType, source, destination, diff, fuel).Success? {
      FieldOutcome(schema, reg, rules, diffType, source, destination, diff, fuel, p);
      assert false;
    }
  }

  /** An unregistered top-level triple: `EntityComparer.Map` throws and returns no diff. */
  lemma UnregisteredDiffFails(schema: Schema, reg: Registry, key: MappingKey, source: Value, destination: Value,
                              fuel: nat)
    requires key !in reg
    ensures Diff(schema, reg, key, source, destination, fuel) == Failure(NotConfigured(key))
  {
  }

  /**
    From `offset` on, `items` holds the entry of each added element, in
    order: a blank source element diffed against it.
  */
  ghost predicate AddedEntriesAt(schema: Schema, reg: Registry, inner: RuleTable, sourceElement: ClrType,
                                 diffElement: ClrType, added: seq<Value>, items: seq<Value>, offset: nat, fuel: nat)
  {
    && offset + |added| <= |items|
    && (added != [] ==> Instantiate(schema, sourceElement).Success? && Instantiate(schema, diffElement).Success?)
    && forall k :: 0 <= k < |added| ==>
         MapInto(schema, reg, inner, diffElement, Instantiate(schema, sourceElement).value, added[k],
                 Instantiate(schema, diffElement).value, fuel).Success? &&
         items[offset + k] == MapInto(schema, reg, inner, diffElement, Instantiate(schema, sourceElement).value,
                                      added[k], Instantiate(schema, diffElement).value, fuel).value
  }

  /**
    From `offset` on, `items` holds the entry of each modified element, in
    order: its partner in `destinationItems` diffed against it.
  */
  ghost predicate ModifiedEntriesAt(schema: Schema, reg: Registry, inner: RuleTable, diffElement: ClrType,
                                    destinationItems: seq<Value>, modified: seq<Value>, items: seq<Value>,
                                    offset: nat, fuel: nat)
  {
    && offset + |modified| <= |items|
    && forall k :: 0 <= k < |modified| ==>
         Partner(destinationItems, modified[k]).Some? &&
         Instantiate(schema, diffElement).Success? &&
         MapInto(schema, reg, inner, diffElement, Partner(destinationItems, modified[k]).value, modified[k],
                 Instantiate(schema, diffElement).value, fuel).Success? &&
         items[offset + k] == MapInto(schema, reg, inner, diffElement, Partner(destinationItems, modified[k]).value,
                                      modified[k], Instantiate(schema, diffElement).value, fuel).value
  }

  /** `MapAdded` yields exactly one entry per added element, in order. */
  lemma {:induction false} MapAddedShape(schema: Schema, reg: Registry, inner: RuleTable, sourceElement: ClrType,
                                         diffElement: ClrType, added: seq<Value>, fuel: nat)
    requires MapAdded(schema, reg, inner, sourceElement, diffElement, added, fuel).Success?
    ensures var entries := MapAdded(schema, reg, inner, sourceElement, diffElement, added, fuel).value;
      |entries| == |added| && AddedEntriesAt(schema, reg, inner, sourceElement, diffElement, added, entries, 0, fuel)
    decreases |added|
  {
    if added != [] {
      var entries := MapAdded(schema, reg, inner, sourceElement, diffElement, added, fuel).value;
      var rest := MapAdded(schema, reg, inner, sourceElement, diffElement, added[1..], fuel).value;
      MapAddedShape(schema, reg, inner, sourceElement, diffElement, added[1..], fuel);
      assert entries[1..] == rest;
      assert AddedEntry(schema, reg, inner, sourceElement, diffElement, added[0], fuel).Success?;
      forall k | 0 <= k < |added|
        ensures MapInto(schema, reg, inner, diffElement, Instantiate(schema, sourceElement).value, added[k],
                        Instantiate(schema, diffElement).value, fuel).Success? &&
          entries[k] == MapInto(schema, reg, inner, diffElement, Instantiate(schema, sourceElement).value,
                                added[k], Instantiate(schema, diffElement).value, fuel).value
      {
        if k > 0 {
          assert added[k] == added[1..][k - 1] && entries[k] == rest[k - 1];
        }
      }
    }
  }

  /**
    `MapModified` yields one entry per modified element that has a partner,
    in order; with a partner for every element, one entry per element.
  */
  lemma {:induction false} MapModifiedShape(schema: Schema, reg: Registry, inner: RuleTable, diffElement: ClrType,
                                            destinationItems: seq<Value>, modified: seq<Value>, fuel: nat)
    requires MapModified(schema, reg, inner, diffElement, destinationItems, modified, fuel).Success?
    requires forall k :: 0 <= k < |modified| ==> Partner(destinationItems, modified[k]).Some?
    ensures var entries := MapModified(schema, reg, inner, diffElement, destinationItems, modified, fuel).value;
      |entries| == |modified| &&
      ModifiedEntriesAt(schema, reg, inner, diffElement, destinationItems, modified, entries, 0, fuel)
    decreases |modified|
  {
    if modified != [] {
      var head := ModifiedEntry(schema, reg, inner, diffElement, destinationItems, modified[0], fuel);
      var rest := MapModified(schema, reg, inner, diffElement, destinationItems, modified[1..], fuel);
      var entries := MapModified(schema, reg, inner, diffElement, destinationItems, modified, fuel).value;
      assert head.Success? && rest.Success? && entries == head.value + rest.value;
      assert forall k :: 1 <= k < |modified| ==> modified[k] == modified[1..][k - 1];
      MapModifiedShape(schema, reg, inner, diffElement, destinationItems, modified[1..], fuel);
      forall k | 0 <= k < |modified|
        ensures Partner(destinationItems, modified[k]).Some? &&
          Instantiate(schema, diffElement).Success? &&
          MapInto(schema, reg, inner, diffElement, Partner(destinationItems, modified[k]).value, modified[k],
                  Instantiate(schema, diffElement).value, fuel).Success? &&
          entries[0 + k] == MapInto(schema, reg, inner, diffElement, Partner(destinationItems, modified[k]).value,
                                    modified[k], Instantiate(schema, diffElement).value, fuel).value
      {
        if k > 0 {
          assert entries[k] == rest.value[k - 1];
        }
      }
    }
  }

  /** Entries keep their meaning when more entries follow them. */
  lemma AddedEntriesExtended(schema: Schema, reg: Registry, inner: RuleTable, sourceElement: ClrType,
                             diffElement: ClrType, added: seq<Value>, items: seq<Value>, more: seq<Value>, fuel: nat)
    requires AddedEntriesAt(schema, reg, inner, sourceElement, diffElement, added, items, 0, fuel)
    ensures AddedEntriesAt(schema, reg, inner, sourceElement, diffElement, added, items + more, 0, fuel)
  {
    forall k | 0 <= k < |added|
      ensures MapInto(schema, reg, inner, diffElement, Instantiate(schema, sourceElement).value, added[k],
                      Instantiate(schema, diffElement).value, fuel).Success? &&
        (items + more)[0 + k] == MapInto(schema, reg, inner, diffElement, Instantiate(schema, sourceElement).value,
                                         added[k], Instantiate(schema, diffElement).value, fuel).value
    {
      assert (items + more)[0 + k] == items[0 + k];
    }
  }

  /** Entries keep their meaning, shifted, when other entries come before them. */
  lemma ModifiedEntriesShifted(schema: Schema, reg: Registry, inner: RuleTable, diffElement: ClrType,
                               destinationItems: seq<Value>, modified: seq<Value>, before: seq<Value>,
                               items: seq<Value>, fuel: nat)
    requires ModifiedEntriesAt(schema, reg, inner, diffElement, destinationItems, modified, items, 0, fuel)
    ensures ModifiedEntriesAt(schema, reg, inner, diffElement, destinationItems, modified, before + items,
                              |before|, fuel)
  {
    forall k | 0 <= k < |modified|
      ensures Partner(destinationItems, modified[k]).Some? &&
        Instantiate(schema, diffElement).Success? &&
        MapInto(schema, reg, inner, diffElement, Partner(destinationItems, modified[k]).value, modified[k],
                Instantiate(schema, diffElement).value, fuel).Success? &&
        (before + items)[|before| + k] ==
          MapInto(schema, reg, inner, diffElement, Partner(destinationItems, modified[k]).value,
                  modified[k], Instantiate(schema, diffElement).value, fuel).value
    {
      assert (before + items)[|before| + k] == items[0 + k];
    }
  }

  /** The `List<>` branch, step by step. */
  lemma MapListSteps(schema: Schema, reg: Registry, diffElement: ClrType, sourceValue: Value,
                     destinationValue: Value, fuel: nat)
    requires MapList(schema, reg, diffElement, sourceValue, destinationValue, fuel).Success?
    ensures sourceValue.List? && destinationValue.List?
    ensures MappingKey(sourceValue.element, destinationValue.element, diffElement) in reg
    ensures CompareLists(sourceValue.items, destinationValue.items).Success?
    ensures var inner := reg[MappingKey(sourceValue.element, destinationValue.element, diffElement)];
      var part := CompareLists(sourceValue.items, destinationValue.items).value;
      && MapAdded(schema, reg, inner, sourceValue.element, diffElement, part.added, fuel).Success?
      && MapModified(schema, reg, inner, diffElement, destinationValue.items, part.modified, fuel).Success?
      && MapList(schema, reg, diffElement, sourceValue, destinationValue, fuel).value ==
           List(diffElement, MapAdded(schema, reg, inner, sourceValue.element, diffElement, part.added, fuel).value
                             + MapModified(schema, reg, inner, diffElement, destinationValue.items, part.modified, fuel).value)
  {
  }

  /** Every Modified element finds a partner in the destination list: itself or an earlier one with its `Id`. */
  lemma ModifiedHavePartners(oldItems: seq<Value>, newItems: seq<Value>)
    requires CompareLists(oldItems, newItems).Success?
    ensures var part := CompareLists(oldItems, newItems).value;
      forall k :: 0 <= k < |part.modified| ==> Partner(newItems, part.modified[k]).Some?
  {
    var part := CompareLists(oldItems, newItems).value;
    CompareListsPartition(oldItems, newItems);
    SubsequenceMembers(part.modified, newItems);
    forall k | 0 <= k < |part.modified| ensures Partner(newItems, part.modified[k]).Some? {
      FirstWithIdFindsMember(newItems, part.modified[k]);
    }
  }

  /**
    Result list shape. A reconciled list holds one entry per Added element,
    in order, each the diff of a blank default source element against it,
    followed by one entry per Modified element, in order, each the diff of
    the first destination element with the same `Id` against it; its length
    is |Added| + |Modified|.
  */
  lemma ListEntries(schema: Schema, reg: Registry, diffElement: ClrType, sourceValue: Value,
                    destinationValue: Value, fuel: nat)
    requires MapList(schema, reg, diffElement, sourceValue, destinationValue, fuel).Success?
    ensures sourceValue.List? && destinationValue.List?
    ensures MappingKey(sourceValue.element, destinationValue.element, diffElement) in reg
    ensures CompareLists(sourceValue.items, destinationValue.items).Success?
    ensures var inner := reg[MappingKey(sourceValue.element, destinationValue.element, diffElement)];
      var part := CompareLists(sourceValue.items, destinationValue.items).value;
      var result := MapList(schema, reg, diffElement, sourceValue, destinationValue, fuel).value;
      && result.List? && result.element == diffElement
      && |result.items| == |part.added| + |part.modified|
      && AddedEntriesAt(schema, reg, inner, sourceValue.element, diffElement, part.added, result.items, 0, fuel)
      && ModifiedEntriesAt(schema, reg, inner, diffElement, destinationValue.items, part.modified, result.items,
                           |part.added|, fuel)
  {
    MapListSteps(schema, reg, diffElement, sourceValue, destinationValue, fuel);
    var inner := reg[MappingKey(sourceValue.element, destinationValue.element, diffElement)];
    var part := CompareLists(sourceValue.items, destinationValue.items).value;
    var added := MapAdded(schema, reg, inner, sourceValue.element, diffElement, part.added, fuel).value;
    var entries := MapModified(schema, reg, inner, diffElement, destinationValue.items, part.modified, fuel).value;
    MapAddedShape(schema, reg, inner, sourceValue.element, diffElement, part.added, fuel);
    ModifiedHavePartners(sourceValue.items, destinationValue.items);
    MapModifiedShape(schema, reg, inner, diffElement, destinationValue.items, part.modified, fuel);
    AddedEntriesExtended(schema, reg, inner, sourceValue.element, diffElement, part.added, added, entries, fuel);
    ModifiedEntriesShifted(schema, reg, inner, diffElement, destinationValue.items, part.modified, added, entries,
                           fuel);
  }

  /**
    A correlated-list property whose two sides are non-null ends holding the
    reconciled list.
  */
  lemma ListPropertyReconciled(schema: Schema, reg: Registry, rules: RuleTable, diffType: ClrType,
                               source: Value, destination: Value, diff: Value, fuel: nat, p: Property)
    requires Fillable(schema, diffType, diff) && p in Props(schema, diffType)
    requires p.ty.ListOf? && p.name in rules
    requires MapInto(schema, reg, rules, diffType, source, destination, diff, fuel).Success?
    requires Invoke(rules[p.name].source, source).Success? && Invoke(rules[p.name].compare, destination).Success?
    requires Invoke(rules[p.name].source, source).value != Null
    requires Invoke(rules[p.name].compare, destination).value != Null
    ensures var sv, dv := Invoke(rules[p.name].source, source).value, Invoke(rules[p.name].compare, destination).value;
      var r := MapInto(schema, reg, rules, diffType, source, destination, diff, fuel).value;
      && MapList(schema, reg, p.ty.element, sv, dv, fuel - 1).Success?
      && r.Obj? && p.name in r.fields
      && r.fields[p.name] == MapList(schema, reg, p.ty.element, sv, dv, fuel - 1).value
  {
    FieldOutcome(schema, reg, rules, diffType, source, destination, diff, fuel, p);
  }

  /**
    Diffing a value against itself, when the rule of a primitive property
    reads the same value on both sides, resets that property: it holds its
    default.
  */
  lemma SelfDiffResetsScalar(schema: Schema, reg: Registry, rules: RuleTable, diffType: ClrType,
                             x: Value, diff: Value, fuel: nat, p: Property)
    requires Fillable(schema, diffType, diff) && p in Props(schema, diffType)
    requires IsPrimitiveProperty(p.ty) && p.name in rules
    requires Invoke(rules[p.name].source, x) == Invoke(rules[p.name].compare, x)
    requires MapInto(schema, reg, rules, diffType, x, x, diff, fuel).Success?
    ensures var r := MapInto(schema, reg, rules, diffType, x, x, diff, fuel).value;
      r.Obj? && p.name in r.fields && r.fields[p.name] == DefaultValue(p.ty)
  {
    ScalarRule(schema, reg, rules, diffType, x, x, diff, fuel, p);
  }

  /**
    Modified entries. When the destination `Id`s are unique, each modified
    element is diffed against itself, so every primitive property whose rule
    reads the same value from both sides comes out at its default.
  */
  lemma ModifiedEntryComparesWithItself(schema: Schema, reg: Registry, inner: RuleTable, diffElement: ClrType,
                                        destinationItems: seq<Value>, i: nat, fuel: nat, p: Property)
    requires AllHaveIds(destinationItems) && i < |destinationItems|
    requires forall j, k :: 0 <= j < k < |destinationItems| ==>
      IdOf(destinationItems[j]) != IdOf(destinationItems[k])
    requires WellFormed(schema) && diffElement.Named?
    requires p in Props(schema, diffElement) && IsPrimitiveProperty(p.ty) && p.name in inner
    requires Invoke(inner[p.name].source, destinationItems[i]) == Invoke(inner[p.name].compare, destinationItems[i])
    requires ModifiedEntry(schema, reg, inner, diffElement, destinationItems, destinationItems[i], fuel).Success?
    ensures Partner(destinationItems, destinationItems[i]) == Some(destinationItems[i])
    ensures var entries := ModifiedEntry(schema, reg, inner, diffElement, destinationItems, destinationItems[i], fuel).value;
      |entries| == 1 && entries[0].Obj? && p.name in entries[0].fields &&
      entries[0].fields[p.name] == DefaultValue(p.ty)
  {
    var x := destinationItems[i];
    FirstWithIdFindsSelf(destinationItems, i);
    var blank := Instantiate(schema, diffElement).value;
    assert DistinctNames(Props(schema, diffElement));
    DefaultFieldsDomain(Props(schema, diffElement));
    SelfDiffResetsScalar(schema, reg, inner, diffElement, x, blank, fuel, p);
  }

  // Fuel. More fuel never changes a result that already succeeded: `fuel`
  // only bounds the nesting depth, so any amount at least the depth of the
  // object graph gives the same diff.

  /** A successful `Diff` is the same for every larger fuel. */
  lemma DiffFuel(schema: Schema, reg: Registry, key: MappingKey, source: Value, destination: Value, f: nat, g: nat)
    requires f <= g && Diff(schema, reg, key, source, destination, f).Success?
    ensures Diff(schema, reg, key, source, destination, g) == Diff(schema, reg, key, source, destination, f)
  {
    MapIntoFuel(schema, reg, reg[key], key.diff, source, destination, Instantiate(schema, key.diff).value, f, g);
  }

  lemma {:induction false} MapIntoFuel(schema: Schema, reg: Registry, rules: RuleTable, diffType: ClrType,
                                       source: Value, destination: Value, diff: Value, f: nat, g: nat)
    requires f <= g && MapInto(schema, reg, rules, diffType, source, destination, diff, f).Success?
    ensures MapInto(schema, reg, rules, diffType, source, destination, diff, g)
         == MapInto(schema, reg, rules, diffType, source, destination, diff, f)
    decreases f, 0, 0
  {
    ApplyPropsFuel(schema, reg, rules, Props(schema, diffType), source, destination, diff, f - 1, g - 1);
  }

  lemma {:induction false} ApplyPropsFuel(schema: Schema, reg: Registry, rules: RuleTable, props: seq<Property>,
                                          source: Value, destination: Value, diff: Value, f: nat, g: nat)
    requires f <= g && ApplyProps(schema, reg, rules, props, source, destination, diff, f).Success?
    ensures ApplyProps(schema, reg, rules, props, source, destination, diff, g)
         == ApplyProps(schema, reg, rules, props, source, destination, diff, f)
    decreases f, 4, |props|
  {
    if props != [] {
      var outcome := EvalProperty(schema, reg, rules, props[0], source, destination, f);
      ApplyPropsStep(schema, reg, rules, props, source, destination, diff, f);
      ApplyPropsStep(schema, reg, rules, props, source, destination, diff, g);
      EvalPropertyFuel(schema, reg, rules, props[0], source, destination, f, g);
      if outcome.value.Some? {
        var diff' := SetValue(diff, props[0], outcome.value.value).value;
        ApplyPropsFuel(schema, reg, rules, props[1..], source, destination, diff', f, g);
      } else {
        ApplyPropsFuel(schema, reg, rules, props[1..], source, destination, diff, f, g);
      }
    }
  }

  lemma {:induction false} EvalPropertyFuel(schema: Schema, reg: Registry, rules: RuleTable, p: Property,
                                            source: Value, destination: Value, f: nat, g: nat)
    requires f <= g && EvalProperty(schema, reg, rules, p, source, destination, f).Success?
    ensures EvalProperty(schema, reg, rules, p, source, destination, g)
         == EvalProperty(schema, reg, rules, p, source, destination, f)
    decreases f, 3, 0
  {
    if !IsPrimitiveProperty(p.ty) && p.name in rules {
      var sv := Invoke(rules[p.name].source, source).value;
      var dv := Invoke(rules[p.name].compare, destination).value;
      if sv != Null && dv != Null {
        if p.ty.ListOf? {
          MapListFuel(schema, reg, p.ty.element, sv, dv, f, g);
        } else {
          var inner := reg[MappingKey(RuntimeType(sv), RuntimeType(dv), p.ty)];
          MapIntoFuel(schema, reg, inner, p.ty, sv, dv, Instantiate(schema, p.ty).value, f, g);
        }
      }
    }
  }

  lemma {:induction false} MapListFuel(schema: Schema, reg: Registry, diffElement: ClrType, sourceValue: Value,
                                       destinationValue: Value, f: nat, g: nat)
    requires f <= g && MapList(schema, reg, diffElement, sourceValue, destinationValue, f).Success?
    ensures MapList(schema, reg, diffElement, sourceValue, destinationValue, g)
         == MapList(schema, reg, diffElement, sourceValue, destinationValue, f)
    decreases f, 2, 0
  {
    MapListSteps(schema, reg, diffElement, sourceValue, destinationValue, f);
    var inner := reg[MappingKey(sourceValue.element, destinationValue.element, diffElement)];
    var part := CompareLists(sourceValue.items, destinationValue.items).value;
    MapAddedFuel(schema, reg, inner, sourceValue.element, diffElement, part.added, f, g);
    MapModifiedFuel(schema, reg, inner, diffElement, destinationValue.items, part.modified, f, g);
  }

  lemma {:induction false} MapAddedFuel(schema: Schema, reg: Registry, inner: RuleTable, sourceElement: ClrType,
                                        diffElement: ClrType, added: seq<Value>, f: nat, g: nat)
    requires f <= g && MapAdded(schema, reg, inner, sourceElement, diffElement, added, f).Success?
    ensures MapAdded(schema, reg, inner, sourceElement, diffElement, added, g)
         == MapAdded(schema, reg, inner, sourceElement, diffElement, added, f)
    decreases f, 1, |added|
  {
    if added != [] {
      AddedEntryFuel(schema, reg, inner, sourceElement, diffElement, added[0], f, g);
      MapAddedFuel(schema, reg, inner, sourceElement, diffElement, added[1..], f, g);
    }
  }

  lemma {:induction false} AddedEntryFuel(schema: Schema, reg: Registry, inner: RuleTable, sourceElement: ClrType,
                                          diffElement: ClrType, addedObject: Value, f: nat, g: nat)
    requires f <= g && AddedEntry(schema, reg, inner, sourceElement, diffElement, addedObject, f).Success?
    ensures AddedEntry(schema, reg, inner, sourceElement, diffElement, addedObject, g)
         == AddedEntry(schema, reg, inner, sourceElement, diffElement, addedObject, f)
    decreases f, 1, 0
  {
    MapIntoFuel(schema, reg, inner, diffElement, Instantiate(schema, sourceElement).value, addedObject,
                Instantiate(schema, diffElement).value, f, g);
  }

  lemma {:induction false} MapModifiedFuel(schema: Schema, reg: Registry, inner: RuleTable, diffElement: ClrType,
                                           destinationItems: seq<Value>, modified: seq<Value>, f: nat, g: nat)
    requires f <= g && MapModified(schema, reg, inner, diffElement, destinationItems, modified, f).Success?
    ensures MapModified(schema, reg, inner, diffElement, destinationItems, modified, g)
         == MapModified(schema, reg, inner, diffElement, destinationItems, modified, f)
    decreases f, 1, |modified|
  {
    if modified != [] {
      ModifiedEntryFuel(schema, reg, inner, diffElement, destinationItems, modified[0], f, g);
      MapModifiedFuel(schema, reg, inner, diffElement, destinationItems, modified[1..], f, g);
    }
  }

  lemma {:induction false} ModifiedEntryFuel(schema: Schema, reg: Registry, inner: RuleTable, diffElement: ClrType,
                                             destinationItems: seq<Value>, item: Value, f: nat, g: nat)
    requires f <= g && ModifiedEntry(schema, reg, inner, diffElement, destinationItems, item, f).Success?
    ensures ModifiedEntry(schema, reg, inner, diffElement, destinationItems, item, g)
         == ModifiedEntry(schema, reg, inner, diffElement, destinationItems, item, f)
    decreases f, 1, 0
  {
    var partner := Partner(destinationItems, item);
    if partner.Some? {
      MapIntoFuel(schema, reg, inner, diffElement, partner.value, item, Instantiate(schema, diffElement).value, f, g);
    }
  }
}
