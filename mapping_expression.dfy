/**
  The rule table of one mapping (`MappingExpression<TSource, TDestination, TDiff>`):
  how rules are named (`GetMemberName`), added (`ForMember`), derived
  automatically by `CreateMap`, and then overridden by the caller's
  configurator.
*/
module MappingExpressions {
  import opened Wrappers
  import opened Model

  /** One field rule: the delegate that reads the source and the one that reads the destination. */
  datatype PropertyMapping = PropertyMapping(source: Accessor, compare: Accessor)

  /** `_propertyMappings`: diff property name to rule. */
  type RuleTable = map<string, PropertyMapping>

  datatype UnaryOp = Convert | ConvertChecked | OtherUnary

  /** The body of a selector lambda `dest => ...`, as an expression tree. */
  datatype Expr =
    | Parameter
    | MemberAccess(target: Expr, member: string)
    | Unary(op: UnaryOp, operand: Expr)
    | OtherExpr

  /**
    `GetMemberName`: the selector must be a member access, possibly wrapped in
    one `Convert` or `ConvertChecked`; the name returned is that of the
    outermost member accessed.
  */
  function GetMemberName(body: Expr): (r: Result<string, Error>)
    ensures r.Success? <==>
      body.MemberAccess? || (body.Unary? && (body.op == Convert || body.op == ConvertChecked) && body.operand.MemberAccess?)
    ensures r.Success? ==> r.value == (if body.MemberAccess? then body.member else body.operand.member)
    ensures r.Failure? ==> r.error == NotMemberAccess
  {
    var unwrapped := if body.Unary? && (body.op == Convert || body.op == ConvertChecked) then body.operand else body;
    if unwrapped.MemberAccess? then Success(unwrapped.member) else Failure(NotMemberAccess)
  }

  /** The selector `CreatePropertyAccessor` builds for property `name`: `dest => (object)dest.name`. */
  function PropertySelector(name: string): (e: Expr)
    ensures GetMemberName(e) == Success(name)
  {
    Unary(Convert, MemberAccess(Parameter, name))
  }

  /** One `ForMember` call made by a configurator. */
  datatype ConfigStep = ForMember(selector: Expr, source: Accessor, compare: Accessor)

  /** The name a step installs its rule under, when its selector is valid. */
  function StepName(step: ConfigStep): Option<string> {
    var r := GetMemberName(step.selector);
    if r.Success? then Some(r.value) else None
  }

  /** A mapping's rule table while it is being configured. */
  class MappingExpression {
    var propertyMappings: RuleTable

    constructor()
      ensures propertyMappings == map[]
    {
      propertyMappings := map[];
    }

    /** Installs a rule under the selector's member name, replacing any rule already there. */
    method ForMember(selector: Expr, source: Accessor, compare: Accessor) returns (r: Result<(), Error>)
      modifies this
      ensures r.Success? <==> GetMemberName(selector).Success?
      ensures r.Failure? ==> r.error == NotMemberAccess && propertyMappings == old(propertyMappings)
      ensures r.Success? ==>
        propertyMappings == old(propertyMappings)[GetMemberName(selector).value := PropertyMapping(source, compare)]
    {
      var name := GetMemberName(selector);
      if name.Failure? {
        return Failure(name.error);
      }
      propertyMappings := propertyMappings[name.value := PropertyMapping(source, compare)];
      return Success(());
    }
  }

  /**
    The rules `CreateMap` derives before the configurator runs, for the diff
    properties seen so far: one `GetValue` pair for every diff property whose
    name the source and the destination type both declare.
  */
  function AutoRules(diffProps: seq<Property>, sourceProps: seq<Property>, destinationProps: seq<Property>,
                     source: ClrType, destination: ClrType): (r: RuleTable)
    ensures forall n :: n in r ==> r[n] == PropertyMapping(Getter(source, n), Getter(destination, n))
  {
    if diffProps == [] then map[]
    else
      var rules := AutoRules(diffProps[..|diffProps| - 1], sourceProps, destinationProps, source, destination);
      var p := diffProps[|diffProps| - 1];
      if HasProperty(sourceProps, p.name) && HasProperty(destinationProps, p.name) then
        rules[p.name := PropertyMapping(Getter(source, p.name), Getter(destination, p.name))]
      else
        rules
  }

  /** The rule table after the configurator's `ForMember` calls, in order; the first invalid selector aborts. */
  function Configure(rules: RuleTable, steps: seq<ConfigStep>): (r: Result<RuleTable, Error>)
    ensures r.Failure? ==> r.error == NotMemberAccess
    ensures r.Success? ==> rules.Keys <= r.value.Keys
  {
    if steps == [] then Success(rules)
    else
      var before :- Configure(rules, steps[..|steps| - 1]);
      var last := steps[|steps| - 1];
      var name :- GetMemberName(last.selector);
      Success(before[name := PropertyMapping(last.source, last.compare)])
  }

  /** The rule table `CreateMap` stores for `key`. */
  function BuildRules(schema: Schema, key: MappingKey, config: seq<ConfigStep>): (r: Result<RuleTable, Error>)
    ensures r.Failure? ==> r.error == NotMemberAccess
  {
    var auto := AutoRules(Props(schema, key.diff), Props(schema, key.source), Props(schema, key.destination),
                          key.source, key.destination);
    Configure(auto, config)
  }

  // ---------------------------------------------------------------------------
  // Properties
  // ---------------------------------------------------------------------------

  /**
    Automatic registration installs a rule for exactly the diff properties
    whose name exists on both the source and the destination type, and that
    rule reads the same-named property on each side.
  */
  lemma {:induction false} AutoRulesExactly(diffProps: seq<Property>, sourceProps: seq<Property>,
                                            destinationProps: seq<Property>, source: ClrType, destination: ClrType)
    ensures var rules := AutoRules(diffProps, sourceProps, destinationProps, source, destination);
      forall n :: n in rules <==>
        HasProperty(diffProps, n) && HasProperty(sourceProps, n) && HasProperty(destinationProps, n)
    ensures var rules := AutoRules(diffProps, sourceProps, destinationProps, source, destination);
      forall n :: n in rules ==> rules[n] == PropertyMapping(Getter(source, n), Getter(destination, n))
    decreases |diffProps|
  {
    if diffProps != [] {
      var init := diffProps[..|diffProps| - 1];
      var p := diffProps[|diffProps| - 1];
      AutoRulesExactly(init, sourceProps, destinationProps, source, destination);
      forall n ensures HasProperty(diffProps, n) <==> HasProperty(init, n) || n == p.name {
        if HasProperty(diffProps, n) && n != p.name {
          var i :| 0 <= i < |diffProps| && diffProps[i].name == n;
          assert init[i] == diffProps[i];
        }
        if HasProperty(init, n) {
          var i :| 0 <= i < |init| && init[i].name == n;
          assert diffProps[i] == init[i];
        }
      }
    }
  }

  /** The configurator succeeds exactly when every selector it passes is a member access. */
  lemma {:induction false} ConfigureSucceeds(rules: RuleTable, steps: seq<ConfigStep>)
    ensures Configure(rules, steps).Success? <==> forall j :: 0 <= j < |steps| ==> StepName(steps[j]).Some?
    ensures Configure(rules, steps).Failure? ==> Configure(rules, steps).error == NotMemberAccess
    decreases |steps|
  {
    if steps != [] {
      var init := steps[..|steps| - 1];
      ConfigureSucceeds(rules, init);
      assert forall j :: 0 <= j < |init| ==> init[j] == steps[j];
    }
  }

  /**
    After a successful configurator, the rule under a name some step used is
    the one the LAST such step installed.
  */
  lemma {:induction false} ConfigureLastWins(rules: RuleTable, steps: seq<ConfigStep>)
    requires Configure(rules, steps).Success?
    ensures var r := Configure(rules, steps).value;
      forall j :: (0 <= j < |steps| && StepName(steps[j]).Some? &&
                   (forall k :: j < k < |steps| ==> StepName(steps[k]) != StepName(steps[j]))) ==>
          StepName(steps[j]).value in r &&
          r[StepName(steps[j]).value] == PropertyMapping(steps[j].source, steps[j].compare)
    decreases |steps|
  {
    if steps != [] {
      var init := steps[..|steps| - 1];
      var last := steps[|steps| - 1];
      ConfigureLastWins(rules, init);
      var before := Configure(rules, init).value;
      var name := GetMemberName(last.selector).value;
      var r := before[name := PropertyMapping(last.source, last.compare)];
      assert Configure(rules, steps).value == r;
      assert StepName(last) == Some(name);
      assert forall k :: 0 <= k < |init| ==> init[k] == steps[k];
      forall j | (0 <= j < |steps| && StepName(steps[j]).Some? &&
                  (forall k :: j < k < |steps| ==> StepName(steps[k]) != StepName(steps[j])))
        ensures StepName(steps[j]).value in r
        ensures r[StepName(steps[j]).value] == PropertyMapping(steps[j].source, steps[j].compare)
      {
        if j < |steps| - 1 {
          assert StepName(last) != StepName(steps[j]);
        }
      }
    }
  }

  /** A name no step of a successful configurator used keeps the rule it had before (or stays without one). */
  lemma {:induction false} ConfigureKeepsUnnamed(rules: RuleTable, steps: seq<ConfigStep>)
    requires Configure(rules, steps).Success?
    ensures var r := Configure(rules, steps).value;
      forall n :: (forall j :: 0 <= j < |steps| ==> StepName(steps[j]) != Some(n)) ==>
        (n in r <==> n in rules) && (n in rules ==> r[n] == rules[n])
    decreases |steps|
  {
    if steps != [] {
      var init := steps[..|steps| - 1];
      var last := steps[|steps| - 1];
      ConfigureKeepsUnnamed(rules, init);
      assert forall j :: 0 <= j < |init| ==> init[j] == steps[j];
      assert StepName(last) == Some(GetMemberName(last.selector).value);
    }
  }

  /**
    The whole registration: it fails exactly when some selector is invalid;
    otherwise a diff property named by the configurator gets the last rule
    given for it, and any other diff property gets the automatic rule when
    the source and destination types declare it, and no rule otherwise.
  */
  lemma BuildRulesSpec(schema: Schema, key: MappingKey, config: seq<ConfigStep>)
    ensures BuildRules(schema, key, config).Success? <==>
      forall j :: 0 <= j < |config| ==> StepName(config[j]).Some?
    ensures BuildRules(schema, key, config).Success? ==>
      var r := BuildRules(schema, key, config).value;
      && (forall j :: (0 <= j < |config| && StepName(config[j]).Some? &&
                       (forall k :: j < k < |config| ==> StepName(config[k]) != StepName(config[j]))) ==>
              StepName(config[j]).value in r &&
              r[StepName(config[j]).value] == PropertyMapping(config[j].source, config[j].compare))
      && (forall n :: (forall j :: 0 <= j < |config| ==> StepName(config[j]) != Some(n)) ==>
            (n in r <==> HasProperty(Props(schema, key.diff), n) && HasProperty(Props(schema, key.source), n)
                         && HasProperty(Props(schema, key.destination), n)) &&
            (n in r ==> r[n] == PropertyMapping(Getter(key.source, n), Getter(key.destination, n))))
  {
    var auto := AutoRules(Props(schema, key.diff), Props(schema, key.source), Props(schema, key.destination),
                          key.source, key.destination);
    AutoRulesExactly(Props(schema, key.diff), Props(schema, key.source), Props(schema, key.destination),
                     key.source, key.destination);
    ConfigureSucceeds(auto, config);
    if Configure(auto, config).Success? {
      ConfigureLastWins(auto, config);
      ConfigureKeepsUnnamed(auto, config);
    }
  }
}
