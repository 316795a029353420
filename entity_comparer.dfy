/**
  `EntityComparer`: the registry of mappings, filled by `CreateMap` and read
  by `Map`.
*/
module Comparer {
  import opened Wrappers
  import opened Model
  import opened MappingExpressions
  import opened DiffEngine
  import opened DiffExecution

  class EntityComparer {
    /** The declared properties of every type, which the C# code obtains by reflection. */
    const schema: Schema
    /** `_mappings`: one rule table per registered (source, destination, diff) triple. */
    var mappings: Registry

    constructor(schema: Schema)
      ensures this.schema == schema && mappings == map[]
    {
      this.schema := schema;
      mappings := map[];
    }

    /**
      `CreateMap<TSource, TDestination, TDiff>(mappingConfig)`: derive the
      automatic rules, run the configurator's `ForMember` calls, and register
      the result under `key`, replacing an earlier registration. When a
      selector is not a member access the exception escapes and nothing is
      registered.
    */
    method CreateMap(key: MappingKey, config: seq<ConfigStep>) returns (r: Result<(), Error>)
      modifies this
      ensures r.Success? <==> BuildRules(schema, key, config).Success?
      ensures r.Success? ==> mappings == old(mappings)[key := BuildRules(schema, key, config).value]
      ensures r.Failure? ==> r.error == NotMemberAccess && mappings == old(mappings)
    {
      var mappingExpression := new MappingExpression();
      var sourceProperties := Props(schema, key.source);
      var destinationProperties := Props(schema, key.destination);
      var diffProperties := Props(schema, key.diff);

      var i := 0;
      while i < |diffProperties|
        invariant 0 <= i <= |diffProperties|
        invariant mappingExpression.propertyMappings ==
          AutoRules(diffProperties[..i], sourceProperties, destinationProperties, key.source, key.destination)
        invariant mappings == old(mappings)
      {
        var diffProp := diffProperties[i];
        assert diffProperties[..i + 1][..i] == diffProperties[..i];
        if HasProperty(sourceProperties, diffProp.name) && HasProperty(destinationProperties, diffProp.name) {
          var _ := mappingExpression.ForMember(PropertySelector(diffProp.name), Getter(key.source, diffProp.name),
                                               Getter(key.destination, diffProp.name));
        }
        i := i + 1;
      }
      assert diffProperties[..i] == diffProperties;
      ghost var auto := mappingExpression.propertyMappings;
      ConfigureSucceeds(auto, config);

      var j := 0;
      while j < |config|
        invariant 0 <= j <= |config|
        invariant Configure(auto, config[..j]) == Success(mappingExpression.propertyMappings)
        invariant mappings == old(mappings)
      {
        var step := config[j];
        assert config[..j + 1][..j] == config[..j] && config[..j + 1][j] == step;
        var configured := mappingExpression.ForMember(step.selector, step.source, step.compare);
        if configured.Failure? {
          assert StepName(config[j]).None?;
          return configured;
        }
        j := j + 1;
      }
      assert config[..j] == config;

      mappings := mappings[key := mappingExpression.propertyMappings];
      return Success(());
    }

    /**
      `Map<TSource, TDestination, TDiff>(source, destination)`: look up the
      triple, construct an empty diff and fill it.
    */
    method Map(key: MappingKey, source: Value, destination: Value, fuel: nat) returns (r: Result<Value, Error>)
      ensures r == Diff(schema, mappings, key, source, destination, fuel)
    {
      var expression := Resolve(mappings, key);
      if expression.Failure? {
        return Failure(expression.error);
      }
      var diff := Instantiate(schema, key.diff);
      if diff.Failure? {
        return Failure(diff.error);
      }
      r := MapObject(schema, mappings, expression.value, key.diff, source, destination, diff.value, fuel);
    }
  }
}
