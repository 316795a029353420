# EntityComparer, modelled in Dafny

EntityComparer computes a "diff" object describing what changed between a
source snapshot and a destination snapshot of an entity graph. The diff is
guided by mappings registered ahead of time, one per (source type,
destination type, diff type) triple.

This project models the comparer's core, `EntityComparer/EntityComparer.cs`:

- **The registry.** `EntityComparer.CreateMap` derives one rule per diff
  property that the source and destination types both declare, then runs the
  caller's configurator and stores the resulting rule table under the type
  triple. `EntityComparer.Map` looks that table up, constructs an empty diff
  and fills it.
- **The rule table.** `MappingExpression.ForMember` installs a rule under the
  name `GetMemberName` extracts from a selector.
- **The per-property walk.** `MappingExpression.Map` visits the diff
  properties one by one. Each property is handled in one of four ways:
  - compared as a scalar (`ComparePrimitiveType`);
  - reconciled as a list correlated on `Id` (`CompareLists` plus the two
    append loops);
  - diffed recursively through the registry;
  - left alone when it has no rule.

### How the .NET runtime is represented

- A `Schema` lists the declared properties of every type, in declaration
  order, in place of reflection.
- A `Value` stands for an object graph (null, boxed primitive, string, object
  with named fields, typed list).
- An `Accessor` stands for the two kinds of delegate a rule holds:
  - `Getter`: the `PropertyInfo.GetValue` delegate of an automatic rule;
  - `Lambda`: a caller-supplied `Func` invoked through `DynamicInvoke`.
- Each exception the model represents is an `Error` inside a `Result`; "## Left out" lists the exceptions it does not represent.

### Layout

- **Specification functions.** The diff itself is the function
  `DiffEngine.Diff`, over `MapInto`, `ApplyProps`, `EvalProperty` and
  `MapList`.
- **Imperative methods.** Where the C# code works by loops and in-place
  updates, the model has methods: `Comparer.EntityComparer` and
  `MappingExpressions.MappingExpression` are classes with mutable state, and
  the loops of `MappingExpression.Map` are the methods of `DiffExecution`.
  Each method is proved to compute exactly its specification function.
- **Properties.** `DiffProperties`, `ListComparison` and `MappingExpressions`
  prove what the diff promises about those functions.
- **Worked example.** `Demo` replays the sample program in
  `EntityComparer/Program.cs` and proves the diff it produces.

### Behaviour of the code worth knowing

- **Scalar classification.** A property counts as a scalar only when its
  type, after removing one `Nullable<>`, is a .NET primitive or `string`
  (EntityComparer/EntityComparer.cs:220-230). Enums, `DateTime`, `decimal`
  and `Guid` are therefore not scalars; they go down the nested path.
- **List entries.** Each entry of a reconciled list is a freshly constructed
  diff element filled by the element mapping and nothing else; in
  particular its `Id` is whatever that mapping decides
  (EntityComparer/EntityComparer.cs:144-165).
- **Modified partner.** The partner of a modified element is the first
  element with the same `Id` in the destination list, the very list the
  element comes from (EntityComparer/EntityComparer.cs:156). With unique
  `Id`s each modified element is therefore diffed against itself.
- **Added entries.** They are distinct by `Id`: `ExceptBy` keeps only the
  first element with each `Id` (EntityComparer/EntityComparer.cs:274). The
  correlation key is always the member named `Id`.

## Model

| member | source | states |
|---|---|---|
| Model.RuntimeType | EntityComparer/EntityComparer.cs:203-207 | `GetType()` of a non-null value: a list type exactly for lists, a class type exactly for objects; an object of class `C` has type `C` and a list of `T` has type `List<T>`, the types the nested registry key is built from |
| Model.DefaultValue | EntityComparer/EntityComparer.cs:242 | the value a property holds when set to null: null for every type except a non-nullable primitive, which holds the zero of that primitive type |
| Model.DefaultFieldsDomain | EntityComparer/EntityComparer.cs:210 | a freshly constructed object has a slot for exactly the properties its type declares |
| Model.DefaultFieldsValues | EntityComparer/EntityComparer.cs:210 | in a freshly constructed object each declared property holds its type's default |
| Model.Instantiate | EntityComparer/EntityComparer.cs:146-148 | `Activator.CreateInstance` succeeds for every type but `string`; a class instance has every declared property at its type's default, as for a class without constructor body or property initializers |
| Model.Invoke | EntityComparer/EntityComparer.cs:121-122 | a getter succeeds exactly on an object of its declaring type and reads that field; a lambda succeeds exactly on null or on an argument of its parameter type and returns its result |
| Model.IsPrimitiveProperty | EntityComparer/EntityComparer.cs:220-230 | primitives and `string` are scalar; lists and classes are not; `Nullable<T>` is scalar exactly when `T` is |
| ListComparison.KeySet | EntityComparer/EntityComparer.cs:274 | an identifier is in the key set exactly when some element of the old list carries it |
| ListComparison.ExceptBy | EntityComparer/EntityComparer.cs:274 | `ExceptBy` returns no more elements than its input, all drawn from the input |
| ListComparison.Where | EntityComparer/EntityComparer.cs:275 | `Where` returns no more elements than its input, all drawn from the input |
| ListComparison.CompareLists | EntityComparer/EntityComparer.cs:272-282 | the partition succeeds exactly when every element of both lists has an `Id` |
| ListComparison.FirstWithId | EntityComparer/EntityComparer.cs:156 | a found element is a member of the list, carries the `Id`, and no earlier element carries it (the first match); when none is found, no element carries it |
| ListComparison.ExceptByOrderedFresh | EntityComparer/EntityComparer.cs:274 | `ExceptBy` keeps elements in order, and none of them carries an excluded `Id` |
| ListComparison.ExceptByDistinct | EntityComparer/EntityComparer.cs:274 | the elements `ExceptBy` keeps have pairwise distinct `Id`s |
| ListComparison.ExceptByComplete | EntityComparer/EntityComparer.cs:274 | every `Id` of the input that is not excluded is carried by some kept element |
| ListComparison.ExceptByKeepsFirst | EntityComparer/EntityComparer.cs:274 | each kept element is the first element of the input with its `Id` |
| ListComparison.WhereFilters | EntityComparer/EntityComparer.cs:275 | `Where` keeps input order, an element is kept exactly when its `Id` is among the keys, and a kept element appears as many times as in the input |
| ListComparison.CompareListsPartition | EntityComparer/EntityComparer.cs:272-282 | Added: in destination order, `Id`s absent from the source, distinct, the first of each `Id`, ordered by where each `Id` first occurs, and covering every new `Id`. Modified: in destination order, exactly the destination elements whose `Id` the source carries, each as many times as the destination holds it |
| ListComparison.RemovalsNotSurfaced | EntityComparer/EntityComparer.cs:272-282 | a source element whose `Id` the destination lacks appears in neither part |
| ListComparison.FirstWithIdFindsSelf | EntityComparer/EntityComparer.cs:156 | with unique `Id`s, the lookup of an element's own `Id` finds that element |
| ListComparison.FirstWithIdFindsMember | EntityComparer/EntityComparer.cs:156 | the lookup of a member's `Id` always finds something |
| MappingExpressions.GetMemberName | EntityComparer/EntityComparer.cs:245-264 | a selector is accepted exactly when it is a member access, possibly under one `Convert`/`ConvertChecked`; the result is that member's name; anything else fails with "not a member access" |
| MappingExpressions.PropertySelector | EntityComparer/EntityComparer.cs:44-53 | the selector built for a property name yields that name back from `GetMemberName` |
| MappingExpressions.AutoRules | EntityComparer/EntityComparer.cs:26-37 | every automatic rule reads the same-named property through the source and destination getters |
| MappingExpressions.Configure | EntityComparer/EntityComparer.cs:39 | the configurator only fails with "not a member access"; when it succeeds, no rule name is lost |
| MappingExpressions.BuildRules | EntityComparer/EntityComparer.cs:19-41 | building the rule table only fails with "not a member access" |
| MappingExpressions.MappingExpression.constructor | EntityComparer/EntityComparer.cs:92 | a new mapping expression has no rules |
| MappingExpressions.MappingExpression.ForMember | EntityComparer/EntityComparer.cs:94-104 | succeeds exactly for a valid selector; then installs the pair under the member name, replacing an earlier rule; otherwise leaves the table unchanged |
| MappingExpressions.AutoRulesExactly | EntityComparer/EntityComparer.cs:26-37 | automatic registration installs a rule for exactly the diff properties whose name both the source and destination types declare, each reading the same-named property on both sides |
| MappingExpressions.ConfigureSucceeds | EntityComparer/EntityComparer.cs:39 | the configurator succeeds exactly when every selector it passes is valid, and otherwise fails with "not a member access" |
| MappingExpressions.ConfigureLastWins | EntityComparer/EntityComparer.cs:39 | after the configurator, each name holds the rule of the last `ForMember` that named it |
| MappingExpressions.ConfigureKeepsUnnamed | EntityComparer/EntityComparer.cs:39 | a name no `ForMember` call used keeps its automatic rule, or stays without a rule |
| MappingExpressions.BuildRulesSpec | EntityComparer/EntityComparer.cs:19-41 | the stored table: configured names get their last rule; other names get the automatic rule exactly when all three types declare them; fails exactly on an invalid selector |
| DiffEngine.Resolve | EntityComparer/EntityComparer.cs:69-78 | the lookup succeeds exactly for a registered triple and returns its table; otherwise it fails with "no mapping configuration" for that triple |
| DiffEngine.Stored | EntityComparer/EntityComparer.cs:242 | setting null stores the property type's default; any other value is stored as given |
| DiffEngine.SetValue | EntityComparer/EntityComparer.cs:242 | setting a property succeeds exactly on an object; the object keeps its type and gains no slot but that property, the property holds the value given (its type's default for null), and every other property keeps its value |
| DiffEngine.ComparePrimitive | EntityComparer/EntityComparer.cs:232-243 | succeeds exactly when both delegates do; yields the destination value when the two differ, and null when they are equal |
| DiffEngine.Diff | EntityComparer/EntityComparer.cs:55-67 | an unregistered triple fails with "no mapping configuration" for that triple; a successful diff needs a registered triple and fuel |
| DiffEngine.MapInto | EntityComparer/EntityComparer.cs:106-218 | filling a diff succeeds only with fuel left |
| DiffEngine.ApplyProps | EntityComparer/EntityComparer.cs:110-217 | a successful walk over an object diff yields an object of the same type |
| DiffEngine.EvalProperty | EntityComparer/EntityComparer.cs:110-216 | a property without a rule is left alone; a list property is only ever assigned a list of its element type |
| DiffEngine.MapList | EntityComparer/EntityComparer.cs:126-168 | the list branch succeeds only on two lists with a registered element triple, and yields a list of the diff element type; lists of value-type elements (`Model.IsValueType`, .NET's `Type.IsValueType` on primitives and `Nullable<>`) are refused first, as the casts at :129-130 do (stated by `DiffProperties.ValueTypeListFails`) |
| DiffEngine.MapAdded | EntityComparer/EntityComparer.cs:144-152 | exactly one entry per Added element |
| DiffEngine.AddedEntry | EntityComparer/EntityComparer.cs:146-150 | an Added entry needs fuel and two element types `Activator.CreateInstance` can build |
| DiffEngine.MapModified | EntityComparer/EntityComparer.cs:154-165 | at most one entry per Modified element |
| DiffEngine.ModifiedEntry | EntityComparer/EntityComparer.cs:156-164 | a Modified element contributes one entry exactly when it has a partner, and none otherwise |
| DiffEngine.Partner | EntityComparer/EntityComparer.cs:156 | a partner is a destination element with the same `Id`; there is none exactly when no destination element carries that `Id` (or the element has none) |
| DiffProperties.ApplyPropsFields | EntityComparer/EntityComparer.cs:110-217 | the walk succeeds exactly when every property's step does; then the diff keeps its type, each property ends with what its own step decided, and other fields are unchanged |
| DiffProperties.FieldOutcome | EntityComparer/EntityComparer.cs:110-217 | after a successful `Map`, every diff property holds the outcome of its own step |
| DiffProperties.ScalarRule | EntityComparer/EntityComparer.cs:112-115 | a scalar with a rule holds the destination value when it differs from the source value; when they are equal or the destination is null, it holds the type's default (null, or zero for a non-nullable primitive) |
| DiffProperties.UnmappedPropertyInert | EntityComparer/EntityComparer.cs:110-117 | a diff property without a rule keeps the value it had |
| DiffProperties.NullSideSkipped | EntityComparer/EntityComparer.cs:121-124 | a nested or list property whose rule reads null on either side is left untouched |
| DiffProperties.MapIntoKeepsObject | EntityComparer/EntityComparer.cs:106-218 | `MappingExpression.Map` on a diff object yields an object of the same type |
| DiffProperties.NestedAlwaysAssigned | EntityComparer/EntityComparer.cs:201-214 | with both sides non-null, the runtime-type triple is registered and the property is always assigned the nested diff of a freshly built diff object |
| DiffProperties.MissingNestedMappingFails | EntityComparer/EntityComparer.cs:203-207 | an unregistered nested triple makes the whole `Map` fail |
| DiffProperties.MissingListMappingFails | EntityComparer/EntityComparer.cs:136-140 | an unregistered list-element triple makes the whole `Map` fail |
| DiffProperties.ValueTypeListFails | EntityComparer/EntityComparer.cs:126-130 | a list property whose lists hold value-type elements (primitives or `Nullable<>`) makes the whole `Map` fail, as the casts to `IEnumerable<dynamic>` throw |
| DiffProperties.UnregisteredDiffFails | EntityComparer/EntityComparer.cs:55-67 | `EntityComparer.Map` on an unregistered triple fails with "no mapping configuration" for that triple and returns no diff |
| DiffProperties.MapAddedShape | EntityComparer/EntityComparer.cs:144-152 | one entry per Added element, in order, each the diff of a blank source element against it |
| DiffProperties.MapModifiedShape | EntityComparer/EntityComparer.cs:154-165 | when every Modified element has a partner, there is one entry per Modified element, in order, each the diff of its partner against it |
| DiffProperties.MapListSteps | EntityComparer/EntityComparer.cs:126-168 | a successful list branch has list values on both sides, a registered element triple and a successful partition; the result is the Added entries followed by the Modified entries |
| DiffProperties.ModifiedHavePartners | EntityComparer/EntityComparer.cs:156 | every Modified element finds a partner in the destination list |
| DiffProperties.ListEntries | EntityComparer/EntityComparer.cs:142-167 | a reconciled list has length \|Added\| + \|Modified\|: Added entries first, each a blank source element diffed against it (`AddedEntriesAt`), then Modified entries, each its first same-`Id` destination element diffed against it (`ModifiedEntriesAt`) |
| DiffProperties.ListPropertyReconciled | EntityComparer/EntityComparer.cs:126-168 | a list property with both sides non-null ends holding the reconciled list |
| DiffProperties.SelfDiffResetsScalar | EntityComparer/EntityComparer.cs:232-243 | diffing a value against itself resets every scalar whose rule reads the same value on both sides |
| DiffProperties.ModifiedEntryComparesWithItself | EntityComparer/EntityComparer.cs:154-165 | with unique destination `Id`s, a modified element is its own partner, so each such scalar of its entry is reset to its default |
| DiffProperties.ApplyPropsIsFold | EntityComparer/EntityComparer.cs:110-217 | the property walk is the fold of the per-property outcomes, each computed on the original source and destination |
| DiffProperties.FoldSettles | EntityComparer/EntityComparer.cs:110-217 | folding settles each property by its own outcome alone and leaves other fields untouched |
| DiffProperties.DiffFuel | EntityComparer/EntityComparer.cs:55-67 | a diff that succeeds with some fuel is the same with any larger fuel |
| DiffProperties.MapIntoFuel | EntityComparer/EntityComparer.cs:106-218 | a successful `Map` into a diff object is the same with any larger fuel |
| DiffProperties.ApplyPropsFuel | EntityComparer/EntityComparer.cs:110-217 | a successful property walk is the same with any larger fuel |
| DiffProperties.EvalPropertyFuel | EntityComparer/EntityComparer.cs:110-216 | a successful property step is the same with any larger fuel |
| DiffProperties.MapListFuel | EntityComparer/EntityComparer.cs:126-168 | a successful list reconciliation is the same with any larger fuel |
| DiffProperties.MapAddedFuel | EntityComparer/EntityComparer.cs:144-152 | the Added entries, once computed, are the same with any larger fuel |
| DiffProperties.AddedEntryFuel | EntityComparer/EntityComparer.cs:146-150 | one Added entry, once computed, is the same with any larger fuel |
| DiffProperties.MapModifiedFuel | EntityComparer/EntityComparer.cs:154-165 | the Modified entries, once computed, are the same with any larger fuel |
| DiffProperties.ModifiedEntryFuel | EntityComparer/EntityComparer.cs:156-164 | one Modified entry, once computed, is the same with any larger fuel |
| DiffExecution.MapObject | EntityComparer/EntityComparer.cs:106-218 | the imperative `MappingExpression.Map` computes `MapInto`, including its failures |
| DiffExecution.MapProperties | EntityComparer/EntityComparer.cs:110-217 | the `foreach` loop with its in-place `SetValue` computes `ApplyProps` |
| DiffExecution.EvaluateProperty | EntityComparer/EntityComparer.cs:112-117 | one loop iteration decides exactly what `EvalProperty` decides |
| DiffExecution.EvaluateReference | EntityComparer/EntityComparer.cs:117-216 | the list and nested branches compute `EvalProperty` |
| DiffExecution.MapNested | EntityComparer/EntityComparer.cs:201-214 | the nested branch resolves the runtime triple, builds a fresh diff and maps into it |
| DiffExecution.ReconcileList | EntityComparer/EntityComparer.cs:126-168 | the list branch computes `MapList` |
| DiffExecution.AppendAdded | EntityComparer/EntityComparer.cs:144-152 | the Added loop appends to `diffArray` exactly the entries `MapAdded` lists |
| DiffExecution.AppendModified | EntityComparer/EntityComparer.cs:154-165 | the Modified loop appends to `diffArray` exactly the entries `MapModified` lists |
| Comparer.EntityComparer.constructor | EntityComparer/EntityComparer.cs:14 | a new comparer has no mappings |
| Comparer.EntityComparer.CreateMap | EntityComparer/EntityComparer.cs:16-42 | succeeds exactly when the rule table can be built; then stores it under the triple, replacing an earlier one and leaving other triples alone; on an invalid selector nothing is registered |
| Comparer.EntityComparer.Map | EntityComparer/EntityComparer.cs:55-67 | returns exactly `Diff` over the current registry, failures included |
| Demo.RegistrationsBuilt | EntityComparer/Program.cs:11-24 | the three sample `CreateMap` calls build the expected rule tables |
| Demo.SampleDiff | EntityComparer/Program.cs:26-41 | the sample diff has full name "John Doe" and age 7; a nested address diff with the new name; the new flat-map name; and the list of the added element (Id 2) followed by the reset modified element |
| Demo.SampleDiffAnyFuel | EntityComparer/Program.cs:26-41 | the sample diff is the same for every fuel from 2 on |
| Demo.SampleDiffNeedsTwo | EntityComparer/Program.cs:26-41 | with fuel 1 the sample diff fails with `DepthExhausted`, because the nested address diff has no fuel left |
| Demo.SampleRun | EntityComparer/Program.cs:9-41 | running `Main` on a fresh comparer (three registrations, then `Map`) produces that diff |

## Left out

- Reflection and code generation are represented as data, not modelled: `GetProperties`, `Activator.CreateInstance`, `DynamicInvoke`, `dynamic` binding, and the expression trees `CreatePropertyAccessor` builds (EntityComparer/EntityComparer.cs:44-53). A schema, `Value`s and `Accessor`s stand in for them, and a built selector is `PropertySelector`.
- `GetMappingKey`: the string format of the key is not modelled. A key is the triple of types, so two distinct types that share a `FullName` are not confused here.
- The commented-out array branch (EntityComparer/EntityComparer.cs:169-200) is dead code.
- The configurator is modelled as the sequence of its `ForMember` calls. Other code it could run is not modelled.
- Comparer.EntityComparer.CreateMap: stores a snapshot of the rule table. A configurator that keeps the `MappingExpression` and changes it after registration is not modelled, because that is aliasing the registry would observe.
- DiffEngine.SetValue: `PropertyInfo.SetValue` throws in cases the model does not represent, where the model stores the value and fails only on a non-object target. It throws `ArgumentException` on a get-only diff property (no set method), which an automatic rule reaches whenever source and destination share that property's name. It also throws when a value of the wrong type is assigned, for example from a `Func` returning another type.
- DiffEngine.ComparePrimitive: `Object.Equals` is modelled as structural equality of `Value`s. For boxed primitives and strings the two agree. For objects of a class without an `Equals` override .NET compares references, so two distinct but equal-looking objects (for example two `FlatMap` instances read by a rule into a scalar diff property) count as different in C#, and the `SetValue` that follows then throws for the type mismatch; the model calls them equal and stores null. User types that override `Equals` are not modelled either.
- ListComparison.CompareLists: all `Id` comparisons use one equality, structural equality of `Value`s. The C# code mixes two: `ExceptBy` (EntityComparer/EntityComparer.cs:274) uses `Equals`, while `Where` (EntityComparer/EntityComparer.cs:275) and `FirstOrDefault` (EntityComparer/EntityComparer.cs:156) use the dynamic `==`. They differ across numeric types: a boxed `int` 1 and a boxed `long` 1 are unequal to `Equals` but equal to `==`, so a destination element with `Id` `long` 1 against a source `Id` `int` 1 lands in both Added and Modified in C#, and in Added only in the model. Binder exceptions for `Id` types that cannot be compared are not modelled either.
- DiffExecution.EvaluateReference: the C# code's lazy-evaluation order of errors is not modelled. Both sides are read before the null check, and when several errors are possible (for example a missing `Id` together with a missing mapping), the model reports the first in its own order.
- Model.DefaultValue: every `Named` type is treated as a class, whose default is null. Struct types (`DateTime`, `decimal`, `Guid`, enums) default to their zero value in .NET, not null, so a struct-typed diff property set to null holds that zero value in C#; the model does not represent it.
- Model.Instantiate: `Activator.CreateInstance` always succeeds in the model except for `string`. In .NET it throws for abstract classes, interfaces and classes without a public parameterless constructor, which the calls at EntityComparer/EntityComparer.cs:60, :146-148, :160 and :210 can reach; the model has no such types. `Activator.CreateInstance` also runs the constructor and the property initializers, which the model does not represent: it gives every declared property its type's default. A diff type declaring, say, `public List<Coll> Colls2 { get; set; } = new();` starts with an empty list there in C#, so a skipped or unmapped property keeps that list rather than null (the fresh diffs at EntityComparer/EntityComparer.cs:60 and :210), and a placeholder source element built at :148 carries its initial values into the comparison at :149.
- Model.Invoke: a getter accepts only an object whose runtime type is exactly its declaring type, and a lambda only an argument of exactly its parameter type. .NET also accepts instances of derived classes; the model has no inheritance and refuses them.
- DiffEngine.MapList: the casts at EntityComparer/EntityComparer.cs:129-130 refuse lists of value-type elements; the model refuses primitives and `Nullable<>` elements, but a list of a struct type such as `List<DateTime>` passes, because every `Named` type is treated as a class.
- Property inheritance, indexers and non-public properties are not modelled: the schema lists each type's public properties directly.
- Floating-point payloads: primitives carry an integer payload.
- DiffEngine.MapInto: the recursion is bounded by `fuel`, the nesting depth of the object graph. When the fuel runs out it fails with `DepthExhausted`, where the C# code would recurse without end (cyclic graphs) or overflow its stack. Too little fuel also fails on deep but finite graphs, where C# succeeds: the sample diff fails with fuel 1 (`Demo.SampleDiffNeedsTwo`). Enough fuel gives the C# result, and more fuel never changes a result (`DiffProperties.DiffFuel`).
- Thread safety of the shared dictionaries is not modelled.
- `EntityComparer/Program.cs:43`: the JSON serialisation and the console output are I/O. `EntityComparer/TestEntities.cs` has no logic; its types appear only in the sample schema of `Demo`.
- Lambdas that throw are not modelled: a caller-supplied `Func` is a total Dafny function, so a `NullReferenceException` inside a lambda becomes whatever the function returns.
