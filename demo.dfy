/**
  The sample program: three registrations (`User`/`UserDto` into
  `UserEvent`, `Address` into `AddressEvent`, `Coll` into itself), one diff
  of a stored user against an update request, and the diff it produces.
*/
module Demo {
  import opened Wrappers
  import opened Model
  import opened ListComparison
  import opened MappingExpressions
  import opened DiffEngine
  import opened Comparer
  import opened DiffProperties

  const Int32 := Primitive("Int32")
  const UserType := Named("User")
  const UserDtoType := Named("UserDto")
  const UserEventType := Named("UserEvent")
  const AddressType := Named("Address")
  const AddressEventType := Named("AddressEvent")
  const FlatMapType := Named("FlatMap")
  const CollType := Named("Coll")

  /** The sample entity classes, their properties in declaration order. */
  function Entities(): Schema {
    map[
      UserType := [Property("FirstName", StringType), Property("LastName", StringType), Property("Age", Int32),
                   Property("Address", AddressType), Property("FlatMap", FlatMapType),
                   Property("Colls", ListOf(CollType))],
      UserDtoType := [Property("FullName", StringType), Property("Age", Int32), Property("Address", AddressType),
                      Property("FlatMap", FlatMapType), Property("Colls", ListOf(CollType))],
      UserEventType := [Property("FullNameTest", StringType), Property("Age", Int32),
                        Property("Address", AddressEventType), Property("FlatMap", StringType),
                        Property("Colls2", ListOf(CollType))],
      AddressType := [Property("Name", StringType)],
      AddressEventType := [Property("EventName", StringType)],
      FlatMapType := [Property("FullName", StringType)],
      CollType := [Property("Id", Int32), Property("ValueEvent", StringType)]
    ]
  }

  /** Member access `v.name` inside a lambda; a missing member reads as null. */
  function Field(v: Value, name: string): Value {
    if v.Obj? && name in v.fields then v.fields[name] else Null
  }

  /** String concatenation treats null as the empty string. */
  function Text(v: Value): string {
    if v.Str? then v.s else ""
  }

  function FullNameOfUser(src: Value): Value { Str(Text(Field(src, "FirstName")) + " " + Text(Field(src, "LastName"))) }
  function FullNameOfDto(d: Value): Value { Field(d, "FullName") }
  function CollsOf(src: Value): Value { Field(src, "Colls") }
  function FlatMapNameOf(src: Value): Value { Field(Field(src, "FlatMap"), "FullName") }
  function NameOf(src: Value): Value { Field(src, "Name") }
  function ValueEventOf(src: Value): Value { Field(src, "ValueEvent") }

  const UserKey := MappingKey(UserType, UserDtoType, UserEventType)
  const AddressKey := MappingKey(AddressType, AddressType, AddressEventType)
  const CollKey := MappingKey(CollType, CollType, CollType)

  function UserConfig(): seq<ConfigStep> {
    [ ForMember(MemberAccess(Parameter, "FullNameTest"), Lambda(UserType, FullNameOfUser), Lambda(UserDtoType, FullNameOfDto)),
      ForMember(MemberAccess(Parameter, "Colls2"), Lambda(UserType, CollsOf), Lambda(UserDtoType, CollsOf)),
      ForMember(MemberAccess(Parameter, "FlatMap"), Lambda(UserType, FlatMapNameOf), Lambda(UserDtoType, FlatMapNameOf)) ]
  }

  function AddressConfig(): seq<ConfigStep> {
    [ ForMember(MemberAccess(Parameter, "EventName"), Lambda(AddressType, NameOf), Lambda(AddressType, NameOf)) ]
  }

  function CollConfig(): seq<ConfigStep> {
    [ ForMember(MemberAccess(Parameter, "ValueEvent"), Lambda(CollType, ValueEventOf), Lambda(CollType, ValueEventOf)) ]
  }

  /** The rule tables the three registrations store. */
  function UserRules(): RuleTable {
    map[
      "Age" := PropertyMapping(Getter(UserType, "Age"), Getter(UserDtoType, "Age")),
      "Address" := PropertyMapping(Getter(UserType, "Address"), Getter(UserDtoType, "Address")),
      "FullNameTest" := PropertyMapping(Lambda(UserType, FullNameOfUser), Lambda(UserDtoType, FullNameOfDto)),
      "Colls2" := PropertyMapping(Lambda(UserType, CollsOf), Lambda(UserDtoType, CollsOf)),
      "FlatMap" := PropertyMapping(Lambda(UserType, FlatMapNameOf), Lambda(UserDtoType, FlatMapNameOf))
    ]
  }

  function AddressRules(): RuleTable {
    map["EventName" := PropertyMapping(Lambda(AddressType, NameOf), Lambda(AddressType, NameOf))]
  }

  function CollRules(): RuleTable {
    map[
      "Id" := PropertyMapping(Getter(CollType, "Id"), Getter(CollType, "Id")),
      "ValueEvent" := PropertyMapping(Lambda(CollType, ValueEventOf), Lambda(CollType, ValueEventOf))
    ]
  }

  function Registrations(): Registry {
    map[UserKey := UserRules(), AddressKey := AddressRules(), CollKey := CollRules()]
  }

  function Coll(id: int, valueEvent: Value): Value {
    Obj("Coll", map["Id" := Prim("Int32", id), "ValueEvent" := valueEvent])
  }

  /** The stored user. */
  function StoredUser(): Value {
    Obj("User", map[
      "FirstName" := Str("John1"), "LastName" := Str("Doe"), "Age" := Prim("Int32", 5),
      "Address" := Obj("Address", map["Name" := Str("Bratislava")]),
      "FlatMap" := Obj("FlatMap", map["FullName" := Str("Flat Mapping")]),
      "Colls" := List(CollType, [Coll(1, Str("Test"))])
    ])
  }

  /** The update request. */
  function UpdateRequest(): Value {
    Obj("UserDto", map[
      "FullName" := Str("John Doe"), "Age" := Prim("Int32", 7),
      "Address" := Obj("Address", map["Name" := Str("Bratislava Rustaveliho")]),
      "FlatMap" := Obj("FlatMap", map["FullName" := Str("Flat Mapping Updated")]),
      "Colls" := List(CollType, [Coll(1, Str("Test")), Coll(2, Str("Abc"))])
    ])
  }

  const UserEventProps := [Property("FullNameTest", StringType), Property("Age", Int32),
                           Property("Address", AddressEventType), Property("FlatMap", StringType),
                           Property("Colls2", ListOf(CollType))]
  const AddressEventProps := [Property("EventName", StringType)]
  const CollProps := [Property("Id", Int32), Property("ValueEvent", StringType)]

  lemma SampleSchema()
    ensures Props(Entities(), UserEventType) == UserEventProps
    ensures Props(Entities(), AddressEventType) == AddressEventProps
    ensures Props(Entities(), CollType) == CollProps
  {
  }

  lemma SampleRegistry()
    ensures UserKey in Registrations() && Registrations()[UserKey] == UserRules()
    ensures AddressKey in Registrations() && Registrations()[AddressKey] == AddressRules()
    ensures CollKey in Registrations() && Registrations()[CollKey] == CollRules()
  {
  }

  /** One step of the `foreach`: a property whose step yields `Some(v)` is set, and the walk goes on. */
  lemma SetStep(schema: Schema, reg: Registry, rules: RuleTable, props: seq<Property>, source: Value,
                destination: Value, diff: Value, fuel: nat, v: Value)
    requires props != [] && diff.Obj?
    requires EvalProperty(schema, reg, rules, props[0], source, destination, fuel) == Success(Some(v))
    ensures ApplyProps(schema, reg, rules, props, source, destination, diff, fuel)
         == ApplyProps(schema, reg, rules, props[1..], source, destination,
                       Obj(diff.ty, diff.fields[props[0].name := Stored(v, props[0].ty)]), fuel)
  {
  }

  /** The step of a list property whose two sides are non-null lists. */
  lemma ListOutcome(schema: Schema, reg: Registry, rules: RuleTable, p: Property, source: Value, destination: Value,
                    fuel: nat, sv: Value, dv: Value, list: Value)
    requires p.name in rules && p.ty.ListOf? && sv != Null && dv != Null
    requires Invoke(rules[p.name].source, source) == Success(sv) && Invoke(rules[p.name].compare, destination) == Success(dv)
    requires MapList(schema, reg, p.ty.element, sv, dv, fuel) == Success(list)
    ensures EvalProperty(schema, reg, rules, p, source, destination, fuel) == Success(Some(list))
  {
  }

  /** The step of a nested property whose two sides are non-null objects. */
  lemma NestedOutcome(schema: Schema, reg: Registry, rules: RuleTable, p: Property, source: Value, destination: Value,
                      fuel: nat, sv: Value, dv: Value, blank: Value, nested: Value)
    requires p.name in rules && p.ty.Named? && sv.Obj? && dv.Obj?
    requires Invoke(rules[p.name].source, source) == Success(sv) && Invoke(rules[p.name].compare, destination) == Success(dv)
    requires MappingKey(RuntimeType(sv), RuntimeType(dv), p.ty) in reg
    requires Instantiate(schema, p.ty) == Success(blank)
    requires MapInto(schema, reg, reg[MappingKey(RuntimeType(sv), RuntimeType(dv), p.ty)], p.ty, sv, dv, blank, fuel)
          == Success(nested)
    ensures EvalProperty(schema, reg, rules, p, source, destination, fuel) == Success(Some(nested))
  {
  }

  /** One step of `DefaultFields`. */
  lemma DefaultFieldsStep(props: seq<Property>)
    requires props != []
    ensures DefaultFields(props) == DefaultFields(props[1..])[props[0].name := DefaultValue(props[0].ty)]
  {
  }

  function Addr(name: string): Value { Obj("Address", map["Name" := Str(name)]) }

  const BlankAddressEvent := Obj("AddressEvent", map["EventName" := Null])
  const BlankColl := Obj("Coll", map["Id" := Prim("Int32", 0), "ValueEvent" := Null])

  lemma BlankAddressEventIsDefault(schema: Schema)
    requires Props(schema, AddressEventType) == AddressEventProps
    ensures Instantiate(schema, AddressEventType) == Success(BlankAddressEvent)
  {
    DefaultFieldsStep(AddressEventProps);
    assert AddressEventProps[1..] == [];
    assert DefaultFields(AddressEventProps) == map[]["EventName" := Null];
    assert DefaultFields(AddressEventProps) == BlankAddressEvent.fields;
  }

  lemma BlankCollIsDefault(schema: Schema)
    requires Props(schema, CollType) == CollProps
    ensures Instantiate(schema, CollType) == Success(BlankColl)
  {
    var c := CollProps;
    DefaultFieldsStep(c);
    DefaultFieldsStep(c[1..]);
    assert c[1..][1..] == [];
    assert DefaultFields(c[1..]) == map["ValueEvent" := Null];
    assert DefaultFields(c) == map["ValueEvent" := Null]["Id" := Prim("Int32", 0)];
    assert DefaultFields(c) == BlankColl.fields;
    assert Instantiate(schema, CollType) == Success(Obj("Coll", DefaultFields(c)));
  }

  /** The nested `Address` diff: the changed name is carried into `EventName`. */
  lemma AddressDiff(schema: Schema, reg: Registry, before: string, after: string)
    requires Props(schema, AddressEventType) == AddressEventProps && before != after
    ensures MapInto(schema, reg, AddressRules(), AddressEventType, Addr(before), Addr(after), BlankAddressEvent, 1)
         == Success(Obj("AddressEvent", map["EventName" := Str(after)]))
  {
    assert BlankAddressEvent.fields["EventName" := Str(after)] == map["EventName" := Null]["EventName" := Str(after)];
    assert map["EventName" := Null]["EventName" := Str(after)] == map["EventName" := Str(after)];
    assert Addr(before) != Addr(after) by { assert Addr(before).fields["Name"] != Addr(after).fields["Name"]; }
    assert EvalProperty(schema, reg, AddressRules(), AddressEventProps[0], Addr(before), Addr(after), 0)
        == Success(Some(Str(after)));
    SetStep(schema, reg, AddressRules(), AddressEventProps, Addr(before), Addr(after), BlankAddressEvent, 0, Str(after));
    assert AddressEventProps[1..] == [];
  }

  lemma CollIdOutcome(schema: Schema, reg: Registry, source: Value, destination: Value, id: int) returns (v: Value)
    requires source.Obj? && source.ty == "Coll" && destination.Obj? && destination.ty == "Coll"
    requires "Id" in source.fields && "Id" in destination.fields
    requires var sid, did := source.fields["Id"], destination.fields["Id"];
      (sid != did && did != Null ==> Prim("Int32", id) == did) && (sid == did || did == Null ==> id == 0)
    ensures EvalProperty(schema, reg, CollRules(), CollProps[0], source, destination, 0) == Success(Some(v))
    ensures Stored(v, Int32) == Prim("Int32", id)
  {
    var m := CollRules()["Id"];
    assert Invoke(m.source, source) == Success(source.fields["Id"]);
    assert Invoke(m.compare, destination) == Success(destination.fields["Id"]);
    v := ComparePrimitive(m, source, destination).value;
  }

  lemma CollValueEventOutcome(schema: Schema, reg: Registry, source: Value, destination: Value)
    requires source.Obj? && source.ty == "Coll" && destination.Obj? && destination.ty == "Coll"
    ensures var sv, dv := ValueEventOf(source), ValueEventOf(destination);
      EvalProperty(schema, reg, CollRules(), CollProps[1], source, destination, 0)
        == Success(Some(if sv == dv then Null else dv))
  {
  }

  /** Diffing two `Coll`s with the `Coll` mapping: `Id` and `ValueEvent` follow the scalar rule. */
  lemma CollDiff(schema: Schema, reg: Registry, source: Value, destination: Value, id: int, valueEvent: Value)
    requires Props(schema, CollType) == CollProps
    requires source.Obj? && source.ty == "Coll" && destination.Obj? && destination.ty == "Coll"
    requires "Id" in source.fields && "Id" in destination.fields
    requires var sid, did := source.fields["Id"], destination.fields["Id"];
      (sid != did && did != Null ==> Prim("Int32", id) == did) && (sid == did || did == Null ==> id == 0)
    requires var sv, dv := ValueEventOf(source), ValueEventOf(destination);
      valueEvent == if sv == dv then Null else dv
    ensures MapInto(schema, reg, CollRules(), CollType, source, destination, BlankColl, 1)
         == Success(Coll(id, valueEvent))
  {
    var diff1 := Obj("Coll", BlankColl.fields["Id" := Prim("Int32", id)]);
    assert Obj("Coll", diff1.fields["ValueEvent" := valueEvent]) == Coll(id, valueEvent);
    var e0 := CollIdOutcome(schema, reg, source, destination, id);
    SetStep(schema, reg, CollRules(), CollProps, source, destination, BlankColl, 0, e0);
    assert CollProps[1..] == [CollProps[1]] && CollProps[1..][1..] == [];
    CollValueEventOutcome(schema, reg, source, destination);
    SetStep(schema, reg, CollRules(), CollProps[1..], source, destination, diff1, 0, valueEvent);
  }

  const StoredColls := [Coll(1, Str("Test"))]
  const RequestColls := [Coll(1, Str("Test")), Coll(2, Str("Abc"))]

  /** The request adds the element with id 2 and keeps the one with id 1. */
  lemma SampleCompareLists()
    ensures CompareLists(StoredColls, RequestColls) == Success(Partition([RequestColls[1]], [RequestColls[0]]))
  {
    var c1, c2 := RequestColls[0], RequestColls[1];
    assert IdOf(c1) == Prim("Int32", 1) && IdOf(c2) == Prim("Int32", 2);
    assert StoredColls[1..] == [] && RequestColls[1..] == [c2] && RequestColls[1..][1..] == [];
    var keys := KeySet(StoredColls);
    assert keys == {Prim("Int32", 1)};
    assert ExceptBy([c2], keys) == [c2] + ExceptBy([], keys + {IdOf(c2)});
    assert ExceptBy(RequestColls, keys) == [c2];
    assert Where([c2], keys) == [];
    assert Where(RequestColls, keys) == [c1];
  }

  lemma AddedColl(schema: Schema, reg: Registry)
    requires Props(schema, CollType) == CollProps
    ensures MapAdded(schema, reg, CollRules(), CollType, CollType, [RequestColls[1]], 1) == Success([Coll(2, Str("Abc"))])
  {
    var c2 := RequestColls[1];
    BlankCollIsDefault(schema);
    CollDiff(schema, reg, BlankColl, c2, 2, Str("Abc"));
    assert AddedEntry(schema, reg, CollRules(), CollType, CollType, c2, 1) == Success(Coll(2, Str("Abc")));
    assert [c2][0] == c2 && [c2][1..] == [];
    assert MapAdded(schema, reg, CollRules(), CollType, CollType, [], 1) == Success([]);
    assert [Coll(2, Str("Abc"))] + [] == [Coll(2, Str("Abc"))];
  }

  lemma ModifiedColl(schema: Schema, reg: Registry)
    requires Props(schema, CollType) == CollProps
    ensures MapModified(schema, reg, CollRules(), CollType, RequestColls, [RequestColls[0]], 1) == Success([Coll(0, Null)])
  {
    var c1 := RequestColls[0];
    BlankCollIsDefault(schema);
    CollDiff(schema, reg, c1, c1, 0, Null);
    assert Partner(RequestColls, c1) == Some(c1);
    assert ModifiedEntry(schema, reg, CollRules(), CollType, RequestColls, c1, 1) == Success([Coll(0, Null)]);
    assert [c1][0] == c1 && [c1][1..] == [];
    assert MapModified(schema, reg, CollRules(), CollType, RequestColls, [], 1) == Success([]);
    assert [Coll(0, Null)] + [] == [Coll(0, Null)];
  }

  /** The `Colls2` list diff: the added element, then the kept element diffed against itself. */
  lemma CollsDiff(schema: Schema, reg: Registry)
    requires Props(schema, CollType) == CollProps
    requires CollKey in reg && reg[CollKey] == CollRules()
    ensures MapList(schema, reg, CollType, List(CollType, StoredColls), List(CollType, RequestColls), 1)
         == Success(List(CollType, [Coll(2, Str("Abc")), Coll(0, Null)]))
  {
    SampleCompareLists();
    AddedColl(schema, reg);
    ModifiedColl(schema, reg);
    assert [Coll(2, Str("Abc"))] + [Coll(0, Null)] == [Coll(2, Str("Abc")), Coll(0, Null)];
  }

  lemma FullNameTestOutcome(schema: Schema, reg: Registry, fuel: nat)
    ensures EvalProperty(schema, reg, UserRules(), UserEventProps[0], StoredUser(), UpdateRequest(), fuel)
         == Success(Some(Str("John Doe")))
  {
    assert FullNameOfUser(StoredUser()) == Str("John1 Doe");
    assert FullNameOfDto(UpdateRequest()) == Str("John Doe");
  }

  lemma AgeOutcome(schema: Schema, reg: Registry, fuel: nat)
    ensures EvalProperty(schema, reg, UserRules(), UserEventProps[1], StoredUser(), UpdateRequest(), fuel)
         == Success(Some(Prim("Int32", 7)))
  {
    var m := UserRules()["Age"];
    assert Invoke(m.source, StoredUser()) == Success(Prim("Int32", 5));
    assert Invoke(m.compare, UpdateRequest()) == Success(Prim("Int32", 7));
  }

  lemma AddressOutcome(schema: Schema, reg: Registry)
    requires Props(schema, AddressEventType) == AddressEventProps
    requires AddressKey in reg && reg[AddressKey] == AddressRules()
    ensures EvalProperty(schema, reg, UserRules(), UserEventProps[2], StoredUser(), UpdateRequest(), 1)
         == Success(Some(SampleAddress))
  {
    var m := UserRules()["Address"];
    assert Invoke(m.source, StoredUser()) == Success(Addr("Bratislava"));
    assert Invoke(m.compare, UpdateRequest()) == Success(Addr("Bratislava Rustaveliho"));
    assert MappingKey(RuntimeType(Addr("Bratislava")), RuntimeType(Addr("Bratislava Rustaveliho")), AddressEventType)
        == AddressKey;
    BlankAddressEventIsDefault(schema);
    AddressDiff(schema, reg, "Bratislava", "Bratislava Rustaveliho");
    NestedOutcome(schema, reg, UserRules(), UserEventProps[2], StoredUser(), UpdateRequest(), 1,
                  Addr("Bratislava"), Addr("Bratislava Rustaveliho"), BlankAddressEvent,
                  Obj("AddressEvent", map["EventName" := Str("Bratislava Rustaveliho")]));
  }

  lemma FlatMapOutcome(schema: Schema, reg: Registry)
    ensures EvalProperty(schema, reg, UserRules(), UserEventProps[3], StoredUser(), UpdateRequest(), 1)
         == Success(Some(Str("Flat Mapping Updated")))
  {
    assert FlatMapNameOf(StoredUser()) == Str("Flat Mapping");
    assert FlatMapNameOf(UpdateRequest()) == Str("Flat Mapping Updated");
  }

  lemma Colls2Outcome(schema: Schema, reg: Registry)
    requires Props(schema, CollType) == CollProps
    requires CollKey in reg && reg[CollKey] == CollRules()
    ensures EvalProperty(schema, reg, UserRules(), UserEventProps[4], StoredUser(), UpdateRequest(), 1)
         == Success(Some(SampleColls))
  {
    var m := UserRules()["Colls2"];
    assert m == PropertyMapping(Lambda(UserType, CollsOf), Lambda(UserDtoType, CollsOf));
    assert Invoke(m.source, StoredUser()) == Success(List(CollType, StoredColls));
    assert Invoke(m.compare, UpdateRequest()) == Success(List(CollType, RequestColls));
    CollsDiff(schema, reg);
    ListOutcome(schema, reg, UserRules(), UserEventProps[4], StoredUser(), UpdateRequest(), 1,
                List(CollType, StoredColls), List(CollType, RequestColls),
                List(CollType, [Coll(2, Str("Abc")), Coll(0, Null)]));
  }

  /**
    The expected diff, field by field: every changed scalar carries its new
    value, the address is a nested diff, and the list holds the added element
    (id 2) followed by the unchanged element diffed against itself, whose id
    resets to 0 and whose text resets to null.
  */
  ghost predicate IsSampleDiff(r: Result<Value, Error>) {
    && r.Success? && r.value.Obj? && r.value.ty == "UserEvent"
    && "FullNameTest" in r.value.fields && r.value.fields["FullNameTest"] == Str("John Doe")
    && "Age" in r.value.fields && r.value.fields["Age"] == Prim("Int32", 7)
    && "Address" in r.value.fields && r.value.fields["Address"] == SampleAddress
    && "FlatMap" in r.value.fields && r.value.fields["FlatMap"] == Str("Flat Mapping Updated")
    && "Colls2" in r.value.fields && r.value.fields["Colls2"] == SampleColls
  }

  const SampleAddress := Obj("AddressEvent", map["EventName" := Str("Bratislava Rustaveliho")])
  const SampleColls := List(CollType, [Coll(2, Str("Abc")), Coll(0, Null)])

  /** The walk over the `UserEvent` properties from `FlatMap` on. */
  lemma SampleFromFlatMap(schema: Schema, reg: Registry, d: Value)
    requires d.Obj?
    requires Props(schema, CollType) == CollProps
    requires CollKey in reg && reg[CollKey] == CollRules()
    ensures ApplyProps(schema, reg, UserRules(), UserEventProps[3..], StoredUser(), UpdateRequest(), d, 1)
         == Success(Obj(d.ty, d.fields["FlatMap" := Str("Flat Mapping Updated")]["Colls2" := SampleColls]))
  {
    var u := UserEventProps;
    assert u[3..][0] == u[3] && u[3..][1..] == u[4..] && u[4..][0] == u[4] && u[4..][1..] == [];
    FlatMapOutcome(schema, reg);
    SetStep(schema, reg, UserRules(), u[3..], StoredUser(), UpdateRequest(), d, 1, Str("Flat Mapping Updated"));
    var d4 := Obj(d.ty, d.fields["FlatMap" := Str("Flat Mapping Updated")]);
    Colls2Outcome(schema, reg);
    SetStep(schema, reg, UserRules(), u[4..], StoredUser(), UpdateRequest(), d4, 1, SampleColls);
  }

  /** The walk over the `UserEvent` properties from `Age` on. */
  lemma SampleFromAge(schema: Schema, reg: Registry, d: Value)
    requires d.Obj?
    requires Props(schema, AddressEventType) == AddressEventProps
    requires Props(schema, CollType) == CollProps
    requires AddressKey in reg && reg[AddressKey] == AddressRules()
    requires CollKey in reg && reg[CollKey] == CollRules()
    ensures ApplyProps(schema, reg, UserRules(), UserEventProps[1..], StoredUser(), UpdateRequest(), d, 1)
         == Success(Obj(d.ty, d.fields["Age" := Prim("Int32", 7)]["Address" := SampleAddress]
                                      ["FlatMap" := Str("Flat Mapping Updated")]["Colls2" := SampleColls]))
  {
    var u := UserEventProps;
    assert u[1..][0] == u[1] && u[1..][1..] == u[2..] && u[2..][0] == u[2] && u[2..][1..] == u[3..];
    AgeOutcome(schema, reg, 1);
    SetStep(schema, reg, UserRules(), u[1..], StoredUser(), UpdateRequest(), d, 1, Prim("Int32", 7));
    var d2 := Obj(d.ty, d.fields["Age" := Prim("Int32", 7)]);
    AddressOutcome(schema, reg);
    SetStep(schema, reg, UserRules(), u[2..], StoredUser(), UpdateRequest(), d2, 1, SampleAddress);
    var d3 := Obj(d.ty, d2.fields["Address" := SampleAddress]);
    SampleFromFlatMap(schema, reg, d3);
  }

  lemma SampleDiffUnfolds(schema: Schema, reg: Registry, fuel: nat)
    requires fuel > 0
    requires Props(schema, UserEventType) == UserEventProps
    requires UserKey in reg && reg[UserKey] == UserRules()
    ensures Diff(schema, reg, UserKey, StoredUser(), UpdateRequest(), fuel)
         == ApplyProps(schema, reg, UserRules(), UserEventProps, StoredUser(), UpdateRequest(),
                       Obj("UserEvent", DefaultFields(UserEventProps)), fuel - 1)
  {
  }

  lemma SampleFields(fields: map<string, Value>)
    ensures IsSampleDiff(Success(Obj("UserEvent", fields["FullNameTest" := Str("John Doe")]["Age" := Prim("Int32", 7)]
                                                        ["Address" := SampleAddress]
                                                        ["FlatMap" := Str("Flat Mapping Updated")]
                                                        ["Colls2" := SampleColls])))
  {
  }

  lemma SampleDiffWith(schema: Schema, reg: Registry)
    requires Props(schema, UserEventType) == UserEventProps
    requires Props(schema, AddressEventType) == AddressEventProps
    requires Props(schema, CollType) == CollProps
    requires UserKey in reg && reg[UserKey] == UserRules()
    requires AddressKey in reg && reg[AddressKey] == AddressRules()
    requires CollKey in reg && reg[CollKey] == CollRules()
    ensures IsSampleDiff(Diff(schema, reg, UserKey, StoredUser(), UpdateRequest(), 2))
  {
    var u := UserEventProps;
    var d0 := Obj("UserEvent", DefaultFields(u));
    SampleDiffUnfolds(schema, reg, 2);
    FullNameTestOutcome(schema, reg, 1);
    SetStep(schema, reg, UserRules(), u, StoredUser(), UpdateRequest(), d0, 1, Str("John Doe"));
    var d1 := Obj("UserEvent", d0.fields["FullNameTest" := Str("John Doe")]);
    SampleFromAge(schema, reg, d1);
    SampleFields(d0.fields);
  }

  const UserProps := [Property("FirstName", StringType), Property("LastName", StringType), Property("Age", Int32),
                      Property("Address", AddressType), Property("FlatMap", FlatMapType),
                      Property("Colls", ListOf(CollType))]
  const UserDtoProps := [Property("FullName", StringType), Property("Age", Int32), Property("Address", AddressType),
                         Property("FlatMap", FlatMapType), Property("Colls", ListOf(CollType))]
  const AddressProps := [Property("Name", StringType)]

  lemma MoreSampleSchema()
    ensures Props(Entities(), UserType) == UserProps
    ensures Props(Entities(), UserDtoType) == UserDtoProps
    ensures Props(Entities(), AddressType) == AddressProps
  {
  }

  /** One step of `AutoRules`, from the last diff property. */
  lemma AutoRulesStep(diffProps: seq<Property>, sourceProps: seq<Property>, destinationProps: seq<Property>,
                      source: ClrType, destination: ClrType, k: nat)
    requires 0 < k <= |diffProps|
    ensures var before := AutoRules(diffProps[..k - 1], sourceProps, destinationProps, source, destination);
      var name := diffProps[k - 1].name;
      AutoRules(diffProps[..k], sourceProps, destinationProps, source, destination) ==
        if HasProperty(sourceProps, name) && HasProperty(destinationProps, name)
        then before[name := PropertyMapping(Getter(source, name), Getter(destination, name))]
        else before
  {
    assert diffProps[..k][..k - 1] == diffProps[..k - 1];
  }

  /** Which `UserEvent` property names `User` and `UserDto` both declare. */
  lemma UserSharedNames()
    ensures !HasProperty(UserProps, "FullNameTest") && !HasProperty(UserProps, "Colls2")
    ensures HasProperty(UserProps, "Age") && HasProperty(UserDtoProps, "Age")
    ensures HasProperty(UserProps, "Address") && HasProperty(UserDtoProps, "Address")
    ensures HasProperty(UserProps, "FlatMap") && HasProperty(UserDtoProps, "FlatMap")
  {
    var sp, dp := UserProps, UserDtoProps;
    assert sp[2].name == "Age" && dp[1].name == "Age";
    assert sp[3].name == "Address" && dp[2].name == "Address";
    assert sp[4].name == "FlatMap" && dp[3].name == "FlatMap";
  }

  /** The automatic rules of the `User` registration: `Age`, `Address` and `FlatMap`. */
  lemma UserAutoRules()
    ensures AutoRules(UserEventProps, UserProps, UserDtoProps, UserType, UserDtoType) ==
      map["Age" := PropertyMapping(Getter(UserType, "Age"), Getter(UserDtoType, "Age")),
          "Address" := PropertyMapping(Getter(UserType, "Address"), Getter(UserDtoType, "Address")),
          "FlatMap" := PropertyMapping(Getter(UserType, "FlatMap"), Getter(UserDtoType, "FlatMap"))]
  {
    var u, sp, dp := UserEventProps, UserProps, UserDtoProps;
    assert u[..5] == u;
    UserSharedNames();
    UserAutoRulesPrefix();
    AutoRulesStep(u, sp, dp, UserType, UserDtoType, 4);
    AutoRulesStep(u, sp, dp, UserType, UserDtoType, 5);
  }

  /** The automatic rules of the `User` registration for `FullNameTest`, `Age` and `Address`. */
  lemma UserAutoRulesPrefix()
    ensures AutoRules(UserEventProps[..3], UserProps, UserDtoProps, UserType, UserDtoType) ==
      map["Age" := PropertyMapping(Getter(UserType, "Age"), Getter(UserDtoType, "Age")),
          "Address" := PropertyMapping(Getter(UserType, "Address"), Getter(UserDtoType, "Address"))]
  {
    var u, sp, dp := UserEventProps, UserProps, UserDtoProps;
    assert u[..0] == [];
    UserSharedNames();
    AutoRulesStep(u, sp, dp, UserType, UserDtoType, 1);
    assert AutoRules(u[..1], sp, dp, UserType, UserDtoType) == map[];
    AutoRulesStep(u, sp, dp, UserType, UserDtoType, 2);
    AutoRulesStep(u, sp, dp, UserType, UserDtoType, 3);
  }

  /** One step of `Configure`, from the last configurator step. */
  lemma ConfigureStep(rules: RuleTable, steps: seq<ConfigStep>, k: nat, before: RuleTable, name: string)
    requires 0 < k <= |steps|
    requires Configure(rules, steps[..k - 1]) == Success(before)
    requires steps[k - 1].selector == MemberAccess(Parameter, name)
    ensures Configure(rules, steps[..k]) ==
      Success(before[name := PropertyMapping(steps[k - 1].source, steps[k - 1].compare)])
  {
    assert steps[..k][..k - 1] == steps[..k - 1];
  }

  /** `CreateMap<User, UserDto, UserEvent>` with its configurator stores `UserRules`. */
  lemma UserRegistration(schema: Schema)
    requires Props(schema, UserEventType) == UserEventProps
    requires Props(schema, UserType) == UserProps && Props(schema, UserDtoType) == UserDtoProps
    ensures BuildRules(schema, UserKey, UserConfig()) == Success(UserRules())
  {
    UserAutoRules();
    var auto := AutoRules(UserEventProps, UserProps, UserDtoProps, UserType, UserDtoType);
    var c := UserConfig();
    assert c[..0] == [];
    var r1 := auto["FullNameTest" := PropertyMapping(c[0].source, c[0].compare)];
    ConfigureStep(auto, c, 1, auto, "FullNameTest");
    var r2 := r1["Colls2" := PropertyMapping(c[1].source, c[1].compare)];
    ConfigureStep(auto, c, 2, r1, "Colls2");
    var r3 := r2["FlatMap" := PropertyMapping(c[2].source, c[2].compare)];
    ConfigureStep(auto, c, 3, r2, "FlatMap");
    assert c[..3] == c;
    assert r3 == UserRules();
  }

  lemma AddressRegistration(schema: Schema)
    requires Props(schema, AddressEventType) == AddressEventProps
    requires Props(schema, AddressType) == AddressProps
    ensures BuildRules(schema, AddressKey, AddressConfig()) == Success(AddressRules())
  {
    assert AddressEventProps[..1][..0] == [] && AddressEventProps[..1] == AddressEventProps;
    assert !HasProperty(AddressProps, "EventName");
    AutoRulesStep(AddressEventProps, AddressProps, AddressProps, AddressType, AddressType, 1);
    var auto := AutoRules(AddressEventProps, AddressProps, AddressProps, AddressType, AddressType);
    assert auto == map[];
    var c := AddressConfig();
    assert c[..0] == [];
    ConfigureStep(auto, c, 1, auto, "EventName");
    assert c[..1] == c;
  }

  lemma CollRegistration(schema: Schema)
    requires Props(schema, CollType) == CollProps
    ensures BuildRules(schema, CollKey, CollConfig()) == Success(CollRules())
  {
    var p := CollProps;
    assert p[..2][..1] == p[..1] && p[..1][..0] == [] && p[..2] == p;
    assert HasProperty(p, "Id") by { assert p[0].name == "Id"; }
    assert HasProperty(p, "ValueEvent") by { assert p[1].name == "ValueEvent"; }
    AutoRulesStep(p, p, p, CollType, CollType, 1);
    AutoRulesStep(p, p, p, CollType, CollType, 2);
    var auto := AutoRules(p, p, p, CollType, CollType);
    var c := CollConfig();
    assert c[..0] == [];
    ConfigureStep(auto, c, 1, auto, "ValueEvent");
    assert c[..1] == c;
    assert auto["ValueEvent" := PropertyMapping(c[0].source, c[0].compare)] == CollRules();
  }

  /** Running the three `CreateMap` calls of the sample program yields `Registrations()`. */
  lemma RegistrationsBuilt()
    ensures BuildRules(Entities(), UserKey, UserConfig()) == Success(UserRules())
    ensures BuildRules(Entities(), AddressKey, AddressConfig()) == Success(AddressRules())
    ensures BuildRules(Entities(), CollKey, CollConfig()) == Success(CollRules())
  {
    SampleSchema();
    MoreSampleSchema();
    UserRegistration(Entities());
    AddressRegistration(Entities());
    CollRegistration(Entities());
  }

  /**
    The sample run (`mapper.Map<User, UserDto, UserEvent>(source, req)`):
    the diff carries the new full name, the new age, a nested address diff
    with the new name, the new flat-map name, and the list diff holding the
    added element (id 2) followed by the kept element (id 1) diffed against
    itself, whose id resets to 0 and whose text resets to null.
  */
  lemma SampleDiff()
    ensures IsSampleDiff(Diff(Entities(), Registrations(), UserKey, StoredUser(), UpdateRequest(), 2))
  {
    SampleSchema();
    SampleRegistry();
    SampleDiffWith(Entities(), Registrations());
  }

  /** The sample diff is the same for every fuel from 2 on: the sample nests one level deep. */
  lemma SampleDiffAnyFuel(fuel: nat)
    requires fuel >= 2
    ensures IsSampleDiff(Diff(Entities(), Registrations(), UserKey, StoredUser(), UpdateRequest(), fuel))
  {
    SampleDiff();
    DiffFuel(Entities(), Registrations(), UserKey, StoredUser(), UpdateRequest(), 2, fuel);
  }

  /** With fuel 1 the nested `Address` diff has no fuel left, and the whole diff fails. */
  lemma SampleDiffNeedsTwo()
    ensures Diff(Entities(), Registrations(), UserKey, StoredUser(), UpdateRequest(), 1) == Failure(DepthExhausted)
  {
    SampleSchema();
    SampleRegistry();
    SampleDiffUnfolds(Entities(), Registrations(), 1);
    WalkWithoutFuel(Entities(), Registrations());
  }

  /** The walk over `UserEvent` with no fuel left: two scalars are set, then the nested `Address` fails. */
  lemma WalkWithoutFuel(schema: Schema, reg: Registry)
    requires Props(schema, AddressEventType) == AddressEventProps
    requires AddressKey in reg && reg[AddressKey] == AddressRules()
    ensures ApplyProps(schema, reg, UserRules(), UserEventProps, StoredUser(), UpdateRequest(),
                       Obj("UserEvent", DefaultFields(UserEventProps)), 0) == Failure(DepthExhausted)
  {
    var u := UserEventProps;
    var d0 := Obj("UserEvent", DefaultFields(u));
    var d1 := Obj("UserEvent", d0.fields["FullNameTest" := Str("John Doe")]);
    var d2 := Obj("UserEvent", d1.fields["Age" := Prim("Int32", 7)]);
    assert ApplyProps(schema, reg, UserRules(), u, StoredUser(), UpdateRequest(), d0, 0)
        == ApplyProps(schema, reg, UserRules(), u[1..], StoredUser(), UpdateRequest(), d1, 0) by {
      FullNameTestOutcome(schema, reg, 0);
      SetStep(schema, reg, UserRules(), u, StoredUser(), UpdateRequest(), d0, 0, Str("John Doe"));
    }
    assert ApplyProps(schema, reg, UserRules(), u[1..], StoredUser(), UpdateRequest(), d1, 0)
        == ApplyProps(schema, reg, UserRules(), u[2..], StoredUser(), UpdateRequest(), d2, 0) by {
      assert u[1..][0] == u[1] && u[1..][1..] == u[2..];
      AgeOutcome(schema, reg, 0);
      SetStep(schema, reg, UserRules(), u[1..], StoredUser(), UpdateRequest(), d1, 0, Prim("Int32", 7));
    }
    assert u[2..][0] == u[2];
    AddressExhausted(schema, reg);
    ApplyPropsStep(schema, reg, UserRules(), u[2..], StoredUser(), UpdateRequest(), d2, 0);
  }

  lemma AddressExhausted(schema: Schema, reg: Registry)
    requires Props(schema, AddressEventType) == AddressEventProps
    requires AddressKey in reg && reg[AddressKey] == AddressRules()
    ensures EvalProperty(schema, reg, UserRules(), UserEventProps[2], StoredUser(), UpdateRequest(), 0)
         == Failure(DepthExhausted)
  {
    var m := UserRules()["Address"];
    assert Invoke(m.source, StoredUser()) == Success(Addr("Bratislava"));
    assert Invoke(m.compare, UpdateRequest()) == Success(Addr("Bratislava Rustaveliho"));
    assert MappingKey(RuntimeType(Addr("Bratislava")), RuntimeType(Addr("Bratislava Rustaveliho")), AddressEventType)
        == AddressKey;
    BlankAddressEventIsDefault(schema);
  }

  /**
    `Main`: a fresh comparer, the three `CreateMap` calls in order, and the
    `Map<User, UserDto, UserEvent>` call, with fuel for the one level of
    nesting the sample has. Serializing the result is left out.
  */
  method SampleRun() returns (r: Result<Value, Error>)
    ensures IsSampleDiff(r)
  {
    var mapper := new EntityComparer(Entities());
    RegistrationsBuilt();
    var created := mapper.CreateMap(UserKey, UserConfig());
    created := mapper.CreateMap(AddressKey, AddressConfig());
    created := mapper.CreateMap(CollKey, CollConfig());
    assert mapper.mappings == Registrations();
    r := mapper.Map(UserKey, StoredUser(), UpdateRequest(), 2);
    SampleDiff();
  }
}
