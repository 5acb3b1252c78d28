/** TypeDefinitionFactory: field definitions derived from a type's properties,
    their per-type cache, and the copying of metadata onto them. */
module TypeDefinitionFactory {
  import Wrappers
  import opened Text
  import opened ClrTypes
  import opened QueryParts

  /** What reflection tells about one property. */
  datatype PropertyInfo = PropertyInfo(name: string, propertyType: ClrType, declaringType: ClrType)

  /** A field definition; the getter and setter delegates are not modelled. */
  datatype FieldDefinition = FieldDefinition(
    fieldName: string,
    memberName: string,
    entityName: string,
    memberType: ClrType,
    fieldType: ClrType,
    entityType: ClrType,
    isNullable: bool,
    isPrimaryKey: bool,
    propertyInfo: PropertyInfo,
    converter: Option<CompiledConverter>)

  // ---------------------------------------------------------------------------
  // CheckPrimaryKey and ToFieldDefinition
  // ---------------------------------------------------------------------------

  /** The key convention, with ToLower modelled as ASCII lower-casing. */
  function CheckPrimaryKey(propertyName: string, memberName: string): bool {
    LowerString(propertyName) == "id" || LowerString(propertyName) == LowerString(memberName) + "id"
  }

  /** A property is the key exactly when it is called "ID" or "{Entity}ID", in
      any case. */
  lemma CheckPrimaryKeyConvention(propertyName: string, memberName: string)
    ensures CheckPrimaryKey(propertyName, memberName) <==>
              EqualsIgnoreCase(propertyName, "id") || EqualsIgnoreCase(propertyName, memberName + "id")
  {
    assert LowerString("id") == "id";
    LowerStringEqualIffIgnoreCase(propertyName, "id");
    LowerStringAppend(memberName, "id");
    LowerStringEqualIffIgnoreCase(propertyName, memberName + "id");
  }

  /** The definition reflection gives one property. */
  function ToFieldDefinition(pi: PropertyInfo): (r: FieldDefinition)
    ensures r.fieldName == pi.name && r.memberName == pi.name
    ensures r.entityName == pi.declaringType.Name() && r.entityType == pi.declaringType
    ensures r.isNullable == (!pi.propertyType.IsValueType() || pi.propertyType.IsNullableType())
    ensures r.memberType == pi.propertyType.Underlying() && r.fieldType == r.memberType
    ensures r.isPrimaryKey == CheckPrimaryKey(pi.name, pi.declaringType.Name())
    ensures r.propertyInfo == pi && r.converter.None?
  {
    var isNullableType := pi.propertyType.IsNullableType();
    var isNullable := !pi.propertyType.IsValueType() || isNullableType;
    var propertyType := if isNullableType then pi.propertyType.Underlying() else pi.propertyType;
    FieldDefinition(pi.name, pi.name, pi.declaringType.Name(), propertyType, propertyType,
                    pi.declaringType, isNullable, CheckPrimaryKey(pi.name, pi.declaringType.Name()), pi,
                    Wrappers.None)
  }

  /** Only a plain value type gives a non-nullable field; the stored type is
      never Nullable<> and is the underlying type of a Nullable<> property. */
  lemma NullabilityRule(pi: PropertyInfo)
    ensures ToFieldDefinition(pi).isNullable <==> !pi.propertyType.ValueType?
    ensures !ToFieldDefinition(pi).memberType.IsNullableType()
    ensures pi.propertyType.NullableType? ==>
              ToFieldDefinition(pi).memberType == ValueType(pi.propertyType.underlying)
  {
  }

  /** The definitions of a type's selection members, in order. */
  function Definitions(members: seq<PropertyInfo>): (r: seq<FieldDefinition>)
    ensures |r| == |members| && forall i :: 0 <= i < |members| ==> r[i] == ToFieldDefinition(members[i])
  {
    seq(|members|, i requires 0 <= i < |members| => ToFieldDefinition(members[i]))
  }

  // ---------------------------------------------------------------------------
  // MatchFieldInformation
  // ---------------------------------------------------------------------------

  /** The field parts of the top-level decorators' children, in order. */
  function ChildFields(cs: seq<Part>): seq<FieldPart>
    decreases |cs|
  {
    if |cs| == 0 then []
    else ChildFields(cs[..|cs| - 1]) + (if cs[|cs| - 1].FieldRef? then [cs[|cs| - 1].fp] else [])
  }

  function FieldPartsOf(ps: seq<Part>): seq<FieldPart>
    decreases |ps|
  {
    if |ps| == 0 then []
    else FieldPartsOf(ps[..|ps| - 1]) + (if ps[|ps| - 1].Decorator? then ChildFields(ps[|ps| - 1].children) else [])
  }

  /** The two attributes field parts pass on. */
  datatype Attribute = FieldTypeAttribute | ConverterAttribute

  /** The part carries the attribute (a non-null FieldType or Converter). */
  predicate Offers(p: FieldPart, a: Attribute) {
    match a
    case FieldTypeAttribute => p.fieldType.Some?
    case ConverterAttribute => p.converter.Some?
  }

  /** The field with the part's attribute; a converter is compiled on the way. */
  function Assign(f: FieldDefinition, p: FieldPart, a: Attribute): (r: FieldDefinition)
    requires Offers(p, a)
    ensures r.fieldName == f.fieldName
  {
    match a
    case FieldTypeAttribute => f.(fieldType := p.fieldType.value)
    case ConverterAttribute => f.(converter := Wrappers.Some(CompiledConverter(p.converter.value)))
  }

  /** No earlier field has the same field name as field `i`. */
  predicate IsFirstNamed(fs: seq<FieldDefinition>, i: nat)
    requires i < |fs|
  {
    forall j :: 0 <= j < i ==> fs[j].fieldName != fs[i].fieldName
  }

  /** One part handed on: the first field named like the part's ID takes its
      attribute. */
  function ApplyPart(fs: seq<FieldDefinition>, p: FieldPart, a: Attribute): (r: seq<FieldDefinition>)
    ensures |r| == |fs|
  {
    seq(|fs|, i requires 0 <= i < |fs| =>
      if Offers(p, a) && fs[i].fieldName == p.id && IsFirstNamed(fs, i) then Assign(fs[i], p, a) else fs[i])
  }

  /** All parts handed on, in order. */
  function WithAttribute(fs: seq<FieldDefinition>, parts: seq<FieldPart>, a: Attribute): (r: seq<FieldDefinition>)
    ensures |r| == |fs|
    decreases |parts|
  {
    if |parts| == 0 then fs else ApplyPart(WithAttribute(fs, parts[..|parts| - 1], a), parts[|parts| - 1], a)
  }

  /** The last part with ID `name` that offers the attribute. */
  function LastOffer(parts: seq<FieldPart>, name: string, a: Attribute): (r: Option<FieldPart>)
    ensures r.Some? ==> Offers(r.value, a) && r.value.id == name
    decreases |parts|
  {
    if |parts| == 0 then Wrappers.None
    else
      var p := parts[|parts| - 1];
      if Offers(p, a) && p.id == name then Wrappers.Some(p) else LastOffer(parts[..|parts| - 1], name, a)
  }

  /** The loop that copies one attribute (the source has one for FieldType
      and one for Converter): for each part offering it, find the first field
      named like the part's ID (FirstOrDefault) and assign. */
  method CopyAttribute(fields: seq<FieldDefinition>, parts: seq<FieldPart>, a: Attribute)
    returns (r: seq<FieldDefinition>)
    ensures r == WithAttribute(fields, parts, a)
  {
    r := fields;
    var k := 0;
    while k < |parts|
      invariant 0 <= k <= |parts|
      invariant r == WithAttribute(fields, parts[..k], a)
    {
      var part := parts[k];
      ghost var before := r;
      if Offers(part, a) {
        var j := 0;
        while j < |r| && r[j].fieldName != part.id
          invariant 0 <= j <= |r|
          invariant forall l :: 0 <= l < j ==> r[l].fieldName != part.id
        {
          j := j + 1;
        }
        if j < |r| {
          r := r[j := Assign(r[j], part, a)];
        }
        forall i | 0 <= i < |before| ensures r[i] == ApplyPart(before, part, a)[i] {
          if before[i].fieldName == part.id && i != j {
            assert j < i && before[j].fieldName == before[i].fieldName;
          }
        }
      }
      assert r == ApplyPart(before, part, a);
      assert parts[..k + 1][..k] == parts[..k];
      k := k + 1;
    }
    assert parts[..k] == parts;
  }

  /** Handing on attributes keeps every field name, so which field is the
      first of its name does not change. */
  lemma {:induction false} WithAttributeKeepsNames(fs: seq<FieldDefinition>, parts: seq<FieldPart>, a: Attribute)
    ensures forall i :: 0 <= i < |fs| ==> WithAttribute(fs, parts, a)[i].fieldName == fs[i].fieldName
    decreases |parts|
  {
    if |parts| > 0 {
      WithAttributeKeepsNames(fs, parts[..|parts| - 1], a);
    }
  }

  /** The first field of each name takes the attribute of the last part with
      that ID offering it; every other field is unchanged. */
  lemma {:induction false} WithAttributeLastWins(fs: seq<FieldDefinition>, parts: seq<FieldPart>, a: Attribute)
    ensures forall i :: 0 <= i < |fs| ==>
              WithAttribute(fs, parts, a)[i] ==
                if IsFirstNamed(fs, i) && LastOffer(parts, fs[i].fieldName, a).Some?
                then Assign(fs[i], LastOffer(parts, fs[i].fieldName, a).value, a)
                else fs[i]
    decreases |parts|
  {
    if |parts| > 0 {
      var n := |parts| - 1;
      var p := parts[n];
      var prev := WithAttribute(fs, parts[..n], a);
      WithAttributeLastWins(fs, parts[..n], a);
      WithAttributeKeepsNames(fs, parts[..n], a);
      forall i | 0 <= i < |fs|
        ensures WithAttribute(fs, parts, a)[i] ==
                  if IsFirstNamed(fs, i) && LastOffer(parts, fs[i].fieldName, a).Some?
                  then Assign(fs[i], LastOffer(parts, fs[i].fieldName, a).value, a)
                  else fs[i]
      {
        assert IsFirstNamed(prev, i) <==> IsFirstNamed(fs, i);
        if Offers(p, a) && p.id == fs[i].fieldName && IsFirstNamed(fs, i) {
          assert LastOffer(parts, fs[i].fieldName, a) == Wrappers.Some(p);
          match a
          case FieldTypeAttribute =>
          case ConverterAttribute =>
        }
      }
    }
  }

  /** MatchFieldInformation (with the updates kept): without a parts map the
      fields are returned as they are; otherwise the field types, then the
      converters, of the map's field parts are handed on. */
  function MatchedFields(fields: seq<FieldDefinition>, queryParts: Option<seq<Part>>): seq<FieldDefinition> {
    if queryParts.None? then fields
    else
      var fps := FieldPartsOf(queryParts.value);
      WithAttribute(WithAttribute(fields, fps, FieldTypeAttribute), fps, ConverterAttribute)
  }

  method MatchFieldInformation(fields: seq<FieldDefinition>, queryParts: Option<seq<Part>>)
    returns (r: seq<FieldDefinition>)
    ensures r == MatchedFields(fields, queryParts)
  {
    if queryParts.None? {
      return fields;
    }
    var fieldParts := FieldPartsOf(queryParts.value);
    r := CopyAttribute(fields, fieldParts, FieldTypeAttribute);
    r := CopyAttribute(r, fieldParts, ConverterAttribute);
  }

  /** What each field ends up with: the first field of a name takes the field
      type and the converter of the last field part with that ID that has one;
      all other fields and attributes are left alone. */
  lemma MatchedFieldsCharacterized(fields: seq<FieldDefinition>, ps: seq<Part>)
    ensures var r := MatchedFields(fields, Wrappers.Some(ps));
      var fps := FieldPartsOf(ps);
      |r| == |fields| &&
      forall i :: 0 <= i < |fields| ==>
        var ft := LastOffer(fps, fields[i].fieldName, FieldTypeAttribute);
        var cv := LastOffer(fps, fields[i].fieldName, ConverterAttribute);
        r[i] == fields[i].(
          fieldType := if IsFirstNamed(fields, i) && ft.Some? then ft.value.fieldType.value else fields[i].fieldType,
          converter := if IsFirstNamed(fields, i) && cv.Some?
                       then Wrappers.Some(CompiledConverter(cv.value.converter.value)) else fields[i].converter)
  {
    var fps := FieldPartsOf(ps);
    var typed := WithAttribute(fields, fps, FieldTypeAttribute);
    WithAttributeLastWins(fields, fps, FieldTypeAttribute);
    WithAttributeKeepsNames(fields, fps, FieldTypeAttribute);
    WithAttributeLastWins(typed, fps, ConverterAttribute);
    forall i | 0 <= i < |fields| ensures IsFirstNamed(typed, i) <==> IsFirstNamed(fields, i) {
    }
  }

  /** As written, the cached sequence is a deferred query, so FirstOrDefault
      updates objects that the query creates afresh on every enumeration: the
      caller gets the fields without the updates. */
  function MatchFieldInformationAsWritten(fields: seq<FieldDefinition>, queryParts: Option<seq<Part>>): seq<FieldDefinition> {
    fields
  }

  /** A field part carrying a type for field "Name" is lost as written. */
  lemma FieldTypeUpdateLost()
    ensures var pi := PropertyInfo("Name", ReferenceType("String"), ReferenceType("Person"));
      var fields := [ToFieldDefinition(pi)];
      var part := FieldPart(Include, "Name", "Name", Wrappers.None, Wrappers.None, Wrappers.None, "",
                            Wrappers.Some(ValueType("Int32")), Wrappers.None);
      var ps := Wrappers.Some([Decorator(Select, Wrappers.None, false, [FieldRef(part)])]);
      MatchFieldInformationAsWritten(fields, ps)[0].fieldType == ReferenceType("String") &&
      MatchedFields(fields, ps)[0].fieldType == ValueType("Int32")
  {
    var pi := PropertyInfo("Name", ReferenceType("String"), ReferenceType("Person"));
    var part := FieldPart(Include, "Name", "Name", Wrappers.None, Wrappers.None, Wrappers.None, "",
                          Wrappers.Some(ValueType("Int32")), Wrappers.None);
    OnePartMatched(ToFieldDefinition(pi), part);
  }

  /** One select decorator holding one field part that types field `f`. */
  lemma OnePartMatched(f: FieldDefinition, p: FieldPart)
    requires p.fieldType.Some? && p.converter.None? && p.id == f.fieldName
    ensures MatchedFields([f], Wrappers.Some([Decorator(Select, Wrappers.None, false, [FieldRef(p)])]))[0].fieldType
            == p.fieldType.value
  {
    OneDecoratorParts(p);
    OnePartWith([f], p, FieldTypeAttribute);
    OnePartOffered(f, p, FieldTypeAttribute);
    var typed := [Assign(f, p, FieldTypeAttribute)];
    OnePartWith(typed, p, ConverterAttribute);
    OnePartNotOffered(typed, p, ConverterAttribute);
  }

  lemma OneDecoratorParts(p: FieldPart)
    ensures FieldPartsOf([Decorator(Select, Wrappers.None, false, [FieldRef(p)])]) == [p]
  {
    var d := Decorator(Select, Wrappers.None, false, [FieldRef(p)]);
    assert [d][..0] == [];
    assert [FieldRef(p)][..0] == [];
    assert ChildFields([FieldRef(p)]) == [p];
  }

  lemma OnePartWith(fs: seq<FieldDefinition>, p: FieldPart, a: Attribute)
    ensures WithAttribute(fs, [p], a) == ApplyPart(fs, p, a)
  {
    assert [p][..0] == [];
  }

  lemma OnePartOffered(f: FieldDefinition, p: FieldPart, a: Attribute)
    requires Offers(p, a) && p.id == f.fieldName
    ensures ApplyPart([f], p, a) == [Assign(f, p, a)]
  {
    assert IsFirstNamed([f], 0);
  }

  lemma OnePartNotOffered(fs: seq<FieldDefinition>, p: FieldPart, a: Attribute)
    requires !Offers(p, a)
    ensures ApplyPart(fs, p, a) == fs
  {
  }

  // ---------------------------------------------------------------------------
  // GetFieldDefinitions<T>(Type): merging declared metadata onto a projection
  // ---------------------------------------------------------------------------

  /** Index of the first definition with member name `name`. */
  function FirstMember(fs: seq<FieldDefinition>, name: string): (r: Option<nat>)
    ensures r.Some? ==> r.value < |fs| && fs[r.value].memberName == name
    ensures r.Some? ==> forall j :: 0 <= j < r.value ==> fs[j].memberName != name
    ensures r.None? ==> forall j :: 0 <= j < |fs| ==> fs[j].memberName != name
    decreases |fs|
  {
    if |fs| == 0 then Wrappers.None
    else if fs[0].memberName == name then Wrappers.Some(0)
    else
      var m := FirstMember(fs[1..], name);
      if m.None? then Wrappers.None else Wrappers.Some(m.value + 1)
  }

  /** One projection field after the merge: the first declared field with
      the same member name supplies nullability, key flag, entity and property. */
  function MergedField(f: FieldDefinition, defined: seq<FieldDefinition>): FieldDefinition {
    var m := FirstMember(defined, f.memberName);
    if m.None? then f
    else
      var d := defined[m.value];
      f.(isNullable := d.isNullable, isPrimaryKey := d.isPrimaryKey, entityName := d.entityName,
         entityType := d.entityType, propertyInfo := d.propertyInfo)
  }

  /** The merge loop over the projection's list, updating its fields in place. */
  method MergeDefinitions(defined: seq<FieldDefinition>, objectDefinitions: seq<FieldDefinition>)
    returns (r: seq<FieldDefinition>)
    ensures |r| == |objectDefinitions|
    ensures forall i :: 0 <= i < |r| ==> r[i] == MergedField(objectDefinitions[i], defined)
    ensures forall i :: 0 <= i < |r| ==>
              r[i].fieldName == objectDefinitions[i].fieldName &&
              r[i].memberName == objectDefinitions[i].memberName &&
              r[i].memberType == objectDefinitions[i].memberType &&
              r[i].fieldType == objectDefinitions[i].fieldType &&
              r[i].converter == objectDefinitions[i].converter
  {
    r := objectDefinitions;
    var i := 0;
    while i < |r|
      invariant 0 <= i <= |r| == |objectDefinitions|
      invariant forall k :: 0 <= k < i ==> r[k] == MergedField(objectDefinitions[k], defined)
      invariant forall k :: i <= k < |r| ==> r[k] == objectDefinitions[k]
    {
      var field := r[i];
      var j := 0;
      while j < |defined| && defined[j].memberName != field.memberName
        invariant 0 <= j <= |defined|
        invariant forall l :: 0 <= l < j ==> defined[l].memberName != field.memberName
      {
        j := j + 1;
      }
      if j < |defined| {
        var d := defined[j];
        r := r[i := field.(isNullable := d.isNullable, isPrimaryKey := d.isPrimaryKey,
                           entityName := d.entityName, entityType := d.entityType,
                           propertyInfo := d.propertyInfo)];
      }
      i := i + 1;
    }
  }

  /** A projection field whose member name some declared field has takes that
      declared field's metadata; one whose name no declared field has is left
      as it is. */
  lemma MergedFieldTakesDeclared(f: FieldDefinition, defined: seq<FieldDefinition>, j: nat)
    requires j < |defined| && defined[j].memberName == f.memberName
    requires forall l :: 0 <= l < j ==> defined[l].memberName != f.memberName
    ensures MergedField(f, defined).isNullable == defined[j].isNullable
    ensures MergedField(f, defined).isPrimaryKey == defined[j].isPrimaryKey
    ensures MergedField(f, defined).entityName == defined[j].entityName
    ensures MergedField(f, defined).entityType == defined[j].entityType
  {
    var m := FirstMember(defined, f.memberName);
    assert m.Some?;
    assert m.value == j;
  }

  /** Merging a list of definitions with distinct member names onto itself
      changes nothing. */
  lemma MergeOntoItself(fs: seq<FieldDefinition>)
    requires forall i, j :: 0 <= i < j < |fs| ==> fs[i].memberName != fs[j].memberName
    ensures forall i :: 0 <= i < |fs| ==> MergedField(fs[i], fs) == fs[i]
  {
    forall i | 0 <= i < |fs| ensures MergedField(fs[i], fs) == fs[i] {
      MergedFieldTakesDeclared(fs[i], fs, i);
    }
  }

  // ---------------------------------------------------------------------------
  // The per-type cache
  // ---------------------------------------------------------------------------

  /** The static cache of field definitions per type. Reflection's list of a
      type's selection members is supplied as `selectionMembers`. */
  class FieldDefinitionCache {
    const selectionMembers: ClrType -> seq<PropertyInfo>
    var entries: map<ClrType, seq<FieldDefinition>>

    /** Every entry holds the definitions of its type's members. */
    predicate Valid()
      reads this
    {
      forall t :: t in entries ==> entries[t] == Definitions(selectionMembers(t))
    }

    constructor(members: ClrType -> seq<PropertyInfo>)
      ensures selectionMembers == members && entries == map[] && Valid()
    {
      selectionMembers := members;
      entries := map[];
    }

    /** ExtractFieldDefinitions: the first lookup of a type stores its
        definitions, later ones reuse them; the result carries the metadata
        of the parts map, if one is given, matched as MatchFieldInformation
        does, i.e. with the corrected comparison of Findings row 3 of the
        README (MatchFieldInformationAsWritten is the code as written). */
    method Extract(t: ClrType, queryParts: Option<seq<Part>>) returns (fields: seq<FieldDefinition>)
      requires Valid()
      modifies this
      ensures Valid()
      ensures t in old(entries) ==> entries == old(entries)
      ensures t !in old(entries) ==> entries == old(entries)[t := Definitions(selectionMembers(t))]
      ensures fields == MatchedFields(Definitions(selectionMembers(t)), queryParts)
    {
      var cached: seq<FieldDefinition>;
      if t in entries {
        cached := entries[t];
      } else {
        cached := Definitions(selectionMembers(t));
        entries := entries[t := cached];
      }
      fields := MatchFieldInformation(cached, queryParts);
    }

    /** GetFieldDefinitions<T>(Type): the projection type's definitions with
        the declared type's metadata merged in. */
    method GetMergedFieldDefinitions(declared: ClrType, projection: ClrType)
      returns (fields: seq<FieldDefinition>)
      requires Valid()
      modifies this
      ensures Valid()
      ensures entries.Keys == old(entries).Keys + {declared, projection}
      ensures forall t :: t in old(entries) ==> entries[t] == old(entries)[t]
      ensures |fields| == |selectionMembers(projection)|
      ensures forall i :: 0 <= i < |fields| ==>
                fields[i] == MergedField(ToFieldDefinition(selectionMembers(projection)[i]),
                                         Definitions(selectionMembers(declared)))
    {
      var definedFields := Extract(declared, Wrappers.None);
      var objectDefinitions := Extract(projection, Wrappers.None);
      fields := MergeDefinitions(definedFields, objectDefinitions);
    }
  }
}
