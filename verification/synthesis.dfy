/** `Schema2Ts`: turning a schema into TypeScript types and type aliases.

    The conversion looks at the keywords of a schema object in a fixed
    order — `$ref`, `enum`, `oneOf`, `anyOf`, `allOf`, `items`, then
    `type` — and the first one present decides the result alone. Objects
    become interfaces: one member per declared property, optional unless
    required, and a catch-all member `[_:string]` for additional and
    pattern properties. The library adds the catch-all only to an object
    without declared properties; the script adds it whenever additional
    properties are allowed.

    The library collects the namespaces of referenced documents in a
    mutable set; here every conversion takes the set and returns the grown
    one, threaded through sub-conversions in the order the source visits
    them.
 */
module Synthesis {
  import opened Results
  import opened TypeIR
  import opened Unions
  import opened Names
  import opened Schemas
  import opened Refs
  import Strings

  /** The generation and the name of the main schema, which `#` denotes. */
  datatype Context = Context(dialect: Dialect, mainName: string)

  /** `TsTypes`: the object type, when the schema admits objects, and the
      other types it admits. */
  datatype TsTypes = TsTypes(objectType: Option<Type>, additionalTypes: seq<Type>)

  function ToTypes(ts: seq<Type>): TsTypes
  {
    TsTypes(None, ts)
  }

  /** The name of the catch-all interface member. */
  const CatchAllName := "[_:string]"

  /** The JSON Schema simple type names the generator knows besides
      `object`. */
  const SimpleTypeNames := ["array", "string", "integer", "number", "boolean"]

  /** The types a simple type name can stand for. */
  predicate Simple(d: Dialect, t: Type)
  {
    t == AnyArrayType(d) || t == StringType || t == NumberType || t == BooleanType || t == NeverType
  }

  /** `createSimpleType`. */
  function SimpleType(d: Dialect, name: string): (r: Type)
    ensures Simple(d, r)
    ensures r == NeverType <==> name !in SimpleTypeNames
    ensures r == NumberType <==> name == "integer" || name == "number"
    ensures name == "string" ==> r == StringType
    ensures name == "boolean" ==> r == BooleanType
    ensures name == "array" ==> r == AnyArrayType(d)
  {
    match name
    case "array" => AnyArrayType(d)
    case "string" => StringType
    case "integer" => NumberType
    case "number" => NumberType
    case "boolean" => BooleanType
    case _ => NeverType
  }

  /** The names of a `type` list other than `object`, in order. */
  function NonObjectNames(names: seq<string>): (r: seq<string>)
    ensures |r| <= |names|
    ensures forall i :: 0 <= i < |r| ==> r[i] != "object" && r[i] in names
    ensures forall k :: 0 <= k < |names| && names[k] != "object" ==> names[k] in r
    ensures |r| == 0 <==> forall i :: 0 <= i < |names| ==> names[i] == "object"
  {
    if |names| == 0 then []
    else if names[0] == "object" then NonObjectNames(names[1..])
    else [names[0]] + NonObjectNames(names[1..])
  }

  /** The simple types of the names in a `type` list other than `object`,
      in order. */
  function SimpleTypes(d: Dialect, names: seq<string>): (r: seq<Type>)
    ensures |r| == |NonObjectNames(names)|
    ensures forall i :: 0 <= i < |r| ==> r[i] == SimpleType(d, NonObjectNames(names)[i])
    ensures forall i :: 0 <= i < |r| ==> Simple(d, r[i])
    ensures |r| == 0 <==> forall i :: 0 <= i < |names| ==> names[i] == "object"
  {
    var kept := NonObjectNames(names);
    seq(|kept|, i requires 0 <= i < |kept| => SimpleType(d, kept[i]))
  }

  /** One constant type per `enum` value, in order. */
  function Consts(vs: seq<Literal>): (r: seq<Type>)
    ensures |r| == |vs|
    ensures forall i :: 0 <= i < |vs| ==> r[i] == Const(vs[i])
  {
    seq(|vs|, i requires 0 <= i < |vs| => Const(vs[i]))
  }

  /** `createTypeFromSchema`: an absent schema admits anything; otherwise
      the union of the additional types and the object type. */
  function TypeFromSchema(c: Context, imports: set<string>, s: Option<Schema>): (r: Result<(Type, set<string>)>)
    ensures s.None? ==> r == Ok((AnyType(c.dialect), imports))
    ensures s.Some? ==> (r.Ok? <==> TypesFromSchema(c, imports, s.value).Ok?)
    ensures s.Some? && r.Ok? ==>
      var p := TypesFromSchema(c, imports, s.value).value;
      r.value == (UnionOf(c.dialect, p.0.additionalTypes + p.0.objectType.ToSeq()), p.1)
    ensures r.Ok? ==> imports <= r.value.1
    ensures c.dialect == Script && r.Ok? ==> r.value.1 == imports
    decreases OptionSize(s), 4
  {
    match s
    case None => Ok((AnyType(c.dialect), imports))
    case Some(x) =>
      var p :- TypesFromSchema(c, imports, x);
      Ok((UnionOf(c.dialect, p.0.additionalTypes + p.0.objectType.ToSeq()), p.1))
  }

  /** `createTypesFromSchema`. */
  function TypesFromSchema(c: Context, imports: set<string>, s: Schema): (r: Result<(TsTypes, set<string>)>)
    ensures r.Ok? && r.value.0.objectType.Some? ==>
      s.Object? && r.value.0.objectType.value.Interface? &&
      forall i :: 0 <= i < |r.value.0.additionalTypes| ==> Simple(c.dialect, r.value.0.additionalTypes[i])
    ensures r.Ok? ==> imports <= r.value.1
    ensures c.dialect == Script && r.Ok? ==> r.value.1 == imports
    decreases Size(s), 3
  {
    match s
    case Boolean(true) => Ok((ToTypes([AnyType(c.dialect)]), imports))
    case Boolean(false) => Ok((ToTypes([NeverType]), imports))
    case Object(o) => KeywordTypes(c, imports, o)
  }

  /** The keywords of a schema object that take precedence over `type`, in
      the order they are tried; the first present one decides alone. */
  function KeywordTypes(c: Context, imports: set<string>, o: SchemaObject): (r: Result<(TsTypes, set<string>)>)
    ensures r.Ok? && r.value.0.objectType.Some? ==>
      Undecided(o) && r.value.0.objectType.value.Interface? &&
      forall i :: 0 <= i < |r.value.0.additionalTypes| ==> Simple(c.dialect, r.value.0.additionalTypes[i])
    ensures r.Ok? ==> imports <= r.value.1
    ensures c.dialect == Script && r.Ok? ==> r.value.1 == imports
    decreases Size(Object(o)), 2
  {
    SizeOfParts(o);
    if o.ref.Some? then
      var p :- ResolveRef(c.dialect, c.mainName, imports, o.ref.value);
      Ok((ToTypes([p.0]), p.1))
    else if o.enum.Some? then
      Ok((ToTypes(Consts(o.enum.value)), imports))
    else if o.oneOf.Present? then
      var p :- TypesFromList(c, imports, o.oneOf.schemas);
      Ok((ToTypes(p.0), p.1))
    else if o.anyOf.Present? then
      var p :- TypesFromList(c, imports, o.anyOf.schemas);
      Ok((ToTypes(p.0), p.1))
    else if o.allOf.Present? then
      var merged :- ReduceAllOf(o.allOf.schemas);
      ReducedAllOfIsSmaller(o);
      var p :- TypeFromSchema(c, imports, Some(merged));
      Ok((ToTypes([p.0]), p.1))
    else if o.items.Single? then
      var p :- TypeFromSchema(c, imports, Some(o.items.item));
      Ok((ToTypes([Array(p.0)]), p.1))
    else if o.items.Positional? then
      var p :- TypesFromList(c, imports, o.items.positions);
      Ok((ToTypes([Tuple(p.0)]), p.1))
    else
      TypeKeywordTypes(c, imports, o)
  }

  /** The `type` keyword: a list admits objects when it names `object` and
      the simple types of its other names; a single name, or none, admits
      objects or the one simple type. */
  function TypeKeywordTypes(c: Context, imports: set<string>, o: SchemaObject): (r: Result<(TsTypes, set<string>)>)
    ensures r.Ok? && r.value.0.objectType.Some? ==>
      r.value.0.objectType.value.Interface? &&
      forall i :: 0 <= i < |r.value.0.additionalTypes| ==> Simple(c.dialect, r.value.0.additionalTypes[i])
    ensures r.Ok? ==> imports <= r.value.1
    ensures c.dialect == Script && r.Ok? ==> r.value.1 == imports
    decreases Size(Object(o)), 1
  {
    match o.types
    case Names(names) =>
      if "object" in names then
        var p :- ObjectType(c, imports, o);
        Ok((TsTypes(Some(p.0), SimpleTypes(c.dialect, names)), p.1))
      else
        Ok((TsTypes(None, SimpleTypes(c.dialect, names)), imports))
    case Named(name) =>
      if name == "object" then
        var p :- ObjectType(c, imports, o);
        Ok((TsTypes(Some(p.0), []), p.1))
      else
        Ok((ToTypes([SimpleType(c.dialect, name)]), imports))
    case NoType =>
      var p :- ObjectType(c, imports, o);
      Ok((TsTypes(Some(p.0), []), p.1))
  }

  /** `createTypeFromSchema` mapped over a list of subschemas, front to
      back. */
  function TypesFromList(c: Context, imports: set<string>, ss: seq<Schema>): (r: Result<(seq<Type>, set<string>)>)
    ensures r.Ok? ==> |r.value.0| == |ss|
    ensures r.Ok? ==> imports <= r.value.1
    ensures c.dialect == Script && r.Ok? ==> r.value.1 == imports
    decreases SeqSize(ss), 5
  {
    if |ss| == 0 then Ok(([], imports))
    else
      var h :- TypeFromSchema(c, imports, Some(ss[0]));
      var t :- TypesFromList(c, h.1, ss[1..]);
      Ok(([h.0] + t.0, t.1))
  }

  /** `createTypeFromSchema` mapped over the members of an object keyword,
      in key order. */
  function EntriesTypes(c: Context, imports: set<string>, es: seq<Entry>): (r: Result<(seq<Type>, set<string>)>)
    ensures r.Ok? ==> |r.value.0| == |es|
    ensures r.Ok? ==> imports <= r.value.1
    ensures c.dialect == Script && r.Ok? ==> r.value.1 == imports
    decreases EntriesSize(es), 5
  {
    if |es| == 0 then Ok(([], imports))
    else
      var h :- TypeFromSchema(c, imports, Some(es[0].schema));
      var t :- EntriesTypes(c, h.1, es[1..]);
      Ok(([h.0] + t.0, t.1))
  }

  /** The interface member name of a declared property: normalised, and
      marked optional unless the property is required. */
  function MemberName(o: SchemaObject, key: string): string
  {
    PropertyName(key) + (if key in o.required then "" else "?")
  }

  /** The declared members, given the types of the declared properties. */
  function Declared(o: SchemaObject, types: seq<Type>): (r: seq<Property>)
    requires |types| == |o.properties|
    ensures |r| == |o.properties|
    ensures forall i :: 0 <= i < |r| ==> r[i] == Property(MemberName(o, o.properties[i].key), types[i])
  {
    seq(|types|, i requires 0 <= i < |types| => Property(MemberName(o, o.properties[i].key), types[i]))
  }

  /** Additional or pattern properties are allowed: `additionalProperties`
      is anything but `false`, or there is a pattern property. */
  predicate PoolNonEmpty(o: SchemaObject)
  {
    o.additionalProperties != Some(Boolean(false)) || |o.patternProperties| > 0
  }

  /** The object gets the catch-all member. */
  predicate HasCatchAll(d: Dialect, o: SchemaObject)
  {
    PoolNonEmpty(o) && (d == Script || |o.properties| == 0)
  }

  /** The types `additionalProperties` contributes to the catch-all: anything
      when absent or `true`, nothing when `false`. */
  function AdditionalTypes(c: Context, imports: set<string>, a: Option<Schema>): (r: Result<(seq<Type>, set<string>)>)
    ensures r.Ok? ==> (|r.value.0| == 0 <==> a == Some(Boolean(false)))
    ensures r.Ok? ==> |r.value.0| <= 1
    ensures a.None? || a == Some(Boolean(true)) ==> r == Ok(([AnyType(c.dialect)], imports))
    ensures a.Some? && a.value != Boolean(true) && a.value != Boolean(false) ==>
      (r.Ok? <==> TypeFromSchema(c, imports, a).Ok?) &&
      (r.Ok? ==> r.value == ([TypeFromSchema(c, imports, a).value.0], TypeFromSchema(c, imports, a).value.1))
    ensures r.Ok? ==> imports <= r.value.1
    ensures c.dialect == Script && r.Ok? ==> r.value.1 == imports
    decreases OptionSize(a), 5
  {
    match a
    case None => Ok(([AnyType(c.dialect)], imports))
    case Some(x) =>
      if x == Boolean(true) then Ok(([AnyType(c.dialect)], imports))
      else if x == Boolean(false) then Ok(([], imports))
      else
        var p :- TypeFromSchema(c, imports, Some(x));
        Ok(([p.0], p.1))
  }

  /** `createObjectType`. */
  function ObjectType(c: Context, imports: set<string>, o: SchemaObject): (r: Result<(Type, set<string>)>)
    ensures r.Ok? ==> r.value.0.Interface?
    ensures r.Ok? ==> |r.value.0.properties| == |o.properties| + (if HasCatchAll(c.dialect, o) then 1 else 0)
    ensures r.Ok? ==> forall i :: 0 <= i < |o.properties| ==>
      r.value.0.properties[i].name == MemberName(o, o.properties[i].key)
    ensures r.Ok? && HasCatchAll(c.dialect, o) ==> r.value.0.properties[|o.properties|].name == CatchAllName
    ensures r.Ok? ==> imports <= r.value.1
    ensures c.dialect == Script && r.Ok? ==> r.value.1 == imports
    decreases Size(Object(o)), 0
  {
    SizeOfParts(o);
    var props :- EntriesTypes(c, imports, o.properties);
    var extra :- AdditionalTypes(c, props.1, o.additionalProperties);
    var pattern :- EntriesTypes(c, extra.1, o.patternProperties);
    var declared := Declared(o, props.0);
    var pool := extra.0 + pattern.0;
    var catchAll :=
      if |pool| > 0 && (c.dialect == Script || |declared| == 0)
      then [Property(CatchAllName, UnionOf(c.dialect, pool + props.0 + [UndefinedType]))]
      else [];
    Ok((Interface(declared + catchAll), pattern.1))
  }

  /** `createTypeAliases`: one alias for the schema, or two when it admits
      both objects and other types — `NameObject` for the interface and
      `Name` for the union of the others with a reference to it. */
  function TypeAliases(c: Context, imports: set<string>, ns: NamedSchema): (r: Result<(seq<TypeAlias>, set<string>)>)
    ensures r.Ok? ==> 1 <= |r.value.0| <= 2
    ensures r.Ok? ==> r.value.0[|r.value.0| - 1].name == ns.name
    ensures r.Ok? && |r.value.0| == 2 ==> r.value.0[0].name == ns.name + "Object"
    ensures r.Ok? ==> TypesFromSchema(c, {}, ns.schema).Ok?
    ensures r.Ok? ==> var types := TypesFromSchema(c, {}, ns.schema).value.0;
      (|r.value.0| == 2 <==> types.objectType.Some? && |types.additionalTypes| > 0) &&
      (types.objectType.Some? && |types.additionalTypes| == 0 ==>
        r.value.0 == [TypeAlias(ns.name, types.objectType.value)]) &&
      (types.objectType.None? ==>
        r.value.0 == [TypeAlias(ns.name, UnionOf(c.dialect, types.additionalTypes))]) &&
      (|r.value.0| == 2 ==>
        (ValidTypeName(c.dialect, ns.name + "Object") &&
         r.value.0 == [TypeAlias(ns.name + "Object", types.objectType.value),
           TypeAlias(ns.name, UnionOf(c.dialect, types.additionalTypes + [Ref(TypeName(c.dialect, ns.name + "Object"))]))]))
    ensures r.Ok? ==> imports <= r.value.1
    ensures c.dialect == Script && r.Ok? ==> r.value.1 == imports
  {
    TypesSeeded(c, imports, ns.schema);
    var p :- TypesFromSchema(c, imports, ns.schema);
    var types := p.0;
    if types.objectType.Some? then
      if |types.additionalTypes| == 0 then
        Ok(([TypeAlias(ns.name, types.objectType.value)], p.1))
      else
        var objectName := ns.name + "Object";
        var ref :- RefType(c.dialect, objectName);
        Ok(([TypeAlias(objectName, types.objectType.value),
             TypeAlias(ns.name, UnionOf(c.dialect, types.additionalTypes + [ref]))], p.1))
    else
      Ok(([TypeAlias(ns.name, UnionOf(c.dialect, types.additionalTypes))], p.1))
  }

  /** The aliases of a list of named schemas, concatenated in order. */
  function DefinitionsAliases(c: Context, imports: set<string>, defs: seq<NamedSchema>): (r: Result<(seq<TypeAlias>, set<string>)>)
    ensures r.Ok? ==> |defs| <= |r.value.0| <= 2 * |defs|
    ensures r.Ok? && |defs| > 0 ==> r.value.0[|r.value.0| - 1].name == defs[|defs| - 1].name
    ensures r.Ok? ==> imports <= r.value.1
    ensures c.dialect == Script && r.Ok? ==> r.value.1 == imports
    decreases |defs|
  {
    if |defs| == 0 then Ok(([], imports))
    else
      var h :- TypeAliases(c, imports, defs[0]);
      var t :- DefinitionsAliases(c, h.1, defs[1..]);
      var all := h.0 + t.0;
      assert all[|all| - 1] == if |t.0| == 0 then h.0[|h.0| - 1] else t.0[|t.0| - 1];
      Ok((all, t.1))
  }

  /** The script's program: the main schema is called `Main`, and every
      definition, then the main schema, becomes aliases. */
  function ScriptModule(schema: Schema): (r: Result<seq<TypeAlias>>)
    ensures r.Ok? ==> |r.value| >= 1 && r.value[|r.value| - 1].name == MainName
    ensures r.Ok? && schema.Object? ==> |r.value| >= |schema.o.definitions| + 1
    ensures r.Ok? <==> forall i :: 0 <= i < |AllDefinitions(NamedSchema(MainName, schema))| ==>
      TypeAliases(Context(Script, MainName), {}, AllDefinitions(NamedSchema(MainName, schema))[i]).Ok?
    ensures r.Ok? ==> r.value == ConcatAliases(EachAliases(Context(Script, MainName), AllDefinitions(NamedSchema(MainName, schema))))
  {
    ModuleAliases(Context(Script, MainName), schema)
  }

  /** The name the script gives the main schema. */
  const MainName := "Main"

  /** Every definition of the main schema, then the main schema itself,
      turned into aliases. */
  function ModuleAliases(c: Context, schema: Schema): (r: Result<seq<TypeAlias>>)
    ensures r.Ok? ==> |r.value| >= 1 && r.value[|r.value| - 1].name == c.mainName
    ensures r.Ok? && schema.Object? ==> |r.value| >= |schema.o.definitions| + 1
    ensures r.Ok? <==> forall i :: 0 <= i < |AllDefinitions(NamedSchema(c.mainName, schema))| ==>
      TypeAliases(c, {}, AllDefinitions(NamedSchema(c.mainName, schema))[i]).Ok?
    ensures r.Ok? ==> r.value == ConcatAliases(EachAliases(c, AllDefinitions(NamedSchema(c.mainName, schema))))
  {
    var defs := AllDefinitions(NamedSchema(c.mainName, schema));
    DefinitionsConcatenate(c, {}, defs);
    var p :- DefinitionsAliases(c, {}, defs);
    Ok(p.0)
  }

  /** The schema object with only its deciding keyword kept: the first
      present of `$ref`, `enum`, `oneOf`, `anyOf`, `allOf` and `items`, or
      the whole object when none is present. */
  function Winner(o: SchemaObject): SchemaObject
  {
    if o.ref.Some? then EmptyObject.(ref := o.ref)
    else if o.enum.Some? then EmptyObject.(enum := o.enum)
    else if o.oneOf.Present? then EmptyObject.(oneOf := o.oneOf)
    else if o.anyOf.Present? then EmptyObject.(anyOf := o.anyOf)
    else if o.allOf.Present? then EmptyObject.(allOf := o.allOf)
    else if !o.items.NoItems? then EmptyObject.(items := o.items)
    else o
  }

  /** The first keyword present decides alone: dropping every other keyword
      changes neither the types nor the imports. */
  lemma FirstKeywordWins(c: Context, imports: set<string>, o: SchemaObject)
    ensures TypesFromSchema(c, imports, Object(Winner(o))) == TypesFromSchema(c, imports, Object(o))
  {
    var w := Winner(o);
    if o.ref.Some? {
      assert w.ref == o.ref;
    } else if o.enum.Some? {
      assert w.ref.None? && w.enum == o.enum;
    } else if o.oneOf.Present? {
      assert w.ref.None? && w.enum.None? && w.oneOf == o.oneOf;
    } else if o.anyOf.Present? {
      assert w.ref.None? && w.enum.None? && w.oneOf.Absent? && w.anyOf == o.anyOf;
    } else if o.allOf.Present? {
      assert AllOfDecides(w) && w.allOf == o.allOf;
    } else if !o.items.NoItems? {
      assert w.ref.None? && w.enum.None? && w.oneOf.Absent? && w.anyOf.Absent? && w.allOf.Absent?;
      assert w.items == o.items;
    }
  }

  /** `true` admits anything and `false` nothing. */
  lemma BooleanSchemaTypes(c: Context, imports: set<string>)
    ensures TypeFromSchema(c, imports, Some(Boolean(true))) == Ok((AnyType(c.dialect), imports))
    ensures TypeFromSchema(c, imports, Some(Boolean(false))) == Ok((NeverType, imports))
  {
    BooleanSchemaType(c, imports, true, AnyType(c.dialect));
    BooleanSchemaType(c, imports, false, NeverType);
  }

  lemma BooleanSchemaType(c: Context, imports: set<string>, b: bool, t: Type)
    requires t == if b then AnyType(c.dialect) else NeverType
    ensures TypeFromSchema(c, imports, Some(Boolean(b))) == Ok((t, imports))
  {
    assert TypesFromSchema(c, imports, Boolean(b)) == Ok((ToTypes([t]), imports));
    assert ToTypes([t]).additionalTypes + ToTypes([t]).objectType.ToSeq() == [t];
    UnionOfOne(c.dialect, t);
  }

  /** The keywords that take precedence over `allOf` are absent. */
  predicate AllOfDecides(o: SchemaObject)
  {
    o.ref.None? && o.enum.None? && o.oneOf.Absent? && o.anyOf.Absent? && o.allOf.Present?
  }

  /** An empty `allOf` raises: the reduction has no seed. */
  lemma EmptyAllOfRaises(c: Context, imports: set<string>, o: SchemaObject)
    requires AllOfDecides(o) && o.allOf.schemas == []
    ensures TypesFromSchema(c, imports, Object(o)) == Throws
  {
  }

  /** When `allOf` decides, the result is the type of the reduced schema. */
  lemma AllOfUnfold(c: Context, imports: set<string>, o: SchemaObject)
    requires AllOfDecides(o) && ReduceAllOf(o.allOf.schemas).Ok?
    ensures TypesFromSchema(c, imports, Object(o)) ==
      (var p :- TypeFromSchema(c, imports, Some(ReduceAllOf(o.allOf.schemas).value)); Ok((ToTypes([p.0]), p.1)))
  {
  }

  /** An `allOf` of one subschema is that subschema's type. */
  lemma SingleAllOf(c: Context, imports: set<string>, o: SchemaObject, x: Schema)
    requires AllOfDecides(o) && o.allOf.schemas == [x]
    ensures TypesFromSchema(c, imports, Object(o)) ==
      (var p :- TypeFromSchema(c, imports, Some(x)); Ok((ToTypes([p.0]), p.1)))
  {
    AllOfUnfold(c, imports, o);
  }

  /** When `$ref` is present, the result is the resolved reference alone. */
  lemma RefDecides(c: Context, imports: set<string>, o: SchemaObject)
    requires o.ref.Some?
    ensures TypesFromSchema(c, imports, Object(o)) ==
      (var p :- ResolveRef(c.dialect, c.mainName, imports, o.ref.value); Ok((ToTypes([p.0]), p.1)))
  {
  }

  /** An interface whose only member is the catch-all admitting anything. */
  function OpenInterface(d: Dialect): Type
  {
    Interface([Property(CatchAllName, AnyType(d))])
  }

  /** None of the keywords that take precedence over `type` is present. */
  predicate Undecided(o: SchemaObject)
  {
    o.ref.None? && o.enum.None? && o.oneOf.Absent? && o.anyOf.Absent? && o.allOf.Absent? && o.items.NoItems?
  }

  /** Without a deciding keyword, `type` decides. */
  lemma UndecidedUnfold(c: Context, imports: set<string>, o: SchemaObject)
    requires Undecided(o)
    ensures TypesFromSchema(c, imports, Object(o)) == TypeKeywordTypes(c, imports, o)
  {
  }

  /** An object without properties, pattern properties or
      `additionalProperties` is the open interface. */
  lemma OpenObjectType(c: Context, imports: set<string>, o: SchemaObject)
    requires o.properties == [] && o.patternProperties == [] && o.additionalProperties.None?
    ensures ObjectType(c, imports, o) == Ok((OpenInterface(c.dialect), imports))
  {
    var d := c.dialect;
    var all := [AnyType(d), UndefinedType];
    assert [AnyType(d)] + [] + [] + [UndefinedType] == all;
    LeadingUniversalAbsorbs(d, all);
    assert EntriesTypes(c, imports, o.properties) == Ok(([], imports));
    assert AdditionalTypes(c, imports, o.additionalProperties) == Ok(([AnyType(d)], imports));
    assert EntriesTypes(c, imports, o.patternProperties) == Ok(([], imports));
    assert Declared(o, []) == [];
    assert [] + [Property(CatchAllName, AnyType(d))] == OpenInterface(d).properties;
  }

  /** The schema `{}`, and any schema object without deciding keywords,
      `type`, properties, pattern properties or `additionalProperties`, is
      the open interface. */
  lemma EmptyObjectIsOpen(c: Context, imports: set<string>, o: SchemaObject)
    requires Undecided(o) && o.types.NoType?
    requires o.properties == [] && o.patternProperties == [] && o.additionalProperties.None?
    ensures TypesFromSchema(c, imports, Object(o)) == Ok((TsTypes(Some(OpenInterface(c.dialect)), []), imports))
    ensures TypeFromSchema(c, imports, Some(Object(o))) == Ok((OpenInterface(c.dialect), imports))
  {
    UndecidedUnfold(c, imports, o);
    OpenObjectType(c, imports, o);
    UnionOfOne(c.dialect, OpenInterface(c.dialect));
    assert [] + [OpenInterface(c.dialect)] == [OpenInterface(c.dialect)];
  }

  /** Two or more `allOf` subschemas without a `$ref` among them lose every
      other keyword: the result is the open object, whatever the
      subschemas require. */
  lemma AllOfWithoutRef(c: Context, imports: set<string>, o: SchemaObject)
    requires AllOfDecides(o) && |o.allOf.schemas| >= 2 && FirstRef(o.allOf.schemas).None?
    ensures TypesFromSchema(c, imports, Object(o)) == Ok((ToTypes([OpenInterface(c.dialect)]), imports))
  {
    var ss := o.allOf.schemas;
    ReduceAllOfFirstDefined(ss);
    var m := EmptyObject.(default := FirstDefault(ss));
    EmptyObjectIsOpen(c, imports, m);
  }

  /** When additional properties are absent or `true`, the catch-all admits
      anything. */
  lemma OpenCatchAllIsAny(c: Context, imports: set<string>, o: SchemaObject)
    requires o.additionalProperties.None? || o.additionalProperties == Some(Boolean(true))
    requires HasCatchAll(c.dialect, o) && ObjectType(c, imports, o).Ok?
    ensures ObjectType(c, imports, o).value.0.properties[|o.properties|] == Property(CatchAllName, AnyType(c.dialect))
  {
    var d := c.dialect;
    var props := EntriesTypes(c, imports, o.properties).value;
    var extra := AdditionalTypes(c, props.1, o.additionalProperties).value;
    var pattern := EntriesTypes(c, extra.1, o.patternProperties).value;
    var all := extra.0 + pattern.0 + props.0 + [UndefinedType];
    assert all[0] == AnyType(d);
    LeadingUniversalAbsorbs(d, all);
  }

  /** A schema whose only keyword is `properties` with the one member `a`,
      which admits anything. */
  const OnePropertyObject := EmptyObject.(properties := [Entry("a", Boolean(true))])

  /** The generations differ on an object with declared properties and
      open additional properties: the library keeps only the declared
      member, the script adds the catch-all as well. */
  lemma CatchAllByDialect(imports: set<string>)
    ensures ObjectType(Context(Library, "Main"), imports, OnePropertyObject) ==
      Ok((Interface([Property("a?", AnyType(Library))]), imports))
    ensures ObjectType(Context(Script, "Main"), imports, OnePropertyObject) ==
      Ok((Interface([Property("a?", AnyType(Script)), Property(CatchAllName, AnyType(Script))]), imports))
  {
    LibraryOneProperty(imports);
    ScriptOneProperty(imports);
  }

  lemma LibraryOneProperty(imports: set<string>)
    ensures ObjectType(Context(Library, "Main"), imports, OnePropertyObject) ==
      Ok((Interface([Property("a?", AnyType(Library))]), imports))
  {
    var d := Library;
    OnePropertyParts(d, imports);
    assert [Property("a?", AnyType(d))] + [] == [Property("a?", AnyType(d))];
  }

  lemma ScriptOneProperty(imports: set<string>)
    ensures ObjectType(Context(Script, "Main"), imports, OnePropertyObject) ==
      Ok((Interface([Property("a?", AnyType(Script)), Property(CatchAllName, AnyType(Script))]), imports))
  {
    var d := Script;
    OnePropertyParts(d, imports);
    var all := [AnyType(d)] + [] + [AnyType(d)] + [UndefinedType];
    LeadingUniversalAbsorbs(d, all);
    assert [Property("a?", AnyType(d))] + [Property(CatchAllName, AnyType(d))] ==
      [Property("a?", AnyType(d)), Property(CatchAllName, AnyType(d))];
  }

  /** The pieces `createObjectType` assembles for the one-property object. */
  lemma OnePropertyParts(d: Dialect, imports: set<string>)
    ensures EntriesTypes(Context(d, "Main"), imports, OnePropertyObject.properties) == Ok(([AnyType(d)], imports))
    ensures AdditionalTypes(Context(d, "Main"), imports, OnePropertyObject.additionalProperties) == Ok(([AnyType(d)], imports))
    ensures EntriesTypes(Context(d, "Main"), imports, OnePropertyObject.patternProperties) == Ok(([], imports))
    ensures Declared(OnePropertyObject, [AnyType(d)]) == [Property("a?", AnyType(d))]
  {
    var c := Context(d, "Main");
    var o := OnePropertyObject;
    assert MemberName(o, "a") == "a?" by {
      assert PropertyName("a") == "a";
      assert "a" !in o.required;
    }
    BooleanSchemaTypes(c, imports);
    SingleEntryTypes(c, imports, Entry("a", Boolean(true)));
  }

  /** The types of a single entry. */
  lemma SingleEntryTypes(c: Context, imports: set<string>, e: Entry)
    ensures EntriesTypes(c, imports, [e]) ==
      (var h :- TypeFromSchema(c, imports, Some(e.schema)); Ok(([h.0], h.1)))
  {
    var es := [e];
    assert es[0] == e && es[1..] == [];
    var h := TypeFromSchema(c, imports, Some(e.schema));
    if h.Ok? {
      EmptyEntries(c, h.value.1);
      assert [h.value.0] + [] == [h.value.0];
    }
  }

  lemma EmptyEntries(c: Context, imports: set<string>)
    ensures EntriesTypes(c, imports, []) == Ok(([], imports))
  {
  }

  /** Without `$ref`, an `enum` decides alone: the union of its constants,
      importing nothing. */
  lemma EnumDecides(c: Context, imports: set<string>, o: SchemaObject)
    requires o.ref.None? && o.enum.Some?
    ensures TypeFromSchema(c, imports, Some(Object(o))) == Ok((UnionOf(c.dialect, Consts(o.enum.value)), imports))
  {
    assert KeywordTypes(c, imports, o) == Ok((ToTypes(Consts(o.enum.value)), imports));
    assert TypesFromSchema(c, imports, Object(o)) == Ok((ToTypes(Consts(o.enum.value)), imports));
    assert Consts(o.enum.value) + [] == Consts(o.enum.value);
  }

  /** Three distinct constants stay apart in a union. */
  lemma ThreeConstsUnion(d: Dialect, x: Literal, y: Literal, z: Literal)
    requires x != y && y != z && x != z
    ensures UnionOf(d, [Const(x), Const(y), Const(z)]) == Union([Const(x), Const(y), Const(z)])
  {
    var ms := [Const(x), Const(y), Const(z)];
    forall i, j | 0 <= i < j < |ms| ensures !TypeEqual(ms[i], ms[j]) {
    }
    UnionOfDistinct(d, ms);
  }

  /** An enum of three distinct values is the union of their constants. */
  lemma ThreeValueEnum(c: Context, imports: set<string>, x: Literal, y: Literal, z: Literal)
    requires x != y && y != z && x != z
    ensures TypeFromSchema(c, imports, Some(Object(EmptyObject.(enum := Some([x, y, z])))))
      == Ok((Union([Const(x), Const(y), Const(z)]), imports))
  {
    var vs := [x, y, z];
    EnumDecides(c, imports, EmptyObject.(enum := Some(vs)));
    assert Consts(vs) == [Const(x), Const(y), Const(z)];
    ThreeConstsUnion(c.dialect, x, y, z);
  }

  /** The enum `[1, 2, 3]` is the union of its three constants. */
  lemma NumericEnum(c: Context, imports: set<string>)
    ensures TypeFromSchema(c, imports, Some(Object(EmptyObject.(enum := Some([IntLit(1), IntLit(2), IntLit(3)])))))
      == Ok((Union([Const(IntLit(1)), Const(IntLit(2)), Const(IntLit(3))]), imports))
  {
    ThreeValueEnum(c, imports, IntLit(1), IntLit(2), IntLit(3));
  }

  /** Two or more `allOf` subschemas with a `$ref` among them are that
      reference: the first one wins, and every other keyword is lost. */
  lemma AllOfWithRef(c: Context, imports: set<string>, o: SchemaObject)
    requires AllOfDecides(o) && |o.allOf.schemas| >= 2 && FirstRef(o.allOf.schemas).Some?
    ensures TypesFromSchema(c, imports, Object(o)) ==
      TypesFromSchema(c, imports, Object(EmptyObject.(ref := FirstRef(o.allOf.schemas))))
  {
    var ss := o.allOf.schemas;
    ReduceAllOfFirstDefined(ss);
    var m := EmptyObject.(ref := FirstRef(ss), default := FirstDefault(ss));
    AllOfUnfold(c, imports, o);
    RefDecides(c, imports, m);
    RefDecides(c, imports, EmptyObject.(ref := FirstRef(ss)));
    var r := ResolveRef(c.dialect, c.mainName, imports, FirstRef(ss).value);
    if r.Ok? {
      UnionOfOne(c.dialect, r.value.0);
      assert [r.value.0] + [] == [r.value.0];
    }
  }

  /** When a schema admits objects and other types, the alias under the
      schema's own name refers to the object alias: it is that reference,
      or a union with it as a member, unless it admits anything. */
  lemma ObjectAliasReferenced(c: Context, imports: set<string>, ns: NamedSchema)
    requires TypeAliases(c, imports, ns).Ok? && |TypeAliases(c, imports, ns).value.0| == 2
    ensures var objectName := ns.name + "Object";
      var t := TypeAliases(c, imports, ns).value.0[1].typ;
      ValidTypeName(c.dialect, objectName) &&
      (t == AnyType(c.dialect) || t == Ref(TypeName(c.dialect, objectName)) ||
       (t.Union? && Ref(TypeName(c.dialect, objectName)) in t.members))
  {
    var d := c.dialect;
    var objectName := ns.name + "Object";
    NameEndingInTNotSimple(d, objectName);
    var types := TypesFromSchema(c, {}, ns.schema).value.0;
    RefAppendedKept(d, types.additionalTypes, Ref(TypeName(d, objectName)));
  }

  /** A named reference put last into a union is kept, unless the
      universal type absorbs everything. */
  lemma RefAppendedKept(d: Dialect, xs: seq<Type>, ref: Type)
    requires ref.Ref? && !UniversalName(ref.name)
    ensures var u := UnionOf(d, xs + [ref]);
      u == AnyType(d) || u == ref || (u.Union? && ref in u.members)
  {
    NonUnionInFlatten(xs + [ref], |xs|);
    UnionKeepsRef(d, xs + [ref], ref);
  }

  /** `x` was computed from the import set `a`, `y` from the empty set: they
      agree on success and on the computed value, and `x` collected `a` on
      top of what `y` collected. */
  predicate Seeded<T(==)>(x: Result<(T, set<string>)>, y: Result<(T, set<string>)>, a: set<string>)
  {
    x.Ok? == y.Ok? && (x.Ok? ==> x.value.0 == y.value.0 && x.value.1 == a + y.value.1)
  }

  lemma ResolveRefSeeded(d: Dialect, mainName: string, a: set<string>, ref: string)
    ensures Seeded(ResolveRef(d, mainName, a, ref), ResolveRef(d, mainName, {}, ref), a)
  {
    if d == Library {
      ImportsIndependent(mainName, a, {}, ref);
    }
  }

  /** The types generated for a schema do not depend on the namespaces
      imported before, and the namespaces a schema imports are the same
      whatever was imported before. */
  lemma {:induction false} TypeSeeded(c: Context, a: set<string>, s: Option<Schema>)
    ensures Seeded(TypeFromSchema(c, a, s), TypeFromSchema(c, {}, s), a)
    decreases OptionSize(s), 4
  {
    if s.Some? {
      TypesSeeded(c, a, s.value);
    }
  }

  lemma {:induction false} TypesSeeded(c: Context, a: set<string>, s: Schema)
    ensures Seeded(TypesFromSchema(c, a, s), TypesFromSchema(c, {}, s), a)
    decreases Size(s), 3
  {
    if s.Object? {
      KeywordSeeded(c, a, s.o);
    }
  }

  lemma {:induction false} KeywordSeeded(c: Context, a: set<string>, o: SchemaObject)
    ensures Seeded(KeywordTypes(c, a, o), KeywordTypes(c, {}, o), a)
    decreases Size(Object(o)), 2
  {
    SizeOfParts(o);
    if o.ref.Some? {
      ResolveRefSeeded(c.dialect, c.mainName, a, o.ref.value);
    } else if o.enum.Some? {
    } else if o.oneOf.Present? {
      ListSeeded(c, a, o.oneOf.schemas);
    } else if o.anyOf.Present? {
      ListSeeded(c, a, o.anyOf.schemas);
    } else if o.allOf.Present? {
      if ReduceAllOf(o.allOf.schemas).Ok? {
        ReducedAllOfIsSmaller(o);
        TypeSeeded(c, a, Some(ReduceAllOf(o.allOf.schemas).value));
      }
    } else if o.items.Single? {
      TypeSeeded(c, a, Some(o.items.item));
    } else if o.items.Positional? {
      ListSeeded(c, a, o.items.positions);
    } else {
      TypeKeywordSeeded(c, a, o);
    }
  }

  lemma {:induction false} TypeKeywordSeeded(c: Context, a: set<string>, o: SchemaObject)
    ensures Seeded(TypeKeywordTypes(c, a, o), TypeKeywordTypes(c, {}, o), a)
    decreases Size(Object(o)), 1
  {
    ObjectSeeded(c, a, o);
  }

  lemma {:induction false} ListSeeded(c: Context, a: set<string>, ss: seq<Schema>)
    ensures Seeded(TypesFromList(c, a, ss), TypesFromList(c, {}, ss), a)
    decreases SeqSize(ss), 5
  {
    if |ss| > 0 {
      TypeSeeded(c, a, Some(ss[0]));
      var h := TypeFromSchema(c, a, Some(ss[0]));
      var h0 := TypeFromSchema(c, {}, Some(ss[0]));
      if h.Ok? {
        ListSeeded(c, h.value.1, ss[1..]);
        ListSeeded(c, h0.value.1, ss[1..]);
      }
    }
  }

  lemma {:induction false} EntriesSeeded(c: Context, a: set<string>, es: seq<Entry>)
    ensures Seeded(EntriesTypes(c, a, es), EntriesTypes(c, {}, es), a)
    decreases EntriesSize(es), 5
  {
    if |es| > 0 {
      TypeSeeded(c, a, Some(es[0].schema));
      var h := TypeFromSchema(c, a, Some(es[0].schema));
      var h0 := TypeFromSchema(c, {}, Some(es[0].schema));
      if h.Ok? {
        EntriesSeeded(c, h.value.1, es[1..]);
        EntriesSeeded(c, h0.value.1, es[1..]);
      }
    }
  }

  lemma {:induction false} AdditionalSeeded(c: Context, a: set<string>, x: Option<Schema>)
    ensures Seeded(AdditionalTypes(c, a, x), AdditionalTypes(c, {}, x), a)
    decreases OptionSize(x), 5
  {
    if x.Some? && x.value != Boolean(true) && x.value != Boolean(false) {
      TypeSeeded(c, a, x);
    }
  }

  lemma {:induction false} ObjectSeeded(c: Context, a: set<string>, o: SchemaObject)
    ensures Seeded(ObjectType(c, a, o), ObjectType(c, {}, o), a)
    decreases Size(Object(o)), 0
  {
    SizeOfParts(o);
    EntriesSeeded(c, a, o.properties);
    var p := EntriesTypes(c, a, o.properties);
    var p0 := EntriesTypes(c, {}, o.properties);
    if p.Ok? {
      AdditionalSeeded(c, p.value.1, o.additionalProperties);
      AdditionalSeeded(c, p0.value.1, o.additionalProperties);
      var x := AdditionalTypes(c, p.value.1, o.additionalProperties);
      var x0 := AdditionalTypes(c, p0.value.1, o.additionalProperties);
      if x.Ok? {
        EntriesSeeded(c, x.value.1, o.patternProperties);
        EntriesSeeded(c, x0.value.1, o.patternProperties);
      }
    }
  }

  /** The aliases of a schema do not depend on the namespaces imported
      before either. */
  lemma AliasesSeeded(c: Context, a: set<string>, ns: NamedSchema)
    ensures Seeded(TypeAliases(c, a, ns), TypeAliases(c, {}, ns), a)
  {
    TypesSeeded(c, a, ns.schema);
  }

  /** Nor do the aliases of a whole list of definitions. */
  lemma {:induction false} DefinitionsSeeded(c: Context, a: set<string>, defs: seq<NamedSchema>)
    ensures Seeded(DefinitionsAliases(c, a, defs), DefinitionsAliases(c, {}, defs), a)
    decreases |defs|
  {
    if |defs| > 0 {
      AliasesSeeded(c, a, defs[0]);
      var h := TypeAliases(c, a, defs[0]);
      var h0 := TypeAliases(c, {}, defs[0]);
      if h.Ok? {
        DefinitionsSeeded(c, h.value.1, defs[1..]);
        DefinitionsSeeded(c, h0.value.1, defs[1..]);
      }
    }
  }

  /** When a schema admits objects and other types, the alias under the
      schema's own name is the union of the distinct other types followed
      by a reference to the object alias, and the object alias holds the
      interface. */
  lemma ObjectAliasIsUnion(c: Context, imports: set<string>, ns: NamedSchema)
    requires TypeAliases(c, imports, ns).Ok? && |TypeAliases(c, imports, ns).value.0| == 2
    ensures var types := TypesFromSchema(c, imports, ns.schema).value.0;
      var objectName := ns.name + "Object";
      var aliases := TypeAliases(c, imports, ns).value.0;
      ValidTypeName(c.dialect, objectName) &&
      aliases[0] == TypeAlias(objectName, types.objectType.value) &&
      aliases[1] == TypeAlias(ns.name, Union(Dedup(types.additionalTypes) + [Ref(TypeName(c.dialect, objectName))]))
  {
    TypesSeeded(c, imports, ns.schema);
    var types := TypesFromSchema(c, {}, ns.schema).value.0;
    assert types == TypesFromSchema(c, imports, ns.schema).value.0;
    ObjectUnion(c.dialect, types.additionalTypes, ns.name + "Object");
  }

  /** Simple types joined by a reference to an object alias. */
  lemma ObjectUnion(d: Dialect, ts: seq<Type>, objectName: string)
    requires |ts| >= 1 && forall i :: 0 <= i < |ts| ==> Simple(d, ts[i])
    requires |objectName| >= 1 && objectName[|objectName| - 1] == 't' && ValidTypeName(d, objectName)
    ensures UnionOf(d, ts + [Ref(TypeName(d, objectName))]) == Union(Dedup(ts) + [Ref(TypeName(d, objectName))])
  {
    NameEndingInTNotSimple(d, objectName);
    UnionWithReference(d, ts, Ref(TypeName(d, objectName)));
  }

  /** Simple types joined by a further named reference: the union keeps the
      distinct simple types in order and puts the reference last. */
  lemma UnionWithReference(d: Dialect, ts: seq<Type>, ref: Type)
    requires |ts| >= 1 && forall i :: 0 <= i < |ts| ==> Simple(d, ts[i])
    requires ref.Ref? && !Simple(d, ref) && ref != AnyType(d)
    ensures UnionOf(d, ts + [ref]) == Union(Dedup(ts) + [ref])
  {
    var all := ts + [ref];
    SimpleThenReference(d, ts, ref);
    DedupWithReference(d, ts, ref);
    var members := Dedup(ts) + [ref];
    NonConstsOfConstFree(members);
    SurvivorsOfFlat(all, members);
    UnionOfSurvivors(d, all, members);
  }

  /** Survivors of a flat list whose deduplication holds no constant. */
  lemma SurvivorsOfFlat(all: seq<Type>, members: seq<Type>)
    requires Flatten(all) == all && Dedup(all) == members && NonConsts(members) == members
    ensures Survivors(all) == members
  {
  }

  lemma SimpleThenReference(d: Dialect, ts: seq<Type>, ref: Type)
    requires forall i :: 0 <= i < |ts| ==> Simple(d, ts[i])
    requires ref.Ref? && ref != AnyType(d)
    ensures Flatten(ts + [ref]) == ts + [ref] && AnyType(d) !in ts + [ref]
  {
    var all := ts + [ref];
    forall k | 0 <= k < |all| ensures !all[k].Union? && all[k] != AnyType(d) {
      if k < |ts| {
        SimpleFacts(d, ts[k]);
      }
    }
    FlattenOfNonUnions(all);
  }

  lemma UnionOfSurvivors(d: Dialect, all: seq<Type>, members: seq<Type>)
    requires AnyType(d) !in Flatten(all) && Survivors(all) == members && |members| >= 2
    ensures UnionOf(d, all) == Union(members)
  {
    NoUniversalNoAbsorb(d, Flatten(all));
  }

  /** Deduplicating simple types followed by a further named reference
      keeps the reference, last, after at least one simple type; none of
      them is a constant. */
  lemma DedupWithReference(d: Dialect, ts: seq<Type>, ref: Type)
    requires |ts| >= 1 && forall i :: 0 <= i < |ts| ==> Simple(d, ts[i])
    requires ref.Ref? && !Simple(d, ref)
    ensures Dedup(ts + [ref]) == Dedup(ts) + [ref]
    ensures |Dedup(ts)| >= 1
    ensures forall k :: 0 <= k < |Dedup(ts) + [ref]| ==> !(Dedup(ts) + [ref])[k].Const?
  {
    var all := ts + [ref];
    assert all[..|all| - 1] == ts;
    var kept := Dedup(ts);
    DedupFromInput(ts);
    forall k | 0 <= k < |kept| ensures !TypeEqual(kept[k], ref) && !kept[k].Const? {
      SimpleFacts(d, kept[k]);
    }
    PushUniqueProperties(kept, ref);
    var members := kept + [ref];
    forall k | 0 <= k < |members| ensures !members[k].Const? {
      if k < |kept| {
        assert members[k] == kept[k];
      }
    }
    DedupCovers(ts);
    assert Covered(kept, ts[0]);
  }

  /** What a simple type is not. */
  lemma SimpleFacts(d: Dialect, t: Type)
    requires Simple(d, t)
    ensures !t.Union? && !t.Const? && t != AnyType(d)
  {
  }

  /** The type name of a name ending in `t`, such as an object alias's,
      is no simple type's and no universal type's. */
  lemma NameEndingInTNotSimple(d: Dialect, name: string)
    requires |name| >= 1 && name[|name| - 1] == 't' && ValidTypeName(d, name)
    ensures !Simple(d, Ref(TypeName(d, name))) && !UniversalName(TypeName(d, name))
  {
    TypeNameLast(d, name);
    NormalisedFromT(d, TypeName(d, name), name);
  }

  lemma NormalisedFromT(d: Dialect, t: string, name: string)
    requires |t| >= 1 && |name| >= 1 && name[|name| - 1] == 't'
    requires Normalised(t[|t| - 1], name[|name| - 1])
    ensures !Simple(d, Ref(t)) && !UniversalName(t)
  {
    assert Strings.UpperAscii('t') == 'T';
    NotSimpleName(d, t);
  }

  /** The string ends in `t`, `T` or `_`. */
  predicate EndsLikeT(t: string)
  {
    |t| >= 1 && (t[|t| - 1] == 't' || t[|t| - 1] == 'T' || t[|t| - 1] == '_')
  }

  /** A name ending in `t`, `T` or `_` is no simple type's and no
      universal type's. */
  lemma NotSimpleName(d: Dialect, t: string)
    requires EndsLikeT(t)
    ensures !Simple(d, Ref(t)) && !UniversalName(t)
  {
    LastCharDiffers(t, "string", 'g');
    LastCharDiffers(t, "number", 'r');
    LastCharDiffers(t, "boolean", 'n');
    LastCharDiffers(t, "never", 'r');
    LastCharDiffers(t, ScriptAnyName, 'y');
    LastCharDiffers(t, LibraryAnyName, 'n');
  }

  /** Two strings that end differently differ. */
  lemma LastCharDiffers(t: string, u: string, x: char)
    requires |t| >= 1 && |u| >= 1 && u[|u| - 1] == x && t[|t| - 1] != x
    ensures t != u
  {
  }

  /** A schema that admits objects and nothing else has the interface as
      its type. */
  lemma ObjectOnlyIsInterface(c: Context, imports: set<string>, x: Schema)
    requires TypesFromSchema(c, imports, x).Ok?
    requires TypesFromSchema(c, imports, x).value.0 == TsTypes(TypesFromSchema(c, imports, x).value.0.objectType, [])
    requires TypesFromSchema(c, imports, x).value.0.objectType.Some?
    ensures TypeFromSchema(c, imports, Some(x)).Ok?
    ensures TypeFromSchema(c, imports, Some(x)).value.0 == TypesFromSchema(c, imports, x).value.0.objectType.value
  {
    var t := TypesFromSchema(c, imports, x).value.0.objectType.value;
    UnionOfOne(c.dialect, t);
    assert [] + [t] == [t];
  }

  /** One step of `TypesFromList`: the head's type, then the rest's. */
  lemma ListStep(c: Context, a: set<string>, ss: seq<Schema>)
    requires |ss| > 0
    ensures var h := TypeFromSchema(c, a, Some(ss[0]));
      var r := TypesFromList(c, a, ss);
      (r.Ok? <==> h.Ok? && TypesFromList(c, h.value.1, ss[1..]).Ok?) &&
      (r.Ok? ==> r.value.0 == [h.value.0] + TypesFromList(c, h.value.1, ss[1..]).value.0)
  {
  }

  /** One step of `EntriesTypes`, likewise. */
  lemma EntriesStep(c: Context, a: set<string>, es: seq<Entry>)
    requires |es| > 0
    ensures var h := TypeFromSchema(c, a, Some(es[0].schema));
      var r := EntriesTypes(c, a, es);
      (r.Ok? <==> h.Ok? && EntriesTypes(c, h.value.1, es[1..]).Ok?) &&
      (r.Ok? ==> r.value.0 == [h.value.0] + EntriesTypes(c, h.value.1, es[1..]).value.0)
  {
  }

  /** Indexing into a list with one element put in front. */
  lemma ConsIndex<T>(xs: seq<T>, h: T, t: seq<T>)
    requires xs == [h] + t
    ensures |xs| == |t| + 1 && xs[0] == h
    ensures forall i :: 1 <= i < |xs| ==> xs[i] == t[i - 1]
  {
  }

  /** A list of subschemas converts exactly when each converts on its own,
      and to the types they convert to on their own, in order. */
  lemma ListElements(c: Context, a: set<string>, ss: seq<Schema>)
    ensures TypesFromList(c, a, ss).Ok? <==> forall i :: 0 <= i < |ss| ==> TypeFromSchema(c, {}, Some(ss[i])).Ok?
    ensures TypesFromList(c, a, ss).Ok? ==>
      forall i :: 0 <= i < |ss| ==> TypesFromList(c, a, ss).value.0[i] == TypeFromSchema(c, {}, Some(ss[i])).value.0
  {
    ListOk(c, a, ss);
    ListValues(c, a, ss);
  }

  lemma {:induction false} ListOk(c: Context, a: set<string>, ss: seq<Schema>)
    ensures TypesFromList(c, a, ss).Ok? <==> forall i :: 0 <= i < |ss| ==> TypeFromSchema(c, {}, Some(ss[i])).Ok?
    decreases |ss|
  {
    if |ss| > 0 {
      var rest := ss[1..];
      ListStep(c, a, ss);
      TypeSeeded(c, a, Some(ss[0]));
      var h := TypeFromSchema(c, a, Some(ss[0]));
      forall i | 1 <= i < |ss| ensures rest[i - 1] == ss[i] {
      }
      if h.Ok? {
        ListOk(c, h.value.1, rest);
      }
    }
  }

  lemma {:induction false} ListValues(c: Context, a: set<string>, ss: seq<Schema>)
    ensures TypesFromList(c, a, ss).Ok? ==>
      forall i :: 0 <= i < |ss| && TypeFromSchema(c, {}, Some(ss[i])).Ok? ==>
        TypesFromList(c, a, ss).value.0[i] == TypeFromSchema(c, {}, Some(ss[i])).value.0
    decreases |ss|
  {
    var r := TypesFromList(c, a, ss);
    if |ss| > 0 && r.Ok? {
      var rest := ss[1..];
      ListStep(c, a, ss);
      TypeSeeded(c, a, Some(ss[0]));
      var h := TypeFromSchema(c, a, Some(ss[0]));
      forall i | 1 <= i < |ss| ensures rest[i - 1] == ss[i] {
      }
      ListValues(c, h.value.1, rest);
      ConsIndex(r.value.0, h.value.0, TypesFromList(c, h.value.1, rest).value.0);
    }
  }

  /** The same for the members of an object keyword, in key order. */
  lemma EntriesElements(c: Context, a: set<string>, es: seq<Entry>)
    ensures EntriesTypes(c, a, es).Ok? <==> forall i :: 0 <= i < |es| ==> TypeFromSchema(c, {}, Some(es[i].schema)).Ok?
    ensures EntriesTypes(c, a, es).Ok? ==>
      forall i :: 0 <= i < |es| ==> EntriesTypes(c, a, es).value.0[i] == TypeFromSchema(c, {}, Some(es[i].schema)).value.0
  {
    EntriesOk(c, a, es);
    EntriesValues(c, a, es);
  }

  lemma {:induction false} EntriesOk(c: Context, a: set<string>, es: seq<Entry>)
    ensures EntriesTypes(c, a, es).Ok? <==> forall i :: 0 <= i < |es| ==> TypeFromSchema(c, {}, Some(es[i].schema)).Ok?
    decreases |es|
  {
    if |es| > 0 {
      var rest := es[1..];
      EntriesStep(c, a, es);
      TypeSeeded(c, a, Some(es[0].schema));
      var h := TypeFromSchema(c, a, Some(es[0].schema));
      forall i | 1 <= i < |es| ensures rest[i - 1].schema == es[i].schema {
      }
      if h.Ok? {
        EntriesOk(c, h.value.1, rest);
      }
    }
  }

  lemma {:induction false} EntriesValues(c: Context, a: set<string>, es: seq<Entry>)
    ensures EntriesTypes(c, a, es).Ok? ==>
      forall i :: 0 <= i < |es| && TypeFromSchema(c, {}, Some(es[i].schema)).Ok? ==>
        EntriesTypes(c, a, es).value.0[i] == TypeFromSchema(c, {}, Some(es[i].schema)).value.0
    decreases |es|
  {
    var r := EntriesTypes(c, a, es);
    if |es| > 0 && r.Ok? {
      var rest := es[1..];
      EntriesStep(c, a, es);
      TypeSeeded(c, a, Some(es[0].schema));
      var h := TypeFromSchema(c, a, Some(es[0].schema));
      forall i | 1 <= i < |es| ensures rest[i - 1].schema == es[i].schema {
      }
      EntriesValues(c, h.value.1, rest);
      ConsIndex(r.value.0, h.value.0, EntriesTypes(c, h.value.1, rest).value.0);
    }
  }

  /** Each declared property becomes the member of its normalised name
      whose type is the type its schema converts to on its own. */
  lemma ObjectMemberTypes(c: Context, imports: set<string>, o: SchemaObject)
    ensures ObjectType(c, imports, o).Ok? ==> forall i :: 0 <= i < |o.properties| ==>
      TypeFromSchema(c, {}, Some(o.properties[i].schema)).Ok? &&
      ObjectType(c, imports, o).value.0.properties[i] ==
        Property(MemberName(o, o.properties[i].key), TypeFromSchema(c, {}, Some(o.properties[i].schema)).value.0)
  {
    SizeOfParts(o);
    var r := ObjectType(c, imports, o);
    if r.Ok? {
      var props := EntriesTypes(c, imports, o.properties).value;
      EntriesElements(c, imports, o.properties);
      var declared := Declared(o, props.0);
      assert r.value.0.properties[..|declared|] == declared;
      forall i | 0 <= i < |o.properties|
        ensures r.value.0.properties[i] == Property(MemberName(o, o.properties[i].key), props.0[i])
      {
        assert r.value.0.properties[i] == r.value.0.properties[..|declared|][i];
      }
    }
  }

  /** The catch-all member admits the union of what `additionalProperties`
      contributes, then each pattern property's type in key order, then
      each declared property's type, then `undefined`; every part converted
      on its own. */
  lemma CatchAllType(c: Context, imports: set<string>, o: SchemaObject)
    requires ObjectType(c, imports, o).Ok? && HasCatchAll(c.dialect, o)
    ensures var extra := AdditionalTypes(c, {}, o.additionalProperties);
      var pattern := EntriesTypes(c, {}, o.patternProperties);
      var declared := EntriesTypes(c, {}, o.properties);
      extra.Ok? && pattern.Ok? && declared.Ok? &&
      ObjectType(c, imports, o).value.0.properties[|o.properties|] ==
        Property(CatchAllName, UnionOf(c.dialect, extra.value.0 + pattern.value.0 + declared.value.0 + [UndefinedType]))
  {
    SizeOfParts(o);
    ObjectSeeded(c, imports, o);
    var props := EntriesTypes(c, {}, o.properties).value;
    AdditionalSeeded(c, props.1, o.additionalProperties);
    var extra := AdditionalTypes(c, props.1, o.additionalProperties).value;
    EntriesSeeded(c, extra.1, o.patternProperties);
    var pattern := EntriesTypes(c, extra.1, o.patternProperties).value;
    var declared := Declared(o, props.0);
    var pool := extra.0 + pattern.0;
    assert |pool| > 0;
    var catchAll := Property(CatchAllName, UnionOf(c.dialect, pool + props.0 + [UndefinedType]));
    assert ObjectType(c, {}, o).value.0 == Interface(declared + [catchAll]);
    assert (declared + [catchAll])[|o.properties|] == catchAll;
  }

  /** Every part of a list of alias lists, one after the other. */
  function ConcatAliases(parts: seq<seq<TypeAlias>>): (r: seq<TypeAlias>)
  {
    if |parts| == 0 then [] else parts[0] + ConcatAliases(parts[1..])
  }

  /** The aliases of each named schema, each converted on its own from no
      imports; a schema that raises contributes nothing. */
  function EachAliases(c: Context, defs: seq<NamedSchema>): (r: seq<seq<TypeAlias>>)
    ensures |r| == |defs|
  {
    if |defs| == 0 then []
    else [match TypeAliases(c, {}, defs[0]) case Ok(p) => p.0 case Throws => []] + EachAliases(c, defs[1..])
  }

  /** The aliases of a list of named schemas are the aliases of each
      schema on its own, concatenated in order; the list raises exactly
      when one of them does. */
  lemma {:induction false} DefinitionsConcatenate(c: Context, a: set<string>, defs: seq<NamedSchema>)
    ensures DefinitionsAliases(c, a, defs).Ok? <==> forall i :: 0 <= i < |defs| ==> TypeAliases(c, {}, defs[i]).Ok?
    ensures DefinitionsAliases(c, a, defs).Ok? ==> DefinitionsAliases(c, a, defs).value.0 == ConcatAliases(EachAliases(c, defs))
    decreases |defs|
  {
    if |defs| > 0 {
      var rest := defs[1..];
      DefinitionsStep(c, a, defs);
      AliasesSeeded(c, a, defs[0]);
      var h := TypeAliases(c, a, defs[0]);
      forall i | 1 <= i < |defs| ensures rest[i - 1] == defs[i] {
      }
      if h.Ok? {
        DefinitionsConcatenate(c, h.value.1, rest);
        EachAliasesStep(c, defs);
      }
    }
  }

  /** One step of `DefinitionsAliases`: the head's aliases, then the rest's. */
  lemma DefinitionsStep(c: Context, a: set<string>, defs: seq<NamedSchema>)
    requires |defs| > 0
    ensures var h := TypeAliases(c, a, defs[0]);
      var r := DefinitionsAliases(c, a, defs);
      (r.Ok? <==> h.Ok? && DefinitionsAliases(c, h.value.1, defs[1..]).Ok?) &&
      (r.Ok? ==> r.value.0 == h.value.0 + DefinitionsAliases(c, h.value.1, defs[1..]).value.0)
  {
  }

  /** Concatenating each schema's own aliases: the head's, then the rest's. */
  lemma EachAliasesStep(c: Context, defs: seq<NamedSchema>)
    requires |defs| > 0 && TypeAliases(c, {}, defs[0]).Ok?
    ensures ConcatAliases(EachAliases(c, defs)) ==
      TypeAliases(c, {}, defs[0]).value.0 + ConcatAliases(EachAliases(c, defs[1..]))
  {
    var each := EachAliases(c, defs);
    assert each[0] == TypeAliases(c, {}, defs[0]).value.0;
    assert each[1..] == EachAliases(c, defs[1..]);
  }

  /** A schema whose only keyword is `additionalProperties`, a schema
      holding only the reference `ref`. */
  function RefPool(ref: string): SchemaObject
  {
    EmptyObject.(additionalProperties := Some(Object(EmptyObject.(ref := Some(ref)))))
  }

  /** A reference that merely names the runtime's JSON type is not the
      universal constant: it absorbs nothing, so `undefined` stays in the
      catch-all of `{additionalProperties: {$ref: "#/definitions/TsCommonJson.Json"}}`. */
  lemma NamedJsonRefKeepsUndefined(imports: set<string>)
    ensures ObjectType(Context(Library, "Main"), imports, RefPool("#/definitions/" + LibraryAnyName)) ==
      Ok((Interface([Property(CatchAllName, Union([Ref(LibraryAnyName), UndefinedType]))]), imports))
  {
    JsonNameFixed();
    RefPoolObject(imports, LibraryAnyName);
    JsonUnion();
  }

  /** The object `{additionalProperties: {$ref: "#/definitions/x"}}` is the
      interface whose catch-all admits the reference to `x` or `undefined`. */
  lemma RefPoolObject(imports: set<string>, x: string)
    requires '#' !in x && ValidTypeName(Library, x)
    ensures ObjectType(Context(Library, "Main"), imports, RefPool("#/definitions/" + x)) ==
      Ok((Interface([Property(CatchAllName, UnionOf(Library, [Ref(TypeName(Library, x)), UndefinedType]))]), imports))
  {
    var c := Context(Library, "Main");
    var t := Ref(TypeName(Library, x));
    var o := RefPool("#/definitions/" + x);
    RefPoolType(imports, x);
    assert EntriesTypes(c, imports, []) == Ok(([], imports));
    assert Declared(o, []) == [];
    assert [t] + [] + [] + [UndefinedType] == [t, UndefinedType];
    var catchAll := Property(CatchAllName, UnionOf(Library, [t, UndefinedType]));
    assert [] + [catchAll] == [catchAll];
  }

  lemma JsonNameFixed()
    ensures ValidTypeName(Library, LibraryAnyName) && TypeName(Library, LibraryAnyName) == LibraryAnyName
    ensures '#' !in LibraryAnyName
  {
    var a, b := "TsCommonJson", "Json";
    assert a[0] == 'T' && b[0] == 'J';
    TwoSegmentNameFixed(a, b);
    assert a + "." + b == LibraryAnyName;
    JsonNameHashFree();
  }

  lemma JsonNameHashFree()
    ensures '#' !in LibraryAnyName
  {
    forall i | 0 <= i < |LibraryAnyName| ensures LibraryAnyName[i] != '#' {
    }
  }

  /** The pool of `RefPool("#/definitions/x")` is the reference to `x`
      alone. */
  lemma RefPoolType(imports: set<string>, x: string)
    requires '#' !in x && ValidTypeName(Library, x)
    ensures AdditionalTypes(Context(Library, "Main"), imports, RefPool("#/definitions/" + x).additionalProperties) ==
      Ok(([Ref(TypeName(Library, x))], imports))
  {
    var c := Context(Library, "Main");
    var t := Ref(TypeName(Library, x));
    var target := EmptyObject.(ref := Some("#/definitions/" + x));
    LocalDefinitionRef(Library, "Main", imports, x);
    RefDecides(c, imports, target);
    UnionOfOne(Library, t);
    assert [t] + [] == [t];
    assert TypeFromSchema(c, imports, Some(Object(target))) == Ok((t, imports));
  }

  /** `TsCommonJson.Json|undefined`, with the reference built by name. */
  lemma JsonUnion()
    ensures UnionOf(Library, [Ref(LibraryAnyName), UndefinedType]) == Union([Ref(LibraryAnyName), UndefinedType])
  {
    var all := [Ref(LibraryAnyName), UndefinedType];
    FlattenOfNonUnions(all);
    DedupPair(all[0], all[1]);
    NoUniversalNoAbsorb(Library, all);
    assert Survivors(all) == all;
  }
}
