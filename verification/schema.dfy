/** The JSON Schema input as the generator reads it, and the `Schema`
    helpers: `onlyOne`, `allOfSchemaObject`, `toSchemaObject`,
    `allOfSchema` and `allDefinitions`.

    Only the keywords the generator looks at are kept. A keyword whose
    absence and emptiness the generator treats alike (`properties`,
    `patternProperties`, `definitions`, `required`) is a plain sequence;
    `oneOf`, `anyOf` and `allOf` distinguish absent from empty. Object
    members are kept in insertion order as key/schema entries.
 */
module Schemas {
  import opened Results
  import opened TypeIR

  /** A schema is `true`, `false` or a schema object. */
  datatype Schema = Boolean(accept: bool) | Object(o: SchemaObject)

  /** An optional list of subschemas (`oneOf`, `anyOf`, `allOf`). */
  datatype SchemaList = Absent | Present(schemas: seq<Schema>)

  /** `items`: absent, one schema for every element, or one per position. */
  datatype Items = NoItems | Single(item: Schema) | Positional(positions: seq<Schema>)

  /** `type`: absent, one simple type name, or several. */
  datatype TypeKeyword = NoType | Named(name: string) | Names(names: seq<string>)

  /** One member of `properties`, `patternProperties` or `definitions`. */
  datatype Entry = Entry(key: string, schema: Schema)

  datatype SchemaObject = SchemaObject(
    ref: Option<string>,
    default: Option<Literal>,
    enum: Option<seq<Literal>>,
    oneOf: SchemaList,
    anyOf: SchemaList,
    allOf: SchemaList,
    items: Items,
    types: TypeKeyword,
    properties: seq<Entry>,
    required: seq<string>,
    additionalProperties: Option<Schema>,
    patternProperties: seq<Entry>,
    definitions: seq<Entry>,
    not: Option<Schema>)

  /** The schema object `{}`. */
  const EmptyObject := SchemaObject(None, None, None, Absent, Absent, Absent, NoItems, NoType,
                                    [], [], None, [], [], None)

  /** A schema together with the name its alias is published under. */
  datatype NamedSchema = NamedSchema(name: string, schema: Schema)

  /** `onlyOne`: the first value if defined, otherwise the second. */
  function OnlyOne<T>(a: Option<T>, b: Option<T>): (r: Option<T>)
    ensures r.Some? <==> a.Some? || b.Some?
    ensures a.Some? ==> r == a
    ensures a.None? ==> r == b
  {
    if a.Some? then a else b
  }

  /** `toSchemaObject`: `true` is `{}`, `false` is `{not: {}}`. */
  function ToSchemaObject(s: Schema): (r: SchemaObject)
    ensures s.Boolean? ==> r.ref.None? && r.default.None?
    ensures s.Object? ==> r == s.o
  {
    match s
    case Boolean(true) => EmptyObject
    case Boolean(false) => EmptyObject.(not := Some(Object(EmptyObject)))
    case Object(o) => o
  }

  /** `allOfSchemaObject`: only `$ref` and `default` survive, the first
      defined one of each winning. */
  function AllOfSchemaObject(a: SchemaObject, b: SchemaObject): SchemaObject
  {
    EmptyObject.(ref := OnlyOne(a.ref, b.ref), default := OnlyOne(a.default, b.default))
  }

  function AllOfSchema(a: Schema, b: Schema): Schema
  {
    Object(AllOfSchemaObject(ToSchemaObject(a), ToSchemaObject(b)))
  }

  /** `allOf.reduce(allOfSchema)`: a left fold with no seed. It raises on an
      empty list and hands a one-element list back untouched. */
  function ReduceAllOf(ss: seq<Schema>): Result<Schema>
  {
    if |ss| == 0 then Throws
    else if |ss| == 1 then Ok(ss[0])
    else
      var acc :- ReduceAllOf(ss[..|ss| - 1]);
      Ok(AllOfSchema(acc, ss[|ss| - 1]))
  }

  /** The first `$ref` among the subschemas, scanning from the front. */
  function FirstRef(ss: seq<Schema>): Option<string>
  {
    if |ss| == 0 then None
    else OnlyOne(ToSchemaObject(ss[0]).ref, FirstRef(ss[1..]))
  }

  /** The first `default` among the subschemas, scanning from the front. */
  function FirstDefault(ss: seq<Schema>): Option<Literal>
  {
    if |ss| == 0 then None
    else OnlyOne(ToSchemaObject(ss[0]).default, FirstDefault(ss[1..]))
  }

  /** Reducing two or more subschemas yields the object holding exactly the
      first defined `$ref` and the first defined `default`, whatever else
      the subschemas say. */
  lemma {:induction false} ReduceAllOfFirstDefined(ss: seq<Schema>)
    requires |ss| >= 2
    ensures ReduceAllOf(ss) == Ok(Object(EmptyObject.(ref := FirstRef(ss), default := FirstDefault(ss))))
  {
    var n := |ss|;
    var front := ss[..n - 1];
    if n == 2 {
      assert front == [ss[0]];
      assert ss[1..][1..] == [];
      assert FirstRef(ss[1..]) == ToSchemaObject(ss[1]).ref;
      assert FirstDefault(ss[1..]) == ToSchemaObject(ss[1]).default;
    } else {
      ReduceAllOfFirstDefined(front);
      FirstSnoc(ss);
    }
  }

  /** Scanning for the first defined value over a list extended at the end. */
  lemma {:induction false} FirstSnoc(ss: seq<Schema>)
    requires |ss| >= 2
    ensures FirstRef(ss) == OnlyOne(FirstRef(ss[..|ss| - 1]), ToSchemaObject(ss[|ss| - 1]).ref)
    ensures FirstDefault(ss) == OnlyOne(FirstDefault(ss[..|ss| - 1]), ToSchemaObject(ss[|ss| - 1]).default)
  {
    var n := |ss|;
    if n == 2 {
      assert ss[..1] == [ss[0]];
      assert ss[..1][1..] == [];
      assert ss[1..][1..] == [];
    } else {
      FirstSnoc(ss[1..]);
      assert ss[1..][..n - 2] == ss[..n - 1][1..];
      assert ss[..n - 1][0] == ss[0];
    }
  }

  /** A reduced list of two or more is a fresh object with nothing but
      `$ref` and `default`: every other keyword of the subschemas is
      dropped. */
  lemma ReduceAllOfDropsKeywords(ss: seq<Schema>)
    requires |ss| >= 2
    ensures ReduceAllOf(ss).Ok?
    ensures ReduceAllOf(ss).value.Object?
    ensures ReduceAllOf(ss).value.o.(ref := None, default := None) == EmptyObject
  {
    ReduceAllOfFirstDefined(ss);
  }

  /** `allDefinitions`: every `definitions` entry in order, then the root.
      A boolean root has no definitions. */
  function AllDefinitions(root: NamedSchema): (r: seq<NamedSchema>)
    ensures |r| >= 1 && r[|r| - 1] == root
    ensures root.schema.Object? ==> |r| == |root.schema.o.definitions| + 1
    ensures root.schema.Boolean? ==> r == [root]
    ensures root.schema.Object? ==> forall i :: 0 <= i < |r| - 1 ==>
      r[i] == NamedSchema(root.schema.o.definitions[i].key, root.schema.o.definitions[i].schema)
  {
    match root.schema
    case Boolean(_) => [root]
    case Object(o) =>
      seq(|o.definitions|, i requires 0 <= i < |o.definitions| =>
        NamedSchema(o.definitions[i].key, o.definitions[i].schema)) + [root]
  }

  /** The measure the synthesis recursion decreases: the number of schema
      nodes it can reach. `definitions` and `not` are never descended into. */
  function Size(s: Schema): (n: nat)
    ensures n >= 1
  {
    match s
    case Boolean(_) => 1
    case Object(o) =>
      1 + ListSize(o.oneOf) + ListSize(o.anyOf) + ListSize(o.allOf) + ItemsSize(o.items)
        + OptionSize(o.additionalProperties) + EntriesSize(o.properties) + EntriesSize(o.patternProperties)
  }

  function OptionSize(s: Option<Schema>): nat
  {
    match s
    case None => 0
    case Some(x) => Size(x)
  }

  function ListSize(l: SchemaList): nat
  {
    match l
    case Absent => 0
    case Present(ss) => SeqSize(ss)
  }

  function ItemsSize(i: Items): nat
  {
    match i
    case NoItems => 0
    case Single(s) => Size(s)
    case Positional(ss) => SeqSize(ss)
  }

  function SeqSize(ss: seq<Schema>): (n: nat)
    ensures n >= |ss|
  {
    if |ss| == 0 then 0 else Size(ss[0]) + SeqSize(ss[1..])
  }

  function EntriesSize(es: seq<Entry>): (n: nat)
    ensures n >= |es|
  {
    if |es| == 0 then 0 else Size(es[0].schema) + EntriesSize(es[1..])
  }

  /** Every subschema the synthesis descends into is smaller than its
      parent. */
  lemma SizeOfParts(o: SchemaObject)
    ensures o.oneOf.Present? ==> SeqSize(o.oneOf.schemas) < Size(Object(o))
    ensures o.anyOf.Present? ==> SeqSize(o.anyOf.schemas) < Size(Object(o))
    ensures o.items.Single? ==> Size(o.items.item) < Size(Object(o))
    ensures o.items.Positional? ==> SeqSize(o.items.positions) < Size(Object(o))
    ensures OptionSize(o.additionalProperties) < Size(Object(o))
    ensures EntriesSize(o.properties) < Size(Object(o))
    ensures EntriesSize(o.patternProperties) < Size(Object(o))
  {
  }

  /** The schema an `allOf` reduces to is smaller than the schema holding
      the `allOf`. */
  lemma ReducedAllOfIsSmaller(o: SchemaObject)
    requires o.allOf.Present? && ReduceAllOf(o.allOf.schemas).Ok?
    ensures Size(ReduceAllOf(o.allOf.schemas).value) < Size(Object(o))
  {
    var ss := o.allOf.schemas;
    assert ListSize(o.allOf) == SeqSize(ss) == Size(ss[0]) + SeqSize(ss[1..]);
    if |ss| >= 2 {
      ReduceAllOfFirstDefined(ss);
      var m := ReduceAllOf(ss).value;
      assert Size(m) == 1;
    }
  }
}
