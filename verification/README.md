# schema2ts core in Dafny

A model of the JSON-Schema-to-TypeScript generator `schema2ts`. The generator reads a
JSON Schema and publishes one TypeScript type alias per definition, then one for the
main schema. The model covers:

- the line combinators `wrap`, `indent` and `join`;
- the `Schema` helpers: `onlyOne`, `toSchemaObject`, `allOfSchema`, `allDefinitions`;
- the type IR, structural equality (`typeEqual`), the union algebra (`union`,
  `pushUnique`) and the printer (`Ts.type`, `typeAlias`);
- name normalisation: `pascalCase`, `typeName`, `propertyName`;
- the reference constructors `refType` and `genericRefType`, and `$ref` resolution;
- the whole of `Schema2Ts`: keyword precedence, simple types, objects with their
  catch-all member, `allOf` merging, and type aliases.

The repository has two generations of the generator: the library `lib.ts` and the
older command-line script `index.ts`. They share most of their logic, so the model
has one pipeline parameterised by `Dialect = Library | Script`. The dialect decides
four things:

- the universal type: `TsCommonJson.Json` in the library, `any` in the script. It is
  a shared constant, and `union` recognises it by identity, so the IR has a node of its
  own for it (`Universal`), kept apart from a reference that only carries the same name;
- `$ref` resolution: the library resolves references into other documents and into
  `/properties/`, and collects the imported namespaces; the script knows only `#`
  and `#/definitions/x`;
- `typeName`: the library capitalises every dot-separated segment, the script only
  the head of the whole name;
- the catch-all member `[_:string]`: the library adds it only to an object without
  declared properties, the script whenever additional or pattern properties are
  allowed.

Source exceptions are `Throws` of a `Result` type:

- `typeName` reads the first character of an empty segment;
- `reduce` has no seed on an empty `allOf`.

The library's mutable import set is threaded through the conversion as a value. Each
conversion takes the set and returns the grown one, in the order the source visits
subschemas.

Files:

- `results.dfy`: `Option` and `Result`.
- `strings.dfy`: `split`, `join`, `startsWith`, hyphen replacement, ASCII upper-casing
  and integer text.
- `lines.dfy`: line combinators. They have declarative definitions, and the methods
  `WrapLines` and `JoinLines` replay the generators' own state machines.
- `types.dfy`: the type IR and `typeEqual`.
- `unions.dfy`: `pushUnique` and `union`.
- `names.dfy`: name normalisation.
- `schema.dfy`: the schema input, the `Schema` helpers and the size measure that the
  conversion recursion decreases.
- `refs.dfy`: `$ref` resolution.
- `printer.dfy`: `Ts.type` and `typeAlias`.
- `synthesis.dfy`: `Schema2Ts`.

## Model

| member | source | states |
|---|---|---|
| Lines.Wrap | lib.ts:6-21 | the prefix goes onto the first line and the suffix onto the last; inner lines are unchanged; an empty input becomes the single line prefix+suffix, and one line becomes prefix+line+suffix |
| Lines.WrapLines | lib.ts:6-21 | the generator, which holds back the latest line, emits exactly the declarative wrap of its input |
| Lines.WrapText | lib.ts:6-21 | wrapping adds no line break: the written-out text is the prefix, the block's text and the suffix |
| Lines.Indent | lib.ts:23-24 | every line is kept, shifted right by one indentation step |
| Lines.JoinLines | lib.ts:26-48 | the generator, which holds back a line and appends the separator to it when the next non-empty block starts, emits exactly the declarative join |
| Lines.JoinBlock | lib.ts:31-46 | one outer-loop step: the emitted lines plus the held-back line are the earlier output glued to the block |
| Lines.HoldSeparator | lib.ts:30-32 | when a line is held back the separator goes onto it and nothing else changes; when none is, nothing is emitted; either way the output so far is the earlier output glued to an empty block |
| Lines.FeedLine | lib.ts:34-42 | the first line of a block continues the held line (or starts the output) and every later line releases the held one; afterwards the emitted lines plus the held line are the earlier output glued to the block up to and including this line |
| Lines.JoinLineCount | lib.ts:26-48 | the output is empty exactly when every block is empty; otherwise each boundary between two non-empty blocks merges two lines into one, so the separator is never a line of its own |
| Lines.JoinText | lib.ts:26-48 | written out, a join whose first block is non-empty is the blocks' texts joined with the separator |
| Lines.JoinSingleLines | lib.ts:26-48 | blocks of one line each join into a single line: the lines with separators between them |
| Strings.Split | lib.ts:224-225 | `split` never returns an empty list and no part holds the separator |
| Strings.JoinSplit | lib.ts:224-225 | joining the parts of a split with the separator gives back the input |
| Strings.SplitJoined | lib.ts:224-225 | splitting the join of separator-free parts gives back the parts |
| Schemas.OnlyOne | lib.ts:56-57 | the first value when it is defined, otherwise the second |
| Schemas.ToSchemaObject | lib.ts:64-71 | a schema object is returned unchanged; `true` and `false` become objects without `$ref` or `default` |
| Schemas.ReduceAllOfFirstDefined | lib.ts:59-74 | reducing two or more `allOf` subschemas gives the object that holds the first defined `$ref` and the first defined `default`, scanning front to back |
| Schemas.ReduceAllOfDropsKeywords | lib.ts:59-62 | after merging two or more subschemas, every keyword other than `$ref` and `default` is gone |
| Schemas.AllDefinitions | lib.ts:81-92 | every `definitions` entry in key order, then the root last; a boolean root yields only itself |
| Schemas.ReducedAllOfIsSmaller | lib.ts:420-428 | the schema an `allOf` reduces to is smaller than the schema holding it, so the conversion terminates |
| TypeIR.TypeEqualIffErased | lib.ts:166-190 | structural equality holds exactly when the two types are equal once every generic reference is blanked out |
| TypeIR.TypeEqualIsEquivalence | lib.ts:177-190 | `typeEqual` is reflexive, symmetric and transitive |
| TypeIR.TypeEqualIsValueEquality | lib.ts:177-190 | on types without generic references and without the universal constant, structural equality is value equality, in both directions |
| TypeIR.GenericRefsAlwaysEqual | lib.ts:184-189 | two generic references are equal whatever their ids and parameters, because no field `typeEqual` compares tells them apart |
| TypeIR.UniversalLooksLikeRef | lib.ts:177-190 | the universal constant is structurally equal to a reference of its name in both directions, yet it is a different node |
| Unions.PushUniqueProperties | lib.ts:133-137 | `pushUnique` either keeps the list or appends the value; it keeps the list exactly when an equal member is there; afterwards the value is covered |
| Unions.PushUniqueKeepsDistinct | lib.ts:133-137 | a list without two structurally equal members keeps that property |
| Unions.DedupDistinct | lib.ts:139-151 | after deduplication no two members are structurally equal |
| Unions.DedupFromInput | lib.ts:139-151 | deduplication never grows the list, and every member comes from the input |
| Unions.DedupCoveredIff | lib.ts:139-151 | a type has an equal member in the deduplicated list exactly when it has one in the input |
| Unions.DedupKeepsFirstOccurrences | lib.ts:139-151 | deduplication keeps exactly the first element of each structural-equality class, in input order |
| Unions.UnionOf | lib.ts:139-164 | the result is the universal type exactly when the universal constant is a flattened member and no reference of the same name comes before it (such a reference makes deduplication drop the constant); otherwise it is the lone survivor, or the union of the survivors |
| Unions.LeadingUniversalAbsorbs | lib.ts:143-155 | a union whose first member is the universal constant is the universal type |
| Unions.UniversalOrderMatters | lib.ts:133-155 | in both generations order decides: a reference carrying the universal type's name (`TsCommonJson.Json`, `any`) followed by the constant leaves the reference, the constant followed by the reference is the universal type |
| Unions.SurvivorsCover | lib.ts:139-159 | every flattened member has an equal survivor, except the constants dropped beside `string` |
| Unions.SurvivorsWithoutConstants | lib.ts:157-159 | once `string` is a flattened member, no literal constant survives |
| Unions.SurvivorsDistinct | lib.ts:139-164 | no two members of a resulting union are structurally equal |
| Unions.UnionIdempotent | lib.ts:139-164 | applying `union` again to its own result changes nothing, provided the flattened input holds no union |
| Unions.UnionNotIdempotentOnNestedInput | lib.ts:143-151 | flattening goes one level deep, so a union nested twice gives a different result the second time |
| Unions.StringAbsorbsConstants | lib.ts:157-159 | `string` absorbs a literal constant of any kind |
| Unions.NumberKeepsConstants | lib.ts:157-163 | `number` absorbs nothing: a numeric constant stays beside it |
| Unions.GenericRefsCollapse | lib.ts:133-137 | of two generic references only the first survives |
| Unions.UnionKeepsRef | lib.ts:139-164 | a named reference among the flattened members, whose name is not a universal type's, is never lost: the result is the universal type, the reference itself, or a union containing it |
| Names.PascalCase | lib.ts:221-222 | the length is kept, the first character is upper-cased and every hyphen becomes an underscore; nothing else changes |
| Names.PascalCaseIdempotent | lib.ts:221-222 | capitalising twice is capitalising once |
| Names.TryTypeName | lib.ts:224-225 | the name converts exactly when no dot segment is empty (library), or when it is non-empty (script); otherwise it raises |
| Names.TypeNameSegments | lib.ts:224-225 | the library's type name has the same dot segments as the input, each capitalised |
| Names.TypeNameIdempotent | lib.ts:224-225 | a type name is a fixed point of `typeName` in both generations |
| Names.TypeNameWithoutDots | index.ts:219-221 | on a name without dots both generations agree |
| Names.TypeNameOnDottedName | index.ts:219-221 | with a dot they differ: `a.b` is `A.B` in the library and `A.b` in the script |
| Names.TypeNameLast | lib.ts:221-225 | a type name ends in the name's last character, capitalised or turned into an underscore |
| Names.EmptySegmentRaises | lib.ts:221-225 | `""` raises in both generations, and `a.` raises in the library |
| Names.PropertyName | lib.ts:233-234 | the length is kept, and every hyphen, and nothing else, becomes an underscore |
| Names.PropertyNameIdempotent | lib.ts:233-234 | a property name is already normalised |
| Refs.RefType | lib.ts:227-228 | a named reference to the normalised name; it raises exactly when the name does not convert |
| Refs.GenericRefType | lib.ts:230-231 | a generic reference whose id is normalised and whose parameters are unchanged; it raises exactly when the id does not convert |
| Refs.TypePrefix | lib.ts:329-338 | empty exactly for the current document, imports unchanged; otherwise exactly the namespace followed by a dot, with the namespace added to the imports |
| Refs.NamespaceOfFile | lib.ts:333-335 | the namespace of `dir/base.ext` is `base` for any directory path, and so is the namespace of a bare `base.ext` |
| Refs.FragmentType | lib.ts:340-353 | a fragment outside `/definitions/` and `/properties/` resolves to the universal type |
| Refs.CreateRefType | lib.ts:355-371 | imports only grow, by at most one namespace; a reference that is not `#` and does not split into exactly two parts at `#` is the universal type |
| Refs.RootRef | lib.ts:360-362 | `#` names the main schema's alias in both generations, and imports nothing |
| Refs.LocalDefinitionRef | lib.ts:340-371 | `#/definitions/x` names exactly the alias under which definition `x` is published, and imports nothing, in both generations |
| Refs.LocalDefinitionExample | test/test.ts:5-8 | `#/definitions/a` resolves to `A` |
| Refs.LocalPropertyRef | lib.ts:344-351 | `#/properties/p` is the generic property type of the root type, with the property name as a literal parameter |
| Refs.CrossDocumentDefinition | lib.ts:329-371 | a definition in another document is prefixed with the document's namespace, and that namespace joins the imports |
| Refs.CrossDocumentExample | lib.ts:329-353 | `xx/my.json#/definitions/a` is `My.A` and imports `my` |
| Refs.ScriptRefType | index.ts:331-341 | apart from `#` and `#/definitions/`, every reference is `any` in the script |
| Refs.ScriptCrossDocumentIsAny | index.ts:331-341 | the script resolves a reference into another document to `any` |
| Refs.ResolveRef | index.ts:331-341 | resolution never yields a union; imports only grow, and the script imports nothing |
| Refs.ImportsIndependent | lib.ts:329-371 | the resolved type does not depend on the imports collected before, and a reference adds the same namespaces whatever was collected |
| Refs.ImportsIdempotent | lib.ts:329-338 | resolving the same reference again adds nothing |
| Refs.RefTypeNeverString | lib.ts:221-228 | a type name never starts with a lower-case letter, so a reference built by `refType` is never named `string`, and the identity test against the `string` constant agrees with a test by value |
| Printer.RenderAlias | lib.ts:236-237 | an alias starts `export type Name = ` with the normalised name, and has as many lines as the type, at least one |
| Printer.Render | lib.ts:192-219 | a type prints no line exactly when it is a union all of whose members print nothing, such as the empty union; every other type prints at least one line |
| Printer.RenderOneLiner | lib.ts:192-219 | a type without non-empty interfaces or empty unions prints as exactly one line, its direct text |
| Printer.AliasOneLiner | lib.ts:236-237 | such a type's alias is the single line `export type Name = text` |
| Printer.InterfaceLayout | lib.ts:195-204 | an interface with members opens and closes a brace on lines of their own, and every line between is indented |
| Printer.InterfaceOfOneLiners | lib.ts:195-204 | an interface of one-line members prints one indented `readonly name: text` line per member between the braces |
| Printer.EmptyUnionPrintsNothing | lib.ts:205-206 | a union without members prints no line, so its alias has nothing after the `=` |
| Printer.UnionInArrayUnparenthesised | lib.ts:205-209 | unions are never parenthesised: a union in an array prints as `ReadonlyArray<a\|b>` |
| Printer.NumericEnumQuoted | lib.ts:212-213 | every constant is quoted whatever its kind: the enum `[1, 2, 3]` prints as `"1"\|"2"\|"3"` |
| Synthesis.SimpleType | lib.ts:459-474 | `array` is the array of the universal type, `string` is `string`, `integer` and `number` exactly are `number`, `boolean` is `boolean`, and exactly the unknown names are `never` |
| Synthesis.NonObjectNames | lib.ts:447-448 | the kept names are names of the list other than `object`, every name other than `object` is kept, and nothing is kept exactly when every name is `object` |
| Synthesis.SimpleTypes | lib.ts:447-450 | one simple type per kept name, in the kept names' order, each of them simple; the list is empty exactly when every name is `object` |
| Synthesis.Consts | lib.ts:393-402 | one constant type per `enum` value, in order |
| Synthesis.TypeFromSchema | lib.ts:307-317 | an absent schema is the universal type and imports nothing; otherwise it raises exactly when the schema's types raise, and is the union of the other types followed by the object type |
| Synthesis.ObjectOnlyIsInterface | lib.ts:315-316 | a schema that admits objects and nothing else has its interface as its type |
| Synthesis.TypesFromSchema | lib.ts:373-457 | only a schema object yields an object type; that type is an interface, and the types beside it are simple types; imports only grow, and the script's never change |
| Synthesis.FirstKeywordWins | lib.ts:385-439 | the first keyword present among `$ref`, `enum`, `oneOf`, `anyOf`, `allOf` and `items` decides alone: dropping every other keyword changes neither the types nor the imports |
| Synthesis.BooleanSchemaTypes | lib.ts:378-383 | the schema `true` admits anything and `false` nothing |
| Synthesis.RefDecides | lib.ts:385-391 | when `$ref` is present, the result is the resolved reference alone |
| Synthesis.EmptyAllOfRaises | lib.ts:420-428 | an empty `allOf` raises |
| Synthesis.SingleAllOf | lib.ts:420-428 | an `allOf` of one subschema is that subschema's type |
| Synthesis.AllOfWithoutRef | lib.ts:420-428 | two or more `allOf` subschemas without a `$ref` lose every constraint: the result is the open object |
| Synthesis.AllOfWithRef | lib.ts:420-428 | two or more `allOf` subschemas with a `$ref` among them are the first such reference |
| Synthesis.NumericEnum | lib.ts:393-402 | the enum `[1, 2, 3]` is the union of its three constants |
| Synthesis.ListElements | lib.ts:404-418 | the subschemas of `oneOf`, `anyOf` or positional `items` convert exactly when each converts on its own, and to each one's own type, in order |
| Synthesis.EntriesElements | lib.ts:486-494 | the members of `properties` or `patternProperties` convert exactly when each converts on its own, and to each one's own type, in key order |
| Synthesis.AdditionalTypes | lib.ts:496-510 | absent or `true` contributes the universal type and imports nothing, `false` nothing, and any other schema exactly its own `createTypeFromSchema` type, raising when that raises |
| Synthesis.ObjectType | lib.ts:476-531 | an interface with one member per declared property, in key order, optional unless required, plus the catch-all member last exactly when the dialect's rule calls for it |
| Synthesis.ObjectMemberTypes | lib.ts:486-494 | the member of declared property `i` has the property's normalised name, `?` unless required, and the type the property's schema converts to on its own |
| Synthesis.CatchAllType | lib.ts:496-528 | the catch-all admits the union of what `additionalProperties` contributes, the pattern-property types in key order, the declared property types, and `undefined` |
| Synthesis.CatchAllByDialect | index.ts:459-463 | on `{properties: {a: true}}` the library keeps only `a?`, while the script adds the catch-all as well |
| Synthesis.OpenCatchAllIsAny | lib.ts:496-528 | when additional properties are absent or `true`, the catch-all admits anything |
| Synthesis.EmptyObjectIsOpen | lib.ts:476-531 | the schema `{}` is the interface whose only member is the catch-all admitting anything |
| Synthesis.NamedJsonRefKeepsUndefined | lib.ts:496-528 | with `additionalProperties: {$ref: "#/definitions/TsCommonJson.Json"}` the catch-all is `TsCommonJson.Json\|undefined`: a reference of that name is not the universal constant |
| Synthesis.TypeAliases | lib.ts:533-553 | two aliases exactly when the schema admits objects and other types: `NameObject` with the interface, then `Name` with the union of the other types and a reference to `NameObject`; otherwise one alias `Name`, holding the interface when only objects are admitted, or else the union of the other types |
| Synthesis.ObjectAliasIsUnion | lib.ts:539-550 | in the two-alias case the object alias holds the interface, and the named alias is the union of the distinct other types followed by a reference to the object alias |
| Synthesis.TypesSeeded | lib.ts:329-338 | the types generated for a schema do not depend on the namespaces imported before, and the namespaces it imports are the same whatever was imported before |
| Synthesis.DefinitionsSeeded | lib.ts:533-553 | the same holds for the aliases of a whole list of definitions |
| Synthesis.DefinitionsConcatenate | index.ts:505-519 | the aliases of a list of named schemas are each schema's own aliases, concatenated in order; the list raises exactly when one schema does |
| Synthesis.ScriptModule | index.ts:499-519 | the script's program publishes the aliases of every definition, in order, then those of the main schema, named `Main`, which come last; it raises exactly when one of them does |

## Left out

- The command-line driver (index.ts:489-524): reading the schema file, writing the output, and the constant holding the schema. The model stops at the list of aliases.
- The JSON value printer and the `consts` of a module (lib.ts:239-278), and `import_`/`module` (lib.ts:280-294), which prints imports, aliases and constants one after another. The model stops at the aliases.
- The `.d.ts` typings of JSON Schema and Swagger. They only describe the input, which the `Schemas` datatype replaces.
- Generator laziness. Line streams are sequences, and `WrapLines`/`JoinLines` replay the generators' loops over them.
- The `definitions` and `not` keywords are never descended into during conversion; the source does not descend into them either.
- Enum values are strings, integers or booleans. Floating-point numbers, `null`, arrays and objects are not modelled, so `Literal` covers only the first three.
- `Object.keys` moves integer-like keys to the front. Duplicate keys are not modelled: object members are kept in the order given.
- JSON Pointer unescaping (`~0`, `~1`, percent-escapes) is not modelled. Neither generation performs it.
- `toUpperCase` is modelled on ASCII letters only. Other characters are left unchanged.
- Unions.UnionOf: the identity test against the `string` constant is modelled as a test by value. `RefTypeNeverString` shows that no reference the generator builds is named `string`, so the two agree; the universal constant has a node of its own instead.
- Unions.UnionKeepsRef: stated for references whose name is not a universal type's. Such a reference and the universal constant hide each other in deduplication, as `UniversalOrderMatters` shows.
- Printer.RenderAlias: requires a name `typeName` accepts; the source raises on any other name, and the conversion only ever prints the names of definitions it has already converted.
- TypeIR.TypeEqual: the identity fast path (`a === b`) is not modelled separately. It is covered by the proved reflexivity.
- Unions.UnionIdempotent: stated only for inputs whose flattened members are not unions; `UnionNotIdempotentOnNestedInput` shows the general claim fails.
- Synthesis.ObjectAliasReferenced: a weaker form of `ObjectAliasIsUnion`, kept as the statement that follows from the union algebra alone, without knowing that the other types are simple.
- The library's mutable import map is a set threaded by value, so entries are present or absent; the `true` the source stores is not modelled.
- When resolving a reference raises after its namespace was recorded, the recorded import is dropped together with the whole result, because nothing in the source catches the exception.
