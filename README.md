# extendSchema, modelled in Dafny

This project models `extendSchema` from graphql-js (`utilities/extendSchema.js`).
The function takes an existing GraphQL schema and a parsed SDL document. It
returns a new schema with the document's new types, type extensions,
directives, schema definition and schema extensions applied. The input schema
is left untouched. The rules it follows are those of the GraphQL
specification (June 2018 edition), section 3.2.2 "Schema Extension" and
section 3.4.3 "Type Extensions".

The model follows the file's structure:

| file | module | what it holds |
|---|---|---|
| `wrappers.dfy` | `Wrappers` | `Option` and `Result` |
| `ordered_maps.dfy` | `OrderedMaps` | insertion-ordered string-keyed dictionaries (JavaScript objects); object spread `{...a, ...b}` (`Spread`); `mapValue` (`MapValues`); `Object.values` (`Values`); a key write (`Put`); a sequence of writes (`PutAll`) |
| `language.dfy` | `Language` | the SDL definitions of a document, and their kinds |
| `type_system.dfy` | `TypeSystem` | named types, wrapped type references, directives, and the schema |
| `definition_builder.dfy` | `DefinitionBuilder` | stand-ins for the `ASTDefinitionBuilder` methods that the file calls |
| `maybe_arrays.dfy` | `MaybeArrays` | `concatMaybeArrays`, as a loop, and its specification |
| `collect.dfy` | `Collect` | the collection loop over the document's definitions, and what it computes |
| `extend_types.dfy` | `ExtendTypes` | `replaceType`, `replaceNamedType`, `replaceDirective`, `extendField`, `extendArg`, `extendNamedType` and the six `extend*Type` functions |
| `extend_schema.dfy` | `ExtendSchema` | `extendSchema` itself: the short-circuit, the type-map loop, the root operation types, and the assembly of the new schema |

How the model represents things:

- **Type references.** A reference to a named type is `NamedRef(name, graph)`: a name looked up in the type table of a particular schema instance.
  - `graph` stands for JavaScript object identity.
  - `replaceNamedType` (`typeMap[type.name]`) becomes "the same name, looked up in the new table". That is, the reference is retargeted to the new schema's graph id.
  - The fresh graph id is a parameter of `ExtendSchema`, and it must differ from the input schema's id.
- **Lazy thunks.** The source defers field, interface and member lists in thunks. Those thunks run only after `typeMap` is complete. The model therefore assembles the schema first. It then checks, in a second pass, that every name the new schema refers to is one of its types. A name that is not becomes `Err(UnknownType(name))`. This mirrors the `Unknown type` error that the resolver callback throws (lines 104-112).
- **Stateful code becomes methods.** The code that changes things step by step is modelled as methods with loops. Each loop is proved equal to a specification function:

  | source | method | specification function |
  |---|---|---|
  | the collection loop | `CollectDefinitions` | `Collection` |
  | the `typeMap` loop | `ExtendExistingTypes` | `PutAll` |
  | `concatMaybeArrays` | `ConcatMaybeArrays` | `MaybeConcat` |

  `ExtendSchema` has no loop of its own. It calls these methods and returns one of three results:
  - `Ok(schema)`, the input itself, when the document contributes nothing;
  - `Err(UnknownType(_))` when a name the assembled schema refers to is not one of its types;
  - otherwise `Ok(Extended(...))`, where the specification function `Extended` is the assembled schema.

  The properties are then proved as lemmas about the specification functions.
- **Pure code becomes functions.** The `replace*` and `extend*` helpers are expression-only in the source, and they are functions here.

## Model

| member | source | states |
|---|---|---|
| `Collect.CollectDefinitions` | utilities/extendSchema.js:71-95 | the loop's five accumulators together equal `Collection(defs)`: the last schema definition, the schema extensions, type definitions and directive definitions in document order, and the map from each extended name to its extensions |
| `Collect.LastSchemaDefinition` | utilities/extendSchema.js:83-84 | no schema definition exactly when the document has none; otherwise it is a schema definition of the document after which no other schema definition follows |
| `Collect.LaterSchemaDefinitionWins` | utilities/extendSchema.js:83-84 | over a concatenation, the schema definition of the second part, if it has one, replaces that of the first |
| `Collect.OfKindMembers` | utilities/extendSchema.js:85-95 | each group holds exactly the document's definitions of its kind |
| `Collect.OfKindAppend` | utilities/extendSchema.js:85-95 | groups keep document order: the group of a concatenation is the concatenation of the groups |
| `Collect.PartitionByKind` | utilities/extendSchema.js:80-95 | every definition has exactly one of the six kinds, so the groups of the six kinds (`OfKind` over each) add up to the document length |
| `Collect.TypeExtensionsOfName` | utilities/extendSchema.js:89-92 | `typeExtensionsMap` has a key `n` exactly when some type extension names `n`, and its entry holds exactly those extension nodes |
| `Collect.ExtensionsOfAppend` | utilities/extendSchema.js:89-92 | the extensions of one name keep document order across a concatenation |
| `Collect.ExtendedNamesHave` | utilities/extendSchema.js:89-92 | a name is a key of the extension map exactly when it has at least one extension |
| `Collect.ContributesNothing` | utilities/extendSchema.js:100-102 | the short-circuit test: no extended name, no type definition, no directive definition, no schema extension and no schema definition; its meaning in terms of the document is `ContributesNothingIff` |
| `Collect.ContributesNothingIff` | utilities/extendSchema.js:100-102 | the five groups are all empty exactly when every definition of the document is of an ignored kind |
| `MaybeArrays.ConcatMaybeArrays` | utilities/extendSchema.js:269-286 | the loop returns `MaybeConcat(arrays)`: absent exactly when every argument is absent, otherwise the present arguments concatenated in order |
| `MaybeArrays.MaybeConcatOptions` | utilities/extendSchema.js:269-286 | for two arguments: absent exactly when both are, otherwise the present ones in order |
| `MaybeArrays.MaybeConcatPair` | utilities/extendSchema.js:133 | an optional array followed by a present one is always present: the old nodes (or none) followed by the new ones |
| `MaybeArrays.AbsentHasNothing` | utilities/extendSchema.js:277-283 | when every argument is absent, nothing is concatenated |
| `OrderedMaps.Put` | utilities/extendSchema.js:118 | writing a key sets its value; an existing key keeps its position, a new key goes last; the key order stays duplicate-free |
| `OrderedMaps.Spread` | utilities/extendSchema.js:40 | object spread: the keys of both sides; the right side wins on a shared key; the left side's order followed by the right side's new keys |
| `OrderedMaps.MapValues` | utilities/extendSchema.js:157 | `mapValue`: the same keys in the same order, with every value passed through the function |
| `OrderedMaps.Values` | utilities/extendSchema.js:130 | `Object.values`: one value per key, in key order |
| `OrderedMaps.ValuesHolds` | utilities/extendSchema.js:130 | a value is listed exactly when some key holds it |
| `OrderedMaps.PutAll` | utilities/extendSchema.js:116-119 | a run of writes: the result has the old keys plus the written ones; keys not written keep their values; validity is kept |
| `OrderedMaps.PutAllKeys` | utilities/extendSchema.js:116-119 | writing distinct keys keeps the old key order and appends the keys that were missing, in write order |
| `OrderedMaps.PutAllValues` | utilities/extendSchema.js:116-119 | after writing distinct keys, each key holds the value written to it |
| `OrderedMaps.FromSeqLastWins` | utilities/extendSchema.js:113 | in a map built node by node, the last node with a given key decides that key's value |
| `DefinitionBuilder.BuildTypeMap` | utilities/extendSchema.js:113 | `buildTypeMap`: its keys are exactly the names of the type definitions, and every entry is a well-formed type of that name whose references point into the new graph |
| `DefinitionBuilder.BuildTypeMapLastWins` | utilities/extendSchema.js:113 | of two type definitions with the same name, the later one is in the table |
| `DefinitionBuilder.BuildDirectives` | utilities/extendSchema.js:131 | `buildDirectives`: one directive per directive definition, in order |
| `ExtendTypes.ReplaceNamedType` | utilities/extendSchema.js:147-152 | the same name, looked up in the new graph |
| `ExtendTypes.ReplaceType` | utilities/extendSchema.js:137-145 | keeps the exact `List`/`NonNull` nesting of its input, and its named leaf is the replaced leaf |
| `ExtendTypes.ReplaceRefs` | utilities/extendSchema.js:221 | `map(replaceNamedType)`: the same length, with every reference replaced at its own position |
| `ExtendTypes.ExtendArg` | utilities/extendSchema.js:262-266 | the argument keeps its description and wrappers; its leaf is the same name in the new graph |
| `ExtendTypes.ExtendArgs` | utilities/extendSchema.js:258 | `mapValue(args, extendArg)`: the same keys in the same order, with every argument extended |
| `ExtendTypes.ExtendField` | utilities/extendSchema.js:255-260 | the field keeps its description and wrappers, its leaf moves to the new graph, and its arguments are extended with the same keys and order |
| `ExtendTypes.ExtendFields` | utilities/extendSchema.js:224 | `mapValue(config.fields, extendField)`: the same keys in the same order, with every field extended |
| `ExtendTypes.ReplaceDirective` | utilities/extendSchema.js:154-159 | the directive keeps its name, description and locations; its arguments are extended with the same keys and order |
| `ExtendTypes.SpreadMerges` | utilities/extendSchema.js:189-193 | object spread is a keyed merge: every existing key and every added key; an added entry wins on a shared key; the existing keys come first in their order, then the added keys the existing map lacks, in their order |
| `ExtendTypes.KeyedMergeDetermines` | utilities/extendSchema.js:189-193 | a keyed merge fixes the result completely (keys, their order and values), so every extender that ensures one is fully determined by it |
| `ExtendTypes.MergeFields` | utilities/extendSchema.js:224 | merged fields: the replaced existing fields in their order, then the extension fields they lack in the extensions' order, with the extension winning on a shared name |
| `ExtendTypes.ExtendScalarType` | utilities/extendSchema.js:208-214 | the scalar keeps its name and description; its extension nodes are the old ones followed by its extensions |
| `ExtendTypes.ExtendObjectType` | utilities/extendSchema.js:216-228 | interfaces: the replaced existing ones followed by the extensions' interfaces; fields: a keyed merge of the replaced fields and the extension fields (existing names first in their order, then new names in the extensions' order, the extension winning on a shared name); extension nodes appended; well-formedness kept; every reference in the new graph |
| `ExtendTypes.ExtendInterfaceType` | utilities/extendSchema.js:230-242 | the same rules as for object types, for interface types |
| `ExtendTypes.ExtendUnionType` | utilities/extendSchema.js:244-253 | members: the replaced existing ones followed by the extensions' members; extension nodes appended |
| `ExtendTypes.ExtendEnumType` | utilities/extendSchema.js:199-206 | values: a keyed merge of the existing values and the extensions' values (existing names first in their order, then new names in the extensions' order, the extension winning on a shared name); extension nodes appended |
| `ExtendTypes.ExtendInputObjectType` | utilities/extendSchema.js:184-197 | input fields: a keyed merge of the replaced existing fields and the extensions' fields (existing names first in their order, then new names in the extensions' order, the extension winning on a shared name); extension nodes appended |
| `TypeSystem.IsBuiltin` | utilities/extendSchema.js:162 | a type is built in when its name is one of the introspection types or of the five specified scalars; `ExtendNamedType` states that such types are not extended |
| `ExtendTypes.ExtensionsFor` | utilities/extendSchema.js:186 | the map's entry for the name, or the empty list when the name has none; `ExtensionsForDocument` states what it holds for a collected map |
| `ExtendTypes.ExtendNamedType` | utilities/extendSchema.js:161-182 | built-in types (introspection types and specified scalars) come back unchanged; every other type keeps its name, description and kind, gains its extension nodes after its old ones, and all its references point into the new graph; well-formedness is kept. Each other type is merged with its extensions by the rule of its kind: object and interface types add the extensions' interfaces after the replaced old ones and their fields over the replaced old fields, unions add member types after the replaced old ones, enums add values over the old ones, input objects add input fields over the replaced old ones |
| `ExtendSchema.ExtendExistingTypes` | utilities/extendSchema.js:116-119 | the loop leaves `PutAll(built, names, extended types)`: every existing name holds its extended type, overriding a new definition of the same name; other entries of the built table are kept; the key order is the built order followed by the names that were not yet in it |
| `ExtendSchema.ResolveRootType` | utilities/extendSchema.js:121-126 | a declared operation type overrides the default; otherwise the default keeps its name in the new graph; absent exactly when neither exists |
| `ExtendSchema.ReplaceDirectives` | utilities/extendSchema.js:131 | `directives.map(replaceDirective)`: one replaced directive per existing one, in order |
| `ExtendSchema.ExtendSchema` | utilities/extendSchema.js:62-133 | when the document contributes nothing, the result is the very same schema, and only then; otherwise it is the assembled `Extended` schema when every referenced name is a type of it, and `UnknownType` otherwise; the unknown name is neither an existing type nor a newly defined one; a success is a valid schema |
| `ExtendSchema.ExtensionsForDocument` | utilities/extendSchema.js:186 | what each extender looks up in the collected map is exactly the type's extension nodes, in document order, and nothing for a type without extensions |
| `ExtendSchema.SchemaNodes` | utilities/extendSchema.js:126 | the concatenation of the optional schema definition and the schema extensions is always present, equals `MaybeConcat` of the two, and holds exactly the schema definition (if any) followed by the schema extensions |
| `ExtendSchema.TypeTableNames` | utilities/extendSchema.js:113-119 | the new table's names are the existing type names plus the names the document defines |
| `ExtendSchema.ExtendedTypeNames` | utilities/extendSchema.js:130 | the new schema's type names are the existing ones plus the newly defined ones |
| `ExtendSchema.ExtendedNamesDistinct` | utilities/extendSchema.js:130 | no two types of the new schema share a name |
| `ExtendSchema.ExtendedTypeOrder` | utilities/extendSchema.js:130 | the new schema's types come in table order: the new definitions first, then the existing types that the document does not define again; it needs only that the existing type names are distinct, not the whole schema valid |
| `ExtendSchema.ExtendedKeepsExisting` | utilities/extendSchema.js:116-119 | every existing type is in the new schema in its extended form; it needs only that the existing type names are distinct, not the whole schema valid |
| `ExtendSchema.TypeTableHoldsExtended` | utilities/extendSchema.js:116-119 | the new table holds each existing type's extended form under its name; it needs only that the existing type names are distinct, not the whole schema valid |
| `ExtendSchema.TypeTableKeyed` | utilities/extendSchema.js:113-119 | every entry of the new table is the type of that name; it needs only that the existing type names are distinct, not the whole schema valid |
| `ExtendSchema.ExtendedAddsDefinitions` | utilities/extendSchema.js:113 | a newly defined name that the schema lacks gets the type built from its last definition |
| `ExtendSchema.ExtendedTableValid` | utilities/extendSchema.js:116-119 | the type-map writes keep every entry named after its key, well formed, and (unless built in) pointing into the new graph |
| `ExtendSchema.ExtendedTypesIsolated` | utilities/extendSchema.js:147-152 | every type of the new schema is well formed, and every non-built-in one refers only into the new graph, never into the old schema |
| `ExtendSchema.ExtendedRootTypes` | utilities/extendSchema.js:121-126 | each root operation type of the new schema is the declared one if any, otherwise the replaced default; it always points into the new graph |
| `ExtendSchema.ExistingRootResolves` | utilities/extendSchema.js:121-124 | an existing root operation type that the document does not redeclare resolves to a type of the new schema |
| `ExtendSchema.ExtendedDirectives` | utilities/extendSchema.js:131 | the directives are the replaced existing ones followed by the new ones, and all have valid arguments in the new graph |
| `ExtendSchema.ExtendedNodes` | utilities/extendSchema.js:132-133 | `astNode` is the document's schema definition when there is one, otherwise the old node; the extension nodes are the old ones followed by the document's schema extensions |
| `ExtendSchema.ExtendedValid` | utilities/extendSchema.js:129-133 | when every reference resolves, the assembled schema is valid |

## Left out

- SDL validation (`assertValidSDLExtension`, lines 66-68) and the `assertSchema`/`devAssert` guards (lines 63-64) are not modelled. The model's preconditions play their part: the input schema is valid (`SchemaValid`), and the document is a sequence of definitions.
- The `ASTDefinitionBuilder` methods are stand-ins with simple bodies, because their code is not part of this model. These methods are `buildTypeMap`, `buildFieldMap`, `buildInputFieldMap`, `buildEnumValueMap`, `buildInterfaces`, `buildUnionTypes`, `buildDirectives` and `getOperationTypes`. The stand-ins:
  - build from each definition's own nodes;
  - let a later entry with the same key win;
  - concatenate lists in document order.
  Most contracts rely only on their shape: keys, order, and references into the new graph. Some depend on what the stand-ins build:
  - `DefinitionBuilder.BuildTypeMapLastWins` and `ExtendSchema.ExtendedAddsDefinitions` state that a table entry is the stand-in's `BuildType` of a definition;
  - when `ExtendSchema.ExtendSchema` fails depends on exactly which names the stand-ins turn into references.
- `ExtendSchema.ExtendSchema`: when several names are unresolved, the model does not fix which one is reported. The source resolves names in a fixed order: first the declared root operation types (`getOperationTypes`, line 126), then the argument types of the new directives (`buildDirectives`, line 131), and finally the contents of the type thunks, in the order in which the `GraphQLSchema` constructor forces them. It reports the first name that fails. The last part of that order is outside this file.
- The resolver callback (lines 104-112) is not modelled as a lookup performed while building. References are left by name, and the second pass stands in for the throw.
- JavaScript object identity is represented by the graph id. The short-circuit's "same instance" is equality with the input value.
- Descriptions are carried along. Other config fields that are copied verbatim are not modelled: resolvers, `isTypeOf`, deprecation reasons, default values and `assumeValid`. Neither is the `commentDescriptions` option.
- The Babel helpers `ownKeys`, `_objectSpread`, `_defineProperty` and `_interopRequireDefault` (lines 36-42) are not modelled line by line. Object spread is modelled by `OrderedMaps.Spread`.
- The `invariant(false, ...)` branch of `extendNamedType` (lines 180-181) is not modelled. It cannot be reached: `NamedType` has exactly the six kinds, so every value matches one case.
- Extensions whose kind does not match the extended type are not checked. SDL validation rejects them beforehand. The model applies the members of an extension node in the same way regardless of its kind, as the builders do.
- Extensions of a type that the same document newly defines are collected, but they are not applied. This is also what the source does: only existing types go through `extendNamedType`.
