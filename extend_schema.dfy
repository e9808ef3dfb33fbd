/**
 * `extendSchema`: collect the document's definitions, return the schema
 * itself when they contribute nothing, otherwise build the new lookup table,
 * resolve the root operation types, rebuild the directives and assemble a new
 * schema whose references all point into the new table.
 */
module ExtendSchema {
  import opened Wrappers
  import opened OrderedMaps
  import opened Language
  import opened TypeSystem
  import opened DefinitionBuilder
  import opened MaybeArrays
  import opened Collect
  import opened ExtendTypes

  /** `Unknown type: "name".`, thrown when a reference names no type of the new schema. */
  datatype Error = UnknownType(name: Name)

  /** The extended counterpart of every type, in order. */
  function ExtendAll(ts: seq<NamedType>, ctx: Context): (r: seq<NamedType>)
    ensures |r| == |ts| && forall i :: 0 <= i < |ts| ==> r[i] == ExtendNamedType(ts[i], ctx)
  {
    seq(|ts|, i requires 0 <= i < |ts| => ExtendNamedType(ts[i], ctx))
  }

  lemma ExtendAllAppend(ts: seq<NamedType>, t: NamedType, ctx: Context)
    ensures ExtendAll(ts + [t], ctx) == ExtendAll(ts, ctx) + [ExtendNamedType(t, ctx)]
  {
  }

  /**
   * Writes the extended counterpart of every existing type into the table
   * built from the new definitions: an existing name overrides a new
   * definition of the same name and keeps its position, other names go last.
   */
  method ExtendExistingTypes(built: OrderedMap<NamedType>, existing: seq<NamedType>, ctx: Context)
    returns (typeMap: OrderedMap<NamedType>)
    requires Valid(built)
    requires Distinct(Names(existing))
    ensures typeMap == PutAll(built, Names(existing), ExtendAll(existing, ctx))
    ensures Valid(typeMap)
    ensures typeMap.keys == built.keys + NewKeys(Names(existing), built.entries.Keys)
    ensures forall k :: k in typeMap.entries <==> k in built.entries || k in Names(existing)
    ensures forall j :: 0 <= j < |existing| ==> typeMap.entries[existing[j].name] == ExtendNamedType(existing[j], ctx)
    ensures forall k :: k in built.entries && k !in Names(existing) ==> typeMap.entries[k] == built.entries[k]
  {
    typeMap := built;
    var i := 0;
    while i < |existing|
      invariant 0 <= i <= |existing|
      invariant typeMap == PutAll(built, Names(existing[..i]), ExtendAll(existing[..i], ctx))
    {
      assert existing[..i + 1] == existing[..i] + [existing[i]];
      NamesAppend(existing[..i], existing[i]);
      ExtendAllAppend(existing[..i], existing[i], ctx);
      typeMap := Put(typeMap, existing[i].name, ExtendNamedType(existing[i], ctx));
      i := i + 1;
    }
    assert existing[..i] == existing;
    PutAllKeys(built, Names(existing), ExtendAll(existing, ctx));
    forall j | 0 <= j < |existing|
      ensures typeMap.entries[existing[j].name] == ExtendNamedType(existing[j], ctx)
    {
      PutAllValues(built, Names(existing), ExtendAll(existing, ctx), j);
    }
  }

  /**
   * A root operation type: the one the schema definition or extensions
   * declare, else the existing one replaced through the new table, else none.
   */
  function ResolveRootType(present: Option<NamedRef>, declared: map<Operation, NamedRef>, op: Operation, g: GraphId)
    : (r: Option<NamedRef>)
    requires forall o :: o in declared ==> declared[o].graph == g
    ensures r.None? <==> op !in declared && present.None?
    ensures r.Some? ==> r.value.graph == g
    ensures op in declared ==> r == Some(declared[op])
    ensures op !in declared && present.Some? ==> r.value.name == present.value.name
  {
    if op in declared then Some(declared[op])
    else if present.Some? then Some(ReplaceNamedType(present.value, g))
    else None
  }

  function ReplaceDirectives(directives: seq<Directive>, g: GraphId): (r: seq<Directive>)
    ensures |r| == |directives|
    ensures forall i :: 0 <= i < |directives| ==> r[i] == ReplaceDirective(directives[i], g)
  {
    seq(|directives|, i requires 0 <= i < |directives| => ReplaceDirective(directives[i], g))
  }

  /**
   * The schema definition (if any) followed by the schema extensions: the
   * concatenation of the optional one-element list and the extension list,
   * which is never absent because the second list always is present.
   */
  function SchemaNodes(c: Collected): (r: seq<Definition>)
    ensures MaybeConcat([if c.schemaDef.Some? then Some([c.schemaDef.value]) else None,
                         Some(c.schemaExtensions)]) == Some(r)
    ensures forall d :: d in r <==> c.schemaDef == Some(d) || d in c.schemaExtensions
  {
    MaybeConcatPair(if c.schemaDef.Some? then Some([c.schemaDef.value]) else None, c.schemaExtensions);
    (if c.schemaDef.Some? then [c.schemaDef.value] else []) + c.schemaExtensions
  }

  /**
   * What a type's extender looks up in the collected map is exactly that
   * type's extension nodes in document order, and nothing when it has none.
   */
  lemma ExtensionsForDocument(g: GraphId, defs: seq<Definition>, n: Name)
    ensures ExtensionsFor(Context(g, Collection(defs).typeExtensionsMap), n) == ExtensionsOf(defs, n)
    ensures forall d :: d in ExtensionsFor(Context(g, Collection(defs).typeExtensionsMap), n) <==>
                          d in defs && d.TypeExtension? && d.name == n
  {
    ExtendedNamesHave(defs, n);
  }

  /** The root types that the schema definition and extensions of the document declare. */
  function DeclaredOperations(c: Collected, g: GraphId): map<Operation, NamedRef> {
    GetOperationTypes(SchemaNodes(c), g)
  }

  /** The new lookup table: the new definitions, then every existing type extended over them. */
  function TypeTable(schema: Schema, document: seq<Definition>, g: GraphId): (r: OrderedMap<NamedType>)
    ensures Valid(r)
  {
    var c := Collection(document);
    PutAll(BuiltTable(document, g), Names(schema.types), ExtendAll(schema.types, Context(g, c.typeExtensionsMap)))
  }

  /** `astBuilder.buildDirectives(directiveDefs)`: the directives the document defines. */
  function BuiltDirectives(document: seq<Definition>, g: GraphId): (r: seq<Directive>)
    ensures forall d :: d in r ==> Valid(d.args) && InputValuesIn(d.args, g)
  {
    TypeDefsAreDefinitions(document);
    BuildDirectives(Collection(document).directiveDefs, g)
  }

  /** `astBuilder.buildTypeMap(typeDefs)`: the types the document defines. */
  function BuiltTable(document: seq<Definition>, g: GraphId): (r: OrderedMap<NamedType>)
    ensures Valid(r)
  {
    TypeDefsAreDefinitions(document);
    BuildTypeMap(Collection(document).typeDefs, g)
  }

  lemma TypeDefsAreDefinitions(document: seq<Definition>)
    ensures forall i :: 0 <= i < |Collection(document).typeDefs| ==> Collection(document).typeDefs[i].TypeDefinition?
    ensures forall i :: 0 <= i < |Collection(document).directiveDefs| ==>
              Collection(document).directiveDefs[i].DirectiveDefinition?
  {
  }

  /**
   * The schema `extendSchema` assembles from `schema` and `document` in graph
   * `g`, before the deferred references are resolved.
   */
  function Extended(schema: Schema, document: seq<Definition>, g: GraphId): (s: Schema)
    ensures s.id == g
  {
    var c := Collection(document);
    TypeDefsAreDefinitions(document);
    var declared := DeclaredOperations(c, g);
    Schema(g,
           ResolveRootType(schema.query, declared, Query, g),
           ResolveRootType(schema.mutation, declared, Mutation, g),
           ResolveRootType(schema.subscription, declared, Subscription, g),
           Values(TypeTable(schema, document, g)),
           ReplaceDirectives(schema.directives, g) + BuiltDirectives(document, g),
           if c.schemaDef.Some? then c.schemaDef else schema.astNode,
           MaybeConcat([schema.extensionASTNodes, Some(c.schemaExtensions)]))
  }

  /** The schema assembled from the new table, the schema nodes and the extension nodes is `Extended`. */
  lemma AssembledIsExtended(schema: Schema, document: seq<Definition>, g: GraphId,
                            typeMap: OrderedMap<NamedType>, schemaNodes: seq<Definition>,
                            extensionASTNodes: Option<seq<Definition>>)
    requires typeMap == TypeTable(schema, document, g)
    requires schemaNodes == SchemaNodes(Collection(document))
    requires extensionASTNodes == MaybeConcat([schema.extensionASTNodes, Some(Collection(document).schemaExtensions)])
    ensures forall i :: 0 <= i < |Collection(document).directiveDefs| ==>
              Collection(document).directiveDefs[i].DirectiveDefinition?
    ensures Extended(schema, document, g) ==
      var c, declared := Collection(document), GetOperationTypes(schemaNodes, g);
      Schema(g,
             ResolveRootType(schema.query, declared, Query, g),
             ResolveRootType(schema.mutation, declared, Mutation, g),
             ResolveRootType(schema.subscription, declared, Subscription, g),
             Values(typeMap),
             ReplaceDirectives(schema.directives, g) + BuiltDirectives(document, g),
             if c.schemaDef.Some? then c.schemaDef else schema.astNode,
             extensionASTNodes)
  {
    TypeDefsAreDefinitions(document);
  }

  lemma NothingUnresolved(refNames: set<Name>, typeNames: set<Name>)
    requires refNames - typeNames == {}
    ensures refNames <= typeNames
  {
    forall n | n in refNames ensures n in typeNames {
      assert n !in refNames - typeNames;
    }
  }

  method ExtendSchema(schema: Schema, document: seq<Definition>, newGraph: GraphId) returns (r: Result<Schema, Error>)
    requires SchemaValid(schema)
    requires newGraph != schema.id
    // No contribution: the very same schema.
    ensures ContributesNothing(Collection(document)) <==> r == Ok(schema)
    // Otherwise the assembled schema, provided every name it refers to is one of its types.
    ensures !ContributesNothing(Collection(document)) ==>
      var s := Extended(schema, document, newGraph);
      && (r.Ok? <==> SchemaRefNames(s) <= TypeNames(s))
      && (r.Ok? ==> r.value == s)
      && (r.Err? ==> r.error.name in SchemaRefNames(s) && r.error.name !in TypeNames(s))
    // A valid schema comes out.
    ensures r.Ok? ==> SchemaValid(r.value)
    // The unknown name is neither an existing type nor one the document defines.
    ensures r.Err? ==> r.error.name !in TypeNames(schema) && r.error.name !in DefinedNames(Collection(document).typeDefs)
  {
    var collected := CollectDefinitions(document);
    if ContributesNothing(collected) {
      return Ok(schema);
    }
    TypeDefsAreDefinitions(document);
    var ctx := Context(newGraph, collected.typeExtensionsMap);
    var built := BuildTypeMap(collected.typeDefs, newGraph);
    var typeMap := ExtendExistingTypes(built, schema.types, ctx);

    var schemaNodes := ConcatMaybeArrays([if collected.schemaDef.Some? then Some([collected.schemaDef.value]) else None,
                                          Some(collected.schemaExtensions)]);
    MaybeConcatPair(if collected.schemaDef.Some? then Some([collected.schemaDef.value]) else None,
                    collected.schemaExtensions);
    var declared := GetOperationTypes(schemaNodes.GetOr([]), newGraph);
    var query := ResolveRootType(schema.query, declared, Query, newGraph);
    var mutation := ResolveRootType(schema.mutation, declared, Mutation, newGraph);
    var subscription := ResolveRootType(schema.subscription, declared, Subscription, newGraph);

    var directives := ReplaceDirectives(schema.directives, newGraph) + BuildDirectives(collected.directiveDefs, newGraph);
    var astNode := if collected.schemaDef.Some? then collected.schemaDef else schema.astNode;
    var extensionASTNodes := ConcatMaybeArrays([schema.extensionASTNodes, Some(collected.schemaExtensions)]);
    var extended := Schema(newGraph, query, mutation, subscription, Values(typeMap), directives, astNode,
                           extensionASTNodes);
    AssembledIsExtended(schema, document, newGraph, typeMap, schemaNodes.GetOr([]), extensionASTNodes);

    // The deferred references are resolved once the table is complete.
    var refNames, typeNames := SchemaRefNames(extended), TypeNames(extended);
    var unresolved := refNames - typeNames;
    if unresolved != {} {
      var name :| name in unresolved;
      assert !(refNames <= typeNames);
      ExtendedTypeNames(schema, document, newGraph);
      return Err(UnknownType(name));
    }
    NothingUnresolved(refNames, typeNames);
    ExtendedValid(schema, document, newGraph);
    return Ok(extended);
  }

  // ---------------------------------------------------------------------------
  // What the assembled schema guarantees.

  /** Every entry of the new table is keyed by its name, well formed, and points into graph `g`. */
  ghost predicate TableValid(m: OrderedMap<NamedType>, g: GraphId) {
    && Valid(m)
    && forall k :: k in m.entries ==>
         && m.entries[k].name == k
         && WellFormed(m.entries[k])
         && (!IsBuiltin(m.entries[k]) ==> NamedTypeIn(m.entries[k], g))
  }

  /** Extending the existing types over the built table keeps the table valid. */
  lemma ExtendedTableValid(built: OrderedMap<NamedType>, existing: seq<NamedType>, ctx: Context)
    requires TableValid(built, ctx.graph)
    requires Distinct(Names(existing))
    requires forall t :: t in existing ==> WellFormed(t)
    ensures TableValid(PutAll(built, Names(existing), ExtendAll(existing, ctx)), ctx.graph)
  {
    var m := PutAll(built, Names(existing), ExtendAll(existing, ctx));
    forall k | k in m.entries
      ensures m.entries[k].name == k && WellFormed(m.entries[k])
      ensures !IsBuiltin(m.entries[k]) ==> NamedTypeIn(m.entries[k], ctx.graph)
    {
      if k in Names(existing) {
        var j :| 0 <= j < |existing| && Names(existing)[j] == k;
        PutAllValues(built, Names(existing), ExtendAll(existing, ctx), j);
      }
    }
  }

  /** The values of a valid table: one type per key, named after it. */
  lemma TableValues(m: OrderedMap<NamedType>, g: GraphId)
    requires TableValid(m, g)
    ensures forall k :: k in m.entries ==> m.entries[k] in Values(m)
    ensures forall t :: t in Values(m) ==> t.name in m.entries && m.entries[t.name] == t
    ensures forall i, j :: 0 <= i < j < |Values(m)| ==> Values(m)[i].name != Values(m)[j].name
  {
    var vs := Values(m);
    forall k | k in m.entries ensures m.entries[k] in vs {
      ValuesHolds(m, m.entries[k]);
    }
    forall t | t in vs ensures t.name in m.entries && m.entries[t.name] == t {
      ValuesHolds(m, t);
    }
    forall i, j | 0 <= i < j < |vs| ensures vs[i].name != vs[j].name {
      assert vs[i].name == m.keys[i] && vs[j].name == m.keys[j];
    }
  }

  /** The names of the values of a valid table are its keys. */
  lemma TableNames(m: OrderedMap<NamedType>, g: GraphId)
    requires TableValid(m, g)
    ensures (set t | t in Values(m) :: t.name) == m.entries.Keys
  {
    TableValues(m, g);
    forall k | k in m.entries ensures k in (set t | t in Values(m) :: t.name) {
      assert m.entries[k] in Values(m);
    }
  }

  /** The new table of a valid schema is valid. */
  lemma TypeTableValid(schema: Schema, document: seq<Definition>, g: GraphId)
    requires SchemaValid(schema)
    ensures TableValid(TypeTable(schema, document, g), g)
  {
    var c := Collection(document);
    TypeDefsAreDefinitions(document);
    var built := BuildTypeMap(c.typeDefs, g);
    assert TableValid(built, g);
    ExtendedTableValid(built, schema.types, Context(g, c.typeExtensionsMap));
  }

  /** The new table holds the existing names and the names the document defines, and nothing else. */
  lemma TypeTableNames(schema: Schema, document: seq<Definition>, g: GraphId)
    ensures TypeTable(schema, document, g).entries.Keys == TypeNames(schema) + DefinedNames(Collection(document).typeDefs)
  {
    var c := Collection(document);
    TypeDefsAreDefinitions(document);
    NamesAreTypeNames(schema);
    var built := BuiltTable(document, g);
    assert built.entries.Keys == DefinedNames(c.typeDefs) by {
      forall k ensures k in built.entries <==> k in DefinedNames(c.typeDefs) {
        if k in DefinedNames(c.typeDefs) {
          var d :| d in c.typeDefs && d.TypeDefinition? && d.name == k;
          var j :| 0 <= j < |c.typeDefs| && c.typeDefs[j] == d;
        }
      }
    }
  }

  /** The names of the new schema's types are the existing names and the defined ones. */
  lemma ExtendedTypeNames(schema: Schema, document: seq<Definition>, g: GraphId)
    requires SchemaValid(schema)
    ensures TypeNames(Extended(schema, document, g)) == TypeNames(schema) + DefinedNames(Collection(document).typeDefs)
  {
    var m := TypeTable(schema, document, g);
    TypeTableValid(schema, document, g);
    TableNames(m, g);
    TypeTableNames(schema, document, g);
    assert Extended(schema, document, g).types == Values(m);
  }

  /** No two types of the new schema share a name. */
  lemma ExtendedNamesDistinct(schema: Schema, document: seq<Definition>, g: GraphId)
    requires SchemaValid(schema)
    ensures var ts := Extended(schema, document, g).types;
            forall i, j :: 0 <= i < j < |ts| ==> ts[i].name != ts[j].name
  {
    var m := TypeTable(schema, document, g);
    TypeTableValid(schema, document, g);
    TableValues(m, g);
    assert Extended(schema, document, g).types == Values(m);
  }

  /**
   * The types of the new schema: the new definitions in document order, then
   * the existing types the document does not define again, in their order.
   */
  lemma ExtendedTypeOrder(schema: Schema, document: seq<Definition>, g: GraphId)
    requires Distinct(Names(schema.types))
    ensures Names(Extended(schema, document, g).types) ==
              BuiltTable(document, g).keys + NewKeys(Names(schema.types), BuiltTable(document, g).entries.Keys)
  {
    var m := TypeTable(schema, document, g);
    var ctx := Context(g, Collection(document).typeExtensionsMap);
    PutAllKeys(BuiltTable(document, g), Names(schema.types), ExtendAll(schema.types, ctx));
    TypeTableKeyed(schema, document, g);
    KeyedValueNames(m);
    assert Extended(schema, document, g).types == Values(m);
  }

  /** In a table whose entries are named after their keys, the values' names are the keys in order. */
  lemma KeyedValueNames(m: OrderedMap<NamedType>)
    requires Valid(m)
    requires forall k :: k in m.entries ==> m.entries[k].name == k
    ensures Names(Values(m)) == m.keys
  {
    var ts := Values(m);
    forall i | 0 <= i < |ts| ensures Names(ts)[i] == m.keys[i] {
      assert ts[i] == m.entries[m.keys[i]];
    }
  }

  /** Every type of the new schema is well formed and, unless built in, refers only into the new graph. */
  lemma ExtendedTypesIsolated(schema: Schema, document: seq<Definition>, g: GraphId)
    requires SchemaValid(schema)
    ensures forall t :: t in Extended(schema, document, g).types ==>
              WellFormed(t) && (!IsBuiltin(t) ==> NamedTypeIn(t, g))
  {
    TypeTableValid(schema, document, g);
    TableValues(TypeTable(schema, document, g), g);
  }

  /** Every existing type is in the new schema, extended; a new definition of the same name is overridden. */
  lemma ExtendedKeepsExisting(schema: Schema, document: seq<Definition>, g: GraphId)
    requires Distinct(Names(schema.types))
    ensures forall t :: t in schema.types ==>
              ExtendNamedType(t, Context(g, Collection(document).typeExtensionsMap)) in Extended(schema, document, g).types
  {
    var ctx := Context(g, Collection(document).typeExtensionsMap);
    var m := TypeTable(schema, document, g);
    assert Extended(schema, document, g).types == Values(m);
    forall t | t in schema.types ensures ExtendNamedType(t, ctx) in Values(m) {
      var j :| 0 <= j < |schema.types| && schema.types[j] == t;
      TypeTableHoldsExtended(schema, document, g, j);
      ValueListed(m, t.name);
    }
  }

  /** Every entry of the new table is the type of that name. */
  lemma TypeTableKeyed(schema: Schema, document: seq<Definition>, g: GraphId)
    requires Distinct(Names(schema.types))
    ensures forall k :: k in TypeTable(schema, document, g).entries ==> TypeTable(schema, document, g).entries[k].name == k
  {
    var m := TypeTable(schema, document, g);
    forall k | k in m.entries ensures m.entries[k].name == k {
      if k in Names(schema.types) {
        var j :| 0 <= j < |schema.types| && Names(schema.types)[j] == k;
        TypeTableHoldsExtended(schema, document, g, j);
      }
    }
  }

  /** The new table holds every existing type, extended, under its name. */
  lemma TypeTableHoldsExtended(schema: Schema, document: seq<Definition>, g: GraphId, j: nat)
    requires Distinct(Names(schema.types))
    requires j < |schema.types|
    ensures schema.types[j].name in TypeTable(schema, document, g).entries
    ensures TypeTable(schema, document, g).entries[schema.types[j].name] ==
              ExtendNamedType(schema.types[j], Context(g, Collection(document).typeExtensionsMap))
  {
    var ctx := Context(g, Collection(document).typeExtensionsMap);
    PutAllValues(BuiltTable(document, g), Names(schema.types), ExtendAll(schema.types, ctx), j);
  }

  /** A name the schema lacks gets the type built from the last definition of that name. */
  lemma ExtendedAddsDefinitions(schema: Schema, document: seq<Definition>, g: GraphId, i: nat)
    requires var defs := Collection(document).typeDefs;
             && i < |defs|
             && defs[i].name !in TypeNames(schema)
             && forall j :: i < j < |defs| ==> defs[j].name != defs[i].name
    ensures var d := Collection(document).typeDefs[i];
            && d.TypeDefinition?
            && BuildType(d, g) in Extended(schema, document, g).types
  {
    var c := Collection(document);
    var d := c.typeDefs[i];
    var m := TypeTable(schema, document, g);
    TypeDefsAreDefinitions(document);
    BuildTypeMapLastWins(c.typeDefs, g, i);
    NamesAreTypeNames(schema);
    assert Extended(schema, document, g).types == Values(m);
    ValueListed(m, d.name);
  }

  /**
   * A root operation type of the new schema: the one the document declares,
   * else the existing one replaced by name in the new graph, else none.
   */
  lemma ExtendedRootTypes(schema: Schema, document: seq<Definition>, g: GraphId, op: Operation)
    ensures var root := RootType(Extended(schema, document, g), op);
            && root == ResolveRootType(RootType(schema, op), DeclaredOperations(Collection(document), g), op, g)
            && (root.Some? ==> root.value.graph == g)
  {
  }

  /**
   * The directives of the new schema: the existing ones with their argument
   * types replaced, then the ones the document defines; all of them refer
   * only into the new graph and have well-formed arguments.
   */
  lemma ExtendedDirectives(schema: Schema, document: seq<Definition>, g: GraphId)
    requires SchemaValid(schema)
    ensures ListMerge(Extended(schema, document, g).directives, ReplaceDirectives(schema.directives, g),
                      BuiltDirectives(document, g))
    ensures forall d :: d in Extended(schema, document, g).directives ==> Valid(d.args) && InputValuesIn(d.args, g)
  {
    var s := Extended(schema, document, g);
    var replaced, built := ReplaceDirectives(schema.directives, g), BuiltDirectives(document, g);
    assert s.directives == replaced + built;
    forall d | d in s.directives ensures Valid(d.args) && InputValuesIn(d.args, g) {
      if d in replaced {
        var i :| 0 <= i < |replaced| && replaced[i] == d;
        assert schema.directives[i] in schema.directives;
      }
    }
  }

  /**
   * The schema definition of the document, if any, becomes the AST node; the
   * extension nodes are the existing ones followed by the document's schema
   * extensions, and are present even when both are empty.
   */
  lemma ExtendedNodes(schema: Schema, document: seq<Definition>, g: GraphId)
    ensures Collection(document).schemaDef.Some? ==> Extended(schema, document, g).astNode == Collection(document).schemaDef
    ensures Collection(document).schemaDef.None? ==> Extended(schema, document, g).astNode == schema.astNode
    ensures Extended(schema, document, g).extensionASTNodes ==
              Some(schema.extensionASTNodes.GetOr([]) + Collection(document).schemaExtensions)
  {
    MaybeConcatPair(schema.extensionASTNodes, Collection(document).schemaExtensions);
  }

  /** Once every name it refers to is one of its types, the new schema is a valid schema. */
  lemma ExtendedValid(schema: Schema, document: seq<Definition>, g: GraphId)
    requires SchemaValid(schema)
    requires SchemaRefNames(Extended(schema, document, g)) <= TypeNames(Extended(schema, document, g))
    ensures SchemaValid(Extended(schema, document, g))
  {
    ExtendedNamesDistinct(schema, document, g);
    ExtendedTypesIsolated(schema, document, g);
    ExtendedDirectives(schema, document, g);
  }

  /** An existing root type the document does not redeclare always names a type of the new schema. */
  lemma ExistingRootResolves(schema: Schema, document: seq<Definition>, g: GraphId, op: Operation)
    requires SchemaValid(schema)
    requires op !in DeclaredOperations(Collection(document), g) && RootType(schema, op).Some?
    ensures RootType(Extended(schema, document, g), op).Some?
    ensures RootType(Extended(schema, document, g), op).value.name in TypeNames(Extended(schema, document, g))
  {
    var name := RootType(schema, op).value.name;
    assert name in SchemaRefNames(schema);
    ExtendedTypeNames(schema, document, g);
  }
}
