/**
 * Rebuilding the types of the existing schema for the new one. Every
 * reference an existing type holds is replaced by the same name in the new
 * call's lookup table, and each type absorbs the extensions collected for its
 * name.
 */
module ExtendTypes {
  import opened Wrappers
  import opened OrderedMaps
  import opened Language
  import opened TypeSystem
  import opened DefinitionBuilder
  import opened MaybeArrays

  /** What the extenders of one call share: the call's graph and the collected type extensions. */
  datatype Context = Context(graph: GraphId, typeExtensionsMap: map<Name, seq<Definition>>)

  /** `typeExtensionsMap[name] || []`. */
  function ExtensionsFor(ctx: Context, name: Name): seq<Definition> {
    if name in ctx.typeExtensionsMap then ctx.typeExtensionsMap[name] else []
  }

  // ---------------------------------------------------------------------------
  // Reference replacement.

  /** `typeMap[type.name]`: the type of the same name in the lookup table of graph `g`. */
  function ReplaceNamedType(ref: NamedRef, g: GraphId): (r: NamedRef)
    ensures r.name == ref.name && r.graph == g
  {
    NamedRef(ref.name, g)
  }

  /** Rebuilds the list and non-null wrappers as they were and replaces only the named type inside. */
  function ReplaceType(t: TypeRef, g: GraphId): (r: TypeRef)
    ensures Modifiers(r) == Modifiers(t)
    ensures Leaf(r) == ReplaceNamedType(Leaf(t), g)
  {
    match t
    case List(inner) => List(ReplaceType(inner, g))
    case NonNull(inner) => NonNull(ReplaceType(inner, g))
    case Named(ref) => Named(ReplaceNamedType(ref, g))
  }

  function ReplaceRefs(refs: seq<NamedRef>, g: GraphId): (r: seq<NamedRef>)
    ensures |r| == |refs| && RefsIn(r, g)
    ensures forall i :: 0 <= i < |refs| ==> r[i] == ReplaceNamedType(refs[i], g)
  {
    seq(|refs|, i requires 0 <= i < |refs| => ReplaceNamedType(refs[i], g))
  }

  /** An argument (or input field) whose type is replaced; nothing else changes. */
  function ExtendArg(arg: InputValue, g: GraphId): (r: InputValue)
    ensures r.description == arg.description
    ensures Modifiers(r.typeRef) == Modifiers(arg.typeRef)
    ensures Leaf(r.typeRef) == NamedRef(Leaf(arg.typeRef).name, g)
  {
    arg.(typeRef := ReplaceType(arg.typeRef, g))
  }

  /** `mapValue(args, extendArg)`. */
  function ExtendArgs(args: OrderedMap<InputValue>, g: GraphId): (r: OrderedMap<InputValue>)
    ensures Valid(args) ==> Valid(r)
    ensures r.keys == args.keys && r.entries.Keys == args.entries.Keys
    ensures forall k :: k in args.entries ==> r.entries[k] == ExtendArg(args.entries[k], g)
    ensures InputValuesIn(r, g)
  {
    MapValues(args, (a: InputValue) => ExtendArg(a, g))
  }

  /** A field whose type and every argument's type are replaced; nothing else changes. */
  function ExtendField(field: Field, g: GraphId): (r: Field)
    ensures r.description == field.description
    ensures Modifiers(r.typeRef) == Modifiers(field.typeRef)
    ensures Leaf(r.typeRef) == NamedRef(Leaf(field.typeRef).name, g)
    ensures r.args.keys == field.args.keys && r.args.entries.Keys == field.args.entries.Keys
    ensures forall k :: k in field.args.entries ==> r.args.entries[k] == ExtendArg(field.args.entries[k], g)
    ensures Valid(field.args) ==> Valid(r.args)
    ensures FieldIn(r, g)
  {
    field.(typeRef := ReplaceType(field.typeRef, g), args := ExtendArgs(field.args, g))
  }

  function ExtendFields(fields: OrderedMap<Field>, g: GraphId): (r: OrderedMap<Field>)
    ensures FieldsWellFormed(fields) ==> FieldsWellFormed(r)
    ensures r.keys == fields.keys && r.entries.Keys == fields.entries.Keys
    ensures forall k :: k in fields.entries ==> r.entries[k] == ExtendField(fields.entries[k], g)
    ensures FieldsIn(r, g)
  {
    MapValues(fields, (f: Field) => ExtendField(f, g))
  }

  /** An existing directive whose argument types are replaced, arguments kept in order. */
  function ReplaceDirective(d: Directive, g: GraphId): (r: Directive)
    ensures r.name == d.name && r.description == d.description && r.locations == d.locations
    ensures r.args.keys == d.args.keys && r.args.entries.Keys == d.args.entries.Keys
    ensures forall k :: k in d.args.entries ==> r.args.entries[k] == ExtendArg(d.args.entries[k], g)
    ensures Valid(d.args) ==> Valid(r.args)
    ensures InputValuesIn(r.args, g)
  {
    d.(args := ExtendArgs(d.args, g))
  }

  // ---------------------------------------------------------------------------
  // Merges.

  /**
   * `r` is `{...existing, ...added}`: every key of either, the added entry on
   * a shared key, the existing keys first in their old order, then the keys
   * only `added` has, in its order.
   */
  ghost predicate KeyedMerge<V>(r: OrderedMap<V>, existing: OrderedMap<V>, added: OrderedMap<V>) {
    && r.entries.Keys == existing.entries.Keys + added.entries.Keys
    && (forall k :: k in added.entries ==> r.entries[k] == added.entries[k])
    && (forall k :: k in existing.entries && k !in added.entries ==> r.entries[k] == existing.entries[k])
    && r.keys == existing.keys + NewKeys(added.keys, existing.entries.Keys)
  }

  /** A keyed merge leaves nothing open: keys, order and values are all fixed. */
  lemma KeyedMergeDetermines<V>(r1: OrderedMap<V>, r2: OrderedMap<V>, existing: OrderedMap<V>, added: OrderedMap<V>)
    requires KeyedMerge(r1, existing, added) && KeyedMerge(r2, existing, added)
    ensures r1 == r2
  {
    forall k | k in r1.entries ensures r1.entries[k] == r2.entries[k] {
      if k in added.entries {
        assert r1.entries[k] == added.entries[k];
      } else {
        assert r1.entries[k] == existing.entries[k];
      }
    }
    assert r1.entries == r2.entries;
  }

  /** `r` is the existing list followed by the added one. */
  ghost predicate ListMerge<X>(r: seq<X>, existing: seq<X>, added: seq<X>) {
    |r| == |existing| + |added| && r[..|existing|] == existing && r[|existing|..] == added
  }

  /** Object spread is a keyed merge. */
  lemma SpreadMerges<V>(a: OrderedMap<V>, b: OrderedMap<V>)
    ensures KeyedMerge(Spread(a, b), a, b)
  {
  }

  /** Spreading two well-formed field maps of graph `g` gives one. */
  lemma SpreadFields(a: OrderedMap<Field>, b: OrderedMap<Field>, g: GraphId)
    requires FieldsIn(a, g) && FieldsIn(b, g)
    ensures FieldsIn(Spread(a, b), g)
    ensures FieldsWellFormed(a) && FieldsWellFormed(b) ==> FieldsWellFormed(Spread(a, b))
  {
    var r := Spread(a, b);
    forall k | k in r.entries ensures FieldIn(r.entries[k], g) {
      if k !in b.entries {
        assert r.entries[k] == a.entries[k];
      }
    }
    if FieldsWellFormed(a) && FieldsWellFormed(b) {
      forall k | k in r.entries ensures Valid(r.entries[k].args) {
        if k !in b.entries {
          assert r.entries[k] == a.entries[k];
        }
      }
    }
  }

  /** The merged field map of an object or interface type. */
  function MergeFields(fields: OrderedMap<Field>, exts: seq<Definition>, g: GraphId): (r: OrderedMap<Field>)
    ensures KeyedMerge(r, ExtendFields(fields, g), BuildFieldMap(exts, g))
    ensures FieldsWellFormed(fields) ==> FieldsWellFormed(r)
    ensures FieldsIn(r, g)
  {
    var existing := ExtendFields(fields, g);
    var added := BuildFieldMap(exts, g);
    SpreadMerges(existing, added);
    SpreadFields(existing, added, g);
    Spread(existing, added)
  }

  // ---------------------------------------------------------------------------
  // One extender per kind.

  function ExtendScalarType(t: NamedType, ctx: Context): (r: NamedType)
    requires t.ScalarType?
    ensures r.ScalarType? && r.name == t.name && r.description == t.description
    ensures r.extensionASTNodes == Some(t.extensionASTNodes.GetOr([]) + ExtensionsFor(ctx, t.name))
  {
    var extensions := ExtensionsFor(ctx, t.name);
    MaybeConcatPair(t.extensionASTNodes, extensions);
    ScalarType(t.name, t.description, MaybeConcat([t.extensionASTNodes, Some(extensions)]))
  }

  function ExtendObjectType(t: NamedType, ctx: Context): (r: NamedType)
    requires t.ObjectType?
    ensures r.ObjectType? && r.name == t.name && r.description == t.description
    ensures ListMerge(r.interfaces, ReplaceRefs(t.interfaces, ctx.graph),
                      BuildInterfaces(ExtensionsFor(ctx, t.name), ctx.graph))
    ensures KeyedMerge(r.fields, ExtendFields(t.fields, ctx.graph),
                       BuildFieldMap(ExtensionsFor(ctx, t.name), ctx.graph))
    ensures r.extensionASTNodes == Some(t.extensionASTNodes.GetOr([]) + ExtensionsFor(ctx, t.name))
    ensures WellFormed(t) ==> WellFormed(r)
    ensures NamedTypeIn(r, ctx.graph)
  {
    var extensions := ExtensionsFor(ctx, t.name);
    MaybeConcatPair(t.extensionASTNodes, extensions);
    var interfaces := ReplaceRefs(t.interfaces, ctx.graph) + BuildInterfaces(extensions, ctx.graph);
    t.(interfaces := interfaces,
       fields := MergeFields(t.fields, extensions, ctx.graph),
       extensionASTNodes := MaybeConcat([t.extensionASTNodes, Some(extensions)]))
  }

  function ExtendInterfaceType(t: NamedType, ctx: Context): (r: NamedType)
    requires t.InterfaceType?
    ensures r.InterfaceType? && r.name == t.name && r.description == t.description
    ensures ListMerge(r.interfaces, ReplaceRefs(t.interfaces, ctx.graph),
                      BuildInterfaces(ExtensionsFor(ctx, t.name), ctx.graph))
    ensures KeyedMerge(r.fields, ExtendFields(t.fields, ctx.graph),
                       BuildFieldMap(ExtensionsFor(ctx, t.name), ctx.graph))
    ensures r.extensionASTNodes == Some(t.extensionASTNodes.GetOr([]) + ExtensionsFor(ctx, t.name))
    ensures WellFormed(t) ==> WellFormed(r)
    ensures NamedTypeIn(r, ctx.graph)
  {
    var extensions := ExtensionsFor(ctx, t.name);
    MaybeConcatPair(t.extensionASTNodes, extensions);
    var interfaces := ReplaceRefs(t.interfaces, ctx.graph) + BuildInterfaces(extensions, ctx.graph);
    t.(interfaces := interfaces,
       fields := MergeFields(t.fields, extensions, ctx.graph),
       extensionASTNodes := MaybeConcat([t.extensionASTNodes, Some(extensions)]))
  }

  function ExtendUnionType(t: NamedType, ctx: Context): (r: NamedType)
    requires t.UnionType?
    ensures r.UnionType? && r.name == t.name && r.description == t.description
    ensures ListMerge(r.types, ReplaceRefs(t.types, ctx.graph),
                      BuildUnionTypes(ExtensionsFor(ctx, t.name), ctx.graph))
    ensures r.extensionASTNodes == Some(t.extensionASTNodes.GetOr([]) + ExtensionsFor(ctx, t.name))
    ensures NamedTypeIn(r, ctx.graph)
  {
    var extensions := ExtensionsFor(ctx, t.name);
    MaybeConcatPair(t.extensionASTNodes, extensions);
    t.(types := ReplaceRefs(t.types, ctx.graph) + BuildUnionTypes(extensions, ctx.graph),
       extensionASTNodes := MaybeConcat([t.extensionASTNodes, Some(extensions)]))
  }

  /** Enum values have no type references: the existing values are kept and the extension's override them by name. */
  function ExtendEnumType(t: NamedType, ctx: Context): (r: NamedType)
    requires t.EnumType?
    ensures r.EnumType? && r.name == t.name && r.description == t.description
    ensures KeyedMerge(r.values, t.values, BuildEnumValueMap(ExtensionsFor(ctx, t.name)))
    ensures r.extensionASTNodes == Some(t.extensionASTNodes.GetOr([]) + ExtensionsFor(ctx, t.name))
    ensures WellFormed(t) ==> WellFormed(r)
  {
    var extensions := ExtensionsFor(ctx, t.name);
    MaybeConcatPair(t.extensionASTNodes, extensions);
    t.(values := Spread(t.values, BuildEnumValueMap(extensions)),
       extensionASTNodes := MaybeConcat([t.extensionASTNodes, Some(extensions)]))
  }

  function ExtendInputObjectType(t: NamedType, ctx: Context): (r: NamedType)
    requires t.InputObjectType?
    ensures r.InputObjectType? && r.name == t.name && r.description == t.description
    ensures KeyedMerge(r.inputFields, ExtendArgs(t.inputFields, ctx.graph),
                       BuildInputFieldMap(ExtensionsFor(ctx, t.name), ctx.graph))
    ensures r.extensionASTNodes == Some(t.extensionASTNodes.GetOr([]) + ExtensionsFor(ctx, t.name))
    ensures WellFormed(t) ==> WellFormed(r)
    ensures NamedTypeIn(r, ctx.graph)
  {
    var extensions := ExtensionsFor(ctx, t.name);
    MaybeConcatPair(t.extensionASTNodes, extensions);
    t.(inputFields := Spread(ExtendArgs(t.inputFields, ctx.graph), BuildInputFieldMap(extensions, ctx.graph)),
       extensionASTNodes := MaybeConcat([t.extensionASTNodes, Some(extensions)]))
  }

  /** Same variant (scalar, object, ...). */
  predicate SameKind(a: NamedType, b: NamedType) {
    && a.ScalarType? == b.ScalarType? && a.ObjectType? == b.ObjectType?
    && a.InterfaceType? == b.InterfaceType? && a.UnionType? == b.UnionType?
    && a.EnumType? == b.EnumType? && a.InputObjectType? == b.InputObjectType?
  }

  /**
   * Built-in types come back as they are; every other type keeps its name and
   * kind, is merged with its extensions by the rule of its kind, gains its
   * extension nodes and refers only into the call's graph.
   */
  function ExtendNamedType(t: NamedType, ctx: Context): (r: NamedType)
    ensures IsBuiltin(t) ==> r == t
    ensures r.name == t.name && r.description == t.description && SameKind(r, t)
    ensures !IsBuiltin(t) ==>
              r.extensionASTNodes == Some(t.extensionASTNodes.GetOr([]) + ExtensionsFor(ctx, t.name))
    ensures !IsBuiltin(t) ==> NamedTypeIn(r, ctx.graph)
    ensures WellFormed(t) ==> WellFormed(r)
    // Every other type is extended by the rule of its kind.
    ensures !IsBuiltin(t) && (t.ObjectType? || t.InterfaceType?) ==>
              && ListMerge(r.interfaces, ReplaceRefs(t.interfaces, ctx.graph),
                           BuildInterfaces(ExtensionsFor(ctx, t.name), ctx.graph))
              && KeyedMerge(r.fields, ExtendFields(t.fields, ctx.graph),
                            BuildFieldMap(ExtensionsFor(ctx, t.name), ctx.graph))
    ensures !IsBuiltin(t) && t.UnionType? ==>
              ListMerge(r.types, ReplaceRefs(t.types, ctx.graph), BuildUnionTypes(ExtensionsFor(ctx, t.name), ctx.graph))
    ensures !IsBuiltin(t) && t.EnumType? ==>
              KeyedMerge(r.values, t.values, BuildEnumValueMap(ExtensionsFor(ctx, t.name)))
    ensures !IsBuiltin(t) && t.InputObjectType? ==>
              KeyedMerge(r.inputFields, ExtendArgs(t.inputFields, ctx.graph),
                         BuildInputFieldMap(ExtensionsFor(ctx, t.name), ctx.graph))
  {
    if IsBuiltin(t) then t
    else
      match t
      case ScalarType(_, _, _) => ExtendScalarType(t, ctx)
      case ObjectType(_, _, _, _, _) => ExtendObjectType(t, ctx)
      case InterfaceType(_, _, _, _, _) => ExtendInterfaceType(t, ctx)
      case UnionType(_, _, _, _) => ExtendUnionType(t, ctx)
      case EnumType(_, _, _, _) => ExtendEnumType(t, ctx)
      case InputObjectType(_, _, _, _) => ExtendInputObjectType(t, ctx)
  }
}
