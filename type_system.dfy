/**
 * The values of a GraphQL type system as schema extension sees them: named
 * types of six kinds, wrapped type references, directives and the schema.
 *
 * The type graph is cyclic, so a named type never holds another named type:
 * it holds a `NamedRef`, the name of the target in the lookup table of one
 * particular graph. Two graphs are told apart by their `GraphId`, which plays
 * the part of object identity in the source.
 */
module TypeSystem {
  import opened Wrappers
  import opened OrderedMaps
  import opened Language

  type GraphId = nat

  /** The entry `name` of the lookup table of graph `graph`. */
  datatype NamedRef = NamedRef(name: Name, graph: GraphId)

  /** A named type wrapped in any nesting of list and non-null modifiers. */
  datatype TypeRef = Named(ref: NamedRef) | List(ofType: TypeRef) | NonNull(ofType: TypeRef)

  datatype Modifier = ListModifier | NonNullModifier

  /** The modifiers from the outside in, without the named type. */
  function Modifiers(t: TypeRef): seq<Modifier> {
    match t
    case Named(_) => []
    case List(inner) => [ListModifier] + Modifiers(inner)
    case NonNull(inner) => [NonNullModifier] + Modifiers(inner)
  }

  /** The named type under all modifiers. */
  function Leaf(t: TypeRef): NamedRef {
    match t
    case Named(r) => r
    case List(inner) => Leaf(inner)
    case NonNull(inner) => Leaf(inner)
  }

  /** An argument or an input field. */
  datatype InputValue = InputValue(description: string, typeRef: TypeRef)

  datatype Field = Field(description: string, args: OrderedMap<InputValue>, typeRef: TypeRef)

  /** `value` is the internal value; `None` means the value's own name. */
  datatype EnumValue = EnumValue(description: string, value: Option<string>)

  datatype NamedType =
    | ScalarType(name: Name, description: string, extensionASTNodes: Option<seq<Definition>>)
    | ObjectType(name: Name, description: string, interfaces: seq<NamedRef>, fields: OrderedMap<Field>,
                 extensionASTNodes: Option<seq<Definition>>)
    | InterfaceType(name: Name, description: string, interfaces: seq<NamedRef>, fields: OrderedMap<Field>,
                    extensionASTNodes: Option<seq<Definition>>)
    | UnionType(name: Name, description: string, types: seq<NamedRef>, extensionASTNodes: Option<seq<Definition>>)
    | EnumType(name: Name, description: string, values: OrderedMap<EnumValue>,
               extensionASTNodes: Option<seq<Definition>>)
    | InputObjectType(name: Name, description: string, inputFields: OrderedMap<InputValue>,
                      extensionASTNodes: Option<seq<Definition>>)

  datatype Directive = Directive(name: Name, description: string, args: OrderedMap<InputValue>, locations: seq<Name>)

  datatype Schema = Schema(
    id: GraphId,
    query: Option<NamedRef>,
    mutation: Option<NamedRef>,
    subscription: Option<NamedRef>,
    types: seq<NamedType>,
    directives: seq<Directive>,
    astNode: Option<Definition>,
    extensionASTNodes: Option<seq<Definition>>)

  function RootType(s: Schema, op: Operation): Option<NamedRef> {
    match op
    case Query => s.query
    case Mutation => s.mutation
    case Subscription => s.subscription
  }

  /** The introspection types of the GraphQL specification. */
  const IntrospectionTypeNames: set<Name> :=
    {"__Schema", "__Directive", "__DirectiveLocation", "__Type", "__Field", "__InputValue", "__EnumValue", "__TypeKind"}

  /** The scalars the GraphQL specification defines. */
  const SpecifiedScalarNames: set<Name> := {"String", "Int", "Float", "Boolean", "ID"}

  /** Introspection types and specified scalars: fixed by the specification, never extended. */
  predicate IsBuiltin(t: NamedType) {
    t.name in IntrospectionTypeNames || t.name in SpecifiedScalarNames
  }

  function Names(ts: seq<NamedType>): (r: seq<Name>)
    ensures |r| == |ts| && forall i :: 0 <= i < |ts| ==> r[i] == ts[i].name
  {
    seq(|ts|, i requires 0 <= i < |ts| => ts[i].name)
  }

  lemma NamesAppend(ts: seq<NamedType>, t: NamedType)
    ensures Names(ts + [t]) == Names(ts) + [t.name]
  {
  }

  function TypeNames(s: Schema): set<Name> {
    set t | t in s.types :: t.name
  }

  /** The names listed by `Names` are the schema's type names. */
  lemma NamesAreTypeNames(s: Schema)
    ensures forall k :: k in Names(s.types) <==> k in TypeNames(s)
  {
    forall k ensures k in Names(s.types) <==> k in TypeNames(s) {
      if k in Names(s.types) {
        var j :| 0 <= j < |s.types| && Names(s.types)[j] == k;
        assert s.types[j] in s.types;
      }
      if k in TypeNames(s) {
        var t :| t in s.types && t.name == k;
        var j :| 0 <= j < |s.types| && s.types[j] == t;
        assert Names(s.types)[j] == k;
      }
    }
  }

  /** Every keyed collection inside `t` is a proper insertion-ordered dictionary. */
  ghost predicate WellFormed(t: NamedType) {
    match t
    case ScalarType(_, _, _) => true
    case ObjectType(_, _, _, fields, _) => FieldsWellFormed(fields)
    case InterfaceType(_, _, _, fields, _) => FieldsWellFormed(fields)
    case UnionType(_, _, _, _) => true
    case EnumType(_, _, values, _) => Valid(values)
    case InputObjectType(_, _, inputFields, _) => Valid(inputFields)
  }

  ghost predicate FieldsWellFormed(m: OrderedMap<Field>) {
    Valid(m) && forall k :: k in m.entries ==> Valid(m.entries[k].args)
  }

  // ---------------------------------------------------------------------------
  // Which graph a value's references point into.

  ghost predicate InputValuesIn(m: OrderedMap<InputValue>, g: GraphId) {
    forall k :: k in m.entries ==> Leaf(m.entries[k].typeRef).graph == g
  }

  ghost predicate FieldIn(f: Field, g: GraphId) {
    Leaf(f.typeRef).graph == g && InputValuesIn(f.args, g)
  }

  ghost predicate FieldsIn(m: OrderedMap<Field>, g: GraphId) {
    forall k :: k in m.entries ==> FieldIn(m.entries[k], g)
  }

  ghost predicate RefsIn(rs: seq<NamedRef>, g: GraphId) {
    forall i :: 0 <= i < |rs| ==> rs[i].graph == g
  }

  /** Every reference held by `t` points into graph `g`. */
  ghost predicate NamedTypeIn(t: NamedType, g: GraphId) {
    match t
    case ScalarType(_, _, _) => true
    case ObjectType(_, _, ifaces, fields, _) => RefsIn(ifaces, g) && FieldsIn(fields, g)
    case InterfaceType(_, _, ifaces, fields, _) => RefsIn(ifaces, g) && FieldsIn(fields, g)
    case UnionType(_, _, members, _) => RefsIn(members, g)
    case EnumType(_, _, _, _) => true
    case InputObjectType(_, _, inputFields, _) => InputValuesIn(inputFields, g)
  }

  // ---------------------------------------------------------------------------
  // The names a value refers to.

  function InputValueRefNames(m: OrderedMap<InputValue>): set<Name> {
    set k | k in m.entries :: Leaf(m.entries[k].typeRef).name
  }

  function FieldRefNames(f: Field): set<Name> {
    {Leaf(f.typeRef).name} + InputValueRefNames(f.args)
  }

  function FieldMapRefNames(m: OrderedMap<Field>): set<Name> {
    set k, n | k in m.entries && n in FieldRefNames(m.entries[k]) :: n
  }

  function RefSeqNames(rs: seq<NamedRef>): set<Name> {
    set r | r in rs :: r.name
  }

  function NamedTypeRefNames(t: NamedType): set<Name> {
    match t
    case ScalarType(_, _, _) => {}
    case ObjectType(_, _, ifaces, fields, _) => RefSeqNames(ifaces) + FieldMapRefNames(fields)
    case InterfaceType(_, _, ifaces, fields, _) => RefSeqNames(ifaces) + FieldMapRefNames(fields)
    case UnionType(_, _, members, _) => RefSeqNames(members)
    case EnumType(_, _, _, _) => {}
    case InputObjectType(_, _, inputFields, _) => InputValueRefNames(inputFields)
  }

  function OptionRefNames(r: Option<NamedRef>): set<Name> {
    if r.Some? then {r.value.name} else {}
  }

  /** Every type name the schema refers to: root types, members of types, directive arguments. */
  function SchemaRefNames(s: Schema): set<Name> {
    OptionRefNames(s.query) + OptionRefNames(s.mutation) + OptionRefNames(s.subscription)
    + (set t, n | t in s.types && n in NamedTypeRefNames(t) :: n)
    + (set d, n | d in s.directives && n in InputValueRefNames(d.args) :: n)
  }

  /**
   * What a schema object guarantees: type names are unique, its dictionaries
   * are well formed and every name it refers to is one of its types.
   */
  ghost predicate SchemaValid(s: Schema) {
    && (forall i, j :: 0 <= i < j < |s.types| ==> s.types[i].name != s.types[j].name)
    && (forall t :: t in s.types ==> WellFormed(t))
    && (forall d :: d in s.directives ==> Valid(d.args))
    && SchemaRefNames(s) <= TypeNames(s)
  }
}
