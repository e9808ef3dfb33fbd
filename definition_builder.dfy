/**
 * A stand-in for the AST definition builder that schema extension calls
 * into. Every name a node mentions becomes a reference into the lookup table
 * of graph `g`, unchecked: whether the name is there is decided once the
 * table is complete (see `ExtendSchema`). Keyed collections are written in
 * node order, so a later node with the same name wins.
 */
module DefinitionBuilder {
  import opened Wrappers
  import opened OrderedMaps
  import opened Language
  import opened TypeSystem

  function BodyOf(d: Definition): TypeBody {
    if d.TypeDefinition? || d.TypeExtension? then d.body else ScalarBody
  }

  /** The members `part` selects from every type node in `defs`, node after node. */
  function Gather<X>(defs: seq<Definition>, part: TypeBody -> seq<X>): (r: seq<X>)
    ensures forall x :: x in r ==> exists d :: d in defs && x in part(BodyOf(d))
  {
    if defs == [] then []
    else Gather(defs[..|defs| - 1], part) + part(BodyOf(defs[|defs| - 1]))
  }

  function BuildTypeRef(node: TypeNode, g: GraphId): (r: TypeRef)
    ensures Leaf(r).graph == g
  {
    match node
    case NamedTypeNode(n) => Named(NamedRef(n, g))
    case ListTypeNode(inner) => List(BuildTypeRef(inner, g))
    case NonNullTypeNode(inner) => NonNull(BuildTypeRef(inner, g))
  }

  function BuildRefs(names: seq<Name>, g: GraphId): (r: seq<NamedRef>)
    ensures |r| == |names| && RefsIn(r, g)
    ensures forall i :: 0 <= i < |names| ==> r[i].name == names[i]
  {
    seq(|names|, i requires 0 <= i < |names| => NamedRef(names[i], g))
  }

  function BuildInputValue(node: InputValueNode, g: GraphId): InputValue {
    InputValue(node.description, BuildTypeRef(node.typeNode, g))
  }

  function BuildInputValueMap(nodes: seq<InputValueNode>, g: GraphId): (r: OrderedMap<InputValue>)
    ensures Valid(r) && InputValuesIn(r, g)
  {
    var key := (n: InputValueNode) => n.name;
    var build := (n: InputValueNode) => BuildInputValue(n, g);
    var r := FromSeq(nodes, key, build);
    assert InputValuesIn(r, g) by {
      forall k | k in r.entries ensures Leaf(r.entries[k].typeRef).graph == g {
        FromSeqEntries(nodes, key, build, k);
      }
    }
    r
  }

  function BuildField(node: FieldNode, g: GraphId): (r: Field)
    ensures Valid(r.args) && FieldIn(r, g)
  {
    Field(node.description, BuildInputValueMap(node.args, g), BuildTypeRef(node.typeNode, g))
  }

  function BuildFieldNodes(nodes: seq<FieldNode>, g: GraphId): (r: OrderedMap<Field>)
    ensures FieldsWellFormed(r) && FieldsIn(r, g)
  {
    var key := (n: FieldNode) => n.name;
    var build := (n: FieldNode) => BuildField(n, g);
    var r := FromSeq(nodes, key, build);
    assert FieldsWellFormed(r) && FieldsIn(r, g) by {
      forall k | k in r.entries ensures Valid(r.entries[k].args) && FieldIn(r.entries[k], g) {
        FromSeqEntries(nodes, key, build, k);
      }
    }
    r
  }

  function BuildEnumValues(nodes: seq<EnumValueNode>): (r: OrderedMap<EnumValue>)
    ensures Valid(r)
  {
    FromSeq(nodes, (n: EnumValueNode) => n.name, (n: EnumValueNode) => EnumValue(n.description, None))
  }

  /** The fields declared by all of `defs`. */
  function BuildFieldMap(defs: seq<Definition>, g: GraphId): (r: OrderedMap<Field>)
    ensures FieldsWellFormed(r) && FieldsIn(r, g)
  {
    BuildFieldNodes(Gather(defs, FieldNodes), g)
  }

  function BuildInputFieldMap(defs: seq<Definition>, g: GraphId): (r: OrderedMap<InputValue>)
    ensures Valid(r) && InputValuesIn(r, g)
  {
    BuildInputValueMap(Gather(defs, InputFieldNodes), g)
  }

  function BuildEnumValueMap(defs: seq<Definition>): (r: OrderedMap<EnumValue>)
    ensures Valid(r)
  {
    BuildEnumValues(Gather(defs, EnumValueNodes))
  }

  function BuildInterfaces(defs: seq<Definition>, g: GraphId): (r: seq<NamedRef>)
    ensures RefsIn(r, g)
  {
    BuildRefs(Gather(defs, InterfaceNames), g)
  }

  function BuildUnionTypes(defs: seq<Definition>, g: GraphId): (r: seq<NamedRef>)
    ensures RefsIn(r, g)
  {
    BuildRefs(Gather(defs, MemberNames), g)
  }

  /** A brand-new named type from its definition, its references pointing into graph `g`. */
  function BuildType(d: Definition, g: GraphId): (r: NamedType)
    requires d.TypeDefinition?
    ensures r.name == d.name && r.description == d.description && r.extensionASTNodes == None
    ensures WellFormed(r) && NamedTypeIn(r, g)
  {
    match d.body
    case ScalarBody => ScalarType(d.name, d.description, None)
    case ObjectBody(ifaces, fields) =>
      ObjectType(d.name, d.description, BuildRefs(ifaces, g), BuildFieldNodes(fields, g), None)
    case InterfaceBody(ifaces, fields) =>
      InterfaceType(d.name, d.description, BuildRefs(ifaces, g), BuildFieldNodes(fields, g), None)
    case UnionBody(members) => UnionType(d.name, d.description, BuildRefs(members, g), None)
    case EnumBody(values) => EnumType(d.name, d.description, BuildEnumValues(values), None)
    case InputObjectBody(inputFields) =>
      InputObjectType(d.name, d.description, BuildInputValueMap(inputFields, g), None)
  }

  /** One new type per definition, keyed by its name, in definition order. */
  function BuildTypeMap(defs: seq<Definition>, g: GraphId): (r: OrderedMap<NamedType>)
    requires forall i :: 0 <= i < |defs| ==> defs[i].TypeDefinition?
    ensures Valid(r)
    ensures forall k :: k in r.entries ==>
              r.entries[k].name == k && WellFormed(r.entries[k]) && NamedTypeIn(r.entries[k], g)
    ensures forall k :: k in r.entries <==> exists i :: 0 <= i < |defs| && defs[i].name == k
  {
    var key := (d: Definition) requires d.TypeDefinition? => d.name;
    var build := (d: Definition) requires d.TypeDefinition? => BuildType(d, g);
    var r := FromSeq(defs, key, build);
    assert forall k :: k in r.entries ==>
        r.entries[k].name == k && WellFormed(r.entries[k]) && NamedTypeIn(r.entries[k], g) by {
      forall k | k in r.entries ensures r.entries[k].name == k && WellFormed(r.entries[k]) && NamedTypeIn(r.entries[k], g) {
        FromSeqEntries(defs, key, build, k);
      }
    }
    assert forall k :: k in r.entries <==> exists i :: 0 <= i < |defs| && defs[i].name == k by {
      forall k ensures k in r.entries <==> exists i :: 0 <= i < |defs| && defs[i].name == k {
        FromSeqEntries(defs, key, build, k);
      }
    }
    r
  }

  /** The last definition of a name decides the type built for it. */
  lemma BuildTypeMapLastWins(defs: seq<Definition>, g: GraphId, i: nat)
    requires forall j :: 0 <= j < |defs| ==> defs[j].TypeDefinition?
    requires i < |defs|
    requires forall j :: i < j < |defs| ==> defs[j].name != defs[i].name
    ensures defs[i].name in BuildTypeMap(defs, g).entries
    ensures BuildTypeMap(defs, g).entries[defs[i].name] == BuildType(defs[i], g)
  {
    var key := (d: Definition) requires d.TypeDefinition? => d.name;
    var build := (d: Definition) requires d.TypeDefinition? => BuildType(d, g);
    FromSeqLastWins(defs, key, build, i);
  }

  function BuildDirective(d: Definition, g: GraphId): (r: Directive)
    requires d.DirectiveDefinition?
    ensures r.name == d.name && Valid(r.args) && InputValuesIn(r.args, g)
  {
    Directive(d.name, d.description, BuildInputValueMap(d.args, g), d.locations)
  }

  function BuildDirectives(defs: seq<Definition>, g: GraphId): (r: seq<Directive>)
    requires forall i :: 0 <= i < |defs| ==> defs[i].DirectiveDefinition?
    ensures |r| == |defs|
    ensures forall i :: 0 <= i < |defs| ==> r[i] == BuildDirective(defs[i], g)
  {
    seq(|defs|, i requires 0 <= i < |defs| => BuildDirective(defs[i], g))
  }

  function OperationTypeNodesOf(d: Definition): seq<OperationTypeNode> {
    if d.SchemaDefinition? || d.SchemaExtension? then d.operationTypes else []
  }

  /** The root types the nodes declare; a later declaration of the same operation wins. */
  function GetOperationTypes(nodes: seq<Definition>, g: GraphId): (r: map<Operation, NamedRef>)
    ensures forall op :: op in r ==> r[op].graph == g
  {
    if nodes == [] then map[]
    else
      var declared := OperationTypeNodesOf(nodes[|nodes| - 1]);
      DeclareAll(GetOperationTypes(nodes[..|nodes| - 1], g), declared, g)
  }

  function DeclareAll(m: map<Operation, NamedRef>, declared: seq<OperationTypeNode>, g: GraphId)
    : (r: map<Operation, NamedRef>)
    requires forall op :: op in m ==> m[op].graph == g
    ensures forall op :: op in r ==> r[op].graph == g
  {
    if declared == [] then m
    else
      var last := declared[|declared| - 1];
      DeclareAll(m, declared[..|declared| - 1], g)[last.operation := NamedRef(last.typeName, g)]
  }
}
