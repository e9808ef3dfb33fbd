/**
 * The parsed SDL document, reduced to what schema extension reads from it.
 * Descriptions stand for every configuration field copied verbatim.
 */
module Language {

  type Name = string

  /** The three root operations of a schema. */
  datatype Operation = Query | Mutation | Subscription

  /** A type as written in SDL: `Foo`, `[Foo]`, `Foo!`, nested arbitrarily. */
  datatype TypeNode = NamedTypeNode(name: Name) | ListTypeNode(ofType: TypeNode) | NonNullTypeNode(ofType: TypeNode)

  /** An argument or an input field: `name: Type`. */
  datatype InputValueNode = InputValueNode(name: Name, description: string, typeNode: TypeNode)

  /** An output field: `name(args): Type`. */
  datatype FieldNode = FieldNode(name: Name, description: string, args: seq<InputValueNode>, typeNode: TypeNode)

  datatype EnumValueNode = EnumValueNode(name: Name, description: string)

  /** `query: Foo` inside `schema { ... }` or `extend schema { ... }`. */
  datatype OperationTypeNode = OperationTypeNode(operation: Operation, typeName: Name)

  /** The members a type definition or type extension declares, one variant per kind. */
  datatype TypeBody =
    | ScalarBody
    | ObjectBody(interfaces: seq<Name>, fields: seq<FieldNode>)
    | InterfaceBody(interfaces: seq<Name>, fields: seq<FieldNode>)
    | UnionBody(types: seq<Name>)
    | EnumBody(values: seq<EnumValueNode>)
    | InputObjectBody(inputFields: seq<InputValueNode>)

  /**
   * A top-level definition of the document. `ExecutableDefinition` stands for
   * operations and fragments, which schema extension ignores.
   */
  datatype Definition =
    | SchemaDefinition(operationTypes: seq<OperationTypeNode>)
    | SchemaExtension(operationTypes: seq<OperationTypeNode>)
    | TypeDefinition(name: Name, description: string, body: TypeBody)
    | TypeExtension(name: Name, body: TypeBody)
    | DirectiveDefinition(name: Name, description: string, args: seq<InputValueNode>, locations: seq<Name>)
    | ExecutableDefinition(name: Name)

  /** The five groups the collector sorts definitions into, and the rest. */
  datatype DefinitionKind = SchemaDefinitionKind | SchemaExtensionKind | TypeDefinitionKind
                          | TypeExtensionKind | DirectiveDefinitionKind | IgnoredKind

  function KindOf(d: Definition): DefinitionKind {
    match d
    case SchemaDefinition(_) => SchemaDefinitionKind
    case SchemaExtension(_) => SchemaExtensionKind
    case TypeDefinition(_, _, _) => TypeDefinitionKind
    case TypeExtension(_, _) => TypeExtensionKind
    case DirectiveDefinition(_, _, _, _) => DirectiveDefinitionKind
    case ExecutableDefinition(_) => IgnoredKind
  }

  /** `node.fields || []` for the kinds that carry output fields. */
  function FieldNodes(b: TypeBody): seq<FieldNode> {
    if b.ObjectBody? || b.InterfaceBody? then b.fields else []
  }

  /** `node.interfaces || []`. */
  function InterfaceNames(b: TypeBody): seq<Name> {
    if b.ObjectBody? || b.InterfaceBody? then b.interfaces else []
  }

  function MemberNames(b: TypeBody): seq<Name> {
    if b.UnionBody? then b.types else []
  }

  function EnumValueNodes(b: TypeBody): seq<EnumValueNode> {
    if b.EnumBody? then b.values else []
  }

  function InputFieldNodes(b: TypeBody): seq<InputValueNode> {
    if b.InputObjectBody? then b.inputFields else []
  }
}
