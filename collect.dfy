/**
 * The first phase of schema extension: sort the document's definitions into
 * the schema definition, schema extensions, new type definitions, type
 * extensions keyed by the name they extend, and directive definitions.
 */
module Collect {
  import opened Wrappers
  import opened Language

  datatype Collected = Collected(
    schemaDef: Option<Definition>,
    schemaExtensions: seq<Definition>,
    typeDefs: seq<Definition>,
    typeExtensionsMap: map<Name, seq<Definition>>,
    directiveDefs: seq<Definition>)

  // ---------------------------------------------------------------------------
  // What the collection is, stated on the whole document.

  /** The definitions of kind `k`, in document order. */
  function OfKind(defs: seq<Definition>, k: DefinitionKind): (r: seq<Definition>)
    ensures forall i :: 0 <= i < |r| ==> KindOf(r[i]) == k
    ensures |r| <= |defs|
  {
    if defs == [] then []
    else
      var last := defs[|defs| - 1];
      OfKind(defs[..|defs| - 1], k) + (if KindOf(last) == k then [last] else [])
  }

  /** A group holds exactly the document's definitions of its kind. */
  lemma {:induction false} OfKindMembers(defs: seq<Definition>, k: DefinitionKind)
    ensures forall d :: d in OfKind(defs, k) <==> d in defs && KindOf(d) == k
  {
    if defs != [] {
      var init := defs[..|defs| - 1];
      OfKindMembers(init, k);
      assert forall d :: d in defs <==> d in init || d == defs[|defs| - 1];
    }
  }

  /** The type extensions of `name`, in document order. */
  function ExtensionsOf(defs: seq<Definition>, name: Name): (r: seq<Definition>)
    ensures forall d :: d in r <==> d in defs && d.TypeExtension? && d.name == name
  {
    if defs == [] then []
    else
      var last := defs[|defs| - 1];
      ExtensionsOf(defs[..|defs| - 1], name) + (if last.TypeExtension? && last.name == name then [last] else [])
  }

  /** The names that some type extension of the document extends. */
  function ExtendedNames(defs: seq<Definition>): set<Name> {
    if defs == [] then {}
    else
      var last := defs[|defs| - 1];
      ExtendedNames(defs[..|defs| - 1]) + (if last.TypeExtension? then {last.name} else {})
  }

  /** A name is extended exactly when it has extensions. */
  lemma {:induction false} ExtendedNamesHave(defs: seq<Definition>, n: Name)
    ensures n in ExtendedNames(defs) <==> ExtensionsOf(defs, n) != []
  {
    if defs != [] {
      var init, last := defs[..|defs| - 1], defs[|defs| - 1];
      ExtendedNamesHave(init, n);
      assert defs == init + [last];
      ExtensionsOfStep(init, last, n);
    }
  }

  /** Every extended name, mapped to its extensions. */
  function ExtensionsMap(defs: seq<Definition>): map<Name, seq<Definition>> {
    map n | n in ExtendedNames(defs) :: ExtensionsOf(defs, n)
  }

  /** The last schema definition of the document, if any. */
  function LastSchemaDefinition(defs: seq<Definition>): (r: Option<Definition>)
    ensures r.None? <==> forall d :: d in defs ==> !d.SchemaDefinition?
    ensures r.Some? ==> exists i :: 0 <= i < |defs| && defs[i] == r.value && r.value.SchemaDefinition?
                                   && forall j :: i < j < |defs| ==> !defs[j].SchemaDefinition?
  {
    if defs == [] then None
    else if defs[|defs| - 1].SchemaDefinition? then Some(defs[|defs| - 1])
    else
      var r := LastSchemaDefinition(defs[..|defs| - 1]);
      assert forall d :: d in defs ==> d in defs[..|defs| - 1] || d == defs[|defs| - 1];
      r
  }

  /** What the collection loop produces for `defs`. */
  function Collection(defs: seq<Definition>): Collected {
    Collected(LastSchemaDefinition(defs), OfKind(defs, SchemaExtensionKind), OfKind(defs, TypeDefinitionKind),
              ExtensionsMap(defs), OfKind(defs, DirectiveDefinitionKind))
  }

  /** The names the new type definitions define. */
  function DefinedNames(typeDefs: seq<Definition>): set<Name> {
    set d | d in typeDefs && d.TypeDefinition? :: d.name
  }

  /** True when the document contributes nothing to the schema. */
  predicate ContributesNothing(c: Collected) {
    |c.typeExtensionsMap| == 0 && |c.typeDefs| == 0 && |c.directiveDefs| == 0
    && |c.schemaExtensions| == 0 && c.schemaDef.None?
  }

  // ---------------------------------------------------------------------------
  // The collection loop.

  method CollectDefinitions(defs: seq<Definition>) returns (c: Collected)
    ensures c == Collection(defs)
  {
    var typeDefs: seq<Definition> := [];
    var typeExtensionsMap: map<Name, seq<Definition>> := map[];
    var directiveDefs: seq<Definition> := [];
    var schemaDef: Option<Definition> := None;
    var schemaExtensions: seq<Definition> := [];
    var i := 0;
    while i < |defs|
      invariant 0 <= i <= |defs|
      invariant schemaDef == LastSchemaDefinition(defs[..i])
      invariant schemaExtensions == OfKind(defs[..i], SchemaExtensionKind)
      invariant typeDefs == OfKind(defs[..i], TypeDefinitionKind)
      invariant typeExtensionsMap == ExtensionsMap(defs[..i])
      invariant directiveDefs == OfKind(defs[..i], DirectiveDefinitionKind)
    {
      var def := defs[i];
      ghost var done := defs[..i];
      assert defs[..i + 1] == done + [def];
      LastSchemaDefinitionStep(done, def);
      OfKindStep(done, def, SchemaExtensionKind);
      OfKindStep(done, def, TypeDefinitionKind);
      OfKindStep(done, def, DirectiveDefinitionKind);
      ExtensionsMapStep(done, def);
      if def.SchemaDefinition? {
        schemaDef := Some(def);
      } else if def.SchemaExtension? {
        schemaExtensions := schemaExtensions + [def];
      } else if def.TypeDefinition? {
        typeDefs := typeDefs + [def];
      } else if def.TypeExtension? {
        var extendedTypeName := def.name;
        var existing := if extendedTypeName in typeExtensionsMap then typeExtensionsMap[extendedTypeName] else [];
        typeExtensionsMap := typeExtensionsMap[extendedTypeName := existing + [def]];
      } else if def.DirectiveDefinition? {
        directiveDefs := directiveDefs + [def];
      }
      i := i + 1;
    }
    assert defs[..i] == defs;
    c := Collected(schemaDef, schemaExtensions, typeDefs, typeExtensionsMap, directiveDefs);
  }

  /** Appending one definition appends it to its own group only. */
  lemma OfKindStep(s: seq<Definition>, d: Definition, k: DefinitionKind)
    ensures KindOf(d) == k ==> OfKind(s + [d], k) == OfKind(s, k) + [d]
    ensures KindOf(d) != k ==> OfKind(s + [d], k) == OfKind(s, k)
  {
    assert (s + [d])[..|s|] == s;
    assert OfKind(s, k) + [] == OfKind(s, k);
  }

  lemma LastSchemaDefinitionStep(s: seq<Definition>, d: Definition)
    ensures d.SchemaDefinition? ==> LastSchemaDefinition(s + [d]) == Some(d)
    ensures !d.SchemaDefinition? ==> LastSchemaDefinition(s + [d]) == LastSchemaDefinition(s)
  {
    assert (s + [d])[..|s|] == s;
  }

  lemma ExtensionsOfStep(s: seq<Definition>, d: Definition, n: Name)
    ensures ExtensionsOf(s + [d], n) == ExtensionsOf(s, n) + (if d.TypeExtension? && d.name == n then [d] else [])
  {
    assert (s + [d])[..|s|] == s;
  }

  lemma ExtendedNamesStep(s: seq<Definition>, d: Definition)
    ensures ExtendedNames(s + [d]) == ExtendedNames(s) + (if d.TypeExtension? then {d.name} else {})
  {
    assert (s + [d])[..|s|] == s;
  }

  lemma ExtensionsMapEntryStep(s: seq<Definition>, d: Definition, n: Name)
    requires n in ExtensionsMap(s + [d])
    ensures ExtensionsMap(s + [d])[n] ==
              (if n in ExtensionsMap(s) then ExtensionsMap(s)[n] else []) + (if d.TypeExtension? && d.name == n then [d] else [])
  {
    ExtensionsOfStep(s, d, n);
    ExtendedNamesHave(s, n);
  }

  /** Appending one definition touches at most the entry of the name it extends. */
  lemma ExtensionsMapStep(s: seq<Definition>, d: Definition)
    ensures d.TypeExtension? ==>
              ExtensionsMap(s + [d]) ==
              ExtensionsMap(s)[d.name := (if d.name in ExtensionsMap(s) then ExtensionsMap(s)[d.name] else []) + [d]]
    ensures !d.TypeExtension? ==> ExtensionsMap(s + [d]) == ExtensionsMap(s)
  {
    var t := s + [d];
    var before, after := ExtensionsMap(s), ExtensionsMap(t);
    var expected := if d.TypeExtension? then before[d.name := (if d.name in before then before[d.name] else []) + [d]]
                    else before;
    ExtendedNamesStep(s, d);
    assert after.Keys == expected.Keys;
    forall n | n in after ensures after[n] == expected[n] {
      ExtensionsMapEntryStep(s, d, n);
    }
  }

  // ---------------------------------------------------------------------------
  // Properties of the collection.

  /** Every group keeps document order: collecting a concatenation concatenates the groups. */
  lemma {:induction false} OfKindAppend(a: seq<Definition>, b: seq<Definition>, k: DefinitionKind)
    ensures OfKind(a + b, k) == OfKind(a, k) + OfKind(b, k)
  {
    if b != [] {
      var b', last := b[..|b| - 1], b[|b| - 1];
      assert a + b == (a + b') + [last];
      assert b == b' + [last];
      OfKindAppend(a, b', k);
      OfKindStep(a + b', last, k);
      OfKindStep(b', last, k);
    } else {
      assert a + b == a;
    }
  }

  /** Extensions of one name keep document order across a concatenation. */
  lemma {:induction false} ExtensionsOfAppend(a: seq<Definition>, b: seq<Definition>, name: Name)
    ensures ExtensionsOf(a + b, name) == ExtensionsOf(a, name) + ExtensionsOf(b, name)
  {
    if b != [] {
      var b', last := b[..|b| - 1], b[|b| - 1];
      assert a + b == (a + b') + [last];
      assert b == b' + [last];
      ExtensionsOfAppend(a, b', name);
      ExtensionsOfStep(a + b', last, name);
      ExtensionsOfStep(b', last, name);
    } else {
      assert a + b == a;
    }
  }

  /** `typeExtensionsMap[n]` exists exactly for the extended names and holds exactly their extension nodes. */
  lemma TypeExtensionsOfName(defs: seq<Definition>, n: Name)
    ensures n in Collection(defs).typeExtensionsMap <==> exists d :: d in defs && d.TypeExtension? && d.name == n
    ensures n in Collection(defs).typeExtensionsMap ==>
              forall d :: d in Collection(defs).typeExtensionsMap[n] <==> d in defs && d.TypeExtension? && d.name == n
  {
    ExtendedNamesHave(defs, n);
    if n in ExtendedNames(defs) {
      var d := ExtensionsOf(defs, n)[0];
      assert d in ExtensionsOf(defs, n);
    }
    if exists d :: d in defs && d.TypeExtension? && d.name == n {
      var d :| d in defs && d.TypeExtension? && d.name == n;
      assert d in ExtensionsOf(defs, n);
    }
  }

  /** The sizes of the six groups of `defs`, added up. */
  function GroupSizes(defs: seq<Definition>): nat {
    |OfKind(defs, SchemaDefinitionKind)| + |OfKind(defs, SchemaExtensionKind)|
    + |OfKind(defs, TypeDefinitionKind)| + |OfKind(defs, TypeExtensionKind)|
    + |OfKind(defs, DirectiveDefinitionKind)| + |OfKind(defs, IgnoredKind)|
  }

  /**
   * Every definition falls into exactly one of the six kinds: the groups
   * together are as long as the document, and each holds only its kind.
   */
  lemma {:induction false} PartitionByKind(defs: seq<Definition>)
    ensures GroupSizes(defs) == |defs|
  {
    if defs != [] {
      var init, last := defs[..|defs| - 1], defs[|defs| - 1];
      PartitionByKind(init);
      assert defs == init + [last];
      forall k ensures |OfKind(defs, k)| == |OfKind(init, k)| + (if KindOf(last) == k then 1 else 0) {
        OfKindStep(init, last, k);
      }
    }
  }

  /** A later schema definition replaces an earlier one. */
  lemma {:induction false} LaterSchemaDefinitionWins(a: seq<Definition>, b: seq<Definition>)
    ensures LastSchemaDefinition(a + b) ==
      if LastSchemaDefinition(b).Some? then LastSchemaDefinition(b) else LastSchemaDefinition(a)
  {
    if b != [] {
      var b', last := b[..|b| - 1], b[|b| - 1];
      assert a + b == (a + b') + [last];
      assert b == b' + [last];
      LaterSchemaDefinitionWins(a, b');
      LastSchemaDefinitionStep(a + b', last);
      LastSchemaDefinitionStep(b', last);
    } else {
      assert a + b == a;
    }
  }

  /** The document contributes nothing exactly when all its definitions are of ignored kinds. */
  lemma ContributesNothingIff(defs: seq<Definition>)
    ensures ContributesNothing(Collection(defs)) <==> forall d :: d in defs ==> KindOf(d) == IgnoredKind
  {
    if forall d :: d in defs ==> KindOf(d) == IgnoredKind {
      NoExtensionsNoNames(defs);
      NoneOfKind(defs, SchemaExtensionKind);
      NoneOfKind(defs, TypeDefinitionKind);
      NoneOfKind(defs, DirectiveDefinitionKind);
      assert ExtensionsMap(defs) == map[];
    } else {
      var d :| d in defs && KindOf(d) != IgnoredKind;
      if d.TypeExtension? {
        assert d in ExtensionsOf(defs, d.name);
        ExtendedNamesHave(defs, d.name);
        assert d.name in ExtensionsMap(defs);
      } else if d.TypeDefinition? {
        OfKindMembers(defs, TypeDefinitionKind);
      } else if d.DirectiveDefinition? {
        OfKindMembers(defs, DirectiveDefinitionKind);
      } else if d.SchemaExtension? {
        OfKindMembers(defs, SchemaExtensionKind);
      }
    }
  }

  lemma {:induction false} NoExtensionsNoNames(defs: seq<Definition>)
    requires forall d :: d in defs ==> !d.TypeExtension?
    ensures ExtendedNames(defs) == {}
  {
    if defs != [] {
      NoExtensionsNoNames(defs[..|defs| - 1]);
    }
  }

  lemma {:induction false} NoneOfKind(defs: seq<Definition>, k: DefinitionKind)
    requires forall d :: d in defs ==> KindOf(d) != k
    ensures OfKind(defs, k) == []
  {
    if defs != [] {
      NoneOfKind(defs[..|defs| - 1], k);
    }
  }
}
