/**
 Definitions: the declaration-site record of one named entity (its kind, its declared
 name node, the construct node and its visibility), and the parsing of a `pub…`
 visibility qualifier into one of six visibility values.
 */
module Definitions {
  import opened Wrappers
  import opened SyntaxTree
  import opened IdArena
  import opened Handles
  import Paths

  datatype DefinitionKind = Struct | Module | Function | ExternCrateDeclaration | Use

  datatype Visibility =
    | Pub
    | Private
    | PubInPath(path: Paths.SimplePath)
    | PubCrate
    | PubSuper
    | PubSelf

  /** The visibility of a declaration written without a qualifier. */
  const DefaultVisibility: Visibility := Private

  datatype Definition = Definition(kind: DefinitionKind, name: NodeId, node: NodeId, visibility: Visibility)

  /** Stores a definition under a fresh handle, exactly as given. */
  method New(arena: Arena<Definition>, kind: DefinitionKind, name: NodeId, node: NodeId, visibility: Visibility)
    returns (id: DefinitionId)
    modifies arena
    ensures id == old(|arena.items|)
    ensures arena.items == old(arena.items) + [Definition(kind, name, node, visibility)]
  {
    id := arena.Alloc(Definition(kind, name, node, visibility));
  }

  // Token kinds of a visibility qualifier.
  const PubToken := "pub"
  const OpenParen := "("
  const SelfToken := "self"
  const SuperToken := "super"
  const CrateToken := "crate"
  const InToken := "in"

  /** The shape of qualifier the parser accepts: `pub` alone, or `pub(` followed by
      `self`, `super`, `crate`, or by `in` and a path that `Paths.FromNode` reads.
      Any other shape is a grammar-contract violation at which the parser stops. */
  predicate WellFormedModifier(t: Tree, n: NodeId)
    requires t.Valid() && n < |t.nodes| && t.HasField(ScopedIdentifier, "name")
  {
    var toks := t.NonCommentChildren(n);
    && |toks| >= 1
    && t.Kind(toks[0]) == PubToken
    && (|toks| >= 2 ==>
          && t.Kind(toks[1]) == OpenParen
          && |toks| >= 3
          && (t.Kind(toks[2]) == SelfToken || t.Kind(toks[2]) == SuperToken
              || t.Kind(toks[2]) == CrateToken || t.Kind(toks[2]) == InToken)
          && (t.Kind(toks[2]) == InToken ==>
                && |toks| >= 4
                && Paths.PathsPresent(t, toks[3])
                && Paths.FromNode(t, toks[3]).Some?))
  }

  /** Parses a visibility qualifier from its non-comment tokens. */
  function FromVisibilityModifier(t: Tree, n: NodeId): (v: Visibility)
    requires t.Valid() && n < |t.nodes| && t.HasField(ScopedIdentifier, "name")
    requires WellFormedModifier(t, n)
    ensures v != Private
    ensures var toks := t.NonCommentChildren(n);
            && (v == Pub <==> |toks| == 1)
            && (v == PubSelf <==> |toks| >= 3 && t.Kind(toks[2]) == SelfToken)
            && (v == PubSuper <==> |toks| >= 3 && t.Kind(toks[2]) == SuperToken)
            && (v == PubCrate <==> |toks| >= 3 && t.Kind(toks[2]) == CrateToken)
            && (v.PubInPath? <==> |toks| >= 3 && t.Kind(toks[2]) == InToken)
            && (v.PubInPath? ==> Some(v.path) == Paths.FromNode(t, toks[3]))
  {
    var toks := t.NonCommentChildren(n);
    if |toks| == 1 then Pub
    else
      var k := t.Kind(toks[2]);
      if k == SelfToken then PubSelf
      else if k == SuperToken then PubSuper
      else if k == CrateToken then PubCrate
      else PubInPath(Paths.FromNode(t, toks[3]).value)
  }

  /** The leading token kinds that spell a visibility (none for the default). */
  function LeadingTokenKinds(v: Visibility): seq<string> {
    match v
    case Pub => [PubToken]
    case Private => []
    case PubSelf => [PubToken, OpenParen, SelfToken]
    case PubSuper => [PubToken, OpenParen, SuperToken]
    case PubCrate => [PubToken, OpenParen, CrateToken]
    case PubInPath(_) => [PubToken, OpenParen, InToken]
  }

  /** Parsing then spelling gives back the qualifier's leading tokens, and, for a path
      restriction, the path read from the token after `in`. */
  lemma ParsedVisibilitySpellsItsTokens(t: Tree, n: NodeId)
    requires t.Valid() && n < |t.nodes| && t.HasField(ScopedIdentifier, "name")
    requires WellFormedModifier(t, n)
    ensures var v := FromVisibilityModifier(t, n);
            var toks := t.NonCommentChildren(n);
            var spelled := LeadingTokenKinds(v);
            && 1 <= |spelled| <= |toks|
            && (forall i | 0 <= i < |spelled| :: t.Kind(toks[i]) == spelled[i])
            && (v == Pub ==> |toks| == |spelled|)
            && (v.PubInPath? ==> Paths.FromNode(t, toks[|spelled|]) == Some(v.path))
  {
  }

  /** The visibility of an item: parsed from its first named child when that child is
      a visibility qualifier, the default otherwise. */
  function FromItem(t: Tree, n: NodeId): (v: Visibility)
    requires t.Valid() && n < |t.nodes| && t.HasField(ScopedIdentifier, "name")
    requires t.FirstNonCommentNamedChild(n).Some?
    requires var first := t.FirstNonCommentNamedChild(n).value;
             t.Kind(first) == VisibilityModifier ==> WellFormedModifier(t, first)
    ensures var first := t.FirstNonCommentNamedChild(n).value;
            && (v == DefaultVisibility <==> t.Kind(first) != VisibilityModifier)
            && (t.Kind(first) == VisibilityModifier ==> v == FromVisibilityModifier(t, first))
  {
    var first := t.FirstNonCommentNamedChild(n).value;
    if t.Kind(first) == VisibilityModifier then FromVisibilityModifier(t, first)
    else DefaultVisibility
  }
}
