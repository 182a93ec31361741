/**
 Small questions asked of syntax-tree nodes: is this the discard name `_`, is this a bare
 (unqualified) identifier, which node is the leading name of a qualified path, is this
 the name of an enum variant, is this the name of an attribute.
 */
module AstHelpers {
  import opened Wrappers
  import opened SyntaxTree
  import Paths

  /** The node's text is the discard name `_`. */
  function IsUnderscore(t: Tree, n: NodeId): (b: bool)
    requires n < |t.nodes|
    ensures b <==> t.Text(n) == "_"
    ensures b ==> |t.Text(n)| == 1
  {
    t.Text(n) == "_"
  }

  /** A type identifier that does not stand inside a qualified type path. The parent
      is read only for a type identifier, so a parentless node of another kind (the
      root) is simply not one. */
  function IsSimpleTypeIdentifier(t: Tree, n: NodeId): (b: bool)
    requires t.Valid() && n < |t.nodes|
    requires t.Kind(n) == TypeIdentifier ==> t.Parent(n).Some?
    ensures b <==> t.Kind(n) == TypeIdentifier && t.Kind(t.Parent(n).value) != ScopedTypeIdentifier
  {
    t.Kind(n) == TypeIdentifier && t.Kind(t.Parent(n).value) != ScopedTypeIdentifier
  }

  /** An identifier that does not stand inside a qualified path; as above, the parent
      is read only for an identifier. */
  function IsSimpleIdentifier(t: Tree, n: NodeId): (b: bool)
    requires t.Valid() && n < |t.nodes|
    requires t.Kind(n) == Identifier ==> t.Parent(n).Some?
    ensures b <==> t.Kind(n) == Identifier && t.Kind(t.Parent(n).value) != ScopedIdentifier
  {
    t.Kind(n) == Identifier && t.Kind(t.Parent(n).value) != ScopedIdentifier
  }

  /** What the grammar guarantees and the leading-name search relies on: a bracketed
      type has a named child, and a qualified type and a generic type have a `type`. */
  predicate LeadingNameGrammar(t: Tree)
    requires t.Valid()
  {
    && t.HasNamedChild(BracketedType)
    && t.HasField(QualifiedType, "type")
    && t.HasField(GenericType, "type")
  }

  predicate IsNameKind(kind: string) {
    kind == Identifier || kind == TypeIdentifier
  }

  /** The kinds of `path` field the leading-name search looks into; at any other kind
      (`self`, `crate`, `super`, a metavariable, ...) it finds no name. */
  predicate IsPathHeadKind(kind: string) {
    kind == Identifier || kind == ScopedIdentifier || kind == BracketedType || kind == GenericType
  }

  /** The leftmost name of a qualified path `a::b::c` (or `<T as U>::x`, `T<U>::x`):
      the node that a use of the path actually looks up. None when the path has no
      head (`::x`) or its head is of a kind with no name to lead with. */
  function LeadingNameOfScopedIdentifier(t: Tree, n: NodeId): (r: Option<NodeId>)
    requires t.Valid() && LeadingNameGrammar(t) && n < |t.nodes|
    requires t.Kind(n) == ScopedTypeIdentifier || t.Kind(n) == ScopedIdentifier
    ensures t.Field(n, "path").None? ==> r.None?
    ensures t.Field(n, "path").Some? ==>
              var path := t.Field(n, "path").value;
              && (t.Kind(path) == Identifier ==> r == Some(path))
              && (!IsPathHeadKind(t.Kind(path)) ==> r.None?)
    ensures r.Some? ==> r.value < |t.nodes| && IsNameKind(t.Kind(r.value))
    ensures r.Some? ==> t.IsAncestor(n, r.value)
    decreases |t.nodes| - n, 0
  {
    match t.Field(n, "path")
    case None => None
    case Some(path) =>
      var k := t.Kind(path);
      var r := if k == Identifier then Some(path)
               else if k == ScopedIdentifier then LeadingNameOfScopedIdentifier(t, path)
               else if k == BracketedType then LeadingNameOfBracketedType(t, path)
               else if k == GenericType then
                 var ty := t.Field(path, "type").value;
                 var r := LeadingNameOfType(t, ty);
                 LeadLiftsToParent(t, path, ty, r);
                 r
               else None;
      LeadLiftsToParent(t, n, path, r);
      r
  }

  /** The leftmost name of a bracketed type used as a path head: of `T` in
      `<T as U>`, and of the type itself in `<T>`. */
  function LeadingNameOfBracketedType(t: Tree, n: NodeId): (r: Option<NodeId>)
    requires t.Valid() && LeadingNameGrammar(t) && n < |t.nodes|
    requires t.Kind(n) == BracketedType
    ensures r.Some? ==> r.value < |t.nodes| && IsNameKind(t.Kind(r.value))
    ensures r.Some? ==> t.IsAncestor(n, r.value)
    decreases |t.nodes| - n, 0
  {
    var inner := t.FirstNonCommentNamedChild(n).value;
    if t.Kind(inner) == QualifiedType then
      var ty := t.Field(inner, "type").value;
      var r := LeadingNameOfType(t, ty);
      LeadLiftsToParent(t, inner, ty, r);
      LeadLiftsToParent(t, n, inner, r);
      r
    else
      var r := LeadingNameOfType(t, inner);
      LeadLiftsToParent(t, n, inner, r);
      r
  }

  /** A name found at or below a child is strictly below the child's parent. */
  lemma LeadLiftsToParent(t: Tree, a: NodeId, c: NodeId, r: Option<NodeId>)
    requires t.Valid() && c < |t.nodes| && t.nodes[c].parent == Some(a)
    requires r.Some? ==> r.value < |t.nodes| && (r.value == c || t.IsAncestor(c, r.value))
    ensures r.Some? ==> t.IsAncestor(a, r.value)
  {
    if r.Some? && r.value != c {
      AncestorThroughParent(t, a, c, r.value);
    }
  }

  /** The leftmost name of a type: the type identifier itself, or the leading name of
      a qualified type path; None for every other kind of type. */
  function LeadingNameOfType(t: Tree, n: NodeId): (r: Option<NodeId>)
    requires t.Valid() && LeadingNameGrammar(t) && n < |t.nodes|
    ensures t.Kind(n) == TypeIdentifier ==> r == Some(n)
    ensures t.Kind(n) != TypeIdentifier && t.Kind(n) != ScopedTypeIdentifier ==> r.None?
    ensures r.Some? ==> r.value < |t.nodes| && IsNameKind(t.Kind(r.value))
    ensures r.Some? ==> r.value == n || t.IsAncestor(n, r.value)
    decreases |t.nodes| - n, 1
  {
    if t.Kind(n) == TypeIdentifier then Some(n)
    else if t.Kind(n) == ScopedTypeIdentifier then LeadingNameOfScopedIdentifier(t, n)
    else None
  }

  /** For a plain `a::b::c` path whose head is an identifier, the leading name is that
      head, and it is the node whose text `Paths.FromNode` puts in the first segment. */
  lemma {:induction false} LeadingNameIsPathHead(t: Tree, n: NodeId)
    requires t.Valid() && LeadingNameGrammar(t) && n < |t.nodes|
    requires t.Kind(n) == ScopedIdentifier
    requires var chain := Paths.PathChain(t, n);
             |chain| > 1 && t.Kind(chain[|chain| - 1]) == Identifier
    ensures var chain := Paths.PathChain(t, n);
            LeadingNameOfScopedIdentifier(t, n) == Some(chain[|chain| - 1])
    ensures t.HasField(ScopedIdentifier, "name") && Paths.PathsPresent(t, n) ==>
              var chain := Paths.PathChain(t, n);
              && Paths.FromNode(t, n).Some?
              && Paths.FromNode(t, n).value.segments[0] == t.Text(chain[|chain| - 1])
    decreases |t.nodes| - n
  {
    var chain := Paths.PathChain(t, n);
    var path := t.Field(n, "path").value;
    var rest := Paths.PathChain(t, path);
    assert chain == [n] + rest;
    if t.Kind(path) != Identifier {
      LeadingNameIsPathHead(t, path);
    }
    if t.HasField(ScopedIdentifier, "name") && Paths.PathsPresent(t, n) {
      Paths.FromNodeFailsIffHeadBlocks(t, n);
      Paths.FromNodeSegmentsFollowChain(t, n);
    }
  }

  /** At any depth, the leading name of `x::...::y` is decided by the head of the
      chain of its `path` field: that identifier itself; the leading name of a
      bracketed or generic head; and None for any other head (`crate`, `self`,
      `super`, a metavariable, or a scoped identifier with no path, as in `::a`). */
  lemma {:induction false} LeadingNameFollowsChain(t: Tree, n: NodeId)
    requires t.Valid() && LeadingNameGrammar(t) && n < |t.nodes|
    requires t.Kind(n) == ScopedTypeIdentifier || t.Kind(n) == ScopedIdentifier
    requires t.Field(n, "path").Some?
    ensures var chain := Paths.PathChain(t, t.Field(n, "path").value);
            var head := chain[|chain| - 1];
            var r := LeadingNameOfScopedIdentifier(t, n);
            && (t.Kind(head) == Identifier ==> r == Some(head))
            && (t.Kind(head) == BracketedType ==> r == LeadingNameOfBracketedType(t, head))
            && (t.Kind(head) == GenericType ==>
                  t.Field(head, "type").Some? && r == LeadingNameOfType(t, t.Field(head, "type").value))
            && (!IsPathHeadKind(t.Kind(head)) || t.Kind(head) == ScopedIdentifier ==> r.None?)
    decreases |t.nodes| - n
  {
    var path := t.Field(n, "path").value;
    assert t.HasField(GenericType, "type");
    if t.Kind(path) == ScopedIdentifier && t.Field(path, "path").Some? {
      assert Paths.PathChain(t, path) == [path] + Paths.PathChain(t, t.Field(path, "path").value);
      LeadingNameFollowsChain(t, path);
    }
  }

  /** In a type position, `a::b::C` leads with `a` as well: a scoped type identifier
      leads with the head of the chain of its `path` field when that head is an
      identifier. */
  lemma LeadingNameOfTypeIsPathHead(t: Tree, n: NodeId)
    requires t.Valid() && LeadingNameGrammar(t) && n < |t.nodes|
    requires t.Kind(n) == ScopedTypeIdentifier && t.Field(n, "path").Some?
    requires var chain := Paths.PathChain(t, t.Field(n, "path").value);
             t.Kind(chain[|chain| - 1]) == Identifier
    ensures var chain := Paths.PathChain(t, t.Field(n, "path").value);
            LeadingNameOfType(t, n) == Some(chain[|chain| - 1])
  {
    var path := t.Field(n, "path").value;
    if t.Kind(path) == ScopedIdentifier {
      LeadingNameIsPathHead(t, path);
    }
  }

  /** A path headed by a type, `T<U>::x` or `<T as U>::x` or `<T>::x`, leads with that
      type's leading name: `T` itself when `T` is a type identifier. A scoped type
      identifier, as a type, leads with the leading name of its path. */
  lemma LeadingNameOfTypeHead(t: Tree, n: NodeId)
    requires t.Valid() && LeadingNameGrammar(t) && n < |t.nodes|
    requires t.Kind(n) == ScopedTypeIdentifier || t.Kind(n) == ScopedIdentifier
    requires t.Field(n, "path").Some?
    ensures t.Kind(n) == ScopedTypeIdentifier ==> LeadingNameOfType(t, n) == LeadingNameOfScopedIdentifier(t, n)
    ensures var path := t.Field(n, "path").value;
            t.Kind(path) == GenericType ==>
              var ty := t.Field(path, "type").value;
              && LeadingNameOfScopedIdentifier(t, n) == LeadingNameOfType(t, ty)
              && (t.Kind(ty) == TypeIdentifier ==> LeadingNameOfScopedIdentifier(t, n) == Some(ty))
    ensures var path := t.Field(n, "path").value;
            t.Kind(path) == BracketedType ==>
              var inner := t.FirstNonCommentNamedChild(path).value;
              && (t.Kind(inner) == QualifiedType ==>
                    var ty := t.Field(inner, "type").value;
                    && LeadingNameOfScopedIdentifier(t, n) == LeadingNameOfType(t, ty)
                    && (t.Kind(ty) == TypeIdentifier ==> LeadingNameOfScopedIdentifier(t, n) == Some(ty)))
              && (t.Kind(inner) != QualifiedType ==>
                    && LeadingNameOfScopedIdentifier(t, n) == LeadingNameOfType(t, inner)
                    && (t.Kind(inner) == TypeIdentifier ==> LeadingNameOfScopedIdentifier(t, n) == Some(inner)))
  {
    var path := t.Field(n, "path").value;
    assert t.HasField(GenericType, "type") && t.HasNamedChild(BracketedType);
    if t.Kind(path) == BracketedType {
      var inner := t.FirstNonCommentNamedChild(path).value;
      assert t.HasField(QualifiedType, "type");
    }
  }

  /** The node is the declared name of an enum variant (`Bar` in `enum Foo { Bar }`),
      a position that is never a use of a name. */
  function IsEnumVariantName(t: Tree, n: NodeId): (b: bool)
    requires t.Valid() && n < |t.nodes| && t.Parent(n).Some?
    requires t.Kind(t.Parent(n).value) == EnumVariant ==> t.Field(t.Parent(n).value, "name").Some?
    ensures b <==> t.Kind(t.Parent(n).value) == EnumVariant && t.Field(t.Parent(n).value, "name") == Some(n)
  {
    var parent := t.Parent(n).value;
    t.Kind(parent) == EnumVariant && n == t.Field(parent, "name").value
  }

  /** The kinds of node an attribute name may be nested in below the attribute. */
  predicate ClimbsThrough(kind: string) {
    kind == Identifier || kind == ScopedIdentifier
  }

  /** Climbing from `n` through identifier and scoped-identifier parents reaches an
      attribute whose first named child is the node climbed from. */
  predicate AttributeNameFrom(t: Tree, n: NodeId)
    requires t.Valid() && n < |t.nodes|
    decreases n
  {
    match t.Parent(n)
    case None => false
    case Some(p) =>
      if t.Kind(p) == Attribute then t.FirstNonCommentNamedChild(p) == Some(n)
      else if ClimbsThrough(t.Kind(p)) then AttributeNameFrom(t, p)
      else false
  }

  /** The ancestor `k` levels up is an attribute whose first named child is the
      ancestor `k - 1` levels up, and every ancestor in between is an identifier or a
      scoped identifier. */
  ghost predicate AttributeChain(t: Tree, n: NodeId, k: nat)
    requires t.Valid() && n < |t.nodes|
  {
    && k >= 1
    && t.AncestorAt(n, k).Some?
    && t.Kind(t.AncestorAt(n, k).value) == Attribute
    && t.FirstNonCommentNamedChild(t.AncestorAt(n, k).value) == t.AncestorAt(n, k - 1)
    && forall j | 1 <= j < k :: t.AncestorAt(n, j).Some? && ClimbsThrough(t.Kind(t.AncestorAt(n, j).value))
  }

  /** The recursive climb holds exactly when some ancestor level closes an attribute chain. */
  lemma {:induction false} AttributeNameIffChain(t: Tree, n: NodeId)
    requires t.Valid() && n < |t.nodes|
    ensures AttributeNameFrom(t, n) <==> exists k :: AttributeChain(t, n, k)
    decreases n
  {
    match t.Parent(n)
    case None =>
      forall k: nat | AttributeChain(t, n, k) ensures false { }
    case Some(p) =>
      forall j: nat | j >= 1 ensures t.AncestorAt(n, j) == t.AncestorAt(p, j - 1) { }
      if t.Kind(p) == Attribute {
        assert t.AncestorAt(n, 1) == Some(p);
        if t.FirstNonCommentNamedChild(p) == Some(n) {
          assert AttributeChain(t, n, 1);
        } else {
          forall k: nat | AttributeChain(t, n, k) ensures false { }
        }
      } else if ClimbsThrough(t.Kind(p)) {
        AttributeNameIffChain(t, p);
        forall k: nat | AttributeChain(t, n, k) ensures k >= 2 && AttributeChain(t, p, k - 1) {
          assert t.AncestorAt(n, 1) == Some(p);
          forall j | 1 <= j < k - 1
            ensures t.AncestorAt(p, j).Some? && ClimbsThrough(t.Kind(t.AncestorAt(p, j).value))
          {
            assert t.AncestorAt(p, j) == t.AncestorAt(n, j + 1);
          }
        }
        forall k: nat | AttributeChain(t, p, k) ensures AttributeChain(t, n, k + 1) {
          forall j | 1 <= j < k + 1
            ensures t.AncestorAt(n, j).Some? && ClimbsThrough(t.Kind(t.AncestorAt(n, j).value))
          {
            if j >= 2 {
              assert t.AncestorAt(n, j) == t.AncestorAt(p, j - 1);
            }
          }
        }
        if AttributeNameFrom(t, p) {
          var k: nat :| AttributeChain(t, p, k);
          assert AttributeChain(t, n, k + 1);
        }
      } else {
        assert t.AncestorAt(n, 1) == Some(p);
        forall k: nat | AttributeChain(t, n, k) ensures false { }
      }
  }

  /** Whether `n` names an attribute (`#[n]`, `#[a::n]`): climbs the parent links while
      they are identifiers or scoped identifiers, and answers at the first other parent. */
  method IsAttributeName(t: Tree, n: NodeId) returns (b: bool)
    requires t.Valid() && t.HasNamedChild(Attribute) && n < |t.nodes|
    ensures b == AttributeNameFrom(t, n)
    ensures b <==> exists k :: AttributeChain(t, n, k)
  {
    AttributeNameIffChain(t, n);
    var node: NodeId := n;
    while true
      invariant node < |t.nodes|
      invariant AttributeNameFrom(t, node) == AttributeNameFrom(t, n)
      decreases node
    {
      var parent := t.Parent(node);
      if parent.None? {
        return false;
      }
      var p := parent.value;
      if t.Kind(p) == Attribute {
        return t.FirstNonCommentNamedChild(p) == Some(node);
      } else if !ClimbsThrough(t.Kind(p)) {
        return false;
      }
      node := p;
    }
  }
}
