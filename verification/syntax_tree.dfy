/**
 The parsed syntax tree the analyser consumes, kept abstract: an arena of nodes, each
 with its grammar kind, its source text, whether it is a named node, an optional parent,
 its children in source order and its named fields.

 Nodes are numbered so that a parent always comes before its children (the order in
 which a depth-first parse creates them). Walking down therefore increases a node's
 index and walking up decreases it, which is what makes every descent and every climb
 over the tree terminate.
 */
module SyntaxTree {
  import opened Wrappers

  type NodeId = nat

  // Node kinds of the tree-sitter Rust grammar that the analyser inspects.
  const SourceFile := "source_file"
  const Identifier := "identifier"
  const TypeIdentifier := "type_identifier"
  const ScopedIdentifier := "scoped_identifier"
  const ScopedTypeIdentifier := "scoped_type_identifier"
  const BracketedType := "bracketed_type"
  const GenericType := "generic_type"
  const QualifiedType := "qualified_type"
  const Metavariable := "metavariable"
  const EnumVariant := "enum_variant"
  const Attribute := "attribute"
  const VisibilityModifier := "visibility_modifier"
  const LineComment := "line_comment"
  const BlockComment := "block_comment"

  datatype Node = Node(
    kind: string,
    text: string,
    named: bool,
    parent: Option<NodeId>,
    children: seq<NodeId>,
    fields: map<string, NodeId>)

  /** `r` is `cs` with some elements left out: what remains keeps its order. */
  predicate IsSubsequence(r: seq<NodeId>, cs: seq<NodeId>)
    decreases |cs|
  {
    if r == [] then true
    else if cs == [] then false
    else if r[0] == cs[0] then IsSubsequence(r[1..], cs[1..])
    else IsSubsequence(r, cs[1..])
  }

  /** Keeps the elements of `cs` that satisfy `keep`, in their original order. */
  function Filter(cs: seq<NodeId>, keep: NodeId -> bool): (r: seq<NodeId>)
    ensures forall x :: x in r <==> x in cs && keep(x)
    ensures |r| <= |cs|
  {
    if cs == [] then []
    else (if keep(cs[0]) then [cs[0]] else []) + Filter(cs[1..], keep)
  }

  /** Filtering keeps the order of what it keeps. */
  lemma {:induction false} FilterKeepsOrder(cs: seq<NodeId>, keep: NodeId -> bool)
    ensures IsSubsequence(Filter(cs, keep), cs)
    decreases |cs|
  {
    if cs != [] {
      var rest := Filter(cs[1..], keep);
      var r := Filter(cs, keep);
      FilterKeepsOrder(cs[1..], keep);
      if keep(cs[0]) {
        assert r[1..] == rest;
      } else {
        assert r == rest;
        assert r != [] ==> r[0] in cs[1..] && keep(r[0]);
      }
    }
  }

  /** The first element kept is the first element of `cs` that satisfies `keep`. */
  lemma {:induction false} FilterKeepsFirst(cs: seq<NodeId>, keep: NodeId -> bool)
    ensures Filter(cs, keep) != [] ==>
              exists i | 0 <= i < |cs| :: cs[i] == Filter(cs, keep)[0] && forall j | 0 <= j < i :: !keep(cs[j])
    decreases |cs|
  {
    if Filter(cs, keep) != [] {
      var i := FirstKept(cs, keep);
    }
  }

  /** The index of the first element of `cs` that satisfies `keep`, which is the
      first element filtering keeps. */
  lemma {:induction false} FirstKept(cs: seq<NodeId>, keep: NodeId -> bool) returns (i: nat)
    requires Filter(cs, keep) != []
    ensures i < |cs| && cs[i] == Filter(cs, keep)[0]
    ensures forall j | 0 <= j < i :: !keep(cs[j])
    decreases |cs|
  {
    if keep(cs[0]) {
      i := 0;
    } else {
      assert Filter(cs, keep) == Filter(cs[1..], keep);
      var k := FirstKept(cs[1..], keep);
      i := k + 1;
      forall j | 0 <= j < i ensures !keep(cs[j]) {
        if j > 0 {
          assert cs[j] == cs[1..][j - 1];
        }
      }
    }
  }

  /** No element occurs twice in `s`. */
  predicate Distinct(s: seq<NodeId>) {
    forall i, j | 0 <= i < j < |s| :: s[i] != s[j]
  }

  /** Filtering a sequence without repetitions gives one without repetitions. */
  lemma {:induction false} FilterKeepsDistinct(cs: seq<NodeId>, keep: NodeId -> bool)
    requires Distinct(cs)
    ensures Distinct(Filter(cs, keep))
    decreases |cs|
  {
    if cs != [] {
      FilterKeepsDistinct(cs[1..], keep);
      assert cs[0] !in cs[1..] by {
        forall j | 0 <= j < |cs[1..]| ensures cs[1..][j] != cs[0] {
          assert cs[1..][j] == cs[j + 1];
        }
      }
    }
  }

  function IsComment(kind: string): bool {
    kind == LineComment || kind == BlockComment
  }

  datatype Tree = Tree(nodes: seq<Node>) {

    /** Parent and child links agree, every link stays inside the arena, and a parent
        is numbered before each of its children. */
    predicate Valid() {
      forall i | 0 <= i < |nodes| :: NodeValid(i)
    }

    predicate NodeValid(i: NodeId)
      requires i < |nodes|
    {
      var n := nodes[i];
      && (n.parent.Some? ==> n.parent.value < i && i in nodes[n.parent.value].children)
      && (forall c | c in n.children :: i < c < |nodes| && nodes[c].parent == Some(i))
      && (forall f | f in n.fields :: n.fields[f] in n.children)
    }

    function Kind(n: NodeId): string
      requires n < |nodes|
    {
      nodes[n].kind
    }

    function Text(n: NodeId): string
      requires n < |nodes|
    {
      nodes[n].text
    }

    /** The parent of `n`; the root has none. */
    function Parent(n: NodeId): (r: Option<NodeId>)
      requires Valid() && n < |nodes|
      ensures r == nodes[n].parent
      ensures r.Some? ==> r.value < n && n in nodes[r.value].children
    {
      assert NodeValid(n);
      nodes[n].parent
    }

    /** `c` is a named node. */
    predicate IsNamed(c: NodeId) {
      c < |nodes| && nodes[c].named
    }

    /** `c` is not a comment. */
    predicate IsNonComment(c: NodeId) {
      c < |nodes| && !IsComment(nodes[c].kind)
    }

    /** The tests the child lists below filter by. */
    function KeepNamed(): NodeId -> bool {
      (c: NodeId) => IsNamed(c)
    }

    function KeepNonComment(): NodeId -> bool {
      (c: NodeId) => IsNonComment(c)
    }

    function KeepNamedNonComment(): NodeId -> bool {
      (c: NodeId) => IsNamed(c) && IsNonComment(c)
    }

    /** The named children of `n`. That these are all of them, in the order of the child
        list, is `NamedChildrenExactly`; the walker's proofs only need what is below. */
    function NamedChildren(n: NodeId): (r: seq<NodeId>)
      requires Valid() && n < |nodes|
      ensures forall c | c in r :: c in nodes[n].children && n < c < |nodes| && nodes[c].named
      ensures forall i | 0 <= i < |r| :: n < r[i] < |nodes| && nodes[r[i]].parent == Some(n)
      ensures Distinct(nodes[n].children) ==> Distinct(r)
    {
      assert NodeValid(n);
      var r := Filter(nodes[n].children, KeepNamed());
      assert forall i | 0 <= i < |r| :: r[i] in r;
      if Distinct(nodes[n].children) then FilterKeepsDistinct(nodes[n].children, KeepNamed()); r else r
    }

    /** The children of `n` that are not comments, named or not: exactly those, in the
        order of the child list. */
    function NonCommentChildren(n: NodeId): (r: seq<NodeId>)
      requires Valid() && n < |nodes|
      ensures forall c :: c in r <==> c in nodes[n].children && IsNonComment(c)
      ensures IsSubsequence(r, nodes[n].children)
      ensures forall i | 0 <= i < |r| :: n < r[i] < |nodes|
    {
      assert NodeValid(n);
      var r := Filter(nodes[n].children, KeepNonComment());
      FilterKeepsOrder(nodes[n].children, KeepNonComment());
      assert forall i | 0 <= i < |r| :: r[i] in r;
      r
    }

    /** The first named child of `n` that is not a comment; None exactly when `n` has
        no such child. */
    function FirstNonCommentNamedChild(n: NodeId): (r: Option<NodeId>)
      requires Valid() && n < |nodes|
      ensures r.None? <==> forall c | c in nodes[n].children :: !(IsNamed(c) && IsNonComment(c))
      ensures r.Some? ==>
                exists i | 0 <= i < |nodes[n].children| ::
                  && nodes[n].children[i] == r.value
                  && forall j | 0 <= j < i :: !(IsNamed(nodes[n].children[j]) && IsNonComment(nodes[n].children[j]))
      ensures r.Some? ==> r.value in nodes[n].children && n < r.value < |nodes|
      ensures r.Some? ==> nodes[r.value].parent == Some(n)
      ensures r.Some? ==> nodes[r.value].named && !IsComment(nodes[r.value].kind)
    {
      assert NodeValid(n);
      var cs := Filter(nodes[n].children, KeepNamedNonComment());
      FilterKeepsFirst(nodes[n].children, KeepNamedNonComment());
      assert cs != [] ==> cs[0] in cs;
      if cs == [] then None else Some(cs[0])
    }

    /** The child stored under field `name` of `n` (tree-sitter's `child_by_field_name`). */
    function Field(n: NodeId, name: string): (r: Option<NodeId>)
      requires Valid() && n < |nodes|
      ensures r.Some? <==> name in nodes[n].fields
      ensures r.Some? ==> n < r.value < |nodes| && nodes[r.value].parent == Some(n)
    {
      assert NodeValid(n);
      if name in nodes[n].fields then Some(nodes[n].fields[name]) else None
    }

    /** No node lists the same child twice: a property of every parsed tree. */
    predicate ChildrenDistinct() {
      forall i | 0 <= i < |nodes| :: Distinct(nodes[i].children)
    }

    /** Every node of kind `kind` carries field `field`: a guarantee of the grammar. */
    predicate HasField(kind: string, field: string) {
      forall i | 0 <= i < |nodes| && nodes[i].kind == kind :: field in nodes[i].fields
    }

    /** Every node of kind `kind` has a non-comment named child: a guarantee of the grammar. */
    predicate HasNamedChild(kind: string)
      requires Valid()
    {
      forall i | 0 <= i < |nodes| && nodes[i].kind == kind :: FirstNonCommentNamedChild(i).Some?
    }

    /** `a` is reached from `d` by following one or more parent links. */
    predicate IsAncestor(a: NodeId, d: NodeId)
      requires Valid() && d < |nodes|
      decreases d
    {
      assert NodeValid(d);
      match nodes[d].parent
      case None => false
      case Some(p) => p == a || IsAncestor(a, p)
    }

    /** The node `k` parent links above `n`, if the root is not reached first. */
    function AncestorAt(n: NodeId, k: nat): (r: Option<NodeId>)
      requires Valid() && n < |nodes|
      ensures r.Some? ==> r.value < |nodes|
      decreases k
    {
      assert NodeValid(n);
      if k == 0 then Some(n)
      else match nodes[n].parent
        case None => None
        case Some(p) => AncestorAt(p, k - 1)
    }
  }

  /** An ancestor of a node's parent is an ancestor of the node too. */
  lemma {:induction false} AncestorThroughParent(t: Tree, a: NodeId, c: NodeId, d: NodeId)
    requires t.Valid() && c < |t.nodes| && d < |t.nodes|
    requires t.nodes[c].parent == Some(a) && t.IsAncestor(c, d)
    ensures t.IsAncestor(a, d)
    decreases d
  {
    assert t.NodeValid(d);
    var p := t.nodes[d].parent.value;
    if p != c {
      AncestorThroughParent(t, a, c, p);
    }
  }

  /** Ancestry only climbs: an ancestor is numbered strictly before its descendant. */
  lemma {:induction false} AncestorPrecedes(t: Tree, a: NodeId, d: NodeId)
    requires t.Valid() && d < |t.nodes| && t.IsAncestor(a, d)
    ensures a < d
    decreases d
  {
    assert t.NodeValid(d);
    var p := t.nodes[d].parent.value;
    if p != a {
      AncestorPrecedes(t, a, p);
    }
  }

  /** The named children of a node are exactly its children that are named nodes, in
      the order of its child list. */
  lemma NamedChildrenExactly(t: Tree, n: NodeId)
    requires t.Valid() && n < |t.nodes|
    ensures forall c :: c in t.NamedChildren(n) <==> c in t.nodes[n].children && t.IsNamed(c)
    ensures IsSubsequence(t.NamedChildren(n), t.nodes[n].children)
  {
    FilterKeepsOrder(t.nodes[n].children, t.KeepNamed());
  }
}
