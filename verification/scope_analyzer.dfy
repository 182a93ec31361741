/**
 The analyser: walks the syntax tree from a node, creating a root scope at every source
 file node it meets and otherwise descending into the named children, left to right. In
 this revision it does not descend below a source file node.
 */
module ScopeAnalysis {
  import opened Wrappers
  import opened SyntaxTree
  import opened Handles
  import opened Scopes
  import opened Arenas

  /** The nodes `visit(n)` visits, in visiting order: `n`, then, unless `n` is a source
      file, what visiting each named child visits, child by child. */
  function PreOrder(t: Tree, n: NodeId): (r: seq<NodeId>)
    requires t.Valid() && n < |t.nodes|
    decreases |t.nodes| - n, 1, 0
  {
    if t.Kind(n) == SourceFile then [n]
    else [n] + ChildrenPreOrder(t, n, |t.NamedChildren(n)|)
  }

  /** What visiting the first `k` named children of `n` visits, in order. */
  function ChildrenPreOrder(t: Tree, n: NodeId, k: nat): (r: seq<NodeId>)
    requires t.Valid() && n < |t.nodes| && k <= |t.NamedChildren(n)|
    decreases |t.nodes| - n, 0, k
  {
    if k == 0 then []
    else ChildrenPreOrder(t, n, k - 1) + PreOrder(t, t.NamedChildren(n)[k - 1])
  }

  /** The number of source file nodes in `s`. */
  function CountSourceFiles(t: Tree, s: seq<NodeId>): nat {
    if s == [] then 0
    else (if s[0] < |t.nodes| && t.Kind(s[0]) == SourceFile then 1 else 0) + CountSourceFiles(t, s[1..])
  }

  lemma {:induction false} CountSourceFilesAppend(t: Tree, a: seq<NodeId>, b: seq<NodeId>)
    ensures CountSourceFiles(t, a + b) == CountSourceFiles(t, a) + CountSourceFiles(t, b)
  {
    if a != [] {
      assert (a + b)[1..] == a[1..] + b;
      CountSourceFilesAppend(t, a[1..], b);
    } else {
      assert a + b == b;
    }
  }

  /** `x` hangs below `n` through named nodes only, with no source file strictly between
      `n` and `x` and `n` itself a source file only when `x` is `n`. */
  predicate Reached(t: Tree, n: NodeId, x: NodeId)
    requires t.Valid() && x < |t.nodes|
    decreases x
  {
    if x == n then true
    else
      && n < x
      && t.nodes[x].named
      && match t.Parent(x)
         case None => false
         case Some(p) => t.Kind(p) != SourceFile && Reached(t, n, p)
  }

  /** A node reached from a named child of a non-source-file `n` is reached from `n`. */
  lemma {:induction false} ReachedThroughChild(t: Tree, n: NodeId, c: NodeId, x: NodeId)
    requires t.Valid() && n < |t.nodes| && x < |t.nodes| && t.Kind(n) != SourceFile
    requires c in t.NamedChildren(n) && Reached(t, c, x)
    ensures Reached(t, n, x)
    decreases x
  {
    if x != c {
      ReachedThroughChild(t, n, c, t.Parent(x).value);
    }
  }

  /** A node reached from `n` other than `n` is reached from one named child of `n`. */
  lemma {:induction false} ReachedHasChild(t: Tree, n: NodeId, x: NodeId)
    requires t.Valid() && n < |t.nodes| && x < |t.nodes| && x != n && Reached(t, n, x)
    ensures exists i | 0 <= i < |t.NamedChildren(n)| :: Reached(t, t.NamedChildren(n)[i], x)
    decreases x
  {
    var p := t.Parent(x).value;
    var cs := t.NamedChildren(n);
    if p == n {
      assert x in cs;
      var i :| 0 <= i < |cs| && cs[i] == x;
      assert Reached(t, cs[i], x);
    } else {
      ReachedHasChild(t, n, p);
      var i :| 0 <= i < |cs| && Reached(t, cs[i], p);
      assert Reached(t, cs[i], x);
    }
  }

  /** `x` is visited by the walk from the `i`-th named child of `n`. */
  predicate InChildWalk(t: Tree, n: NodeId, i: nat, x: NodeId)
    requires t.Valid() && n < |t.nodes| && i < |t.NamedChildren(n)|
  {
    x in PreOrder(t, t.NamedChildren(n)[i])
  }

  /** A node visited by the first `k` children's walks is visited by one of them. */
  lemma {:induction false} InChildrenPreOrder(t: Tree, n: NodeId, k: nat, x: NodeId)
    requires t.Valid() && n < |t.nodes| && k <= |t.NamedChildren(n)|
    ensures x in ChildrenPreOrder(t, n, k) <==> exists i: nat | i < k :: InChildWalk(t, n, i, x)
    decreases k
  {
    if k > 0 {
      var prev := ChildrenPreOrder(t, n, k - 1);
      var last := PreOrder(t, t.NamedChildren(n)[k - 1]);
      assert ChildrenPreOrder(t, n, k) == prev + last;
      InChildrenPreOrder(t, n, k - 1, x);
      assert InChildWalk(t, n, k - 1, x) == (x in last);
    }
  }

  /** The walk from `n` visits exactly the nodes reached from `n`. */
  lemma {:induction false} PreOrderVisitsReached(t: Tree, n: NodeId, x: NodeId)
    requires t.Valid() && n < |t.nodes| && x < |t.nodes|
    ensures x in PreOrder(t, n) <==> Reached(t, n, x)
    decreases |t.nodes| - n
  {
    if x != n && t.Kind(n) != SourceFile {
      var cs := t.NamedChildren(n);
      assert PreOrder(t, n) == [n] + ChildrenPreOrder(t, n, |cs|);
      InChildrenPreOrder(t, n, |cs|, x);
      if x in PreOrder(t, n) {
        var i: nat :| i < |cs| && InChildWalk(t, n, i, x);
        PreOrderVisitsReached(t, cs[i], x);
        assert cs[i] in cs;
        ReachedThroughChild(t, n, cs[i], x);
      }
      if Reached(t, n, x) {
        ReachedHasChild(t, n, x);
        var i :| 0 <= i < |cs| && Reached(t, cs[i], x);
        PreOrderVisitsReached(t, cs[i], x);
        assert InChildWalk(t, n, i, x);
      }
    } else if x != n {
      assert PreOrder(t, n) == [n];
      assert !Reached(t, n, x) by {
        if Reached(t, n, x) {
          var p := t.Parent(x).value;
          ReachedClimbs(t, n, p);
          assert false;
        }
      }
    }
  }

  /** Everything reached from `n` other than `n` is reached through `n` climbing past
      a non-source-file parent: reaching never crosses a source file. */
  lemma {:induction false} ReachedClimbs(t: Tree, n: NodeId, x: NodeId)
    requires t.Valid() && n < |t.nodes| && x < |t.nodes| && Reached(t, n, x) && x != n
    ensures t.Kind(n) != SourceFile
    decreases x
  {
    var p := t.Parent(x).value;
    if p != n {
      ReachedClimbs(t, n, p);
    }
  }

  /** Only `x` itself and its ancestors reach `x`: a node is reached from no node after it. */
  lemma {:induction false} ReachedFromBefore(t: Tree, n: NodeId, x: NodeId)
    requires t.Valid() && x < |t.nodes| && Reached(t, n, x)
    ensures n <= x
  {
  }

  /** Two distinct children of one node reach no common node. */
  lemma {:induction false} SiblingsReachApart(t: Tree, n: NodeId, a: NodeId, b: NodeId, x: NodeId)
    requires t.Valid() && a < |t.nodes| && b < |t.nodes| && x < |t.nodes|
    requires t.nodes[a].parent == Some(n) && t.nodes[b].parent == Some(n)
    requires Reached(t, a, x) && Reached(t, b, x)
    ensures a == b
    decreases x
  {
    assert t.NodeValid(a) && t.NodeValid(b);
    if x == a && a != b {
      ReachedFromBefore(t, b, n);
      assert false;
    } else if x == b && a != b {
      ReachedFromBefore(t, a, n);
      assert false;
    } else if x != a && x != b {
      SiblingsReachApart(t, n, a, b, t.Parent(x).value);
    }
  }

  /** The walk from `n` stays inside the tree and below `n`. */
  lemma {:induction false} PreOrderInTree(t: Tree, n: NodeId)
    requires t.Valid() && n < |t.nodes|
    ensures forall x | x in PreOrder(t, n) :: n <= x < |t.nodes|
    decreases |t.nodes| - n, 1, 0
  {
    if t.Kind(n) != SourceFile {
      ChildrenPreOrderInTree(t, n, |t.NamedChildren(n)|);
    }
  }

  lemma {:induction false} ChildrenPreOrderInTree(t: Tree, n: NodeId, k: nat)
    requires t.Valid() && n < |t.nodes| && k <= |t.NamedChildren(n)|
    ensures forall x | x in ChildrenPreOrder(t, n, k) :: n < x < |t.nodes|
    decreases |t.nodes| - n, 0, k
  {
    if k > 0 {
      ChildrenPreOrderInTree(t, n, k - 1);
      PreOrderInTree(t, t.NamedChildren(n)[k - 1]);
    }
  }

  /** The walk of the `k`-th child shares no node with the walks of the children
      before it. */
  lemma {:induction false} ChildWalksApart(t: Tree, n: NodeId, k: nat, x: NodeId)
    requires t.Valid() && t.ChildrenDistinct() && n < |t.nodes| && 0 < k <= |t.NamedChildren(n)|
    requires x in ChildrenPreOrder(t, n, k - 1)
    ensures x !in PreOrder(t, t.NamedChildren(n)[k - 1])
  {
    var cs := t.NamedChildren(n);
    var c := cs[k - 1];
    assert Distinct(t.nodes[n].children);
    InChildrenPreOrder(t, n, k - 1, x);
    var i: nat :| i < k - 1 && InChildWalk(t, n, i, x);
    PreOrderInTree(t, cs[i]);
    PreOrderVisitsReached(t, cs[i], x);
    if x in PreOrder(t, c) {
      PreOrderVisitsReached(t, c, x);
      SiblingsReachApart(t, n, cs[i], c, x);
    }
  }

  /** Visiting the first `k` children visits no node twice. */
  lemma {:induction false} ChildrenPreOrderDistinct(t: Tree, n: NodeId, k: nat)
    requires t.Valid() && t.ChildrenDistinct() && n < |t.nodes| && k <= |t.NamedChildren(n)|
    ensures Distinct(ChildrenPreOrder(t, n, k))
    decreases |t.nodes| - n, 0, k
  {
    if k > 0 {
      var done := ChildrenPreOrder(t, n, k - 1);
      var next := PreOrder(t, t.NamedChildren(n)[k - 1]);
      ChildrenPreOrderDistinct(t, n, k - 1);
      PreOrderDistinct(t, t.NamedChildren(n)[k - 1]);
      assert ChildrenPreOrder(t, n, k) == done + next;
      forall i, j | 0 <= i < j < |done + next| ensures (done + next)[i] != (done + next)[j] {
        if i < |done| && |done| <= j {
          ChildWalksApart(t, n, k, (done + next)[i]);
          assert (done + next)[j] in next;
        }
      }
    }
  }

  /** Visiting `n` visits no node twice: each named child is visited once. */
  lemma {:induction false} PreOrderDistinct(t: Tree, n: NodeId)
    requires t.Valid() && t.ChildrenDistinct() && n < |t.nodes|
    ensures Distinct(PreOrder(t, n))
    decreases |t.nodes| - n, 1, 0
  {
    if t.Kind(n) != SourceFile {
      ChildrenPreOrderDistinct(t, n, |t.NamedChildren(n)|);
      ChildrenPreOrderInTree(t, n, |t.NamedChildren(n)|);
      var rest := ChildrenPreOrder(t, n, |t.NamedChildren(n)|);
      forall i, j | 0 <= i < j < |[n] + rest| ensures ([n] + rest)[i] != ([n] + rest)[j] {
        if i == 0 {
          assert ([n] + rest)[j] in rest;
        } else {
          assert ([n] + rest)[i] == rest[i - 1] && ([n] + rest)[j] == rest[j - 1];
        }
      }
    }
  }

  /** The analyser: the parsed file it reads (its nodes and their text), the handles
      of the scopes it has created, in creation order, and the arenas the scopes live in. */
  class ScopeAnalyzer {
    const fileContents: Tree
    var scopes: seq<ScopeId>
    const arena: AllArenas

    /** The scope list and the scope arena grow together: the k-th handle pushed is the
        k-th scope allocated, and, as nothing in this revision declares a name, each
        scope is a root scope with no variables. The store is valid. */
    ghost predicate Valid()
      reads this, arena, arena.scopes, arena.definitions, arena.variables, arena.references
    {
      && fileContents.Valid()
      && arena.Valid()
      && |scopes| == |arena.scopes.items|
      && (forall k | 0 <= k < |scopes| :: scopes[k] == k && arena.scopes.items[k] == RootScope(k))
    }

    /** An analyser over `fileContents` with no scopes and four empty arenas. */
    constructor (fileContents: Tree)
      requires fileContents.Valid()
      ensures Valid()
      ensures this.fileContents == fileContents
      ensures scopes == [] && arena.Snapshot() == EmptyStore
      ensures fresh(arena) && fresh(arena.scopes) && fresh(arena.definitions)
      ensures fresh(arena.variables) && fresh(arena.references)
    {
      this.fileContents := fileContents;
      scopes := [];
      arena := new AllArenas();
      new;
      EmptyStoreIsValid();
    }

    /** Visits `node`: a source file gets a new root scope and is not descended into;
        any other node has its named children visited, left to right. `walked` lists
        the nodes visited, in order. */
    method Visit(node: NodeId) returns (ghost walked: seq<NodeId>)
      requires Valid() && node < |fileContents.nodes|
      modifies this, arena.scopes
      ensures Valid()
      ensures walked == PreOrder(fileContents, node)
      ensures |scopes| == old(|scopes|) + CountSourceFiles(fileContents, walked)
      ensures scopes[..old(|scopes|)] == old(scopes)
      ensures fileContents.Kind(node) == SourceFile ==>
                walked == [node] && scopes == old(scopes) + [old(|scopes|)]
      decreases |fileContents.nodes| - node, 1
    {
      if fileContents.Kind(node) == SourceFile {
        NewRootKeepsValid(arena.Snapshot());
        var id := NewRoot(arena.scopes);
        scopes := scopes + [id];
        walked := [node];
      } else {
        walked := VisitChildren(node);
        walked := [node] + walked;
      }
    }

    /** Visits each named child of `node` once, in source order. */
    method VisitChildren(node: NodeId) returns (ghost walked: seq<NodeId>)
      requires Valid() && node < |fileContents.nodes|
      modifies this, arena.scopes
      ensures Valid()
      ensures walked == ChildrenPreOrder(fileContents, node, |fileContents.NamedChildren(node)|)
      ensures |scopes| == old(|scopes|) + CountSourceFiles(fileContents, walked)
      decreases |fileContents.nodes| - node, 0
    {
      var children := fileContents.NamedChildren(node);
      var i := 0;
      walked := [];
      while i < |children|
        invariant 0 <= i <= |children|
        invariant Valid()
        invariant walked == ChildrenPreOrder(fileContents, node, i)
        invariant |scopes| == old(|scopes|) + CountSourceFiles(fileContents, walked)
      {
        ghost var next := Visit(children[i]);
        CountSourceFilesAppend(fileContents, walked, next);
        walked := walked + next;
        i := i + 1;
      }
    }
  }

  /** Analyses a parsed file from `root`, as the analyser is driven from a test: a new
      analyser, then one visit of the root. A file whose root is a source file node (an
      empty file among them) ends with exactly one scope, a root scope with no variables. */
  method GetScopeAnalyzer(t: Tree, root: NodeId) returns (a: ScopeAnalyzer)
    requires t.Valid() && root < |t.nodes|
    ensures a.Valid() && a.fileContents == t
    ensures |a.scopes| == CountSourceFiles(t, PreOrder(t, root))
    ensures t.Kind(root) == SourceFile ==>
              && a.scopes == [0]
              && a.arena.scopes.items == [RootScope(0)]
              && a.arena.scopes.items[0].Variables() == []
  {
    a := new ScopeAnalyzer(t);
    ghost var walked := a.Visit(root);
  }
}
