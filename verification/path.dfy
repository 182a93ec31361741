/**
 Simple paths: the segment list read off a (possibly nested) scoped identifier such as
 `a::b::c`, as carried by a `pub(in a::b::c)` visibility.
 */
module Paths {
  import opened Wrappers
  import opened SyntaxTree

  datatype SimplePath = SimplePath(segments: seq<string>)

  /** A path made of the given segments, in order. */
  function New(segments: seq<string>): (p: SimplePath)
    ensures |p.segments| == |segments|
    ensures forall i | 0 <= i < |segments| :: p.segments[i] == segments[i]
  {
    SimplePath(segments)
  }

  /** Appends one segment at the end; the earlier segments keep their order. */
  function AndPush(p: SimplePath, segment: string): (r: SimplePath)
    ensures |r.segments| == |p.segments| + 1
    ensures r.segments[..|p.segments|] == p.segments
    ensures r.segments[|p.segments|] == segment
  {
    SimplePath(p.segments + [segment])
  }

  /** A path head that `FromNode` refuses: `<T>::x` or `T<U>::x`. */
  predicate IsBracketedOrGeneric(kind: string) {
    kind == BracketedType || kind == GenericType
  }

  /** The text of the `name` field of `s` (empty when `s` has none). */
  function NameText(t: Tree, s: NodeId): string
    requires t.Valid() && s < |t.nodes|
  {
    match t.Field(s, "name")
    case Some(name) => t.Text(name)
    case None => ""
  }

  /** Every scoped identifier met while following `path` fields down from `n` has a
      `path` field, so `FromNode` never reads a missing one. The grammar allows a
      scoped identifier without a path (`::x`); for those `FromNode` fails fatally. */
  predicate PathsPresent(t: Tree, n: NodeId)
    requires t.Valid() && n < |t.nodes|
    decreases |t.nodes| - n
  {
    t.Kind(n) == ScopedIdentifier ==>
      match t.Field(n, "path")
      case None => false
      case Some(p) => IsBracketedOrGeneric(t.Kind(p)) || PathsPresent(t, p)
  }

  /** The nodes met by following `path` fields from `n` through scoped identifiers:
      `n` first, then each `path` field in turn, up to the head of the path: the first
      node that is not a scoped identifier with a `path` field. */
  function PathChain(t: Tree, n: NodeId): (chain: seq<NodeId>)
    requires t.Valid() && n < |t.nodes|
    ensures |chain| >= 1 && chain[0] == n
    ensures forall i | 0 <= i < |chain| :: chain[i] < |t.nodes|
    ensures forall i | 0 <= i < |chain| - 1 ::
              t.Kind(chain[i]) == ScopedIdentifier && t.Field(chain[i], "path") == Some(chain[i + 1])
    ensures var head := chain[|chain| - 1];
            !(t.Kind(head) == ScopedIdentifier && t.Field(head, "path").Some?)
    decreases |t.nodes| - n
  {
    if t.Kind(n) == ScopedIdentifier && t.Field(n, "path").Some? then
      [n] + PathChain(t, t.Field(n, "path").value)
    else
      [n]
  }

  /** The simple path a node spells, or None for a metavariable or a path whose head
      is bracketed or generic. */
  function FromNode(t: Tree, n: NodeId): (r: Option<SimplePath>)
    requires t.Valid() && n < |t.nodes|
    requires t.HasField(ScopedIdentifier, "name") && PathsPresent(t, n)
    ensures t.Kind(n) == Metavariable ==> r.None?
    ensures t.Kind(n) != ScopedIdentifier && t.Kind(n) != Metavariable ==> r == Some(SimplePath([t.Text(n)]))
    ensures r.Some? ==> |r.value.segments| == |PathChain(t, n)|
    ensures r.Some? && t.Kind(n) == ScopedIdentifier ==>
              r.value.segments[|r.value.segments| - 1] == NameText(t, n)
    decreases |t.nodes| - n
  {
    if t.Kind(n) == ScopedIdentifier then
      var path := t.Field(n, "path").value;
      if IsBracketedOrGeneric(t.Kind(path)) then None
      else
        match FromNode(t, path)
        case None => None
        case Some(p) =>
          assert "name" in t.nodes[n].fields;
          Some(AndPush(p, t.Text(t.Field(n, "name").value)))
    else if t.Kind(n) == Metavariable then None
    else Some(New([t.Text(n)]))
  }

  /** The head of a path blocks `FromNode`: it is a metavariable, or a bracketed or
      generic type standing in path position. */
  predicate HeadBlocks(t: Tree, chain: seq<NodeId>)
    requires |chain| >= 1 && forall i | 0 <= i < |chain| :: chain[i] < |t.nodes|
  {
    var head := chain[|chain| - 1];
    t.Kind(head) == Metavariable || (|chain| > 1 && IsBracketedOrGeneric(t.Kind(head)))
  }

  /** `FromNode` fails exactly when the head of the path chain blocks it. */
  lemma {:induction false} FromNodeFailsIffHeadBlocks(t: Tree, n: NodeId)
    requires t.Valid() && n < |t.nodes|
    requires t.HasField(ScopedIdentifier, "name") && PathsPresent(t, n)
    ensures FromNode(t, n).None? <==> HeadBlocks(t, PathChain(t, n))
    decreases |t.nodes| - n
  {
    if t.Kind(n) == ScopedIdentifier {
      var path := t.Field(n, "path").value;
      var rest := PathChain(t, path);
      assert PathChain(t, n) == [n] + rest;
      if IsBracketedOrGeneric(t.Kind(path)) {
        assert rest == [path];
      } else {
        FromNodeFailsIffHeadBlocks(t, path);
      }
    }
  }

  /** One step outward: a scoped identifier's path and chain are those of its `path`
      field, with its own `name` text, and itself, added. */
  lemma ScopedStep(t: Tree, n: NodeId)
    requires t.Valid() && n < |t.nodes|
    requires t.HasField(ScopedIdentifier, "name") && PathsPresent(t, n)
    requires t.Kind(n) == ScopedIdentifier && FromNode(t, n).Some?
    ensures var path := t.Field(n, "path").value;
            && PathsPresent(t, path)
            && FromNode(t, path).Some?
            && FromNode(t, n).value.segments == FromNode(t, path).value.segments + [NameText(t, n)]
            && PathChain(t, n) == [n] + PathChain(t, path)
  {
  }

  /** The segments-follow-chain relation survives adding one link at the front of the
      chain and its name at the end of the segments. */
  lemma SegmentsFollowStep(
    t: Tree, n: NodeId, rest: seq<NodeId>, inner: seq<string>)
    requires t.Valid() && n < |t.nodes|
    requires |rest| >= 1 && |inner| == |rest|
    requires forall i | 0 <= i < |rest| :: rest[i] < |t.nodes|
    requires inner[0] == t.Text(rest[|rest| - 1])
    requires forall j | 1 <= j < |rest| :: inner[j] == NameText(t, rest[|rest| - 1 - j])
    ensures var chain := [n] + rest;
            var segs := inner + [NameText(t, n)];
            && segs[0] == t.Text(chain[|chain| - 1])
            && forall j | 1 <= j < |chain| :: segs[j] == NameText(t, chain[|chain| - 1 - j])
  {
    var chain := [n] + rest;
    var segs := inner + [NameText(t, n)];
    forall j | 1 <= j < |chain|
      ensures segs[j] == NameText(t, chain[|chain| - 1 - j])
    {
      if j < |rest| {
        assert segs[j] == inner[j];
        assert chain[|chain| - 1 - j] == rest[|rest| - 1 - j];
      }
    }
  }

  /** When `FromNode` succeeds, its first segment is the text of the head of the path
      chain and each later segment is the `name` of the scoped identifier one level
      further out. */
  lemma {:induction false} FromNodeSegmentsFollowChain(t: Tree, n: NodeId)
    requires t.Valid() && n < |t.nodes|
    requires t.HasField(ScopedIdentifier, "name") && PathsPresent(t, n)
    requires FromNode(t, n).Some?
    ensures var chain := PathChain(t, n);
            var segs := FromNode(t, n).value.segments;
            && segs[0] == t.Text(chain[|chain| - 1])
            && forall j | 1 <= j < |chain| :: segs[j] == NameText(t, chain[|chain| - 1 - j])
    decreases |t.nodes| - n
  {
    if t.Kind(n) == ScopedIdentifier {
      var path := t.Field(n, "path").value;
      ScopedStep(t, n);
      FromNodeSegmentsFollowChain(t, path);
      SegmentsFollowStep(t, n, PathChain(t, path), FromNode(t, path).value.segments);
    }
  }
}
