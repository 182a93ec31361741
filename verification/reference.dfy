/**
 References: one use of a name, recorded with the node naming it, the scope it occurs
 in, how it is used, and the variable it resolved to (none until it resolves).
 */
module References {
  import opened Wrappers
  import opened SyntaxTree
  import opened IdArena
  import opened Handles

  datatype UsageKind = TypeReference | IdentifierReference

  datatype Reference = Reference(
    node: NodeId,
    scope: ScopeId,
    resolved: Option<VariableId>,
    id: ReferenceId,
    usageKind: UsageKind)

  /** Stores a new, unresolved reference under a fresh handle that it also records as
      its own id. */
  method New(arena: Arena<Reference>, usageKind: UsageKind, node: NodeId, scope: ScopeId)
    returns (id: ReferenceId)
    modifies arena
    ensures id == old(|arena.items|)
    ensures arena.items == old(arena.items) + [Reference(node, scope, None, id, usageKind)]
  {
    id := arena.AllocWithId((id: ReferenceId) => Reference(node, scope, None, id, usageKind));
  }
}
