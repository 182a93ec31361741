/**
 Variables: the resolvable named slot a definition produces in the scope that declares
 it. A variable records its own handle, its name text, its definition, its home scope
 and the references resolved to it.
 */
module Variables {
  import opened IdArena
  import opened Handles

  datatype Variable = Variable(
    name: string,
    definition: DefinitionId,
    scope: ScopeId,
    references: seq<ReferenceId>,
    id: VariableId)

  /** Stores a new variable with no references yet, under a fresh handle that it
      also records as its own id. */
  method New(arena: Arena<Variable>, name: string, definition: DefinitionId, scope: ScopeId)
    returns (id: VariableId)
    modifies arena
    ensures id == old(|arena.items|)
    ensures arena.items == old(arena.items) + [Variable(name, definition, scope, [], id)]
  {
    id := arena.AllocWithId((id: VariableId) => Variable(name, definition, scope, [], id));
  }
}
