/** The handle types of the analyser's four arenas. Records refer to each other only
    through these indices, never by owning one another. */
module Handles {
  import IdArena

  type ScopeId = IdArena.Id
  type DefinitionId = IdArena.Id
  type VariableId = IdArena.Id
  type ReferenceId = IdArena.Id
}
