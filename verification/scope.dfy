/**
 Scopes: a lexical region with the ordered list of the variables declared directly in
 it. Only the root scope exists in this revision of the analyser.
 */
module Scopes {
  import opened SyntaxTree
  import opened IdArena
  import opened Handles
  import opened Definitions
  import opened Variables

  datatype ScopeKind = Root

  datatype ScopeBase = ScopeBase(kind: ScopeKind, variables: seq<VariableId>, id: ScopeId)

  datatype Scope = Base(base: ScopeBase) {

    /** The handle the scope was allocated under, as the scope records it. */
    function Id(): ScopeId {
      base.id
    }

    /** The variables declared directly in the scope, in declaration order. */
    function Variables(): seq<VariableId> {
      base.variables
    }

    /** The scope with one more variable at the end of its list (a push through
        `variables_mut`); its kind, its id and its earlier variables are kept. */
    function PushVariable(v: VariableId): (s: Scope)
      ensures |s.Variables()| == |Variables()| + 1
      ensures s.Variables()[..|Variables()|] == Variables()
      ensures s.Variables()[|Variables()|] == v
      ensures s.Id() == Id() && s.base.kind == base.kind
    {
      Base(base.(variables := base.variables + [v]))
    }
  }

  /** A root scope with no variables, recording `id` as its own handle. */
  function RootScope(id: ScopeId): (s: Scope)
    ensures s.Id() == id && s.Variables() == [] && s.base.kind == Root
  {
    Base(ScopeBase(Root, [], id))
  }

  /** Allocates the root scope: kind Root, no variables, and its own handle as id. */
  method NewRoot(arena: Arena<Scope>) returns (id: ScopeId)
    modifies arena
    ensures id == old(|arena.items|)
    ensures arena.items == old(arena.items) + [RootScope(id)]
    ensures arena.items[id].Id() == id && arena.items[id].Variables() == []
  {
    id := arena.AllocWithId(RootScope);
  }

  /** Declares a name in scope `self_`: stores one definition made of the arguments,
      one variable named by the text of the `name` node that points at that definition
      and at this scope, and appends the variable to the end of this scope's list.
      Every other scope, and every earlier entry of the three arenas, is unchanged. */
  method Define(
    self_: ScopeId,
    arena: Arena<Scope>,
    definitionArena: Arena<Definition>,
    variableArena: Arena<Variable>,
    kind: DefinitionKind,
    visibility: Visibility,
    name: NodeId,
    node: NodeId,
    source: Tree)
    requires self_ < |arena.items| && name < |source.nodes|
    modifies arena, definitionArena, variableArena
    ensures definitionArena.items == old(definitionArena.items) + [Definition(kind, name, node, visibility)]
    ensures variableArena.items == old(variableArena.items)
              + [Variable(source.Text(name), old(|definitionArena.items|), old(arena.items[self_].Id()), [], old(|variableArena.items|))]
    ensures arena.items == old(arena.items)[self_ := old(arena.items[self_]).PushVariable(old(|variableArena.items|))]
  {
    var definition := Definitions.New(definitionArena, kind, name, node, visibility);
    var variable := Variables.New(variableArena, source.Text(name), definition, arena.items[self_].Id());
    arena.items := arena.items[self_ := arena.items[self_].PushVariable(variable)];
  }
}
