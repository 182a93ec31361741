/**
 The entity store: four append-only arenas, one per kind of entity, and the invariant
 that keeps every handle stored in a record pointing at a live slot of the right arena.
 */
module Arenas {
  import opened Wrappers
  import opened SyntaxTree
  import opened IdArena
  import opened Handles
  import opened Definitions
  import opened Variables
  import opened References
  import opened Scopes

  /** The contents of the four arenas at one moment. */
  datatype Store = Store(
    scopes: seq<Scope>,
    definitions: seq<Definition>,
    variables: seq<Variable>,
    references: seq<Reference>)
  {
    /** Every record sits under the handle it records, every stored handle is live,
        and a variable is listed in exactly the scope it names as its home. */
    predicate Valid() {
      && (forall s | 0 <= s < |scopes| :: ScopeValid(s))
      && (forall v | 0 <= v < |variables| :: VariableValid(v))
      && (forall r | 0 <= r < |references| :: ReferenceValid(r))
    }

    predicate ScopeValid(s: ScopeId)
      requires s < |scopes|
    {
      && scopes[s].Id() == s
      && forall v | v in scopes[s].Variables() :: v < |variables| && variables[v].scope == s
    }

    predicate VariableValid(v: VariableId)
      requires v < |variables|
    {
      var x := variables[v];
      && x.id == v
      && x.definition < |definitions|
      && x.scope < |scopes|
      && v in scopes[x.scope].Variables()
      && forall r | r in x.references :: r < |references|
    }

    predicate ReferenceValid(r: ReferenceId)
      requires r < |references|
    {
      var x := references[r];
      && x.id == r
      && x.scope < |scopes|
      && (x.resolved.Some? ==> x.resolved.value < |variables|)
    }
  }

  /** The store with nothing allocated. */
  const EmptyStore := Store([], [], [], [])

  /** Every arena of `after` keeps the entries of `before` at their handles. An
      earlier scope keeps its id and kind, and its variable list only grows at the
      end; every earlier definition, variable and reference is kept as it was. */
  ghost predicate Extends(before: Store, after: Store) {
    && |before.scopes| <= |after.scopes|
    && (forall s | 0 <= s < |before.scopes| :: ScopeGrows(before.scopes[s], after.scopes[s]))
    && |before.definitions| <= |after.definitions|
    && |before.variables| <= |after.variables|
    && |before.references| <= |after.references|
    && after.definitions[..|before.definitions|] == before.definitions
    && after.variables[..|before.variables|] == before.variables
    && after.references[..|before.references|] == before.references
  }

  /** `after` is `before` with possibly more variables appended to its list. */
  ghost predicate ScopeGrows(before: Scope, after: Scope) {
    && after.Id() == before.Id()
    && after.base.kind == before.base.kind
    && |before.Variables()| <= |after.Variables()|
    && after.Variables()[..|before.Variables()|] == before.Variables()
  }

  /** The four arenas of one analysis run. */
  class AllArenas {
    const scopes: Arena<Scope>
    const definitions: Arena<Definition>
    const variables: Arena<Variable>
    const references: Arena<Reference>

    constructor ()
      ensures Snapshot() == EmptyStore
      ensures fresh(scopes) && fresh(definitions) && fresh(variables) && fresh(references)
    {
      scopes := new Arena<Scope>();
      definitions := new Arena<Definition>();
      variables := new Arena<Variable>();
      references := new Arena<Reference>();
    }

    function Snapshot(): Store
      reads this, scopes, definitions, variables, references
    {
      Store(scopes.items, definitions.items, variables.items, references.items)
    }

    ghost predicate Valid()
      reads this, scopes, definitions, variables, references
    {
      Snapshot().Valid()
    }

    /** `define` run on these arenas: the store takes exactly the step `DefineStep`
        describes, keeps every earlier entry, and stays valid. */
    method Define(
      self_: ScopeId, kind: DefinitionKind, visibility: Visibility, name: NodeId, node: NodeId, source: Tree)
      requires Valid() && self_ < |scopes.items| && name < |source.nodes|
      modifies scopes, definitions, variables
      ensures DefineStep(old(Snapshot()), Snapshot(), self_, kind, visibility, name, node, source.Text(name))
      ensures Extends(old(Snapshot()), Snapshot())
      ensures Valid()
    {
      ghost var before := Snapshot();
      Scopes.Define(self_, scopes, definitions, variables, kind, visibility, name, node, source);
      DefineKeepsValid(before, Snapshot(), self_, kind, visibility, name, node, source.Text(name));
    }
  }

  /** The empty store is valid. */
  lemma EmptyStoreIsValid()
    ensures EmptyStore.Valid()
  {
  }

  /** Allocating a root scope keeps the store valid and keeps every other entry. */
  lemma NewRootKeepsValid(st: Store)
    requires st.Valid()
    ensures var st' := st.(scopes := st.scopes + [RootScope(|st.scopes|)]);
            st'.Valid() && Extends(st, st')
  {
    var st' := st.(scopes := st.scopes + [RootScope(|st.scopes|)]);
    assert forall s | 0 <= s < |st.scopes| :: st'.scopes[s] == st.scopes[s];
    assert forall s | 0 <= s < |st.scopes| :: st.ScopeValid(s) ==> st'.ScopeValid(s);
    assert forall v | 0 <= v < |st.variables| :: st.VariableValid(v) ==> st'.VariableValid(v);
    assert forall r | 0 <= r < |st.references| :: st.ReferenceValid(r) ==> st'.ReferenceValid(r);
  }

  /** Storing an unresolved reference from a live scope keeps the store valid. */
  lemma NewReferenceKeepsValid(st: Store, usageKind: UsageKind, node: NodeId, scope: ScopeId)
    requires st.Valid() && scope < |st.scopes|
    ensures var st' := st.(references := st.references + [Reference(node, scope, None, |st.references|, usageKind)]);
            st'.Valid() && Extends(st, st')
  {
    var st' := st.(references := st.references + [Reference(node, scope, None, |st.references|, usageKind)]);
    assert forall s | 0 <= s < |st.scopes| :: st.ScopeValid(s) ==> st'.ScopeValid(s);
    assert forall v | 0 <= v < |st.variables| :: st.VariableValid(v) ==> st'.VariableValid(v);
    assert forall r | 0 <= r < |st.references| :: st.ReferenceValid(r) ==> st'.ReferenceValid(r);
    assert st'.ReferenceValid(|st.references|);
  }

  /** What `Scopes.Define` does to the store: one new definition, one new variable, and
      the variable appended to scope `self_` (`AllArenas.Define` shows the method takes
      exactly this step). */
  ghost predicate DefineStep(
    st: Store, st': Store, self_: ScopeId,
    kind: DefinitionKind, visibility: Visibility, name: NodeId, node: NodeId, nameText: string)
    requires self_ < |st.scopes|
  {
    && st'.definitions == st.definitions + [Definition(kind, name, node, visibility)]
    && st'.variables == st.variables
         + [Variable(nameText, |st.definitions|, st.scopes[self_].Id(), [], |st.variables|)]
    && st'.scopes == st.scopes[self_ := st.scopes[self_].PushVariable(|st.variables|)]
    && st'.references == st.references
  }

  /** `define` keeps every handle live and every variable listed in its home scope; the
      new variable's home is the scope defined into, and it closes that scope's list. */
  lemma {:induction false} DefineKeepsValid(
    st: Store, st': Store, self_: ScopeId,
    kind: DefinitionKind, visibility: Visibility, name: NodeId, node: NodeId, nameText: string)
    requires st.Valid() && self_ < |st.scopes|
    requires DefineStep(st, st', self_, kind, visibility, name, node, nameText)
    ensures st'.Valid()
    ensures Extends(st, st')
    ensures st'.variables[|st.variables|].scope == self_
    ensures st'.scopes[self_].Variables() == st.scopes[self_].Variables() + [|st.variables|]
    ensures forall s | 0 <= s < |st.scopes| && s != self_ :: st'.scopes[s] == st.scopes[s]
  {
    var added := |st.variables|;
    assert st.ScopeValid(self_);
    forall s | 0 <= s < |st'.scopes|
      ensures st'.ScopeValid(s)
    {
      assert st.ScopeValid(s);
      if s == self_ {
        forall v | v in st'.scopes[s].Variables()
          ensures v < |st'.variables| && st'.variables[v].scope == s
        {
          if v != added {
            assert v in st.scopes[s].Variables();
          }
        }
      }
    }
    forall v | 0 <= v < |st'.variables|
      ensures st'.VariableValid(v)
    {
      if v < added {
        assert st.VariableValid(v);
        assert st'.variables[v] == st.variables[v];
      }
    }
    forall r | 0 <= r < |st'.references|
      ensures st'.ReferenceValid(r)
    {
      assert st.ReferenceValid(r);
    }
  }
}
