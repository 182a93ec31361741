/**
 The read-only views handed to callers: a scope, variable, reference or definition
 record paired with the store it was read from. A view is taken while the store is
 borrowed immutably, so the store cannot change under it; the view therefore carries
 the store's contents as a value.
 */
module Views {
  import opened Wrappers
  import opened SyntaxTree
  import opened Handles
  import opened Definitions
  import opened Variables
  import opened References
  import opened Scopes
  import opened Arenas

  datatype ScopeView = ScopeView(scope: Scope, store: Store)
  datatype VariableView = VariableView(variable: Variable, store: Store)
  datatype ReferenceView = ReferenceView(reference: Reference, store: Store)
  datatype DefinitionView = DefinitionView(definition: Definition, store: Store)

  function BorrowScope(store: Store, id: ScopeId): (v: ScopeView)
    requires id < |store.scopes|
    ensures v.store == store && v.scope == store.scopes[id]
    ensures store.Valid() ==> v.scope.Id() == id
  {
    assert store.Valid() ==> store.ScopeValid(id);
    ScopeView(store.scopes[id], store)
  }

  function BorrowVariable(store: Store, id: VariableId): (v: VariableView)
    requires id < |store.variables|
    ensures v.store == store && v.variable == store.variables[id]
    ensures store.Valid() ==> v.variable.id == id
  {
    assert store.Valid() ==> store.VariableValid(id);
    VariableView(store.variables[id], store)
  }

  function BorrowReference(store: Store, id: ReferenceId): (v: ReferenceView)
    requires id < |store.references|
    ensures v.store == store && v.reference == store.references[id]
    ensures store.Valid() ==> v.reference.id == id
  {
    assert store.Valid() ==> store.ReferenceValid(id);
    ReferenceView(store.references[id], store)
  }

  function BorrowDefinition(store: Store, id: DefinitionId): (v: DefinitionView)
    requires id < |store.definitions|
    ensures v.store == store && v.definition == store.definitions[id]
  {
    DefinitionView(store.definitions[id], store)
  }

  /** The variables declared directly in the scope, as views of the stored records, in
      declaration order. */
  function ScopeVariables(sv: ScopeView): (r: seq<VariableView>)
    requires sv.store.Valid() && sv.scope in sv.store.scopes
    ensures |r| == |sv.scope.Variables()|
    ensures forall i | 0 <= i < |r| :: sv.scope.Variables()[i] < |sv.store.variables|
    ensures forall i | 0 <= i < |r| ::
              && r[i].store == sv.store
              && r[i].variable == sv.store.variables[sv.scope.Variables()[i]]
              && r[i].variable.id == sv.scope.Variables()[i]
              && r[i].variable.scope == sv.scope.Id()
  {
    var vs := sv.scope.Variables();
    var s :| 0 <= s < |sv.store.scopes| && sv.store.scopes[s] == sv.scope;
    assert sv.store.ScopeValid(s);
    assert forall i | 0 <= i < |vs| :: vs[i] in vs;
    seq(|vs|, i requires 0 <= i < |vs| => BorrowVariable(sv.store, vs[i]))
  }

  /** A view's record is the one stored under the handle it records. */
  ghost predicate VariableBorrowed(v: VariableView) {
    && v.store.Valid()
    && v.variable.id < |v.store.variables|
    && v.store.variables[v.variable.id] == v.variable
  }

  function VariableName(v: VariableView): (r: string)
    requires VariableBorrowed(v)
    ensures r == v.store.variables[v.variable.id].name
  {
    v.variable.name
  }

  /** The scope that declares the variable; the variable is listed in it. */
  function VariableScope(v: VariableView): (r: ScopeView)
    requires VariableBorrowed(v)
    ensures v.variable.scope < |v.store.scopes|
    ensures r.store == v.store && r.scope == v.store.scopes[v.variable.scope]
    ensures r.scope.Id() == v.variable.scope
    ensures v.variable.id in r.scope.Variables()
  {
    assert v.store.VariableValid(v.variable.id);
    BorrowScope(v.store, v.variable.scope)
  }

  /** The references resolved to the variable, as views, in the order recorded. */
  function VariableReferences(v: VariableView): (r: seq<ReferenceView>)
    requires VariableBorrowed(v)
    ensures |r| == |v.variable.references|
    ensures forall i | 0 <= i < |r| :: v.variable.references[i] < |v.store.references|
    ensures forall i | 0 <= i < |r| ::
              && r[i].store == v.store
              && r[i].reference == v.store.references[v.variable.references[i]]
              && r[i].reference.id == v.variable.references[i]
  {
    var refs := v.variable.references;
    assert v.store.VariableValid(v.variable.id);
    assert forall i | 0 <= i < |refs| :: refs[i] in refs;
    seq(|refs|, i requires 0 <= i < |refs| => BorrowReference(v.store, refs[i]))
  }

  function VariableDefinition(v: VariableView): (r: DefinitionView)
    requires VariableBorrowed(v)
    ensures v.variable.definition < |v.store.definitions|
    ensures r.store == v.store && r.definition == v.store.definitions[v.variable.definition]
  {
    assert v.store.VariableValid(v.variable.id);
    BorrowDefinition(v.store, v.variable.definition)
  }

  /** Variable views are equal when they view the same handle. */
  predicate VariableEq(a: VariableView, b: VariableView) {
    a.variable.id == b.variable.id
  }

  /** View equality is an equivalence: reflexive, symmetric and transitive. */
  lemma VariableEqIsEquivalence(a: VariableView, b: VariableView, c: VariableView)
    ensures VariableEq(a, a)
    ensures VariableEq(a, b) ==> VariableEq(b, a)
    ensures VariableEq(a, b) && VariableEq(b, c) ==> VariableEq(a, c)
  {
  }

  /** Within one valid store, handle equality is record identity: two borrowed views
      are equal exactly when they borrow the same slot. */
  lemma VariableEqIsSameSlot(st: Store, i: VariableId, j: VariableId)
    requires st.Valid() && i < |st.variables| && j < |st.variables|
    ensures VariableEq(BorrowVariable(st, i), BorrowVariable(st, j)) <==> i == j
    ensures VariableEq(BorrowVariable(st, i), BorrowVariable(st, j)) <==> BorrowVariable(st, i) == BorrowVariable(st, j)
  {
  }

  /** The variable a reference resolved to, if any. */
  function ReferenceResolved(r: ReferenceView): (v: Option<VariableView>)
    requires r.store.Valid() && r.reference in r.store.references
    ensures v.None? <==> r.reference.resolved.None?
    ensures v.Some? ==> r.reference.resolved.value < |r.store.variables|
    ensures v.Some? ==>
              && v.value.store == r.store
              && v.value.variable == r.store.variables[r.reference.resolved.value]
              && v.value.variable.id == r.reference.resolved.value
  {
    var i :| 0 <= i < |r.store.references| && r.store.references[i] == r.reference;
    assert r.store.ReferenceValid(i);
    match r.reference.resolved
    case None => None
    case Some(id) => Some(BorrowVariable(r.store, id))
  }

  function ReferenceNode(r: ReferenceView): (n: NodeId)
    requires r.store.Valid() && r.reference.id < |r.store.references| && r.store.references[r.reference.id] == r.reference
    ensures n == r.store.references[r.reference.id].node
  {
    r.reference.node
  }

  /** The scope the reference occurs in. */
  function ReferenceScope(r: ReferenceView): (s: ScopeView)
    requires r.store.Valid() && r.reference.id < |r.store.references| && r.store.references[r.reference.id] == r.reference
    ensures r.reference.scope < |r.store.scopes|
    ensures s.store == r.store && s.scope == r.store.scopes[r.reference.scope]
    ensures s.scope.Id() == r.reference.scope
  {
    assert r.store.ReferenceValid(r.reference.id);
    BorrowScope(r.store, r.reference.scope)
  }

  function ReferenceUsageKind(r: ReferenceView): (k: UsageKind)
    requires r.store.Valid() && r.reference.id < |r.store.references| && r.store.references[r.reference.id] == r.reference
    ensures k == r.store.references[r.reference.id].usageKind
  {
    r.reference.usageKind
  }

  function DefinitionKindOf(d: DefinitionView): DefinitionKind {
    d.definition.kind
  }

  function DefinitionName(d: DefinitionView): NodeId {
    d.definition.name
  }

  function DefinitionNode(d: DefinitionView): NodeId {
    d.definition.node
  }

  /** After `define`, the scope's variable views are the earlier ones followed by the
      new variable, whose name is the name node's text and whose definition carries
      the arguments. */
  lemma {:induction false} DefineExtendsScopeVariables(
    st: Store, st': Store, self_: ScopeId,
    kind: DefinitionKind, visibility: Visibility, name: NodeId, node: NodeId, nameText: string)
    requires st.Valid() && self_ < |st.scopes|
    requires DefineStep(st, st', self_, kind, visibility, name, node, nameText)
    ensures st'.Valid()
    ensures var before := ScopeVariables(BorrowScope(st, self_));
            var after := ScopeVariables(BorrowScope(st', self_));
            && |after| == |before| + 1
            && (forall i | 0 <= i < |before| :: after[i].variable == before[i].variable)
            && VariableName(after[|before|]) == nameText
            && VariableDefinition(after[|before|]).definition == Definition(kind, name, node, visibility)
            && VariableReferences(after[|before|]) == []
  {
    DefineKeepsValid(st, st', self_, kind, visibility, name, node, nameText);
    var before := ScopeVariables(BorrowScope(st, self_));
    var after := ScopeVariables(BorrowScope(st', self_));
    assert st.ScopeValid(self_);
    forall i | 0 <= i < |before|
      ensures after[i].variable == before[i].variable
    {
      var v := st.scopes[self_].Variables()[i];
      assert v in st.scopes[self_].Variables();
      assert after[i].variable == st'.variables[v];
    }
    assert st'.VariableValid(|st.variables|);
  }
}
