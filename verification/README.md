# Rust scope analysis: entity store, visibility parsing, paths and the walker

This project models the data layer of a scope analyser for Rust source files
(tree-sitter-lint-plugin-rust-scope-analysis) and proves properties of it in Dafny.
The analyser reads a syntax tree produced by tree-sitter. For each source file node it
meets, it creates a root scope. Scopes, definitions, variables and references live in
four append-only arenas, and they refer to each other only through integer handles.

The model covers:

- **The syntax tree** (`SyntaxTree`): an arena of nodes, each with a kind, its source
  text, an optional parent, children, named children and a field map. A parent always
  has a smaller index than its children, so walks down and climbs up both terminate.
- **Simple paths** (`Paths`): a `pub(in a::b::c)` path is turned into its segment list.
- **Node helpers** (`AstHelpers`):
  - the discard name `_`;
  - bare identifiers;
  - the leading name of a qualified path or type;
  - enum variant names;
  - attribute names.
- **Definitions and visibility** (`Definitions`): the declaration record, and the parsing
  of a `pub…` qualifier into one of six visibility values.
- **Variables, references and scopes** (`Variables`, `References`, `Scopes`): their
  records, their allocation, and `define`, which declares a name in a scope.
- **The arenas** (`IdArena`, `Arenas`): the append-only `Arena<T>`, the four arenas of
  one run, and the validity invariant over a snapshot of them. Under that invariant,
  every stored handle is live, and each variable is listed in the scope it names.
- **The read-only views** (`Views`): scope, variable, reference and definition views
  with their accessors, and id-based equality of variable views.
- **The analyser** (`ScopeAnalysis`): `visit` and `visit_children`, proved against a
  pre-order specification of the nodes a walk visits.

Panics in the source are preconditions. These are the `unwrap`s, `field(...)` on a
missing field, `assert_kind!`, `assert_eq!` and `unreachable!`. Facts the Rust grammar
guarantees are preconditions over the whole tree (`HasField`, `HasNamedChild`), such as
"a generic type has a `type` field".

In this revision the code has five definition kinds (`Struct`, `Module`, `Function`,
`ExternCrateDeclaration`, `Use`) and one scope kind (`Root`). The analyser does not
descend below a source file node. Some tests in the repository use further definition
kinds, nested scopes and name resolution, which this revision does not implement. This
model follows the code.

## Model

| member | source | states |
|---|---|---|
| SyntaxTree.Tree.NamedChildren | src/scope_analysis/scope_analyzer.rs:40-41 | every result is a named child of the node, with the node as its parent; no repeats when the node lists no child twice |
| SyntaxTree.NamedChildrenExactly | src/scope_analysis/scope_analyzer.rs:40-41 | the named children are exactly the node's children that are named nodes, in the order of its child list |
| SyntaxTree.Tree.NonCommentChildren | src/scope_analysis/definition.rs:63 | exactly the node's children that are not comments, in the order of its child list |
| SyntaxTree.Tree.FirstNonCommentNamedChild | src/scope_analysis/definition.rs:86 | None exactly when no child is a named non-comment node; otherwise such a child with no such child before it in the child list |
| Paths.New | src/path.rs:13-15 | the path holds exactly the given segments, in order |
| Paths.AndPush | src/path.rs:17-20 | one segment is appended at the end; earlier segments keep their order |
| Paths.PathChain | src/path.rs:26-35 | the chain starts at the node, each link is a scoped identifier whose `path` field is the next link, and it ends at the head: the first node that is not a scoped identifier with a `path` |
| Paths.FromNode | src/path.rs:22-39 | a metavariable gives None; a plain node gives its text as the only segment; a success has one segment per link of the path chain, and for a scoped identifier the last segment is its `name` text |
| Paths.FromNodeFailsIffHeadBlocks | src/path.rs:26-37 | the result is None exactly when the head of the chain is a metavariable, or a bracketed or generic type in path position |
| Paths.FromNodeSegmentsFollowChain | src/path.rs:27-37 | on success, the first segment is the head's text and segment j is the `name` text of the j-th scoped identifier counted outward from the head |
| AstHelpers.IsUnderscore | src/ast_helpers.rs:10-15 | true exactly when the node's text is `_` |
| AstHelpers.IsSimpleTypeIdentifier | src/ast_helpers.rs:17-20 | true exactly when the node is a type identifier and its parent is not a scoped type identifier; a parent is needed only for a type identifier |
| AstHelpers.IsSimpleIdentifier | src/ast_helpers.rs:22-24 | true exactly when the node is an identifier and its parent is not a scoped identifier; a parent is needed only for an identifier |
| AstHelpers.LeadingNameOfScopedIdentifier | src/ast_helpers.rs:38-56 | None when there is no `path` field or the path is of a kind the search does not look into; the path itself when it is an identifier; any result is an identifier or type identifier strictly below the node |
| AstHelpers.LeadingNameOfType | src/ast_helpers.rs:58-64 | a type identifier is its own leading name; kinds other than type identifiers and scoped type identifiers give None; any result is a name at or below the node |
| AstHelpers.LeadingNameOfBracketedType | src/ast_helpers.rs:46-52 | any result is an identifier or type identifier strictly below the bracketed type |
| AstHelpers.LeadingNameIsPathHead | src/ast_helpers.rs:41-45 | for an `a::b::c` path whose head is an identifier, the leading name is that head, and it is the node whose text becomes the path's first segment |
| AstHelpers.LeadingNameFollowsChain | src/ast_helpers.rs:38-56 | at any depth of `x::...::y`, the head of the path chain decides the leading name: an identifier head is it; a bracketed or generic head gives that head's leading name; any other head (`crate`, `self`, `super`, a metavariable, a scoped identifier with no path) gives None |
| AstHelpers.LeadingNameOfTypeIsPathHead | src/ast_helpers.rs:58-64 | a scoped type identifier `a::b::C` whose path chain ends in an identifier leads with that identifier |
| AstHelpers.LeadingNameOfTypeHead | src/ast_helpers.rs:46-53 | `T<U>::x` leads with the leading name of `T`, `<T as U>::x` with that of `T`, and `<T>::x` with that of `T`; `T` itself when it is a type identifier; as a type, a scoped type identifier leads with the leading name of its path |
| AstHelpers.IsEnumVariantName | src/ast_helpers.rs:66-69 | true exactly when the parent is an enum variant whose `name` field is the node |
| AstHelpers.AttributeNameIffChain | src/ast_helpers.rs:71-85 | the recursive climb succeeds exactly when some ancestor is an attribute whose first named child is the ancestor one level down, with only identifiers or scoped identifiers in between |
| AstHelpers.IsAttributeName | src/ast_helpers.rs:71-85 | the loop terminates; it answers the recursive climb, and so is true exactly when such an attribute chain exists |
| IdArena.Arena.constructor | src/scope_analysis/arenas.rs:5-11 | a new arena is empty |
| IdArena.Arena.Alloc | src/scope_analysis/definition.rs:29-34 | the value is stored in one new slot at the end, whose index is returned; earlier slots are unchanged |
| IdArena.Arena.AllocWithId | src/scope_analysis/scope.rs:14-18 | as Alloc, for a value built from the index it is about to receive |
| Definitions.New | src/scope_analysis/definition.rs:22-35 | one definition holding the arguments verbatim is appended, under the returned handle |
| Definitions.FromVisibilityModifier | src/scope_analysis/definition.rs:59-83 | never Private; `pub` alone gives Pub; `pub(self)`, `pub(super)` and `pub(crate)` give PubSelf, PubSuper and PubCrate; `pub(in P)` gives PubInPath with the path read from P; each iff |
| Definitions.ParsedVisibilitySpellsItsTokens | src/scope_analysis/definition.rs:63-80 | spelling the parsed visibility gives back the qualifier's leading tokens, and for `in` the path read from the next token |
| Definitions.FromItem | src/scope_analysis/definition.rs:85-90 | the default (Private) exactly when the first non-comment named child is not a visibility qualifier; otherwise that qualifier parsed |
| Variables.New | src/scope_analysis/variable.rs:19-32 | one variable is appended under the returned handle; it records that handle as its id, the name, definition and scope as passed, and no references |
| References.New | src/scope_analysis/reference.rs:19-32 | one unresolved reference is appended under the returned handle; it records that handle as its id, and the node, scope and usage kind as passed |
| Scopes.Scope.Id | src/scope_analysis/scope.rs:33-35 | the handle the scope records as its own |
| Scopes.Scope.Variables | src/scope_analysis/scope.rs:83-87 | the scope's list of variable handles, in declaration order |
| Scopes.RootScope | src/scope_analysis/scope.rs:14-18 | a root scope recording the given handle, with no variables |
| Scopes.Scope.PushVariable | src/scope_analysis/scope.rs:37-39 | one variable is appended at the end of the scope's list; the earlier variables, the id and the kind are kept |
| Scopes.NewRoot | src/scope_analysis/scope.rs:13-19 | one root scope with no variables is appended; it records the handle it was allocated under |
| Scopes.Define | src/scope_analysis/scope.rs:42-67 | one definition of the arguments is appended, and one variable named by the name node's text, pointing at that definition and at the scope, with no references; that variable is appended to this scope's list, and every other scope is unchanged |
| Arenas.AllArenas.constructor | src/scope_analysis/arenas.rs:5-11 | four distinct empty arenas |
| Arenas.AllArenas.Define | src/scope_analysis/scope.rs:42-67 | running `define` on the arenas takes exactly the step DefineStep describes and keeps the store valid; every earlier definition, variable and reference is kept, and every earlier scope keeps its id and kind while its variable list only grows at the end |
| Arenas.EmptyStoreIsValid | src/scope_analysis/arenas.rs:5-11 | the empty store satisfies the handle invariant |
| Arenas.NewRootKeepsValid | src/scope_analysis/scope.rs:13-19 | adding a root scope keeps every handle live and keeps every earlier entry |
| Arenas.NewReferenceKeepsValid | src/scope_analysis/reference.rs:19-32 | adding an unresolved reference from a live scope keeps every handle live and keeps every earlier entry |
| Arenas.DefineKeepsValid | src/scope_analysis/scope.rs:42-67 | after `define` the store is still valid and keeps every earlier entry; the new variable's home is the scope defined into; that scope's list grows by exactly the new variable, and every other scope is unchanged |
| Views.BorrowScope | src/scope_analysis/variable.rs:53-55 | the view holds the record stored under the handle, and in a valid store that record's id is the handle |
| Views.BorrowVariable | src/scope_analysis/reference.rs:55-59 | the view holds the record stored under the handle, and in a valid store that record's id is the handle |
| Views.BorrowReference | src/scope_analysis/variable.rs:57-59 | the view holds the record stored under the handle, and in a valid store that record's id is the handle |
| Views.BorrowDefinition | src/scope_analysis/variable.rs:61-63 | the view holds the record stored under the handle |
| Views.ScopeVariables | src/scope_analysis/scope.rs:83-89 | one view per variable of the scope, in declaration order; each holds the record stored under that handle, whose home scope is this scope |
| Views.VariableName | src/scope_analysis/variable.rs:49-51 | the stored name |
| Views.VariableScope | src/scope_analysis/variable.rs:53-55 | the stored record of the scope the variable names as home, whose variable list contains the variable |
| Views.VariableReferences | src/scope_analysis/variable.rs:57-59 | one view per stored reference handle, in list order, each holding the record stored under it |
| Views.VariableDefinition | src/scope_analysis/variable.rs:61-63 | the definition stored under the variable's definition handle, which is live |
| Views.VariableEq | src/scope_analysis/variable.rs:66-70 | two variable views are equal when they view the same handle |
| Views.VariableEqIsEquivalence | src/scope_analysis/variable.rs:66-72 | id equality of variable views is reflexive, symmetric and transitive |
| Views.VariableEqIsSameSlot | src/scope_analysis/variable.rs:66-70 | in a valid store, two borrowed views are equal exactly when they borrow the same handle, and exactly when they are the same view |
| Views.ReferenceResolved | src/scope_analysis/reference.rs:55-59 | None exactly when the stored `resolved` is None; otherwise a view of the record stored under that variable handle |
| Views.ReferenceNode | src/scope_analysis/reference.rs:61-63 | the stored node |
| Views.ReferenceScope | src/scope_analysis/reference.rs:65-67 | a view of the stored record of the scope the reference records |
| Views.ReferenceUsageKind | src/scope_analysis/reference.rs:69-71 | the stored usage kind |
| Views.DefineExtendsScopeVariables | src/scope_analysis/scope.rs:60-66 | after `define`, the scope's variable views are the earlier ones plus one; the new one carries the name text and a definition of the arguments, and has no references |
| ScopeAnalysis.PreOrderVisitsReached | src/scope_analysis/scope_analyzer.rs:28-44 | a walk from n visits exactly the nodes below n that hang from it by named links, with no source file strictly between |
| ScopeAnalysis.PreOrderDistinct | src/scope_analysis/scope_analyzer.rs:39-44 | a walk visits no node twice |
| ScopeAnalysis.CountSourceFilesAppend | src/scope_analysis/scope_analyzer.rs:41-43 | the scopes created by consecutive child visits add up |
| ScopeAnalysis.ScopeAnalyzer.constructor | src/scope_analysis/scope_analyzer.rs:16-26 | the analyser keeps the file contents, has no scopes, and has four fresh empty arenas |
| ScopeAnalysis.ScopeAnalyzer.Visit | src/scope_analysis/scope_analyzer.rs:28-37 | visits exactly the pre-order walk from the node; one root scope is added per source file visited, and earlier scopes are kept; at a source file it adds exactly one root scope with no variables and visits nothing else; the invariant is kept |
| ScopeAnalysis.ScopeAnalyzer.VisitChildren | src/scope_analysis/scope_analyzer.rs:39-44 | visits each named child's walk once, left to right, and adds one scope per source file visited |
| ScopeAnalysis.GetScopeAnalyzer | src/tests/scope_analysis/helpers.rs:14-20 | one scope per source file the walk from the root visits; a file whose root is a source file node, an empty file included, ends with exactly one root scope and no variables |

## Left out

- Tree-sitter parsing, nodes and cursors are replaced by the abstract node arena `SyntaxTree.Tree`. A node's identity is its index.
- The source text provider (`SourceTextProvider`, `RopeOrSlice`) is replaced by each node's `text` field. The analyser keeps the tree itself as its file contents.
- Tracing (`trace!`) has no effect on behaviour and is not modelled.
- Lifetimes and `Cow` are not modelled; strings are values.
- The `kind` module is not part of this model. Node and token kinds are string constants in `SyntaxTree` and `Definitions`.
- Module glue (`lib.rs`, the `mod.rs` files) and the test harness are left out. `GetScopeAnalyzer` stands for the test helper.
- Handles of the four arenas are all natural numbers. Rust gives each arena its own `Id` type, and `id_arena` checks that a handle belongs to its arena; the model does not tell the four kinds of handle apart, so a variable handle could be passed where a scope handle is expected.
- SyntaxTree.Tree.NamedChildren: its own contract says only that each result is a named child. That it returns all of them, in order, is the lemma `NamedChildrenExactly`, kept out of the function's contract so that the walker's proofs stay small.
- AstHelpers.LeadingNameOfScopedIdentifier: its own contract covers only the `path` attached directly to the node. For a longer chain, the lemma `LeadingNameFollowsChain` states the result.
- `assert_kind!` and the other panics are preconditions, not error results.
- Definitions.FromVisibilityModifier: its preconditions ask that a `pub(in P)` path parse. They also ask, for every scoped identifier of the tree, that a `name` field exists. The source panics only at the nodes it actually reads.
- Definitions.FromVisibilityModifier: the token after `pub` is required to be `(`, as the source asserts. The closing `)` is not checked, as in the source.
- Name resolution, bubbling through scopes, and `use` flattening and aliasing are absent from this revision of the code and are not modelled. The same goes for the definition kinds and scope queries that some tests of a later revision expect.
- Views carry a snapshot of the four arenas rather than a back-pointer to the analyser. A shared borrow freezes the arenas for the view's lifetime, so the snapshot is exact. Aliasing of the view structs themselves is not modelled.
- The analyser's `borrow_*` helpers are not part of this model. Views.BorrowScope, Views.BorrowVariable, Views.BorrowReference and Views.BorrowDefinition stand for them, reading the stored record by handle.
- Views.DefinitionKindOf, Views.DefinitionName and Views.DefinitionNode return the stored fields and carry no contract of their own. A definition records no id of its own, so it has no validity counterpart.
- ScopeAnalysis.ScopeAnalyzer.Visit: the list of visited nodes is a ghost result that the method reports about itself. It is not state of the analyser.
- ScopeAnalysis.PreOrderDistinct: it assumes that a node's child list names each child once (`Tree.ChildrenDistinct`). Tree-sitter guarantees this for a parsed tree.
- ScopeAnalysis.ScopeAnalyzer.Valid: the invariant includes "every scope is a root scope with no variables". Nothing in this revision calls `define` during the walk. `Scopes.Define` and `Arenas.DefineKeepsValid` are proved on their own.
