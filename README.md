# MegaPropertyEditor tree synchronisation, in Dafny

MegaPropertyEditor is a WinForms control that shows the public properties of
an object as a tree of editable rows. This project models and proves the part
of it that keeps the tree in step with the edited object graph:

- **PropertyToken** (module `Tokens`): the value that identifies one row. It
  holds the property, the owning object, the element index (a list element's
  position, or -2 for a list's "insert" row), the parent token, the element's
  runtime type and the node kind. The constructor picks the kind by a fixed
  precedence. `Equals`, `==`, `!=` and `GetHashCode` are structural. The hash
  code is computed on 32-bit words with the source's unchecked wrap-around.
- **The runtime it inspects** (module `RuntimeTypes`): type descriptors,
  property descriptors and an inductive, hence acyclic, object graph stand in
  for reflection. `IsExpandableClassType` and `IsTypeAList` are predicates
  over the type descriptors.
- **The token builder** (modules `Builder` and `BuilderShape`):
  - `BuildPropertyTokenTree` and `CreateListTokens` are methods that append
    to the flat token list, as the source does. Each is proved equal to a
    recursive specification function.
  - The list's shape is then proved on those functions: pre-order, parents
    first, one row per readable property, N element rows and one inserter
    row per list.
- **The reconciler** (module `Editor`, class `PropertyEditor`): `SetItem`
  and `GetItem`. SetItem's four passes are methods over the fields
  `objectNodes` (m_objectNodes), `tree` and `controlsShown`. `tree` is the
  tree view's node hierarchy, modelled in module `Forest` through the
  `TreeNode.Remove` and `Nodes.Add` operations the editor uses. The passes
  are:
  1. drop the stale tokens;
  2. create nodes for the new tokens;
  3. hang every node under its parent's node;
  4. move the inserter rows last.

  Module `EditorState` states what each pass leaves, as functions of the old
  state and lemmas about them.
- **The layout pass** (modules `Layout` and `Editor`): `RefreshExtras`,
  `RefreshNodeExtras` and `FixLayout`. They run over a snapshot of the tree
  view (`ViewNode`: id, right edge, expanded flag, children). The usable rows
  are proved to be the pre-order of the tree pruned at collapsed nodes. The
  width is proved to be the widest usable right edge, and the height the
  larger of 19 pixels per usable row and the control's height.
- **The candidate-type cache** (module `Catalog`, class `TypeCatalog`):
  `GetSuitableTypes` with the `sm_typesDerived` memo and its assembly scan,
  and `AddCustomEditor`.
- **The list handlers** (module `ListHandlers`): `ArrayElementNode.OnEraseClicked`
  and `ArrayInserterNode.OnAddClicked` mutate the backing list, which is a
  class `BackingList` over a `seq`. `InstantiateType` is a function of a
  given constructor that may fail.

Node identity is a `NodeId`. The map `nodes` records each created node's
token (BasicNode.m_token), so the BasicNode subclass a node was created as is
its token's `nodeType`: the creation switch covers every kind.

## Model

| member | source | states |
|---|---|---|
| Tokens.Classify | MegaPropertyEditor.cs:74-94 | The node kind is decided first-match-wins: each of the six kinds is chosen exactly when its own test holds and every earlier test fails. The tests, in order, are element index >= 0, index -2, expandable declared type with a null value, assignable to ICustomPropertyEdit, registered custom editor; otherwise Basic. |
| Tokens.EqualsIsValueEquality | MegaPropertyEditor.cs:101-129 | Equals against a non-null token holds exactly when property, owner, element index, parent (recursively, through `==`), element type and node kind all match, that is, when the two tokens are the same value. |
| Tokens.OperatorsAreValueEquality | MegaPropertyEditor.cs:149-170 | `==` over possibly-null tokens holds exactly when both are null or both are equal tokens, and `!=` exactly when they differ. |
| Tokens.EqualsIsEquivalence | MegaPropertyEditor.cs:101-129 | Equals is reflexive, symmetric and transitive, so tokens are sound dictionary keys. |
| Tokens.EqualTokensHashEqually | MegaPropertyEditor.cs:131-147 | Tokens that Equals relates have the same 32-bit hash code, for any hash codes of the property, owner, and element type objects. |
| Tokens.FilledReferenceChangesToken | MegaPropertyEditor.cs:86-87 | The token of an expandable property whose value was null (kind NullClass) differs from the token built once the reference is filled, so that row is replaced rather than kept. |
| RuntimeTypes.IsExpandableClassType | MegaPropertyEditor.cs:43-49 | A type is expandable exactly when it is a class or an interface and is not `string`. |
| RuntimeTypes.IsTypeAList | MegaPropertyEditor.cs:568-572 | A type is a list exactly when it is `IList<T>` itself or implements some `IList<T>`. |
| Builder.BuildPropertyTokenTree | MegaPropertyEditor.cs:575-600 | The method appends exactly the pre-order token list of the object, `PropertyTokens(o, parent)`, to the given flat list. |
| Builder.CreateListTokens | MegaPropertyEditor.cs:545-565 | The method appends exactly `ListTokens(list, arrayToken)`: each element's row followed by its subtree, then the inserter row. |
| BuilderShape.PropertyTokensShape | MegaPropertyEditor.cs:575-600 | In the built list every token's parent is the starting parent or a token emitted earlier, and every token lies below the starting parent. |
| BuilderShape.BuiltTokensParentClosed | MegaPropertyEditor.cs:575-600 | Every parent of a token built from the edited object is itself in the built list. |
| BuilderShape.PropertyChildren | MegaPropertyEditor.cs:578-584 | The direct children of the parent in the built list are one row per readable property, in reflection order, each owned by the object and not a list element. |
| BuilderShape.ListChildren | MegaPropertyEditor.cs:545-565 | A list row has exactly N+1 children. Children 0..N-1 are the element rows with those indices, kind ArrayElement, recording each element's runtime type. The last child is one inserter row (index -2, kind ArrayInserter). All share the list row's property and owner. |
| BuilderShape.ListPropertyRow | MegaPropertyEditor.cs:588-592 | A readable property whose type is a list (`IsTypeAList`) and whose value is non-null yields its row, then that list's element rows 0..N-1 and one inserter row under it. The inserter row comes last. |
| BuilderShape.ClassPropertyRow | MegaPropertyEditor.cs:593-597 | A readable non-list property yields its row. When `IsExpandableClassType` holds and the value is non-null, the row gets one child per readable property of the value. Otherwise the row is alone. |
| BuilderShape.PropertyTokensInserters | MegaPropertyEditor.cs:561-564 | Every token with index -2 in the built list is the inserter of its parent list row: it has a parent, with the same property and owner, and no element type. |
| Editor.PropertyEditor.constructor | MegaPropertyEditor.cs:30-40 | A new editor has nothing to edit and no nodes, and its bookkeeping invariant holds. |
| Editor.PropertyEditor.GetItem | MegaPropertyEditor.cs:716-719 | The result is the object last handed to SetItem. |
| Editor.PropertyEditor.SetItem | MegaPropertyEditor.cs:603-713 | Null leaves the nodes and tree untouched. For an object, afterwards: the dictionary's keys are exactly the built tokens; a surviving token keeps its node; a new token gets a fresh node with its controls hidden; a stale token's node is detached with controls hidden; every node hangs under its parent token's node with inserters last. An object whose graph yields the same tokens again changes nothing. |
| Editor.PropertyEditor.Reconcile | MegaPropertyEditor.cs:611-709 | The four passes over a parent-closed token list. Afterwards the keys are exactly the list and survivors keep their nodes. New nodes are fresh with hidden controls, and dropped nodes are detached and hidden. When the keys already were the list, nothing changes. |
| Editor.PropertyEditor.DropAndCreate | MegaPropertyEditor.cs:611-663 | After the diff, removal and creation passes, the keys are exactly the new list. Survivors keep their node and new tokens get ids never used before. Every old node keeps its token, stale and new nodes' controls are hidden, and every nested token's node is off the top level, ready for the hierarchy pass. When nothing was stale or new, nothing changed. |
| Editor.PropertyEditor.Rehang | MegaPropertyEditor.cs:669-709 | The hierarchy pass followed by the inserter pass restores the editor's invariant (every node under its parent token's node, inserters last). Controls are untouched, and a tree already so arranged is left as it was. |
| Editor.PropertyEditor.TokensToAdd | MegaPropertyEditor.cs:611-616 | The result is the tokens of the flat list that have no node, in list order (MissingExact: exactly those). |
| EditorState.MissingExact | MegaPropertyEditor.cs:611-616 | A token is in the to-add list exactly when it is in the flat list and not a key of the dictionary. |
| Editor.PropertyEditor.TokensToRemove | MegaPropertyEditor.cs:619-623 | A token is in the to-remove list exactly when it is a key that the new list lacks, and each occurs once. |
| Editor.PropertyEditor.RemoveStale | MegaPropertyEditor.cs:625-631 | The removal loop leaves the state `DropStale` gives: each stale token's node hidden, detached and forgotten, in list order. |
| EditorState.DropStaleKeys | MegaPropertyEditor.cs:625-631 | After i removal rounds the keys are exactly the old keys minus the first i stale tokens, and every remaining node is still in the tree's bookkeeping. |
| EditorState.DropStaleNodes | MegaPropertyEditor.cs:625-631 | After i rounds a remaining token keeps its node and the node its place. A dropped token's node is detached with its edit controls hidden. |
| EditorState.DropStaleRegistered | MegaPropertyEditor.cs:625-631 | The removal rounds keep the bookkeeping invariant: a well-formed tree, every node known, node-to-token map consistent. |
| Editor.PropertyEditor.AddNew | MegaPropertyEditor.cs:633-659 | The creation loop leaves the state `AddAll` gives: one fresh detached node per new token, in list order. Each new node's controls are hidden, as `HideNew` gives. |
| Editor.PropertyEditor.RenewNodes | MegaPropertyEditor.cs:625-659 | Removal then creation leaves exactly the state `DropStale` followed by `AddAll` and `HideNew` gives. |
| EditorState.HideNewHides | MegaPropertyEditor.cs:187-192 | The controls of every node the creation loop makes are hidden, and no control that was hidden is shown. |
| EditorState.AddAllKeys | MegaPropertyEditor.cs:633-659 | After i creation rounds the keys are the old keys plus the first i new tokens, and nothing else. |
| EditorState.AddAllNodes | MegaPropertyEditor.cs:633-659 | Creation keeps every old token's node and every old node's place. Each new token's node is a fresh id, at least the old next id, and detached. |
| EditorState.AddAllRegistered | MegaPropertyEditor.cs:633-659 | The creation rounds keep the bookkeeping invariant. |
| EditorState.ReconcileKeys | MegaPropertyEditor.cs:611-659 | Removing the to-remove tokens and then adding the to-add tokens leaves exactly the new list's tokens as keys. |
| EditorState.ReconcileRegistered | MegaPropertyEditor.cs:625-659 | After removal then creation the bookkeeping invariant holds and every old node keeps its token. |
| EditorState.ReconcileNodes | MegaPropertyEditor.cs:625-659 | After removal then creation survivors keep node and place, and new tokens' nodes are fresh and detached. |
| EditorState.AddAllHides | MegaPropertyEditor.cs:633-659 | Creation keeps every old token, keeps every hidden control hidden, and hides the controls of each new token's node. |
| EditorState.ReconcileShown | MegaPropertyEditor.cs:625-659 | After removal then creation both the nodes of dropped tokens and the nodes of new tokens have their controls hidden. |
| EditorState.NothingToReconcile | MegaPropertyEditor.cs:611-623 | When the keys already equal the new list, both the to-add and the to-remove lists are empty. |
| Editor.PropertyEditor.Reparent | MegaPropertyEditor.cs:669-696 | After the hierarchy pass every root token's node sits at the top level and every other node sits under its parent token's node. A tree already so arranged is left as it was. |
| Editor.PropertyEditor.ReparentOne | MegaPropertyEditor.cs:671-695 | One round of the hierarchy loop moves only its token's node, which ends at the top level for a root token and under its parent token's node otherwise. A node already in place is not touched. |
| EditorState.ReparentStep | MegaPropertyEditor.cs:669-696 | One round of the hierarchy loop places its token's node correctly and keeps the bookkeeping invariant. It also keeps the placement of the tokens already handled. |
| Editor.PropertyEditor.HangAtRoot | MegaPropertyEditor.cs:675-682 | A root token's node leaves any parent and ends at the top level, and only it moves. A node already at the top level is not touched. |
| Editor.PropertyEditor.HangUnder | MegaPropertyEditor.cs:683-695 | A nested token's node ends under its parent's node, and only it moves. A node already under the right parent is not detached and re-added. |
| Editor.PropertyEditor.MoveInsertersLast | MegaPropertyEditor.cs:698-709 | After the final pass every inserter row is the last child of its list row's node. No node changes place and the top level is unchanged. With the inserters left out, every node's children keep their relative order. A tree whose inserters were already last is unchanged. |
| EditorState.InsertersPassStep | MegaPropertyEditor.cs:700-709 | One round of the final loop keeps the handled inserters last, every place and the top level. With the inserters left out, children keep their relative order. |
| EditorState.MoveInserterStep | MegaPropertyEditor.cs:704-708 | Removing an inserter and re-adding it under its list row's node keeps the bookkeeping and every place. It keeps the other handled inserters last and the order of the non-inserter children. |
| EditorState.InserterMovedLast | MegaPropertyEditor.cs:700-709 | Moving one inserter to the end of its parent's children keeps every other inserter handled so far last, since distinct inserters hang under distinct list rows. |
| Forest.MoveToEnd | MegaPropertyEditor.cs:706-707 | Removing a child and re-adding it under the same parent leaves the other children in their relative order, with the moved one last. |
| Forest.MoveToEndKeepsOrder | MegaPropertyEditor.cs:706-707 | Moving a child to the end of its parent's children leaves every collection, with the moved set left out, as it was. |
| Forest.MoveLastIsIdentity | MegaPropertyEditor.cs:706-707 | Removing and re-adding the child that already is last changes nothing. |
| Forest.RemoveValid | MegaPropertyEditor.cs:629 | TreeNode.Remove keeps the tree well formed. The node becomes detached, and no collection lists it twice or lists a node placed elsewhere. |
| Forest.AddUnderValid | MegaPropertyEditor.cs:688 | Adding a detached node to a node's children keeps the tree well formed. |
| EditorState.TreeMatchesTokens | MegaPropertyEditor.cs:669-709 | In a consistent editor state the attached nodes are exactly the keys' nodes. A top-level node's token has no parent, and a nested node's token has the token of the node above it as parent: the tree mirrors the token parent chain. |
| Editor.PropertyEditor.RefreshNodeExtras | MegaPropertyEditor.cs:737-752 | The pre-order visit of a subtree appends the usable visits to m_usableNodes. It shows the controls of usable rows and hides those of the rest. The width becomes the larger of the old width and the widest usable right edge. |
| Layout.VisitsArePreOrder | MegaPropertyEditor.cs:737-752 | The visit order of RefreshNodeExtras is the pre-order of the subtree. |
| Layout.HiddenSubtree | MegaPropertyEditor.cs:737-752 | Under a collapsed or hidden ancestor no row of the subtree is usable. |
| Layout.UsableIsPrunedPreOrder | MegaPropertyEditor.cs:737-752 | The usable rows of a visible subtree are exactly the pre-order of the subtree with collapsed nodes' children cut off. |
| Layout.ApplyShownExact | MegaPropertyEditor.cs:740-748 | After the visits each visited node's controls are shown exactly when it is usable. Unvisited nodes keep their state. |
| Layout.MaxRightIsMaximum | MegaPropertyEditor.cs:744-745 | The computed width is at least the starting value and at least every usable right edge, and it equals one of them. |
| Editor.PropertyEditor.RefreshExtras | MegaPropertyEditor.cs:722-734 | m_usableNodes becomes exactly the rows on screen, top to bottom (the pruned pre-order of each top-level node). Controls are shown for those rows and hidden for the rest. m_iMaxTreeWidth becomes the widest usable right edge, or 0. The height is fixed. |
| Layout.UsableRowsAreShownRows | MegaPropertyEditor.cs:728-730 | Visiting the top-level nodes in order yields the concatenation of their pruned pre-orders. |
| Layout.TreeHeight | MegaPropertyEditor.cs:758-764 | The height is at least the control's height and at least 19 times the usable count, and it is one of the two. |
| Editor.PropertyEditor.FixLayout | MegaPropertyEditor.cs:755-768 | The tree view's height becomes the larger of 19 pixels per usable row and the control's height. |
| Catalog.AssemblyCandidatesExact | MegaPropertyEditor.cs:367-371 | One assembly contributes exactly its types that are assignable to the target and have a parameterless constructor. |
| Catalog.DiscoveredExact | MegaPropertyEditor.cs:364-372 | The assembly scan yields exactly the loaded types that are assignable to the target and default-constructible. |
| Catalog.SuitableTypesExact | MegaPropertyEditor.cs:360-377 | For a value type or string the candidates are exactly `[type]`. Otherwise they are exactly the suitable loaded types. |
| Catalog.DiscoverTypes | MegaPropertyEditor.cs:364-372 | The nested scan loops compute the discovered candidate list, in assembly and type order. |
| Catalog.TypeCatalog.GetSuitableTypes | MegaPropertyEditor.cs:356-383 | A miss scans the assemblies loaded at that moment, caches the candidate list for the type and returns it; the cache changes at that key only. A hit returns the list cached at the type's first lookup without touching the cache, even when more assemblies have been loaded since. |
| Catalog.LaterAssemblyNotSeen | MegaPropertyEditor.cs:358-382 | A suitable type from an assembly loaded after a lookup is missing from that lookup's list, while a scan at the later moment would offer it: a cached list can be stale. |
| Catalog.TypeCatalog.AddCustomEditor | MegaPropertyEditor.cs:24-26 | Registers, or replaces, the editor type for one property type, leaving the other registrations. |
| Catalog.TypeCatalog.constructor | MegaPropertyEditor.cs:34-38 | Starts with an empty type cache and no custom editors. |
| ListHandlers.RemovedAtShifts | MegaPropertyEditor.cs:486-491 | Removing index i shortens the list by one. Earlier elements stay and later ones shift down by one. The removed element is the only one lost. |
| ListHandlers.BackingList.RemoveAt | MegaPropertyEditor.cs:489 | IList.RemoveAt succeeds exactly for a list that is not read-only or fixed-size and an index in range, and then removes that element. Otherwise it fails and the list is unchanged. |
| ListHandlers.BackingList.Add | MegaPropertyEditor.cs:445 | IList.Add succeeds exactly for a list that is not read-only or fixed-size and a value whose type is assignable to the list's element type, and then appends it. Otherwise it fails and the list is unchanged. |
| ListHandlers.OnEraseClicked | MegaPropertyEditor.cs:486-491 | Erasing succeeds exactly when the list is not fixed-size and the row's element index is in range, and then removes that element. Otherwise the list is unchanged. |
| ListHandlers.SelectedCandidateIsOffered | MegaPropertyEditor.cs:437-445 | The type to instantiate is always one of the offered candidates. The choice fails exactly when there is no candidate, or when a selector is shown with its index out of range. With one candidate it is that one. |
| ListHandlers.InsertedTypeIsSuitable | MegaPropertyEditor.cs:437-445 | For a reference element type, an inserted element's type is assignable to the element type, default-constructible and loaded. |
| ListHandlers.OnAddClicked | MegaPropertyEditor.cs:437-447 | Inserting succeeds exactly when there is a type to pick, that type can be instantiated, and the list is not fixed-size and accepts that type; it then appends exactly one new instance of the selected type at the end of the list. Otherwise the list is unchanged. |

## Left out

- WinForms: control creation, positioning and painting, labels, colours and
  edit controls other than their shown/hidden state are not modelled.
  `Bounds.Right` and `IsExpanded` are inputs in the `ViewNode` snapshot.
- Reflection (`GetProperties`, `GetValue`, `IsAssignableFrom`, the
  AppDomain's assemblies, `Activator.CreateInstance`) is given as values.
  The loaded assemblies are a parameter of each lookup. The constructor is a
  function parameter of `InstantiateType`, which answers no instance where
  `Activator.CreateInstance` throws.
- Editor.PropertyEditor.SetItem: the static custom-editor registry
  (`sm_typeCustomEditors`) is passed as the `editors` parameter rather than
  read from `TypeCatalog`.
- Editor.PropertyEditor.SetItem: `m_link` is assigned after the passes
  rather than before. Nothing in the passes reads it.
- Editor.PropertyEditor.SetItem: the lists the builder walks must have no
  null elements (`ElementsNonNull`, `ItemsNonNull`). The source calls
  `GetType()` on each element and would throw. Lists the builder never
  reaches are not constrained. Cyclic graphs are excluded by the inductive
  `Value` type, and the source has no guard against them either.
- Editor.PropertyEditor.SetItem: node creation can throw in the source, and
  the model does not capture that. A list property row's node and an
  inserter's node read `GetGenericArguments()[0]` of the list's runtime
  type (lines 187, 401, 461). An array such as `int[]`, or a list class with
  no generic arguments of its own, passes `IsTypeAList` but has none.
- Editor.PropertyEditor.SetItem: `m_objectNodes` is a map from token values,
  so the model assumes that an owner's hash code does not change while it is
  edited. With a mutable owner hash, the `ContainsKey` test at line 615
  misses an existing token, and line 662 adds a second entry for it. The
  source would then show duplicate rows.
- Builder.BuildPropertyTokenTree: three reflection behaviours are not
  modelled. An indexer property (such as `String.Chars` on the strings of a
  `List<string>`) makes `GetValue` throw. The `(IList)` cast at line 548
  throws for a value that implements only `IList<T>`. The getter is read
  twice per property (lines 81 and 586), and the model reads one value.
- Editor.PropertyEditor.SetItem: the closing `RefreshExtras()` call is a
  separate step. `RefreshExtras` runs on a `ViewNode` snapshot of the tree
  view, and that snapshot is not derived from `tree` in the model.
- Editor.PropertyEditor.SetItem: the model does not establish the order of
  sibling property rows or element rows. The hierarchy pass appends new
  nodes under their parents, in dictionary enumeration order, which is not
  modelled. Only the final pass is proved order-preserving:
  `MoveInsertersLast` moves the inserters last and keeps the other children
  in their relative order. Element rows can lose index order in the source
  whatever the enumeration order. Take a list row with children `[0]X`,
  `[1]X` and the inserter, and let element 0's runtime type become Y. The
  token `[0]X` is dropped, `[1]X` survives, and the new `[0]Y` is appended
  after it.
- Editor.PropertyEditor.SetItem: a token's owner is the object reference
  read on that walk, and the model gives each object one fixed reference.
  In the source, `foreach` at line 550 boxes each value-type element anew,
  and a getter may return a new instance on each read (line 586). Such
  owners are new on every walk, and `Equals` compares owners by reference
  (line 124). Their rows are dropped and rebuilt on every SetItem, even of
  the same object.
- Catalog.TypeCatalog.GetSuitableTypes: the source's first lookup of a type
  often happens during SetItem, in the constructors of the null-reference,
  inserter and element nodes (lines 299, 402 and 462). The model's SetItem
  does not call the catalog. A cached list holds the suitable types of the
  assemblies loaded at that first lookup. `Assembly.GetTypes()` at line 367
  can throw `ReflectionTypeLoadException` during a miss, leaving nothing
  cached. The model's scan always completes.
- ListHandlers.OnEraseClicked and ListHandlers.OnAddClicked take the list
  as a parameter. In the source each acts on the `IList` its node captured
  when it was created (lines 400 and 459). Element and inserter tokens do
  not compare the list object. So when the owner's list property is
  reassigned to a new list with elements of the same runtime types, those
  nodes survive SetItem. Erase and insert then change the old list, while
  the rows show the new one.
- EditorState.DropOne: a round whose token has no node is a no-op in the
  model, where the source's dictionary indexer would throw.
  `DropStaleStep` proves that such a round never happens in `RemoveStale`.
- Catalog.TypeCatalog.AddCustomEditor: the registries are fields of one
  `TypeCatalog` object. In the source they are statics that start null and
  are created by the first editor constructor (lines 20, 35-38). So
  `AddCustomEditor` throws if it is called before any editor exists, and
  all editors share the registries without resetting them.
- Tokens.EqualsIsValueEquality: the reference-equality shortcut in `Equals`
  is not modelled separately. It agrees with value equality.
- Tokens.HashCode: the hash codes of the property, owner and element type
  objects come from a `HashSource` parameter. The owner's `GetHashCode` is
  user code.
- RefreshExtras's saved scroll position (`oldTop`, `iOldScroll`) is computed
  but never used by the source, so it is not modelled.
- `Dirty`/`BeginInvoke` deferral, the `~BasicNode` finalizer, the
  `Convert.ChangeType` text editing in `BasicNode`, `NullClassNode`'s
  instantiation and `CustomNode`/`CustomEditorNode` behaviour are not part
  of this model.
- ListHandlers.OnAddClicked: with no candidate, or a selector index out of
  range, the source throws. So does `Activator.CreateInstance` at line 351
  for a candidate the scan at line 369 admits but the runtime cannot
  instantiate: an open generic definition such as ``List`1``, an abstract
  class with a public parameterless constructor, or a constructor that
  throws. So does `IList.Add` at line 445, for a
  read-only or fixed-size list (`ReadOnlyCollection<T>`, an array), or when
  the list class's first generic argument is not its element type. The
  model reports failure and leaves the list unchanged.
- ListHandlers.OnEraseClicked: `IList.RemoveAt` at line 489 throws for an
  index out of range or a read-only or fixed-size list. The model reports
  failure and leaves the list unchanged.
