/**
 * MegaPropertyEditor: SetItem rebuilds the token list of the edited object
 * and reconciles the tree view against it in four passes (drop stale rows,
 * create new rows, hang every row under its parent, move inserter rows
 * last), then refreshes the layout. Nodes are identified by NodeId; the
 * BasicNode subclass a node is created as is its token's node kind.
 */
module Editor {
  import opened Wrappers
  import opened RuntimeTypes
  import opened Tokens
  import opened Builder
  import opened BuilderShape
  import opened Forest
  import F = Forest
  import opened EditorState
  import opened Layout

  class PropertyEditor {
    /** m_link: the object being edited. */
    var link: Value
    /** m_objectNodes: the node shown for each token. */
    var objectNodes: map<Token, NodeId>
    /** The tree view's nodes and their hierarchy. */
    var tree: Forest
    /** BasicNode.m_token of every node created so far. */
    var nodes: map<NodeId, Token>
    /** The id the next created node receives. */
    var nextNode: NodeId
    /** m_usableNodes: the rows whose ancestors are all expanded, top to bottom. */
    var usableNodes: seq<NodeId>
    /** m_iMaxTreeWidth. */
    var maxTreeWidth: int
    /** The tree view's height as FixLayout last set it. */
    var treeHeight: int
    /** Whether each node's edit controls are shown (ShowEditControls / HideEditControls). */
    var controlsShown: map<NodeId, bool>

    ghost predicate Valid()
      reads this`objectNodes, this`tree, this`nodes, this`nextNode
    {
      Consistent(objectNodes, tree, nodes, nextNode)
    }

    /** A new editor: nothing to edit, an empty tree view. */
    constructor ()
      ensures Valid()
      ensures link == Null && objectNodes == map[] && tree.roots == [] && usableNodes == []
    {
      link := Null;
      objectNodes := map[];
      tree := Forest([], map[], map[]);
      nodes := map[];
      nextNode := 0;
      usableNodes := [];
      maxTreeWidth := 0;
      treeHeight := 0;
      controlsShown := map[];
    }

    /** GetItem: the object most recently handed to SetItem. */
    method GetItem() returns (r: Value)
      ensures r == link
    {
      r := link;
    }

    /**
     * SetItem: remember the object and, when there is one, rebuild its token
     * list and reconcile the tree view against it. The tree view then shows
     * exactly the object's tokens, each under its parent's row with inserter
     * rows last; a token that already had a node keeps it, a new token gets a
     * fresh node with its edit controls hidden, and the node of a token that
     * is gone is detached with its edit controls hidden. An object whose
     * graph yields the same tokens again changes nothing.
     */
    method SetItem(o: Value, editors: map<TypeId, TypeId>)
      requires Valid()
      requires o.Obj? ==> ElementsNonNull(o)
      modifies this`link, this`objectNodes, this`tree, this`nodes, this`nextNode, this`controlsShown
      ensures Valid() && link == o
      ensures !o.Obj? ==> unchanged(this`objectNodes, this`tree, this`nodes, this`nextNode, this`controlsShown)
      ensures o.Obj? ==> forall t :: t in objectNodes <==> t in PropertyTokens(o, None, editors)
      ensures forall t :: t in objectNodes && t in old(objectNodes) ==> objectNodes[t] == old(objectNodes)[t]
      ensures forall t :: t in objectNodes && t !in old(objectNodes) ==> old(nextNode) <= objectNodes[t]
      ensures forall t :: t in old(objectNodes) && t !in objectNodes ==>
                old(objectNodes)[t] in tree.place && tree.place[old(objectNodes)[t]] == Detached &&
                old(objectNodes)[t] in controlsShown && !controlsShown[old(objectNodes)[t]]
      ensures forall t :: t in objectNodes && t !in old(objectNodes) ==>
                objectNodes[t] in controlsShown && !controlsShown[objectNodes[t]]
      ensures o.Obj? && (forall t :: t in old(objectNodes) <==> t in PropertyTokens(o, None, editors)) ==>
                objectNodes == old(objectNodes) && tree == old(tree) && controlsShown == old(controlsShown)
    {
      if o.Obj? {
        var tokensFlatList := BuildPropertyTokenTree(o, None, editors, []);
        assert tokensFlatList == PropertyTokens(o, None, editors);
        BuiltTokensParentClosed(o, editors);
        PropertyTokensInserters(o, None, editors);
        Reconcile(tokensFlatList);
      }
      link := o;
    }

    /**
     * The four passes of SetItem over the new token list: drop the stale
     * tokens, create nodes for the new ones, hang every node where its token
     * belongs and move inserter rows last.
     */
    method Reconcile(tokensFlatList: seq<Token>)
      requires Valid()
      requires forall t :: t in tokensFlatList && t.parent.Some? ==> t.parent.value in tokensFlatList
      requires forall t :: t in tokensFlatList ==> InserterShaped(t)
      modifies this`objectNodes, this`tree, this`nodes, this`nextNode, this`controlsShown
      ensures Valid()
      ensures forall t :: t in objectNodes <==> t in tokensFlatList
      ensures forall t :: t in objectNodes && t in old(objectNodes) ==> objectNodes[t] == old(objectNodes)[t]
      ensures forall t :: t in objectNodes && t !in old(objectNodes) ==> old(nextNode) <= objectNodes[t]
      ensures forall t :: t in old(objectNodes) && t !in objectNodes ==>
                old(objectNodes)[t] in tree.place && tree.place[old(objectNodes)[t]] == Detached
      ensures forall t :: t in old(objectNodes) && t !in objectNodes ==>
                old(objectNodes)[t] in controlsShown && !controlsShown[old(objectNodes)[t]]
      ensures forall t :: t in objectNodes && t !in old(objectNodes) ==>
                objectNodes[t] in controlsShown && !controlsShown[objectNodes[t]]
      ensures (forall t :: t in old(objectNodes) <==> t in tokensFlatList) ==>
                objectNodes == old(objectNodes) && tree == old(tree) && controlsShown == old(controlsShown)
    {
      ghost var on0 := objectNodes;
      DropAndCreate(tokensFlatList);
      Rehang();
      DroppedDetached(on0, objectNodes, tree, nodes, nextNode);
    }

    /** The last two passes of SetItem: they move nodes within the tree view and change nothing else. */
    method Rehang()
      requires Registered(objectNodes, tree, nodes, nextNode) && ParentClosed(objectNodes) && Shaped(objectNodes)
      requires forall t :: t in objectNodes && t.parent.Some? ==> objectNodes[t] in tree.place && tree.place[objectNodes[t]] != AtRoot
      modifies this`tree
      ensures Valid()
      ensures unchanged(this`controlsShown)
      ensures Placed(objectNodes, old(tree)) && InsertersLast(objectNodes, old(tree)) ==> tree == old(tree)
    {
      Reparent();
      MoveInsertersLast();
    }

    /**
     * The first passes of SetItem: work out the stale and the new tokens,
     * drop the stale ones and create nodes for the new ones. Afterwards the
     * dictionary holds exactly the listed tokens, ready for the hierarchy
     * pass; when nothing was stale or new, nothing changed.
     */
    method DropAndCreate(tokensFlatList: seq<Token>)
      requires Valid()
      requires forall t :: t in tokensFlatList && t.parent.Some? ==> t.parent.value in tokensFlatList
      requires forall t :: t in tokensFlatList ==> InserterShaped(t)
      modifies this`objectNodes, this`tree, this`nodes, this`nextNode, this`controlsShown
      ensures Registered(objectNodes, tree, nodes, nextNode) && ParentClosed(objectNodes) && Shaped(objectNodes)
      ensures forall t :: t in objectNodes && t.parent.Some? ==> objectNodes[t] in tree.place && tree.place[objectNodes[t]] != AtRoot
      ensures forall t :: t in objectNodes <==> t in tokensFlatList
      ensures forall t :: t in objectNodes && t in old(objectNodes) ==> objectNodes[t] == old(objectNodes)[t]
      ensures forall t :: t in objectNodes && t !in old(objectNodes) ==> old(nextNode) <= objectNodes[t]
      ensures forall t :: t in old(objectNodes) ==> old(objectNodes)[t] in nodes && nodes[old(objectNodes)[t]] == t
      ensures forall t :: t in old(objectNodes) && t !in objectNodes ==>
                old(objectNodes)[t] in controlsShown && !controlsShown[old(objectNodes)[t]]
      ensures forall t :: t in objectNodes && t !in old(objectNodes) ==>
                objectNodes[t] in controlsShown && !controlsShown[objectNodes[t]]
      ensures (forall t :: t in old(objectNodes) <==> t in tokensFlatList) ==>
                objectNodes == old(objectNodes) && tree == old(tree) && controlsShown == old(controlsShown)
      ensures Placed(old(objectNodes), old(tree)) && InsertersLast(old(objectNodes), old(tree))
    {
      var tokensToAdd := TokensToAdd(tokensFlatList);
      MissingExact(tokensFlatList, objectNodes.Keys);
      var tokensToRemove := TokensToRemove(tokensFlatList);
      ghost var s0 := Stage(objectNodes, tree, controlsShown);
      RegisteredHung(objectNodes, tree, nodes, nextNode);
      ReconcileKeys(s0, tokensFlatList, tokensToRemove, tokensToAdd, nodes, nextNode);
      ReconcileRegistered(s0, tokensToRemove, tokensToAdd, nodes, nextNode);
      ReconcileNodes(s0, tokensToRemove, tokensToAdd, nodes, nextNode);
      ReconcileShown(s0, tokensToRemove, tokensToAdd, nodes, nextNode);
      RenewNodes(tokensToRemove, tokensToAdd);
      ListedKeys(objectNodes, tokensFlatList);
      ReparentReady(s0.on, s0.f, objectNodes, tree);
      if forall t :: t in s0.on <==> t in tokensFlatList {
        NothingToReconcile(s0.on.Keys, tokensFlatList, tokensToRemove, tokensToAdd);
      }
    }

    // -------------------------------------------------------------------
    // The passes of SetItem

    /** The tokens of the new list that have no node yet, in list order. */
    method TokensToAdd(tokensFlatList: seq<Token>) returns (tokensToAdd: seq<Token>)
      ensures tokensToAdd == Missing(tokensFlatList, objectNodes.Keys)
    {
      tokensToAdd := [];
      var i := 0;
      while i < |tokensFlatList|
        invariant 0 <= i <= |tokensFlatList|
        invariant tokensToAdd == Missing(tokensFlatList[..i], objectNodes.Keys)
      {
        var t := tokensFlatList[i];
        if t !in objectNodes {
          tokensToAdd := tokensToAdd + [t];
        }
        assert tokensFlatList[..i + 1][..i] == tokensFlatList[..i];
        i := i + 1;
      }
      assert tokensFlatList[..|tokensFlatList|] == tokensFlatList;
    }

    /** The tokens with a node that are not in the new list, each once, in dictionary order. */
    method TokensToRemove(tokensFlatList: seq<Token>) returns (tokensToRemove: seq<Token>)
      ensures forall t :: t in tokensToRemove <==> t in objectNodes && t !in tokensFlatList
      ensures TokensDistinct(tokensToRemove)
    {
      tokensToRemove := [];
      var rest := objectNodes.Keys;
      while rest != {}
        invariant rest <= objectNodes.Keys
        invariant forall t :: t in tokensToRemove <==> t in objectNodes && t !in rest && t !in tokensFlatList
        invariant TokensDistinct(tokensToRemove)
        decreases rest
      {
        var t :| t in rest;
        if t !in tokensFlatList {
          tokensToRemove := tokensToRemove + [t];
        }
        rest := rest - {t};
      }
    }

    /** The stale tokens' removal followed by the new tokens' creation, as one state change. */
    method RenewNodes(tokensToRemove: seq<Token>, tokensToAdd: seq<Token>)
      requires Hung(objectNodes, tree)
      requires forall t :: t in tokensToRemove ==> t in objectNodes
      requires TokensDistinct(tokensToRemove)
      modifies this`objectNodes, this`tree, this`nodes, this`nextNode, this`controlsShown
      ensures var s1 := DropStale(Stage(old(objectNodes), old(tree), old(controlsShown)), tokensToRemove, |tokensToRemove|);
        && Book(objectNodes, tree, nodes, nextNode) == AddAll(Book(s1.on, s1.f, old(nodes), old(nextNode)), tokensToAdd, |tokensToAdd|)
        && controlsShown == HideNew(s1.shown, old(nextNode), |tokensToAdd|)
    {
      RemoveStale(tokensToRemove);
      AddNew(tokensToAdd);
    }

    /**
     * Hide, detach and forget the node of every stale token, in list order;
     * DropStaleKeys, DropStaleNodes and DropStaleRegistered say what that
     * leaves.
     */
    method RemoveStale(tokensToRemove: seq<Token>)
      requires Hung(objectNodes, tree)
      requires forall t :: t in tokensToRemove ==> t in objectNodes
      requires TokensDistinct(tokensToRemove)
      modifies this`objectNodes, this`tree, this`controlsShown
      ensures Stage(objectNodes, tree, controlsShown)
           == DropStale(Stage(old(objectNodes), old(tree), old(controlsShown)), tokensToRemove, |tokensToRemove|)
    {
      ghost var s0 := Stage(objectNodes, tree, controlsShown);
      var i := 0;
      while i < |tokensToRemove|
        invariant i <= |tokensToRemove|
        invariant Stage(objectNodes, tree, controlsShown) == DropStale(s0, tokensToRemove, i)
      {
        DropStaleStep(s0, tokensToRemove, i);
        var t := tokensToRemove[i];
        var n := objectNodes[t];
        controlsShown := controlsShown[n := false];
        tree := Remove(tree, n);
        objectNodes := objectNodes - {t};
        i := i + 1;
      }
    }

    /**
     * Create a detached node with hidden edit controls for every new token,
     * in list order; AddAllKeys, AddAllNodes, AddAllRegistered and
     * HideNewHides say what that leaves.
     */
    method AddNew(tokensToAdd: seq<Token>)
      modifies this`objectNodes, this`tree, this`nodes, this`nextNode, this`controlsShown
      ensures Book(objectNodes, tree, nodes, nextNode)
           == AddAll(Book(old(objectNodes), old(tree), old(nodes), old(nextNode)), tokensToAdd, |tokensToAdd|)
      ensures controlsShown == HideNew(old(controlsShown), old(nextNode), |tokensToAdd|)
    {
      ghost var b0 := Book(objectNodes, tree, nodes, nextNode);
      var i := 0;
      while i < |tokensToAdd|
        invariant i <= |tokensToAdd| && nextNode == old(nextNode) + i
        invariant Book(objectNodes, tree, nodes, nextNode) == AddAll(b0, tokensToAdd, i)
        invariant controlsShown == HideNew(old(controlsShown), old(nextNode), i)
      {
        var t := tokensToAdd[i];
        var n := nextNode;
        tree := NewNode(tree, n);
        nodes := nodes[n := t];
        objectNodes := objectNodes[t := n];
        controlsShown := controlsShown[n := false];
        nextNode := nextNode + 1;
        i := i + 1;
      }
    }

    /** Hang every token's node where it belongs: top level for a root token, else under its parent's node. */
    method Reparent()
      requires Registered(objectNodes, tree, nodes, nextNode) && ParentClosed(objectNodes)
      requires forall t :: t in objectNodes && t.parent.Some? ==> tree.place[objectNodes[t]] != AtRoot
      modifies this`tree
      ensures Registered(objectNodes, tree, nodes, nextNode) && Placed(objectNodes, tree)
      ensures Placed(objectNodes, old(tree)) ==> tree == old(tree)
    {
      ghost var wasPlaced := Placed(objectNodes, tree);
      var rest := objectNodes.Keys;
      while rest != {}
        invariant rest <= objectNodes.Keys
        invariant Registered(objectNodes, tree, nodes, nextNode)
        invariant forall t :: t in objectNodes && t !in rest ==>
                    objectNodes[t] in tree.place && tree.place[objectNodes[t]] == Correct(objectNodes, t)
        invariant forall t :: t in objectNodes && t.parent.Some? ==>
                    objectNodes[t] in tree.place && tree.place[objectNodes[t]] != AtRoot
        invariant wasPlaced ==> tree == old(tree)
        decreases rest
      {
        var t :| t in rest;
        ghost var before := tree;
        ReparentOne(t);
        ReparentStep(objectNodes, before, tree, nodes, nextNode, t, rest);
        rest := rest - {t};
      }
    }

    /** One round of the hierarchy loop: only the node of t moves. */
    method ReparentOne(t: Token)
      requires F.Valid(tree) && t in objectNodes && objectNodes[t] in tree.place
      requires t.parent.Some? ==> t.parent.value in objectNodes && objectNodes[t.parent.value] in tree.children
      requires t.parent.Some? ==> tree.place[objectNodes[t]] != AtRoot
      modifies this`tree
      ensures F.Valid(tree) && OnlyMoved(old(tree), tree, objectNodes[t])
      ensures objectNodes[t] in tree.place && tree.place[objectNodes[t]] == Correct(objectNodes, t)
      ensures old(tree).place[objectNodes[t]] == Correct(objectNodes, t) ==> tree == old(tree)
    {
      var n := objectNodes[t];
      if t.parent.None? {
        HangAtRoot(n);
      } else {
        HangUnder(n, objectNodes[t.parent.value]);
      }
    }

    /** A top-level token's node: leave a parent if it has one, then join the top level unless already there. */
    method HangAtRoot(n: NodeId)
      requires F.Valid(tree) && n in tree.place
      modifies this`tree
      ensures F.Valid(tree) && OnlyMoved(old(tree), tree, n)
      ensures n in tree.place && tree.place[n] == AtRoot
      ensures old(tree).place[n] == AtRoot ==> tree == old(tree)
    {
      if tree.place[n].Under? {
        RemoveValid(tree, n);
        tree := Remove(tree, n);
      }
      if n !in tree.roots {
        AddRootValid(tree, n);
        tree := AddRoot(tree, n);
      }
    }

    /** A nested token's node: join the parent's node if detached, or move there from another parent. */
    method HangUnder(n: NodeId, parentNode: NodeId)
      requires F.Valid(tree) && n in tree.place && parentNode in tree.children && tree.place[n] != AtRoot
      modifies this`tree
      ensures F.Valid(tree) && OnlyMoved(old(tree), tree, n)
      ensures n in tree.place && tree.place[n] == Under(parentNode)
      ensures old(tree).place[n] == Under(parentNode) ==> tree == old(tree)
    {
      if !tree.place[n].Under? {
        AddUnderValid(tree, parentNode, n);
        tree := AddUnder(tree, parentNode, n);
      } else if tree.place[n] != Under(parentNode) {
        RemoveValid(tree, n);
        tree := Remove(tree, n);
        AddUnderValid(tree, parentNode, n);
        tree := AddUnder(tree, parentNode, n);
      }
    }

    /**
     * The final pass: every inserter row is taken out and appended to its
     * list row's children; every other child keeps its place among its
     * siblings.
     */
    method MoveInsertersLast()
      requires Registered(objectNodes, tree, nodes, nextNode) && Placed(objectNodes, tree) && Shaped(objectNodes)
      modifies this`tree
      ensures Registered(objectNodes, tree, nodes, nextNode) && Placed(objectNodes, tree)
      ensures InsertersLast(objectNodes, tree)
      ensures tree.place == old(tree).place && tree.roots == old(tree).roots
      ensures InsertersLast(objectNodes, old(tree)) ==> tree == old(tree)
      ensures OrderKeptOutside(old(tree), tree, InserterNodes(objectNodes))
    {
      ghost var wasLast := InsertersLast(objectNodes, tree);
      ghost var inserters := InserterNodes(objectNodes);
      var on, f := objectNodes, tree;
      var rest := on.Keys;
      while rest != {}
        invariant InsertersPassed(on, old(tree), f, nodes, nextNode, rest, wasLast, inserters)
        decreases rest
      {
        var t :| t in rest;
        InsertersPassStep(on, old(tree), f, nodes, nextNode, rest, t, wasLast, inserters);
        if t.elementIndex == InserterIndex {
          var n := on[t];
          f := Remove(f, n);
          f := AddUnder(f, on[t.parent.value], n);
        }
        rest := rest - {t};
      }
      tree := f;
    }

    // -------------------------------------------------------------------
    // Layout

    /**
     * RefreshNodeExtras: visit n and its subtree in pre-order; a visit whose
     * ancestors are all expanded shows the node's edit controls, appends it
     * to m_usableNodes and raises the width to its right edge; any other
     * visit hides the controls.
     */
    method RefreshNodeExtras(n: ViewNode, parentExpanded: bool, maxWidth: int) returns (newMaxWidth: int)
      modifies this`usableNodes, this`controlsShown
      ensures usableNodes == old(usableNodes) + UsableIds(Visits(n, parentExpanded))
      ensures controlsShown == ApplyShown(old(controlsShown), Visits(n, parentExpanded))
      ensures newMaxWidth == MaxRight(maxWidth, Visits(n, parentExpanded))
      decreases n
    {
      newMaxWidth := maxWidth;
      if parentExpanded {
        controlsShown := controlsShown[n.id := true];
        usableNodes := usableNodes + [n.id];
        if n.right > newMaxWidth {
          newMaxWidth := n.right;
        }
      } else {
        controlsShown := controlsShown[n.id := false];
      }
      ghost var head := [Visit(n.id, n.right, parentExpanded)];
      var expanded := parentExpanded && n.isExpanded;
      var k := 0;
      while k < |n.kids|
        invariant k <= |n.kids|
        invariant usableNodes == old(usableNodes) + UsableIds(head + KidsVisits(n, k, expanded))
        invariant controlsShown == ApplyShown(old(controlsShown), head + KidsVisits(n, k, expanded))
        invariant newMaxWidth == MaxRight(maxWidth, head + KidsVisits(n, k, expanded))
      {
        KidsStep(old(usableNodes), old(controlsShown), maxWidth, head, n, k, expanded);
        newMaxWidth := RefreshNodeExtras(n.kids[k], expanded, newMaxWidth);
        k := k + 1;
      }
    }

    /**
     * RefreshExtras over a snapshot of the tree view's top-level nodes:
     * m_usableNodes becomes the rows on screen top to bottom, m_iMaxTreeWidth
     * the widest of their right edges (at least 0), and the tree view's
     * height is fixed to fit them.
     */
    method RefreshExtras(roots: seq<ViewNode>, height: int)
      modifies this`usableNodes, this`controlsShown, this`maxTreeWidth, this`treeHeight
      ensures usableNodes == ShownRows(roots, |roots|)
      ensures usableNodes == UsableIds(RootsVisits(roots, |roots|))
      ensures controlsShown == ApplyShown(old(controlsShown), RootsVisits(roots, |roots|))
      ensures maxTreeWidth == MaxRight(0, RootsVisits(roots, |roots|))
      ensures treeHeight == TreeHeight(|usableNodes|, height)
    {
      usableNodes := [];
      var maxWidth := 0;
      var k := 0;
      while k < |roots|
        invariant k <= |roots|
        invariant usableNodes == UsableIds(RootsVisits(roots, k))
        invariant controlsShown == ApplyShown(old(controlsShown), RootsVisits(roots, k))
        invariant maxWidth == MaxRight(0, RootsVisits(roots, k))
      {
        ghost var before := RootsVisits(roots, k);
        ghost var kid := Visits(roots[k], true);
        maxWidth := RefreshNodeExtras(roots[k], true, maxWidth);
        UsableIdsConcat(before, kid);
        ApplyShownConcat(old(controlsShown), before, kid);
        MaxRightConcat(0, before, kid);
        k := k + 1;
      }
      maxTreeWidth := maxWidth;
      UsableRowsAreShownRows(roots, |roots|);
      FixLayout(height);
    }

    /** FixLayout: make the tree view tall enough for every usable row at the fixed row height, never below the control's height. */
    method FixLayout(height: int)
      modifies this`treeHeight
      ensures treeHeight == TreeHeight(|usableNodes|, height)
      ensures treeHeight >= height && treeHeight >= ItemHeight * |usableNodes|
    {
      var maxHeight := ItemHeight * |usableNodes|;
      if maxHeight > height {
        treeHeight := maxHeight;
      } else {
        treeHeight := height;
      }
    }
  }
}
