/**
 * The layout pass over the tree view: which rows are "usable" (every
 * ancestor expanded), the widest label extent among them, and the height
 * the tree view needs. The tree view's nodes are taken as they stand, with
 * the expansion flag and the right edge of each node's bounds reported by
 * the toolkit.
 */
module Layout {
  import opened Forest

  /** Row height the layout fixes (TreeView.ItemHeight). */
  const ItemHeight: int := 19

  /** A node of the tree view as the layout pass sees it. */
  datatype ViewNode = ViewNode(id: NodeId, isExpanded: bool, right: int, kids: seq<ViewNode>)

  /** One step of RefreshNodeExtras: a node, its right edge, and whether its parent chain is expanded. */
  datatype Visit = Visit(id: NodeId, right: int, usable: bool)

  /** The visits RefreshNodeExtras(n, parentExpanded) makes, in the order it makes them. */
  function Visits(n: ViewNode, parentExpanded: bool): seq<Visit>
    decreases n, 1, 0
  {
    [Visit(n.id, n.right, parentExpanded)] + KidsVisits(n, |n.kids|, parentExpanded && n.isExpanded)
  }

  /** The visits made for the first k children of n. */
  function KidsVisits(n: ViewNode, k: nat, expanded: bool): seq<Visit>
    requires k <= |n.kids|
    decreases n, 0, k
  {
    if k == 0 then [] else KidsVisits(n, k - 1, expanded) + Visits(n.kids[k - 1], expanded)
  }

  /**
   * One round of RefreshNodeExtras's loop over the children: the three
   * accumulators after visiting child k are those before it, carried on
   * through the child's own visits.
   */
  lemma KidsStep(ids0: seq<NodeId>, shown0: map<NodeId, bool>, w0: int,
                 head: seq<Visit>, n: ViewNode, k: nat, e: bool)
    requires k < |n.kids|
    ensures ids0 + UsableIds(head + KidsVisits(n, k + 1, e))
         == (ids0 + UsableIds(head + KidsVisits(n, k, e))) + UsableIds(Visits(n.kids[k], e))
    ensures ApplyShown(shown0, head + KidsVisits(n, k + 1, e))
         == ApplyShown(ApplyShown(shown0, head + KidsVisits(n, k, e)), Visits(n.kids[k], e))
    ensures MaxRight(w0, head + KidsVisits(n, k + 1, e))
         == MaxRight(MaxRight(w0, head + KidsVisits(n, k, e)), Visits(n.kids[k], e))
  {
    var before := head + KidsVisits(n, k, e);
    var kid := Visits(n.kids[k], e);
    assert head + KidsVisits(n, k + 1, e) == before + kid;
    UsableIdsConcat(before, kid);
    ApplyShownConcat(shown0, before, kid);
    MaxRightConcat(w0, before, kid);
  }

  // ---------------------------------------------------------------------
  // Reference definitions

  /** All nodes of the subtree, in pre-order. */
  function PreOrder(n: ViewNode): seq<NodeId>
    decreases n, 1, 0
  {
    [n.id] + KidsPreOrder(n, |n.kids|)
  }

  function KidsPreOrder(n: ViewNode, k: nat): seq<NodeId>
    requires k <= |n.kids|
    decreases n, 0, k
  {
    if k == 0 then [] else KidsPreOrder(n, k - 1) + PreOrder(n.kids[k - 1])
  }

  /** The subtree with the children of every collapsed node cut away: what is on screen. */
  function Prune(n: ViewNode): ViewNode
    decreases n, 1, 0
  {
    ViewNode(n.id, n.isExpanded, n.right, if n.isExpanded then PruneKids(n, |n.kids|) else [])
  }

  /** The first k children of n, each pruned. */
  function PruneKids(n: ViewNode, k: nat): seq<ViewNode>
    requires k <= |n.kids|
    decreases n, 0, k
  {
    if k == 0 then [] else PruneKids(n, k - 1) + [Prune(n.kids[k - 1])]
  }

  function Ids(vs: seq<Visit>): seq<NodeId>
  {
    if vs == [] then [] else [vs[0].id] + Ids(vs[1..])
  }

  /** The ids of the usable visits, in order: what RefreshNodeExtras appends to m_usableNodes. */
  function UsableIds(vs: seq<Visit>): seq<NodeId>
  {
    if vs == [] then [] else (if vs[0].usable then [vs[0].id] else []) + UsableIds(vs[1..])
  }

  /** The running maximum of the usable right edges, as `ref iMaxWidth` is updated. */
  function MaxRight(acc: int, vs: seq<Visit>): int
    decreases vs
  {
    if vs == [] then acc
    else MaxRight(if vs[0].usable && vs[0].right > acc then vs[0].right else acc, vs[1..])
  }

  /** Show the controls of usable visits and hide the others. */
  function ApplyShown(shown: map<NodeId, bool>, vs: seq<Visit>): map<NodeId, bool>
    decreases vs
  {
    if vs == [] then shown else ApplyShown(shown[vs[0].id := vs[0].usable], vs[1..])
  }

  // ---------------------------------------------------------------------
  // Folds over concatenations

  lemma {:induction false} IdsConcat(a: seq<Visit>, b: seq<Visit>)
    ensures Ids(a + b) == Ids(a) + Ids(b)
  {
    if a == [] { assert a + b == b; } else { assert (a + b)[1..] == a[1..] + b; IdsConcat(a[1..], b); }
  }

  lemma {:induction false} UsableIdsConcat(a: seq<Visit>, b: seq<Visit>)
    ensures UsableIds(a + b) == UsableIds(a) + UsableIds(b)
  {
    if a == [] {
      assert a + b == b;
    } else {
      var head := if a[0].usable then [a[0].id] else [];
      assert (a + b)[0] == a[0];
      assert (a + b)[1..] == a[1..] + b;
      UsableIdsConcat(a[1..], b);
      calc {
        UsableIds(a + b);
        head + UsableIds(a[1..] + b);
        head + (UsableIds(a[1..]) + UsableIds(b));
        (head + UsableIds(a[1..])) + UsableIds(b);
      }
    }
  }

  lemma {:induction false} MaxRightConcat(acc: int, a: seq<Visit>, b: seq<Visit>)
    ensures MaxRight(acc, a + b) == MaxRight(MaxRight(acc, a), b)
    decreases a
  {
    if a == [] {
      assert a + b == b;
    } else {
      assert (a + b)[1..] == a[1..] + b;
      MaxRightConcat(if a[0].usable && a[0].right > acc then a[0].right else acc, a[1..], b);
    }
  }

  lemma {:induction false} ApplyShownConcat(shown: map<NodeId, bool>, a: seq<Visit>, b: seq<Visit>)
    ensures ApplyShown(shown, a + b) == ApplyShown(ApplyShown(shown, a), b)
    decreases a
  {
    if a == [] {
      assert a + b == b;
    } else {
      assert (a + b)[1..] == a[1..] + b;
      ApplyShownConcat(shown[a[0].id := a[0].usable], a[1..], b);
    }
  }

  // ---------------------------------------------------------------------
  // What the pass computes

  /** Every node of the subtree is visited exactly once, in pre-order. */
  lemma {:induction false} VisitsArePreOrder(n: ViewNode, e: bool)
    ensures Ids(Visits(n, e)) == PreOrder(n)
    decreases n, 1, 0
  {
    KidsVisitsArePreOrder(n, |n.kids|, e && n.isExpanded);
    IdsConcat([Visit(n.id, n.right, e)], KidsVisits(n, |n.kids|, e && n.isExpanded));
  }

  lemma {:induction false} KidsVisitsArePreOrder(n: ViewNode, k: nat, e: bool)
    requires k <= |n.kids|
    ensures Ids(KidsVisits(n, k, e)) == KidsPreOrder(n, k)
    decreases n, 0, k
  {
    if k > 0 {
      KidsVisitsArePreOrder(n, k - 1, e);
      VisitsArePreOrder(n.kids[k - 1], e);
      IdsConcat(KidsVisits(n, k - 1, e), Visits(n.kids[k - 1], e));
    }
  }

  /** Under a collapsed ancestor nothing is usable. */
  lemma {:induction false} HiddenSubtree(n: ViewNode)
    ensures UsableIds(Visits(n, false)) == []
    decreases n, 1, 0
  {
    HiddenKids(n, |n.kids|);
    UsableIdsConcat([Visit(n.id, n.right, false)], KidsVisits(n, |n.kids|, false));
  }

  lemma {:induction false} HiddenKids(n: ViewNode, k: nat)
    requires k <= |n.kids|
    ensures UsableIds(KidsVisits(n, k, false)) == []
    decreases n, 0, k
  {
    if k > 0 {
      HiddenKids(n, k - 1);
      HiddenSubtree(n.kids[k - 1]);
      UsableIdsConcat(KidsVisits(n, k - 1, false), Visits(n.kids[k - 1], false));
    }
  }

  /**
   * The usable rows of a top-level node are exactly the pre-order of the
   * tree with collapsed nodes' children cut away: the nodes whose strict
   * ancestors are all expanded, in pre-order.
   */
  lemma {:induction false} UsableIsPrunedPreOrder(n: ViewNode)
    ensures UsableIds(Visits(n, true)) == PreOrder(Prune(n))
    decreases n, 1, 0
  {
    var head := [Visit(n.id, n.right, true)];
    UsableIdsConcat(head, KidsVisits(n, |n.kids|, n.isExpanded));
    if n.isExpanded {
      UsableKids(n, Prune(n), |n.kids|);
    } else {
      HiddenKids(n, |n.kids|);
    }
  }

  lemma {:induction false} UsableKids(n: ViewNode, pruned: ViewNode, k: nat)
    requires n.isExpanded && pruned == Prune(n) && k <= |n.kids|
    ensures |pruned.kids| == |n.kids|
    ensures UsableIds(KidsVisits(n, k, true)) == KidsPreOrder(pruned, k)
    decreases n, 0, k
  {
    PrunedKids(n, pruned);
    if k > 0 {
      UsableKids(n, pruned, k - 1);
      UsableIsPrunedPreOrder(n.kids[k - 1]);
      UsableStep(KidsVisits(n, k, true), KidsVisits(n, k - 1, true), Visits(n.kids[k - 1], true),
                 KidsPreOrder(pruned, k), KidsPreOrder(pruned, k - 1), PreOrder(pruned.kids[k - 1]));
    }
  }

  lemma PrunedKids(n: ViewNode, pruned: ViewNode)
    requires n.isExpanded && pruned == Prune(n)
    ensures |pruned.kids| == |n.kids|
    ensures forall j :: 0 <= j < |n.kids| ==> pruned.kids[j] == Prune(n.kids[j])
  {
    PruneKidsAt(n, |n.kids|);
  }

  lemma {:induction false} PruneKidsAt(n: ViewNode, k: nat)
    requires k <= |n.kids|
    ensures |PruneKids(n, k)| == k
    ensures forall j :: 0 <= j < k ==> PruneKids(n, k)[j] == Prune(n.kids[j])
  {
    if k > 0 {
      PruneKidsAt(n, k - 1);
    }
  }

  lemma UsableStep(all: seq<Visit>, a: seq<Visit>, b: seq<Visit>, rAll: seq<NodeId>, ra: seq<NodeId>, rb: seq<NodeId>)
    requires all == a + b && rAll == ra + rb && UsableIds(a) == ra && UsableIds(b) == rb
    ensures UsableIds(all) == rAll
  {
    UsableIdsConcat(a, b);
  }

  /** m_iMaxTreeWidth: the largest right edge among the usable visits, or the start value. */
  lemma {:induction false} MaxRightIsMaximum(acc: int, vs: seq<Visit>)
    ensures MaxRight(acc, vs) >= acc
    ensures forall j :: 0 <= j < |vs| && vs[j].usable ==> MaxRight(acc, vs) >= vs[j].right
    ensures MaxRight(acc, vs) == acc || exists j :: 0 <= j < |vs| && vs[j].usable && MaxRight(acc, vs) == vs[j].right
    decreases vs
  {
    if vs != [] {
      var acc' := if vs[0].usable && vs[0].right > acc then vs[0].right else acc;
      MaxRightIsMaximum(acc', vs[1..]);
      if MaxRight(acc, vs) != acc && MaxRight(acc, vs) != acc' {
        var j :| 0 <= j < |vs[1..]| && vs[1..][j].usable && MaxRight(acc', vs[1..]) == vs[1..][j].right;
        assert vs[j + 1] == vs[1..][j];
      }
      forall j | 0 <= j < |vs| && vs[j].usable ensures MaxRight(acc, vs) >= vs[j].right {
        if j > 0 { assert vs[j] == vs[1..][j - 1]; }
      }
    }
  }

  /** With distinct ids, each visited node ends up shown exactly when its visit is usable. */
  lemma {:induction false} ApplyShownExact(shown: map<NodeId, bool>, vs: seq<Visit>)
    requires forall i, j :: 0 <= i < j < |vs| ==> vs[i].id != vs[j].id
    ensures forall j :: 0 <= j < |vs| ==> vs[j].id in ApplyShown(shown, vs) && ApplyShown(shown, vs)[vs[j].id] == vs[j].usable
    ensures forall x :: (forall j :: 0 <= j < |vs| ==> vs[j].id != x) ==>
      (x in ApplyShown(shown, vs) <==> x in shown) && (x in shown ==> ApplyShown(shown, vs)[x] == shown[x])
    decreases vs
  {
    if vs != [] {
      var rest := vs[1..];
      ApplyShownExact(shown[vs[0].id := vs[0].usable], rest);
      forall j | 0 <= j < |vs| ensures vs[j].id in ApplyShown(shown, vs) && ApplyShown(shown, vs)[vs[j].id] == vs[j].usable {
        if j > 0 { assert vs[j] == rest[j - 1]; }
        else { assert forall i :: 0 <= i < |rest| ==> rest[i].id != vs[0].id by {
                 forall i | 0 <= i < |rest| ensures rest[i].id != vs[0].id { assert rest[i] == vs[i + 1]; } } }
      }
      forall x | (forall j :: 0 <= j < |vs| ==> vs[j].id != x)
        ensures (x in ApplyShown(shown, vs) <==> x in shown) && (x in shown ==> ApplyShown(shown, vs)[x] == shown[x])
      {
        assert vs[0].id != x;
        forall i | 0 <= i < |rest| ensures rest[i].id != x { assert rest[i] == vs[i + 1]; }
      }
    }
  }

  /** The visits RefreshExtras makes: each of the first k top-level nodes with an expanded "parent". */
  function RootsVisits(roots: seq<ViewNode>, k: nat): seq<Visit>
    requires k <= |roots|
  {
    if k == 0 then [] else RootsVisits(roots, k - 1) + Visits(roots[k - 1], true)
  }

  /** The rows on screen: the pruned pre-order of each of the first k top-level nodes, one after the other. */
  function ShownRows(roots: seq<ViewNode>, k: nat): seq<NodeId>
    requires k <= |roots|
  {
    if k == 0 then [] else ShownRows(roots, k - 1) + PreOrder(Prune(roots[k - 1]))
  }

  /** The usable rows of the first k top-level nodes: those of the first k - 1, then those of the k-th. */
  lemma RootsVisitsStep(roots: seq<ViewNode>, k: nat)
    requires 0 < k <= |roots|
    ensures UsableIds(RootsVisits(roots, k)) == UsableIds(RootsVisits(roots, k - 1)) + UsableIds(Visits(roots[k - 1], true))
  {
    UsableIdsConcat(RootsVisits(roots, k - 1), Visits(roots[k - 1], true));
  }

  /** The on-screen rows of the first k top-level nodes: those of the first k - 1, then the k-th's usable visits. */
  lemma ShownRowsStep(roots: seq<ViewNode>, k: nat)
    requires 0 < k <= |roots|
    ensures ShownRows(roots, k) == ShownRows(roots, k - 1) + UsableIds(Visits(roots[k - 1], true))
  {
    UsableIsPrunedPreOrder(roots[k - 1]);
  }

  /** m_usableNodes after RefreshExtras is the on-screen rows, top to bottom. */
  lemma {:induction false} UsableRowsAreShownRows(roots: seq<ViewNode>, k: nat)
    requires k <= |roots|
    ensures UsableIds(RootsVisits(roots, k)) == ShownRows(roots, k)
  {
    if k > 0 {
      RootsVisitsStep(roots, k);
      ShownRowsStep(roots, k);
      UsableRowsAreShownRows(roots, k - 1);
    }
  }

  /** FixLayout's height: enough rows for every usable node, never below the control's own height. */
  function TreeHeight(usableCount: nat, height: int): (r: int)
    ensures r >= height && r >= ItemHeight * usableCount
    ensures r == height || r == ItemHeight * usableCount
  {
    if ItemHeight * usableCount > height then ItemHeight * usableCount else height
  }
}
