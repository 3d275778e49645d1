/**
 * The tree view's nodes, by node identity: where each node sits (detached,
 * top level of the tree view, or under another node) and the ordered child
 * collection of each node. TreeNode.Remove and TreeNodeCollection.Add are the
 * only operations the editor applies to it.
 */
module Forest {
  type NodeId = nat

  /** Where a node is: not in the tree, a top-level node, or a child of `parent`. */
  datatype Place = Detached | AtRoot | Under(parent: NodeId)

  datatype Forest = Forest(roots: seq<NodeId>, place: map<NodeId, Place>, children: map<NodeId, seq<NodeId>>)

  ghost predicate Distinct(s: seq<NodeId>)
  {
    forall i, j :: 0 <= i < j < |s| ==> s[i] != s[j]
  }

  /**
   * The integrity the tree view keeps: a node is in the top-level collection
   * exactly when it is placed at the root, in a node's child collection
   * exactly when it is placed under that node, and no collection holds a
   * node twice.
   */
  ghost predicate Valid(f: Forest)
  {
    && f.place.Keys == f.children.Keys
    && RootsAgree(f)
    && UnderListed(f)
    && ListedUnder(f)
    && ChildrenDistinct(f)
  }

  ghost predicate RootsAgree(f: Forest)
  {
    && Distinct(f.roots)
    && (forall n :: n in f.roots ==> n in f.place && f.place[n] == AtRoot)
    && (forall n {:trigger f.place[n]} :: n in f.place && f.place[n] == AtRoot ==> n in f.roots)
  }

  ghost predicate UnderListed(f: Forest)
  {
    forall n {:trigger f.place[n]} :: n in f.place && f.place[n].Under? ==>
      f.place[n].parent in f.children && n in f.children[f.place[n].parent]
  }

  ghost predicate ListedUnder(f: Forest)
  {
    forall p, k :: p in f.children && 0 <= k < |f.children[p]| ==>
      f.children[p][k] in f.place && f.place[f.children[p][k]] == Under(p)
  }

  ghost predicate ChildrenDistinct(f: Forest)
  {
    forall p :: p in f.children ==> Distinct(f.children[p])
  }

  /** s without any occurrence of x, the others in their order. */
  function Without(s: seq<NodeId>, x: NodeId): seq<NodeId>
  {
    if s == [] then []
    else Without(s[..|s| - 1], x) + (if s[|s| - 1] == x then [] else [s[|s| - 1]])
  }

  lemma {:induction false} WithoutMembers(s: seq<NodeId>, x: NodeId)
    ensures forall y :: y in Without(s, x) <==> y in s && y != x
  {
    if s != [] {
      var init, last := s[..|s| - 1], s[|s| - 1];
      assert s == init + [last];
      WithoutMembers(init, x);
    }
  }

  lemma DistinctAppend(s: seq<NodeId>, y: NodeId)
    requires Distinct(s) && y !in s
    ensures Distinct(s + [y])
  {
  }

  lemma {:induction false} WithoutKeepsDistinct(s: seq<NodeId>, x: NodeId)
    requires Distinct(s)
    ensures Distinct(Without(s, x))
  {
    if s != [] {
      var init, last := s[..|s| - 1], s[|s| - 1];
      assert Distinct(init);
      WithoutKeepsDistinct(init, x);
      if last != x {
        LastNotEarlier(s);
        WithoutMembers(init, x);
        DistinctAppend(Without(init, x), last);
      }
    }
  }

  lemma {:induction false} WithoutAbsent(s: seq<NodeId>, x: NodeId)
    requires x !in s
    ensures Without(s, x) == s
  {
    if s != [] {
      WithoutAbsent(s[..|s| - 1], x);
      assert s == s[..|s| - 1] + [s[|s| - 1]];
    }
  }

  lemma LastNotEarlier(s: seq<NodeId>)
    requires Distinct(s) && s != []
    ensures s == s[..|s| - 1] + [s[|s| - 1]] && s[|s| - 1] !in s[..|s| - 1]
  {
    var init := s[..|s| - 1];
    assert s == init + [s[|s| - 1]];
    forall k | 0 <= k < |init| ensures init[k] != s[|s| - 1] {
      assert init[k] == s[k];
    }
  }

  /** Taking the last element out and appending it again changes nothing. */
  lemma WithoutLastThenAppend(s: seq<NodeId>)
    requires Distinct(s) && s != []
    ensures Without(s, s[|s| - 1]) + [s[|s| - 1]] == s
  {
    LastNotEarlier(s);
    WithoutUniqueLast(s[..|s| - 1], s[|s| - 1]);
  }

  lemma WithoutUniqueLast(init: seq<NodeId>, last: NodeId)
    requires last !in init
    ensures Without(init + [last], last) == init
  {
    WithoutSnoc(init, last, last);
    WithoutAbsent(init, last);
  }

  lemma WithoutSnoc(init: seq<NodeId>, last: NodeId, x: NodeId)
    ensures Without(init + [last], x) == Without(init, x) + (if last == x then [] else [last])
  {
    var s := init + [last];
    assert s[..|s| - 1] == init;
  }

  /** A fresh node keeps the forest well formed. */
  lemma NewNodeValid(f: Forest, n: NodeId)
    requires Valid(f) && n !in f.place
    ensures Valid(NewNode(f, n))
  {
    var r := NewNode(f, n);
    NewNodeRoots(f, r, n);
    NewNodeUnderListed(f, r, n);
    NewNodeListedUnder(f, r, n);
    NewNodeDistinct(f, r, n);
  }

  lemma NewNodeRoots(f: Forest, r: Forest, n: NodeId)
    requires RootsAgree(f) && n !in f.place && r == Forest(f.roots, f.place[n := Detached], f.children[n := []])
    ensures RootsAgree(r)
  {
    forall m | m in r.roots ensures m in r.place && r.place[m] == AtRoot {
      assert m in f.place && m != n;
    }
  }

  lemma NewNodeUnderListed(f: Forest, r: Forest, n: NodeId)
    requires UnderListed(f) && f.place.Keys == f.children.Keys && n !in f.place
    requires r == Forest(f.roots, f.place[n := Detached], f.children[n := []])
    ensures UnderListed(r)
  {
    forall m | m in r.place && r.place[m].Under?
      ensures r.place[m].parent in r.children && m in r.children[r.place[m].parent]
    {
      assert m != n && r.place[m] == f.place[m];
      assert f.place[m].parent in f.children && f.place[m].parent != n;
    }
  }

  lemma NewNodeListedUnder(f: Forest, r: Forest, n: NodeId)
    requires ListedUnder(f) && f.place.Keys == f.children.Keys && n !in f.place
    requires r == Forest(f.roots, f.place[n := Detached], f.children[n := []])
    ensures ListedUnder(r)
  {
    forall p, m | p in r.children && m in r.children[p] ensures m in r.place && r.place[m] == Under(p) {
      assert p != n && m in f.children[p];
    }
  }

  lemma NewNodeDistinct(f: Forest, r: Forest, n: NodeId)
    requires ChildrenDistinct(f) && r == Forest(f.roots, f.place[n := Detached], f.children[n := []])
    ensures ChildrenDistinct(r)
  {
    forall p | p in r.children ensures Distinct(r.children[p]) {
      if p != n { assert r.children[p] == f.children[p]; }
    }
  }

  /** A new node: detached, with no children. */
  function NewNode(f: Forest, n: NodeId): (r: Forest)
    ensures r.place == f.place[n := Detached] && r.children == f.children[n := []] && r.roots == f.roots
  {
    Forest(f.roots, f.place[n := Detached], f.children[n := []])
  }

  lemma RemoveFromRootsValid(f: Forest, n: NodeId)
    requires Valid(f) && n in f.place && f.place[n] == AtRoot
    ensures Valid(Forest(Without(f.roots, n), f.place[n := Detached], f.children))
  {
    var r := Forest(Without(f.roots, n), f.place[n := Detached], f.children);
    RemoveRootRoots(f, r, n);
    RemoveRootUnderListed(f, r, n);
    RemoveRootListedUnder(f, r, n);
  }

  lemma RemoveRootRoots(f: Forest, r: Forest, n: NodeId)
    requires RootsAgree(f) && n in f.place && r == Forest(Without(f.roots, n), f.place[n := Detached], f.children)
    ensures RootsAgree(r)
  {
    WithoutMembers(f.roots, n);
    WithoutKeepsDistinct(f.roots, n);
    forall m | m in r.roots ensures m in r.place && r.place[m] == AtRoot {
      assert m in f.roots && m != n;
    }
    forall m | m in r.place && r.place[m] == AtRoot ensures m in r.roots {
      assert m != n && m in f.roots;
    }
  }

  lemma RemoveRootUnderListed(f: Forest, r: Forest, n: NodeId)
    requires UnderListed(f) && n in f.place && f.place[n] == AtRoot
    requires r == Forest(Without(f.roots, n), f.place[n := Detached], f.children)
    ensures UnderListed(r)
  {
    forall m | m in r.place && r.place[m].Under?
      ensures r.place[m].parent in r.children && m in r.children[r.place[m].parent]
    {
      assert m != n && r.place[m] == f.place[m];
    }
  }

  lemma RemoveRootListedUnder(f: Forest, r: Forest, n: NodeId)
    requires ListedUnder(f) && n in f.place && f.place[n] == AtRoot
    requires r == Forest(Without(f.roots, n), f.place[n := Detached], f.children)
    ensures ListedUnder(r)
  {
    forall p, m | p in r.children && m in r.children[p] ensures m in r.place && r.place[m] == Under(p) {
      assert f.place[m] == Under(p);
      assert m != n;
    }
  }

  lemma RemoveFromParentValid(f: Forest, n: NodeId, q: NodeId)
    requires Valid(f) && n in f.place && f.place[n] == Under(q)
    ensures Valid(Forest(f.roots, f.place[n := Detached], f.children[q := Without(f.children[q], n)]))
  {
    var r := Forest(f.roots, f.place[n := Detached], f.children[q := Without(f.children[q], n)]);
    assert n !in f.roots;
    RemoveChildRoots(f, r, n, q);
    RemoveChildUnderListed(f, r, n, q);
    RemoveChildListedUnder(f, r, n, q);
    RemoveChildDistinct(f, r, n, q);
  }

  lemma RemoveChildRoots(f: Forest, r: Forest, n: NodeId, q: NodeId)
    requires RootsAgree(f) && n in f.place && f.place[n] == Under(q) && q in f.children
    requires r == Forest(f.roots, f.place[n := Detached], f.children[q := Without(f.children[q], n)])
    ensures RootsAgree(r)
  {
    forall m | m in r.roots ensures m in r.place && r.place[m] == AtRoot {
      assert m != n;
    }
  }

  lemma RemoveChildUnderListed(f: Forest, r: Forest, n: NodeId, q: NodeId)
    requires UnderListed(f) && n in f.place && f.place[n] == Under(q) && q in f.children
    requires r == Forest(f.roots, f.place[n := Detached], f.children[q := Without(f.children[q], n)])
    ensures UnderListed(r)
  {
    WithoutMembers(f.children[q], n);
    forall m | m in r.place && r.place[m].Under?
      ensures r.place[m].parent in r.children && m in r.children[r.place[m].parent]
    {
      assert m != n && r.place[m] == f.place[m];
    }
  }

  lemma RemoveChildListedUnder(f: Forest, r: Forest, n: NodeId, q: NodeId)
    requires ListedUnder(f) && n in f.place && f.place[n] == Under(q) && q in f.children
    requires r == Forest(f.roots, f.place[n := Detached], f.children[q := Without(f.children[q], n)])
    ensures ListedUnder(r)
  {
    WithoutMembers(f.children[q], n);
    forall p, m | p in r.children && m in r.children[p] ensures m in r.place && r.place[m] == Under(p) {
      if p == q { assert m in f.children[q] && m != n; } else { assert m in f.children[p]; }
    }
  }

  lemma RemoveChildDistinct(f: Forest, r: Forest, n: NodeId, q: NodeId)
    requires ChildrenDistinct(f) && q in f.children
    requires r == Forest(f.roots, f.place[n := Detached], f.children[q := Without(f.children[q], n)])
    ensures ChildrenDistinct(r)
  {
    WithoutKeepsDistinct(f.children[q], n);
    forall p | p in r.children ensures Distinct(r.children[p]) {
      if p != q { assert r.children[p] == f.children[p]; }
    }
  }

  /** n is a node of f, and so is its parent if it has one. */
  predicate Known(f: Forest, n: NodeId)
  {
    n in f.place && (f.place[n].Under? ==> f.place[n].parent in f.children)
  }

  /** TreeNode.Remove: take n out of the collection that holds it. */
  function Remove(f: Forest, n: NodeId): (r: Forest)
    requires Known(f, n)
    ensures r.place == f.place[n := Detached] && r.children.Keys == f.children.Keys
  {
    match f.place[n]
    case Detached => Forest(f.roots, f.place[n := Detached], f.children)
    case AtRoot => Forest(Without(f.roots, n), f.place[n := Detached], f.children)
    case Under(q) => Forest(f.roots, f.place[n := Detached], f.children[q := Without(f.children[q], n)])
  }

  /** Removing a node keeps the forest well formed. */
  lemma RemoveValid(f: Forest, n: NodeId)
    requires Valid(f) && n in f.place
    ensures Valid(Remove(f, n))
  {
    match f.place[n]
    case Detached =>
      assert f.place[n := Detached] == f.place;
    case AtRoot =>
      RemoveFromRootsValid(f, n);
    case Under(q) =>
      RemoveFromParentValid(f, n, q);
  }

  /** In a well-formed forest, Remove takes n out of every collection and keeps the rest in order. */
  lemma RemoveShape(f: Forest, n: NodeId)
    requires Valid(f) && n in f.place
    ensures Remove(f, n).roots == Without(f.roots, n)
    ensures forall p :: p in f.children ==> Remove(f, n).children[p] == Without(f.children[p], n)
  {
    forall p | p in f.children && f.place[n] != Under(p) ensures Without(f.children[p], n) == f.children[p] {
      WithoutAbsent(f.children[p], n);
    }
    if f.place[n] != AtRoot {
      WithoutAbsent(f.roots, n);
    }
  }

  /** TreeNodeCollection.Add on the tree view itself: n becomes the last top-level node. */
  function AddRoot(f: Forest, n: NodeId): (r: Forest)
    ensures r.place == f.place[n := AtRoot] && r.roots == f.roots + [n] && r.children == f.children
  {
    Forest(f.roots + [n], f.place[n := AtRoot], f.children)
  }

  /** Adding a detached node at the top level keeps the forest well formed. */
  lemma AddRootValid(f: Forest, n: NodeId)
    requires Valid(f) && n in f.place && f.place[n] == Detached
    ensures Valid(AddRoot(f, n))
  {
    var r := AddRoot(f, n);
    AddRootRoots(f, r, n);
    AddRootUnderListed(f, r, n);
    AddRootListedUnder(f, r, n);
  }

  lemma AddRootRoots(f: Forest, r: Forest, n: NodeId)
    requires RootsAgree(f) && n in f.place && f.place[n] == Detached && r == AddRoot(f, n)
    ensures RootsAgree(r)
  {
    assert n !in f.roots;
    DistinctAppend(f.roots, n);
  }

  lemma AddRootUnderListed(f: Forest, r: Forest, n: NodeId)
    requires UnderListed(f) && n in f.place && f.place[n] == Detached && r == AddRoot(f, n)
    ensures UnderListed(r)
  {
    forall m | m in r.place && r.place[m].Under?
      ensures r.place[m].parent in r.children && m in r.children[r.place[m].parent]
    {
      assert m != n && r.place[m] == f.place[m];
    }
  }

  lemma AddRootListedUnder(f: Forest, r: Forest, n: NodeId)
    requires ListedUnder(f) && n in f.place && f.place[n] == Detached && r == AddRoot(f, n)
    ensures ListedUnder(r)
  {
    forall p, m | p in r.children && m in r.children[p] ensures m in r.place && r.place[m] == Under(p) {
      assert f.place[m] == Under(p);
      assert m != n;
    }
  }

  /** TreeNodeCollection.Add on node p: n becomes p's last child. */
  function AddUnder(f: Forest, p: NodeId, n: NodeId): (r: Forest)
    requires p in f.children
    ensures r.place == f.place[n := Under(p)] && r.roots == f.roots
    ensures r.children == f.children[p := f.children[p] + [n]]
  {
    Forest(f.roots, f.place[n := Under(p)], f.children[p := f.children[p] + [n]])
  }

  /** Adding a detached node under p keeps the forest well formed. */
  lemma AddUnderValid(f: Forest, p: NodeId, n: NodeId)
    requires Valid(f) && n in f.place && f.place[n] == Detached && p in f.children
    ensures Valid(AddUnder(f, p, n))
  {
    var r := AddUnder(f, p, n);
    assert n !in f.children[p];
    AddUnderRoots(f, r, p, n);
    AddUnderUnderListed(f, r, p, n);
    AddUnderListedUnder(f, r, p, n);
    AddUnderDistinct(f, r, p, n);
  }

  lemma AddUnderRoots(f: Forest, r: Forest, p: NodeId, n: NodeId)
    requires RootsAgree(f) && n in f.place && f.place[n] == Detached && p in f.children
    requires r == Forest(f.roots, f.place[n := Under(p)], f.children[p := f.children[p] + [n]])
    ensures RootsAgree(r)
  {
    forall m | m in r.roots ensures m in r.place && r.place[m] == AtRoot {
      assert m != n;
    }
  }

  lemma AddUnderUnderListed(f: Forest, r: Forest, p: NodeId, n: NodeId)
    requires UnderListed(f) && n in f.place && f.place[n] == Detached && p in f.children
    requires r == Forest(f.roots, f.place[n := Under(p)], f.children[p := f.children[p] + [n]])
    ensures UnderListed(r)
  {
    forall m | m in r.place && r.place[m].Under?
      ensures r.place[m].parent in r.children && m in r.children[r.place[m].parent]
    {
      if m != n {
        assert r.place[m] == f.place[m];
        var q := f.place[m].parent;
        assert m in f.children[q];
      }
    }
  }

  lemma AddUnderListedUnder(f: Forest, r: Forest, p: NodeId, n: NodeId)
    requires ListedUnder(f) && n in f.place && f.place[n] == Detached && p in f.children
    requires r == Forest(f.roots, f.place[n := Under(p)], f.children[p := f.children[p] + [n]])
    ensures ListedUnder(r)
  {
    forall q, m | q in r.children && m in r.children[q] ensures m in r.place && r.place[m] == Under(q) {
      if q == p {
        if m != n { assert m in f.children[p]; }
      } else {
        assert m in f.children[q];
        assert m != n;
      }
    }
  }

  lemma AddUnderDistinct(f: Forest, r: Forest, p: NodeId, n: NodeId)
    requires ChildrenDistinct(f) && p in f.children && n !in f.children[p]
    requires r == Forest(f.roots, f.place[n := Under(p)], f.children[p := f.children[p] + [n]])
    ensures ChildrenDistinct(r)
  {
    DistinctAppend(f.children[p], n);
    forall q | q in r.children ensures Distinct(r.children[q]) {
      if q != p { assert r.children[q] == f.children[q]; }
    }
  }

  /** Removing a child of p changes only its place and p's children. */
  lemma RemoveChild(f: Forest, p: NodeId, n: NodeId)
    requires Valid(f) && n in f.place && f.place[n] == Under(p)
    ensures p in f.children && n in f.children[p]
    ensures Remove(f, n) == Forest(f.roots, f.place[n := Detached], f.children[p := Without(f.children[p], n)])
  {
  }

  /** Remove followed by Add under the same parent moves n to the end of p's children and changes nothing else. */
  lemma MoveToEnd(f: Forest, p: NodeId, n: NodeId)
    requires Valid(f) && n in f.place && f.place[n] == Under(p)
    ensures p in f.children && n in f.children[p]
    ensures AddUnder(Remove(f, n), p, n) == Forest(f.roots, f.place, f.children[p := Without(f.children[p], n) + [n]])
  {
    RemoveChild(f, p, n);
    var g := Forest(f.roots, f.place[n := Detached], f.children[p := Without(f.children[p], n)]);
    AddAfterDetach(f, g, p, n);
  }

  lemma AddAfterDetach(f: Forest, g: Forest, p: NodeId, n: NodeId)
    requires n in f.place && f.place[n] == Under(p) && p in f.children
    requires g == Forest(f.roots, f.place[n := Detached], f.children[p := Without(f.children[p], n)])
    ensures AddUnder(g, p, n) == Forest(f.roots, f.place, f.children[p := Without(f.children[p], n) + [n]])
  {
    assert f.place[n := Detached][n := Under(p)] == f.place;
  }

  /** Moving a node that already is its parent's last child leaves the forest as it was. */
  lemma MoveToEndValid(f: Forest, p: NodeId, n: NodeId)
    requires Valid(f) && n in f.place && f.place[n] == Under(p)
    ensures p in f.children && Valid(AddUnder(Remove(f, n), p, n))
  {
    RemoveValid(f, n);
    AddUnderValid(Remove(f, n), p, n);
  }

  /** s without the members of xs, the others in their order. */
  function WithoutAll(s: seq<NodeId>, xs: set<NodeId>): seq<NodeId>
  {
    if s == [] then []
    else WithoutAll(s[..|s| - 1], xs) + (if s[|s| - 1] in xs then [] else [s[|s| - 1]])
  }

  lemma {:induction false} WithoutAllConcat(a: seq<NodeId>, b: seq<NodeId>, xs: set<NodeId>)
    ensures WithoutAll(a + b, xs) == WithoutAll(a, xs) + WithoutAll(b, xs)
    decreases |b|
  {
    if b == [] {
      assert a + b == a;
    } else {
      var init := b[..|b| - 1];
      WithoutAllConcat(a, init, xs);
      assert (a + b)[..|a + b| - 1] == a + init;
    }
  }

  /** Taking out one member of xs first does not change what is left outside xs. */
  lemma {:induction false} WithoutAllIgnoresWithout(s: seq<NodeId>, x: NodeId, xs: set<NodeId>)
    requires x in xs
    ensures WithoutAll(Without(s, x), xs) == WithoutAll(s, xs)
  {
    if s != [] {
      var init, last := s[..|s| - 1], s[|s| - 1];
      WithoutAllIgnoresWithout(init, x, xs);
      var tail := if last == x then [] else [last];
      WithoutAllConcat(Without(init, x), tail, xs);
      if last != x {
        assert [last][..0] == [];
      }
    }
  }

  /** Every child collection of f is in g, with its members outside `moved` in the same order. */
  ghost predicate OrderKeptOutside(f: Forest, g: Forest, moved: set<NodeId>)
  {
    forall p :: p in f.children ==> p in g.children && WithoutAll(g.children[p], moved) == WithoutAll(f.children[p], moved)
  }

  lemma OrderKeptTransitive(f: Forest, g: Forest, h: Forest, moved: set<NodeId>)
    requires OrderKeptOutside(f, g, moved) && OrderKeptOutside(g, h, moved)
    ensures OrderKeptOutside(f, h, moved)
  {
  }

  /** Moving a member of `moved` to the end of its parent's children keeps the order of all the others. */
  lemma MoveToEndKeepsOrder(f: Forest, p: NodeId, n: NodeId, moved: set<NodeId>)
    requires Valid(f) && n in f.place && f.place[n] == Under(p) && n in moved
    ensures OrderKeptOutside(f, AddUnder(Remove(f, n), p, n), moved)
  {
    MoveToEnd(f, p, n);
    WithoutAllConcat(Without(f.children[p], n), [n], moved);
    WithoutAllIgnoresWithout(f.children[p], n, moved);
    assert [n][..0] == [];
  }

  lemma MoveLastIsIdentity(f: Forest, p: NodeId, n: NodeId)
    requires Valid(f) && n in f.place && f.place[n] == Under(p)
    requires p in f.children && f.children[p] != [] && f.children[p][|f.children[p]| - 1] == n
    ensures AddUnder(Remove(f, n), p, n) == f
  {
    MoveToEnd(f, p, n);
    WithoutLastThenAppend(f.children[p]);
    assert f.children[p := f.children[p]] == f.children;
  }
}
