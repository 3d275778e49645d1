/**
 * What ties the editor's token dictionary (m_objectNodes) to the tree view.
 * Every node records its token (BasicNode.m_token); a node is attached to
 * the tree view only while its token maps back to it; each token's node
 * hangs where the token's parent says; and every inserter row is the last
 * child of its list's row.
 */
module EditorState {
  import opened Wrappers
  import opened Tokens
  import opened BuilderShape
  import opened Forest

  /**
   * The bookkeeping between tokens and nodes: `on` is m_objectNodes, `nd`
   * the token of each node ever created, `next` the first id never handed
   * out.
   */
  ghost predicate Registered<K>(on: map<K, NodeId>, f: Forest, nd: map<NodeId, K>, next: nat)
  {
    Valid(f) && Linked(on, f, nd, next)
  }

  /** Registered without the forest's own shape: ids below next, and tokens and attached nodes naming each other. */
  ghost predicate Linked<K>(on: map<K, NodeId>, f: Forest, nd: map<NodeId, K>, next: nat)
  {
    && nd.Keys == f.place.Keys
    && (forall n :: n in f.place ==> n < next)
    && (forall t :: t in on ==> on[t] in nd && nd[on[t]] == t)
    && (forall n {:trigger f.place[n]} :: n in f.place && f.place[n] != Detached ==> nd[n] in on && on[nd[n]] == n)
  }

  /** Every token's parent token is itself in the dictionary. */
  ghost predicate ParentClosed(on: map<Token, NodeId>)
  {
    forall t :: t in on && t.parent.Some? ==> t.parent.value in on
  }

  /** Where the node of t belongs: at the top level, or under the node of t's parent. */
  function Correct(on: map<Token, NodeId>, t: Token): Place
    requires t.parent.Some? ==> t.parent.value in on
  {
    if t.parent.None? then AtRoot else Under(on[t.parent.value])
  }

  /** Every token's node is where it belongs. */
  ghost predicate Placed(on: map<Token, NodeId>, f: Forest)
  {
    && ParentClosed(on)
    && forall t :: t in on ==> on[t] in f.place && f.place[on[t]] == Correct(on, t)
  }

  ghost predicate Shaped(on: map<Token, NodeId>)
  {
    forall t :: t in on ==> InserterShaped(t)
  }

  /** The node of the inserter token t is the last child of its list row's node. */
  ghost predicate LastUnderParent(on: map<Token, NodeId>, f: Forest, t: Token)
    requires t in on
  {
    && t.parent.Some? && t.parent.value in on
    && on[t.parent.value] in f.children
    && |f.children[on[t.parent.value]]| > 0
    && f.children[on[t.parent.value]][|f.children[on[t.parent.value]]| - 1] == on[t]
  }

  ghost predicate InsertersLast(on: map<Token, NodeId>, f: Forest)
  {
    forall t :: t in on && t.elementIndex == InserterIndex ==> LastUnderParent(on, f, t)
  }

  /** The nodes of the inserter rows. */
  ghost function InserterNodes(on: map<Token, NodeId>): set<NodeId>
  {
    set t | t in on && t.elementIndex == InserterIndex :: on[t]
  }

  /** The editor's invariant. */
  ghost predicate Consistent(on: map<Token, NodeId>, f: Forest, nd: map<NodeId, Token>, next: nat)
  {
    Registered(on, f, nd, next) && Placed(on, f) && Shaped(on) && InsertersLast(on, f)
  }

  ghost predicate TokensDistinct<K>(s: seq<K>)
  {
    forall i, j :: 0 <= i < j < |s| ==> s[i] != s[j]
  }

  /** The tokens of s not yet in the dictionary, in order. */
  function Missing<K(==)>(s: seq<K>, keys: set<K>): seq<K>
  {
    if s == [] then []
    else Missing(s[..|s| - 1], keys) + (if s[|s| - 1] !in keys then [s[|s| - 1]] else [])
  }

  lemma {:induction false} MissingExact<K>(s: seq<K>, keys: set<K>)
    ensures forall t :: t in Missing(s, keys) <==> t in s && t !in keys
  {
    if s != [] {
      MissingExact(s[..|s| - 1], keys);
      assert s == s[..|s| - 1] + [s[|s| - 1]];
    }
  }

  // ---------------------------------------------------------------------
  // The invariant describes the tree view

  /**
   * Under the invariant the tree view shows exactly the dictionary's
   * tokens, and its parent links are the tokens' parent links.
   */
  lemma TreeMatchesTokens(on: map<Token, NodeId>, f: Forest, nd: map<NodeId, Token>, next: nat)
    requires Consistent(on, f, nd, next)
    ensures forall t :: t in on ==> on[t] in f.place && f.place[on[t]] != Detached
    ensures forall n :: n in f.place && f.place[n] != Detached ==> nd[n] in on && on[nd[n]] == n
    ensures forall n :: n in f.place && f.place[n] == AtRoot ==> nd[n].parent == None
    ensures forall n :: n in f.place && f.place[n].Under? ==> nd[n].parent == Some(nd[f.place[n].parent])
  {
    forall n | n in f.place && f.place[n].Under? ensures nd[n].parent == Some(nd[f.place[n].parent]) {
      var t := nd[n];
      assert on[t] == n && f.place[n] == Correct(on, t);
    }
  }

  /**
   * Two different inserter tokens sit under different list rows' nodes: an
   * inserter is fixed by its list row, and the dictionary gives different
   * rows different nodes.
   */
  lemma InsertersUnderDistinctRows(on: map<Token, NodeId>, f: Forest, nd: map<NodeId, Token>, next: nat, u: Token, t: Token)
    requires Registered(on, f, nd, next) && Shaped(on)
    requires u in on && t in on && u != t
    requires u.elementIndex == InserterIndex && t.elementIndex == InserterIndex
    requires u.parent.Some? && u.parent.value in on && t.parent.Some? && t.parent.value in on
    ensures on[u.parent.value] != on[t.parent.value]
  {
    assert nd[on[u.parent.value]] == u.parent.value && nd[on[t.parent.value]] == t.parent.value;
  }

  // ---------------------------------------------------------------------
  // The bookkeeping survives each step of the reconciler

  lemma RemoveKeyRegistered<K>(on: map<K, NodeId>, f: Forest, nd: map<NodeId, K>, next: nat, t: K)
    requires Registered(on, f, nd, next) && t in on
    ensures on[t] in f.place
    ensures Registered(on - {t}, Remove(f, on[t]), nd, next)
  {
    var n := on[t];
    RemoveValid(f, n);
    var g := Remove(f, n);
    var on' := on - {t};
    forall m | m in g.place && g.place[m] != Detached ensures nd[m] in on' && on'[nd[m]] == m {
      assert m != n && f.place[m] == g.place[m];
    }
  }

  /** g differs from f at most in the place of node n. */
  ghost predicate OnlyMoved(f: Forest, g: Forest, n: NodeId)
  {
    && (forall m :: m in g.place <==> m in f.place)
    && (forall m :: m in g.place && m != n ==> g.place[m] == f.place[m])
  }

  /** Moving one token's node within the tree keeps the bookkeeping. */
  lemma MoveKeyRegistered<K>(on: map<K, NodeId>, f: Forest, g: Forest, nd: map<NodeId, K>, next: nat, t: K)
    requires Registered(on, f, nd, next) && t in on && Valid(g)
    requires OnlyMoved(f, g, on[t])
    ensures Registered(on, g, nd, next)
  {
    assert g.place.Keys == f.place.Keys;
    forall m | m in g.place && g.place[m] != Detached ensures nd[m] in on && on[nd[m]] == m {
      if m != on[t] { assert f.place[m] == g.place[m]; }
    }
  }

  /**
   * One round of the hierarchy loop: t's node now sits where t belongs, and
   * since no other token shares that node, every token placed before stays
   * placed and no nested token's node reaches the top level.
   */
  lemma ReparentStep(on: map<Token, NodeId>, f: Forest, g: Forest, nd: map<NodeId, Token>, next: nat,
                        t: Token, rest: set<Token>)
    requires Registered(on, f, nd, next) && ParentClosed(on) && Valid(g)
    requires t in on && OnlyMoved(f, g, on[t]) && on[t] in g.place && g.place[on[t]] == Correct(on, t)
    requires forall u :: u in on && u !in rest ==> on[u] in f.place && f.place[on[u]] == Correct(on, u)
    requires forall u :: u in on && u.parent.Some? ==> on[u] in f.place && f.place[on[u]] != AtRoot
    ensures Registered(on, g, nd, next)
    ensures forall u :: u in on && u !in rest - {t} ==> on[u] in g.place && g.place[on[u]] == Correct(on, u)
    ensures forall u :: u in on && u.parent.Some? ==> on[u] in g.place && g.place[on[u]] != AtRoot
  {
    MoveKeyRegistered(on, f, g, nd, next, t);
    RegisteredHung(on, f, nd, next);
  }

  /** Relinking children without moving any node keeps the bookkeeping and every token's place. */
  lemma RelinkKeeps(on: map<Token, NodeId>, f: Forest, g: Forest, nd: map<NodeId, Token>, next: nat)
    requires Registered(on, f, nd, next) && Placed(on, f) && Valid(g) && g.place == f.place
    ensures Registered(on, g, nd, next) && Placed(on, g)
  {
  }

  /**
   * Moving inserter t's node to the end of its list row's children makes it
   * last there, and keeps last every other inserter that already was: no
   * other inserter shares t's list row.
   */
  lemma {:induction false} InserterMovedLast(on: map<Token, NodeId>, f: Forest, g: Forest, nd: map<NodeId, Token>, next: nat,
                                             t: Token, done: set<Token>)
    requires Registered(on, f, nd, next) && Placed(on, f) && Shaped(on)
    requires t in on && t.elementIndex == InserterIndex && t.parent.Some? && t.parent.value in on
    requires on[t.parent.value] in f.children
    requires g == Forest(f.roots, f.place, f.children[on[t.parent.value] := Without(f.children[on[t.parent.value]], on[t]) + [on[t]]])
    requires forall u :: u in on && u !in done && u != t && u.elementIndex == InserterIndex ==> LastUnderParent(on, f, u)
    ensures forall u :: u in on && u !in done && u.elementIndex == InserterIndex ==> LastUnderParent(on, g, u)
  {
    var p := on[t.parent.value];
    forall u | u in on && u !in done && u.elementIndex == InserterIndex
      ensures LastUnderParent(on, g, u)
    {
      if u != t {
        InsertersUnderDistinctRows(on, f, nd, next, u, t);
      }
    }
  }

  /**
   * One round of the final pass, on values: moving inserter t's node to the
   * end of its list row's children keeps the bookkeeping and every node's
   * place, makes t's node last, keeps the inserters already handled last,
   * changes nothing when all inserters were last, and keeps the order of
   * every child outside `moved`.
   */
  lemma MoveInserterStep(on: map<Token, NodeId>, f: Forest, nd: map<NodeId, Token>, next: nat,
                         t: Token, done: set<Token>, wasLast: bool, moved: set<NodeId>)
    requires Registered(on, f, nd, next) && Placed(on, f) && Shaped(on)
    requires t in on && t.elementIndex == InserterIndex && t !in done && on[t] in moved
    requires wasLast ==> InsertersLast(on, f)
    requires forall u :: u in on && u !in done && u != t && u.elementIndex == InserterIndex ==> LastUnderParent(on, f, u)
    ensures t.parent.Some? && t.parent.value in on && Known(f, on[t]) && on[t.parent.value] in Remove(f, on[t]).children
    ensures var g := AddUnder(Remove(f, on[t]), on[t.parent.value], on[t]);
      && Registered(on, g, nd, next) && Placed(on, g)
      && g.place == f.place && g.roots == f.roots
      && (forall u :: u in on && u !in done && u.elementIndex == InserterIndex ==> LastUnderParent(on, g, u))
      && (wasLast ==> g == f)
      && OrderKeptOutside(f, g, moved)
  {
    var n, p := on[t], on[t.parent.value];
    assert f.place[n] == Under(p);
    MoveToEnd(f, p, n);
    MoveToEndKeepsOrder(f, p, n, moved);
    MoveToEndValid(f, p, n);
    if wasLast {
      MoveLastIsIdentity(f, p, n);
    }
    var g := AddUnder(Remove(f, n), p, n);
    RelinkKeeps(on, f, g, nd, next);
    InserterMovedLast(on, f, g, nd, next, t, done);
  }

  /**
   * The final pass's loop state: `rest` is what it has still to visit, f0
   * the tree it started from. The bookkeeping and every node's place hold,
   * the inserters visited are last, nothing moved if all inserters were
   * last at the start, and every child outside `moved` keeps its order.
   */
  ghost predicate InsertersPassed(on: map<Token, NodeId>, f0: Forest, f: Forest, nd: map<NodeId, Token>, next: nat,
                                  rest: set<Token>, wasLast: bool, moved: set<NodeId>)
  {
    && rest <= on.Keys
    && Registered(on, f, nd, next) && Placed(on, f)
    && f.place == f0.place && f.roots == f0.roots
    && (forall t :: t in on && t !in rest && t.elementIndex == InserterIndex ==> LastUnderParent(on, f, t))
    && (wasLast ==> f == f0)
    && OrderKeptOutside(f0, f, moved)
  }

  /** A round of the final pass keeps its loop state, whether or not the token visited is an inserter. */
  lemma InsertersPassStep(on: map<Token, NodeId>, f0: Forest, f: Forest, nd: map<NodeId, Token>, next: nat,
                          rest: set<Token>, t: Token, wasLast: bool, moved: set<NodeId>)
    requires Shaped(on) && moved == InserterNodes(on)
    requires wasLast ==> InsertersLast(on, f0)
    requires InsertersPassed(on, f0, f, nd, next, rest, wasLast, moved) && t in rest
    ensures t.elementIndex == InserterIndex ==>
      && t in on && t.parent.Some? && t.parent.value in on
      && Known(f, on[t]) && on[t.parent.value] in Remove(f, on[t]).children
      && InsertersPassed(on, f0, AddUnder(Remove(f, on[t]), on[t.parent.value], on[t]), nd, next, rest - {t}, wasLast, moved)
    ensures t.elementIndex != InserterIndex ==> InsertersPassed(on, f0, f, nd, next, rest - {t}, wasLast, moved)
  {
    if t.elementIndex == InserterIndex {
      assert on[t] in moved;
      MoveInserterStep(on, f, nd, next, t, rest - {t}, wasLast, moved);
      OrderKeptTransitive(f0, f, AddUnder(Remove(f, on[t]), on[t.parent.value], on[t]), moved);
    }
  }

  // ---------------------------------------------------------------------
  // The passes of SetItem, one step at a time

  /** The part of the editor the reconciler's passes change: m_objectNodes, the tree view, and the shown edit controls. */
  datatype Stage<K> = Stage(on: map<K, NodeId>, f: Forest, shown: map<NodeId, bool>)

  /** Every token's node is in the forest, and so is the node's parent if it has one. */
  ghost predicate Hung<K>(on: map<K, NodeId>, f: Forest)
  {
    forall t :: t in on ==> Known(f, on[t])
  }

  /** No two tokens share a node. */
  ghost predicate Injective<K>(on: map<K, NodeId>)
  {
    forall a, b :: a in on && b in on && a != b ==> on[a] != on[b]
  }

  lemma RegisteredHung<K>(on: map<K, NodeId>, f: Forest, nd: map<NodeId, K>, next: nat)
    requires Registered(on, f, nd, next)
    ensures Hung(on, f) && Injective(on)
  {
  }

  /**
   * One round of the removal loop: hide the edit controls of the stale
   * token's node, detach the node and drop the token from the dictionary.
   * The guard only says what the round needs; DropStaleStep shows that it
   * holds whenever the editor runs the loop.
   */
  function DropOne<K(==)>(p: Stage<K>, t: K): Stage<K>
  {
    if t in p.on && Known(p.f, p.on[t]) then Stage(p.on - {t}, Remove(p.f, p.on[t]), p.shown[p.on[t] := false])
    else p
  }

  /** The removal loop's state after its first i rounds. */
  function DropStale<K(==)>(s: Stage<K>, rm: seq<K>, i: nat): Stage<K>
    requires i <= |rm|
    decreases i
  {
    if i == 0 then s else DropOne(DropStale(s, rm, i - 1), rm[i - 1])
  }

  /** A round drops exactly its token, and leaves every other token's node hung. */
  lemma DropOneKeys<K>(p: Stage<K>, t: K)
    requires Hung(p.on, p.f)
    ensures var r := DropOne(p, t); Hung(r.on, r.f) && forall u :: u in r.on <==> u in p.on && u != t
  {
    if t in p.on {
      var r := DropOne(p, t);
      forall u | u in r.on ensures Known(r.f, r.on[u]) {
        assert Known(p.f, p.on[u]);
      }
    }
  }

  /**
   * A round keeps every other token's node and that node's place, detaches
   * and hides the dropped token's node, and keeps detached nodes detached and
   * hidden controls hidden.
   */
  lemma DropOneNodes<K>(p: Stage<K>, t: K)
    requires Hung(p.on, p.f) && Injective(p.on)
    ensures var r := DropOne(p, t);
      && Injective(r.on)
      && r.f.place.Keys == p.f.place.Keys
      && (forall u :: u in r.on ==> u in p.on && r.on[u] == p.on[u] && r.f.place[p.on[u]] == p.f.place[p.on[u]])
      && (t in p.on ==> r.f.place[p.on[t]] == Detached && p.on[t] in r.shown && !r.shown[p.on[t]])
      && (forall n :: n in p.f.place && p.f.place[n] == Detached ==> r.f.place[n] == Detached)
      && (forall n :: n in p.shown && !p.shown[n] ==> n in r.shown && !r.shown[n])
  {
    if t in p.on {
      assert Known(p.f, p.on[t]);
    }
  }

  /** After i rounds exactly the tokens of rm[..i] are gone, and every remaining token's node is hung. */
  lemma {:induction false} DropStaleKeys<K>(s: Stage<K>, rm: seq<K>, i: nat)
    requires Hung(s.on, s.f) && i <= |rm|
    ensures var r := DropStale(s, rm, i);
      && Hung(r.on, r.f)
      && forall t :: t in r.on <==> t in s.on && forall j :: 0 <= j < i ==> rm[j] != t
    decreases i
  {
    if i > 0 {
      DropStaleKeys(s, rm, i - 1);
      DropOneKeys(DropStale(s, rm, i - 1), rm[i - 1]);
    }
  }

  /** Round i of the removal loop finds its token in the dictionary with its node hung. */
  lemma DropStaleStep<K>(s: Stage<K>, rm: seq<K>, i: nat)
    requires Hung(s.on, s.f) && i < |rm|
    requires TokensDistinct(rm) && forall t :: t in rm ==> t in s.on
    ensures var p := DropStale(s, rm, i);
      && rm[i] in p.on && Known(p.f, p.on[rm[i]])
      && DropStale(s, rm, i + 1) == Stage(p.on - {rm[i]}, Remove(p.f, p.on[rm[i]]), p.shown[p.on[rm[i]] := false])
  {
    DropStaleKeys(s, rm, i);
  }

  /**
   * After i rounds every token still in the dictionary keeps its node and
   * the node its place, and every dropped token's node is detached with its
   * edit controls hidden.
   */
  lemma {:induction false} DropStaleNodes<K>(s: Stage<K>, rm: seq<K>, i: nat)
    requires Hung(s.on, s.f) && Injective(s.on) && i <= |rm|
    ensures var r := DropStale(s, rm, i);
      && Injective(r.on)
      && forall t :: t in s.on ==>
        && s.on[t] in r.f.place
        && (t in r.on ==> r.on[t] == s.on[t] && r.f.place[s.on[t]] == s.f.place[s.on[t]])
        && (t !in r.on ==> r.f.place[s.on[t]] == Detached && s.on[t] in r.shown && !r.shown[s.on[t]])
    decreases i
  {
    if i > 0 {
      DropStaleNodes(s, rm, i - 1);
      DropStaleKeys(s, rm, i - 1);
      var p := DropStale(s, rm, i - 1);
      DropOneNodes(p, rm[i - 1]);
      DropOneKeys(p, rm[i - 1]);
    }
  }

  /** A round keeps the bookkeeping between tokens and nodes. */
  lemma DropOneRegistered<K>(p: Stage<K>, t: K, nd: map<NodeId, K>, next: nat)
    requires Registered(p.on, p.f, nd, next)
    ensures var r := DropOne(p, t); Registered(r.on, r.f, nd, next)
  {
    if t in p.on {
      RemoveKeyRegistered(p.on, p.f, nd, next, t);
    }
  }

  /** The removal loop keeps the bookkeeping between tokens and nodes. */
  lemma {:induction false} DropStaleRegistered<K>(s: Stage<K>, nd: map<NodeId, K>, next: nat, rm: seq<K>, i: nat)
    requires Registered(s.on, s.f, nd, next) && i <= |rm|
    ensures var r := DropStale(s, rm, i); Registered(r.on, r.f, nd, next)
    decreases i
  {
    if i > 0 {
      DropStaleRegistered(s, nd, next, rm, i - 1);
      DropOneRegistered(DropStale(s, rm, i - 1), rm[i - 1], nd, next);
    }
  }

  /** The part of the editor the creation loop changes: m_objectNodes, the tree view, each node's token and the next node id. */
  datatype Book<K> = Book(on: map<K, NodeId>, f: Forest, nd: map<NodeId, K>, next: nat)

  /** One round of the creation loop: a fresh detached node for t, which the dictionary now maps t to. */
  function AddOne<K>(b: Book<K>, t: K): Book<K>
  {
    Book(b.on[t := b.next], NewNode(b.f, b.next), b.nd[b.next := t], b.next + 1)
  }

  /**
   * The edit-control visibility after a creation loop of count rounds that
   * started at node id from: each new node's constructor hides its controls.
   */
  function HideNew(shown: map<NodeId, bool>, from: nat, count: nat): map<NodeId, bool>
    decreases count
  {
    if count == 0 then shown else HideNew(shown, from, count - 1)[from + count - 1 := false]
  }

  /** The creation loop's state after its first i rounds. */
  function AddAll<K>(b: Book<K>, ad: seq<K>, i: nat): Book<K>
    requires i <= |ad|
    decreases i
  {
    if i == 0 then b else AddOne(AddAll(b, ad, i - 1), ad[i - 1])
  }

  /** After i rounds the dictionary holds the old tokens and the first i new ones, and no others. */
  lemma {:induction false} AddAllKeys<K>(b: Book<K>, ad: seq<K>, i: nat)
    requires i <= |ad|
    ensures var r := AddAll(b, ad, i);
      && (forall t :: t in r.on ==> t in b.on || t in ad)
      && (forall t :: t in b.on ==> t in r.on)
      && (forall j :: 0 <= j < i ==> ad[j] in r.on)
    decreases i
  {
    if i > 0 {
      AddAllKeys(b, ad, i - 1);
    }
  }

  /**
   * What the creation loop keeps between the book b it started from and the
   * book r it has reached: old tokens keep their nodes and old nodes their
   * places, and every other node is a fresh, detached one.
   */
  ghost predicate NodesKept<K>(b: Book<K>, r: Book<K>)
  {
    && (forall t :: t in b.on ==> t in r.on && r.on[t] == b.on[t])
    && (forall n :: n in b.f.place ==> n in r.f.place && r.f.place[n] == b.f.place[n])
    && (forall n :: n in r.f.place ==> n in b.f.place || b.next <= n < r.next)
    && (forall t :: t in r.on && t !in b.on ==> b.next <= r.on[t] && r.on[t] in r.f.place && r.f.place[r.on[t]] == Detached)
  }

  /** One round of the creation loop, for a token not in the starting dictionary, keeps NodesKept. */
  lemma AddOneNodes<K>(b: Book<K>, p: Book<K>, t: K)
    requires NodesKept(b, p) && t !in b.on && b.next <= p.next
    requires forall n :: n in b.f.place ==> n < b.next
    ensures NodesKept(b, AddOne(p, t))
  {
    var r := AddOne(p, t);
    assert p.next !in b.f.place;
    forall u | u in r.on && u !in b.on
      ensures b.next <= r.on[u] && r.on[u] in r.f.place && r.f.place[r.on[u]] == Detached
    {
      if u != t {
        assert u in p.on && r.on[u] == p.on[u] != p.next;
      }
    }
  }

  /**
   * Creating nodes for tokens not yet in the dictionary keeps every old
   * token's node and every old node's place; each new token's node is a
   * fresh id, at least the old next id, and detached.
   */
  lemma {:induction false} AddAllNodes<K>(b: Book<K>, ad: seq<K>, i: nat)
    requires i <= |ad| && forall j :: 0 <= j < |ad| ==> ad[j] !in b.on
    requires forall n :: n in b.f.place ==> n < b.next
    ensures var r := AddAll(b, ad, i); b.next + i == r.next && NodesKept(b, r)
    decreases i
  {
    if i > 0 {
      AddAllNodes(b, ad, i - 1);
      AddOneNodes(b, AddAll(b, ad, i - 1), ad[i - 1]);
    }
  }

  /** A token added in an earlier round still has its detached node. */
  lemma AddAllFresh<K>(b: Book<K>, ad: seq<K>, i: nat)
    requires i < |ad| && forall j :: 0 <= j < |ad| ==> ad[j] !in b.on
    requires forall n :: n in b.f.place ==> n < b.next
    ensures var p := AddAll(b, ad, i); ad[i] in p.on ==> p.on[ad[i]] in p.f.place && p.f.place[p.on[ad[i]]] == Detached
  {
    AddAllNodes(b, ad, i);
  }

  /** A round keeps the links when its token is new or its node detached. */
  lemma AddOneLinked<K>(p: Book<K>, t: K)
    requires Linked(p.on, p.f, p.nd, p.next)
    requires t in p.on ==> p.on[t] in p.f.place && p.f.place[p.on[t]] == Detached
    ensures var r := AddOne(p, t); Linked(r.on, r.f, r.nd, r.next)
  {
    var r := AddOne(p, t);
    forall u | u in r.on ensures r.on[u] in r.nd && r.nd[r.on[u]] == u {
      if u != t { assert p.on[u] in p.f.place; }
    }
    forall m | m in r.f.place && r.f.place[m] != Detached ensures r.nd[m] in r.on && r.on[r.nd[m]] == m {
      assert m != p.next && p.f.place[m] != Detached;
      assert p.nd[m] in p.on && p.on[p.nd[m]] == m;
    }
  }

  /** The creation loop keeps the forest's shape. */
  lemma {:induction false} AddAllValid<K>(b: Book<K>, ad: seq<K>, i: nat)
    requires Valid(b.f) && (forall n :: n in b.f.place ==> n < b.next) && i <= |ad|
    ensures var r := AddAll(b, ad, i); Valid(r.f) && forall n :: n in r.f.place ==> n < r.next
    decreases i
  {
    if i > 0 {
      AddAllValid(b, ad, i - 1);
      var p := AddAll(b, ad, i - 1);
      NewNodeValid(p.f, p.next);
    }
  }

  /** The creation loop keeps the links between tokens and nodes. */
  lemma {:induction false} AddAllLinked<K>(b: Book<K>, ad: seq<K>, i: nat)
    requires Linked(b.on, b.f, b.nd, b.next) && i <= |ad| && forall j :: 0 <= j < |ad| ==> ad[j] !in b.on
    ensures var r := AddAll(b, ad, i); Linked(r.on, r.f, r.nd, r.next)
    decreases i
  {
    if i > 0 {
      AddAllLinked(b, ad, i - 1);
      AddAllFresh(b, ad, i - 1);
      AddOneLinked(AddAll(b, ad, i - 1), ad[i - 1]);
    }
  }

  /** The creation loop keeps the bookkeeping between tokens and nodes. */
  lemma AddAllRegistered<K>(b: Book<K>, ad: seq<K>, i: nat)
    requires Registered(b.on, b.f, b.nd, b.next) && i <= |ad| && forall j :: 0 <= j < |ad| ==> ad[j] !in b.on
    ensures var r := AddAll(b, ad, i); Registered(r.on, r.f, r.nd, r.next)
  {
    AddAllValid(b, ad, i);
    AddAllLinked(b, ad, i);
  }

  /**
   * The creation loop hides the edit controls of every node it creates and
   * shows none that were hidden.
   */
  lemma {:induction false} HideNewHides(shown: map<NodeId, bool>, from: nat, count: nat)
    ensures var r := HideNew(shown, from, count);
      && (forall n :: n in shown ==> n in r && (r[n] ==> shown[n]))
      && (forall n :: from <= n < from + count ==> n in r && !r[n])
    decreases count
  {
    if count > 0 {
      HideNewHides(shown, from, count - 1);
      assert HideNew(shown, from, count) == HideNew(shown, from, count - 1)[from + count - 1 := false];
    }
  }

  /**
   * Creating nodes for tokens not yet in the dictionary keeps every old
   * token, keeps hidden every control that was hidden and hides the
   * controls of every new token's node.
   */
  lemma AddAllHides<K>(b: Book<K>, ad: seq<K>, shown: map<NodeId, bool>)
    requires forall j :: 0 <= j < |ad| ==> ad[j] !in b.on
    requires forall n :: n in b.f.place ==> n < b.next
    ensures var r := AddAll(b, ad, |ad|); var h := HideNew(shown, b.next, |ad|);
      && (forall t :: t in b.on ==> t in r.on)
      && (forall n :: n in shown && !shown[n] ==> n in h && !h[n])
      && (forall t :: t in r.on && t !in b.on ==> r.on[t] in h && !h[r.on[t]])
  {
    var r := AddAll(b, ad, |ad|);
    AddAllNodes(b, ad, |ad|);
    HideNewHides(shown, b.next, |ad|);
    forall t | t in r.on && t !in b.on ensures b.next <= r.on[t] < b.next + |ad| {
    }
  }

  /** The creation loop keeps the token of every node that already existed. */
  lemma {:induction false} AddAllKeepsNodeTokens<K>(b: Book<K>, ad: seq<K>, i: nat)
    requires i <= |ad| && forall n :: n in b.nd ==> n < b.next
    ensures var r := AddAll(b, ad, i); b.next <= r.next && forall n :: n in b.nd ==> n in r.nd && r.nd[n] == b.nd[n]
    decreases i
  {
    if i > 0 {
      AddAllKeepsNodeTokens(b, ad, i - 1);
    }
  }

  // ---------------------------------------------------------------------
  // What the removal and creation passes leave together

  /** After dropping the stale tokens and adding the new ones, the dictionary holds exactly the new list's tokens. */
  lemma ReconcileKeys<K>(s0: Stage<K>, flat: seq<K>, rm: seq<K>, ad: seq<K>, nd: map<NodeId, K>, next: nat)
    requires Hung(s0.on, s0.f)
    requires forall t :: t in rm <==> t in s0.on && t !in flat
    requires forall t :: t in ad <==> t in flat && t !in s0.on
    ensures var s1 := DropStale(s0, rm, |rm|);
      var b2 := AddAll(Book(s1.on, s1.f, nd, next), ad, |ad|);
      forall t :: t in b2.on <==> t in flat
  {
    var s1 := DropStale(s0, rm, |rm|);
    var b1 := Book(s1.on, s1.f, nd, next);
    var b2 := AddAll(b1, ad, |ad|);
    DropStaleKeys(s0, rm, |rm|);
    AddAllKeys(b1, ad, |ad|);
    forall t ensures t in b2.on <==> t in flat {
      if t in flat && t !in s0.on {
        var j :| 0 <= j < |ad| && ad[j] == t;
      }
    }
  }

  /**
   * After dropping the stale tokens and adding the new ones the bookkeeping
   * holds and every old node keeps its token.
   */
  lemma ReconcileRegistered<K>(s0: Stage<K>, rm: seq<K>, ad: seq<K>, nd: map<NodeId, K>, next: nat)
    requires Registered(s0.on, s0.f, nd, next)
    requires forall t :: t in ad ==> t !in s0.on
    ensures var s1 := DropStale(s0, rm, |rm|);
      var b2 := AddAll(Book(s1.on, s1.f, nd, next), ad, |ad|);
      && Registered(b2.on, b2.f, b2.nd, b2.next)
      && (forall t :: t in s0.on ==> s0.on[t] in b2.nd && b2.nd[s0.on[t]] == t)
  {
    var s1 := DropStale(s0, rm, |rm|);
    var b1 := Book(s1.on, s1.f, nd, next);
    RegisteredHung(s0.on, s0.f, nd, next);
    DropStaleRegistered(s0, nd, next, rm, |rm|);
    DropStaleKeys(s0, rm, |rm|);
    assert forall j :: 0 <= j < |ad| ==> ad[j] !in b1.on;
    AddAllRegistered(b1, ad, |ad|);
    AddAllKeepsNodeTokens(b1, ad, |ad|);
  }

  /**
   * After dropping the stale tokens and adding the new ones, a surviving
   * token keeps its node and the node its place, and a new token has a
   * fresh detached node.
   */
  lemma ReconcileNodes<K>(s0: Stage<K>, rm: seq<K>, ad: seq<K>, nd: map<NodeId, K>, next: nat)
    requires Registered(s0.on, s0.f, nd, next)
    requires forall t :: t in ad ==> t !in s0.on
    ensures var s1 := DropStale(s0, rm, |rm|);
      var b2 := AddAll(Book(s1.on, s1.f, nd, next), ad, |ad|);
      && next <= b2.next
      && (forall t :: t in b2.on && t in s0.on ==>
            b2.on[t] == s0.on[t] && s0.on[t] in b2.f.place && b2.f.place[s0.on[t]] == s0.f.place[s0.on[t]])
      && (forall t :: t in b2.on && t !in s0.on ==> next <= b2.on[t] && b2.on[t] in b2.f.place && b2.f.place[b2.on[t]] == Detached)
  {
    var s1 := DropStale(s0, rm, |rm|);
    var b1 := Book(s1.on, s1.f, nd, next);
    var b2 := AddAll(b1, ad, |ad|);
    RegisteredHung(s0.on, s0.f, nd, next);
    DropStaleRegistered(s0, nd, next, rm, |rm|);
    DropStaleKeys(s0, rm, |rm|);
    DropStaleNodes(s0, rm, |rm|);
    assert forall j :: 0 <= j < |ad| ==> ad[j] !in b1.on;
    AddAllKeys(b1, ad, |ad|);
    AddAllNodes(b1, ad, |ad|);
    forall t | t in b2.on && t !in s0.on
      ensures next <= b2.on[t] && b2.on[t] in b2.f.place && b2.f.place[b2.on[t]] == Detached
    {
      assert t !in b1.on;
    }
  }

  /**
   * After dropping the stale tokens and adding the new ones, both the node of
   * a dropped token and the node of a new token have their edit controls
   * hidden.
   */
  lemma ReconcileShown<K>(s0: Stage<K>, rm: seq<K>, ad: seq<K>, nd: map<NodeId, K>, next: nat)
    requires Registered(s0.on, s0.f, nd, next)
    requires forall t :: t in ad ==> t !in s0.on
    ensures var s1 := DropStale(s0, rm, |rm|);
      var b2 := AddAll(Book(s1.on, s1.f, nd, next), ad, |ad|);
      var h := HideNew(s1.shown, next, |ad|);
      && (forall t :: t in s0.on && t !in b2.on ==> s0.on[t] in h && !h[s0.on[t]])
      && (forall t :: t in b2.on && t !in s0.on ==> b2.on[t] in h && !h[b2.on[t]])
  {
    var s1 := DropStale(s0, rm, |rm|);
    var b1 := Book(s1.on, s1.f, nd, next);
    RegisteredHung(s0.on, s0.f, nd, next);
    DropStaleRegistered(s0, nd, next, rm, |rm|);
    DropStaleKeys(s0, rm, |rm|);
    DropStaleNodes(s0, rm, |rm|);
    assert forall j :: 0 <= j < |ad| ==> ad[j] !in b1.on;
    AddAllHides(b1, ad, s1.shown);
  }

  /** A non-empty sequence holds its first element. */
  lemma FirstIsMember<K>(s: seq<K>)
    ensures s != [] ==> s[0] in s
  {
  }

  /** When the dictionary already holds exactly the new list's tokens, nothing is stale and nothing is new. */
  lemma NothingToReconcile<K>(keys: set<K>, flat: seq<K>, rm: seq<K>, ad: seq<K>)
    requires forall t :: t in keys <==> t in flat
    requires forall t :: t in rm <==> t in keys && t !in flat
    requires forall t :: t in ad <==> t in flat && t !in keys
    ensures rm == [] && ad == []
  {
    FirstIsMember(rm);
    FirstIsMember(ad);
  }

  /** A dictionary holding exactly the tokens of a parent-closed list of well-shaped tokens is parent-closed and shaped. */
  lemma ListedKeys(on: map<Token, NodeId>, flat: seq<Token>)
    requires forall t :: t in on <==> t in flat
    requires forall t :: t in flat && t.parent.Some? ==> t.parent.value in flat
    requires forall t :: t in flat ==> InserterShaped(t)
    ensures ParentClosed(on) && Shaped(on)
  {
  }

  /**
   * Before the hierarchy pass no nested token's node is at the top level: a
   * surviving token's node is where the last SetItem put it, and a new
   * token's node is detached.
   */
  lemma ReparentReady(on0: map<Token, NodeId>, f0: Forest, on: map<Token, NodeId>, f: Forest)
    requires Placed(on0, f0)
    requires forall t :: t in on && t in on0 ==>
               on[t] == on0[t] && on0[t] in f.place && f.place[on0[t]] == f0.place[on0[t]]
    requires forall t :: t in on && t !in on0 ==> on[t] in f.place && f.place[on[t]] == Detached
    ensures forall t :: t in on && t.parent.Some? ==> on[t] in f.place && f.place[on[t]] != AtRoot
  {
  }

  /** Once the bookkeeping holds, the node of a token no longer in the dictionary is detached. */
  lemma DroppedDetached<K>(on0: map<K, NodeId>, on: map<K, NodeId>, f: Forest, nd: map<NodeId, K>, next: nat)
    requires Registered(on, f, nd, next)
    requires forall t :: t in on0 ==> on0[t] in nd && nd[on0[t]] == t
    ensures forall t :: t in on0 && t !in on ==> on0[t] in f.place && f.place[on0[t]] == Detached
  {
  }
}
