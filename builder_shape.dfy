/**
 * The shape of the flat token list the builder produces: pre-order (every
 * token's parent is the root's parent or an earlier token), and the direct
 * children of a list row are its element rows in collection order followed
 * by exactly one inserter row.
 */
module BuilderShape {
  import opened Wrappers
  import opened RuntimeTypes
  import opened Tokens
  import opened Builder

  /** The length of a token's parent chain. */
  function Depth(p: Option<Token>): nat
  {
    match p
    case None => 0
    case Some(t) => 1 + Depth(t.parent)
  }

  /** Every token's parent is `root` or a token that occurs earlier in s. */
  ghost predicate ParentsEarlier(s: seq<Token>, root: Option<Token>)
  {
    forall j :: 0 <= j < |s| ==> s[j].parent == root || (s[j].parent.Some? && s[j].parent.value in s[..j])
  }

  /** No token of s hangs above the level of `root`. */
  ghost predicate Below(s: seq<Token>, root: Option<Token>)
  {
    forall j :: 0 <= j < |s| ==> Depth(s[j].parent) >= Depth(root)
  }

  /** The tokens of s whose parent is p, in order: the child rows of p. */
  function ChildrenOf(s: seq<Token>, p: Option<Token>): (r: seq<Token>)
  {
    if s == [] then [] else (if s[0].parent == p then [s[0]] else []) + ChildrenOf(s[1..], p)
  }

  lemma {:induction false} ChildrenOfConcat(a: seq<Token>, b: seq<Token>, p: Option<Token>)
    ensures ChildrenOf(a + b, p) == ChildrenOf(a, p) + ChildrenOf(b, p)
  {
    if a == [] {
      assert a + b == b;
    } else {
      var head := if a[0].parent == p then [a[0]] else [];
      assert (a + b)[0] == a[0];
      assert (a + b)[1..] == a[1..] + b;
      ChildrenOfConcat(a[1..], b, p);
      calc {
        ChildrenOf(a + b, p);
        head + ChildrenOf(a[1..] + b, p);
        head + (ChildrenOf(a[1..], p) + ChildrenOf(b, p));
        (head + ChildrenOf(a[1..], p)) + ChildrenOf(b, p);
      }
    }
  }

  /** Tokens strictly deeper than the level of p are not children of p. */
  lemma {:induction false} NoChildrenBelow(s: seq<Token>, p: Option<Token>, q: Option<Token>)
    requires Below(s, q) && Depth(q) > Depth(p)
    ensures ChildrenOf(s, p) == []
  {
    if s != [] {
      assert Depth(s[0].parent) >= Depth(q);
      NoChildrenBelow(s[1..], p, q);
    }
  }

  lemma ParentsEarlierConcat(a: seq<Token>, b: seq<Token>, root: Option<Token>, inner: Option<Token>)
    requires ParentsEarlier(a, root) && ParentsEarlier(b, inner)
    requires inner == root || (inner.Some? && inner.value in a)
    ensures ParentsEarlier(a + b, root)
  {
    forall j | 0 <= j < |a + b|
      ensures (a + b)[j].parent == root || ((a + b)[j].parent.Some? && (a + b)[j].parent.value in (a + b)[..j])
    {
      if j < |a| {
        assert (a + b)[..j] == a[..j];
      } else {
        var j' := j - |a|;
        assert (a + b)[j] == b[j'];
        assert (a + b)[..j] == a + b[..j'];
      }
    }
  }

  /** A row followed by its subtree, which hangs below the row. */
  lemma RowThenSubtree(t: Token, sub: seq<Token>, root: Option<Token>)
    requires t.parent == root
    requires ParentsEarlier(sub, Some(t)) && Below(sub, Some(t))
    ensures ParentsEarlier([t] + sub, root) && Below([t] + sub, root)
    ensures ChildrenOf([t] + sub, root) == [t]
  {
    ParentsEarlierConcat([t], sub, root, Some(t));
    NoChildrenBelow(sub, root, Some(t));
    ChildrenOfConcat([t], sub, root);
  }

  // ---------------------------------------------------------------------
  // Pre-order: parents are emitted before their children

  lemma {:induction false} PropertyTokensShape(o: Value, parent: Option<Token>, editors: map<TypeId, TypeId>)
    requires o.Obj? && ElementsNonNull(o)
    ensures ParentsEarlier(PropertyTokens(o, parent, editors), parent)
    ensures Below(PropertyTokens(o, parent, editors), parent)
    decreases o, 2, 0
  {
    MembersTokensShape(o, |o.props|, parent, editors);
  }

  lemma {:induction false} MembersTokensShape(o: Value, k: nat, parent: Option<Token>, editors: map<TypeId, TypeId>)
    requires o.Obj? && ElementsNonNull(o) && k <= |o.props|
    ensures ParentsEarlier(MembersTokens(o, k, parent, editors), parent)
    ensures Below(MembersTokens(o, k, parent, editors), parent)
    decreases o, 1, k
  {
    if k > 0 {
      MembersTokensShape(o, k - 1, parent, editors);
      MemberTokensShape(o, k - 1, parent, editors);
      ParentsEarlierConcat(MembersTokens(o, k - 1, parent, editors), MemberTokens(o, k - 1, parent, editors), parent, parent);
    }
  }

  lemma {:induction false} MemberTokensShape(o: Value, k: nat, parent: Option<Token>, editors: map<TypeId, TypeId>)
    requires o.Obj? && ElementsNonNull(o) && k < |o.props|
    ensures ParentsEarlier(MemberTokens(o, k, parent, editors), parent)
    ensures Below(MemberTokens(o, k, parent, editors), parent)
    ensures ChildrenOf(MemberTokens(o, k, parent, editors), parent)
            == if o.props[k].prop.canRead then [PropertyRow(o, k, parent, editors)] else []
    decreases o, 0, 0
  {
    var m := o.props[k];
    if m.prop.canRead {
      var t := PropertyRow(o, k, parent, editors);
      if IsTypeAList(m.prop.propertyType) {
        if m.value.Obj? {
          ListTokensShape(m.value, t, editors);
          RowThenSubtree(t, ListTokens(m.value, t, editors), parent);
        } else {
          RowThenSubtree(t, [], parent);
        }
      } else if IsExpandableClassType(m.prop.propertyType) && m.value.Obj? {
        PropertyTokensShape(m.value, Some(t), editors);
        RowThenSubtree(t, PropertyTokens(m.value, Some(t), editors), parent);
      } else {
        RowThenSubtree(t, [], parent);
      }
    }
  }

  lemma {:induction false} ListTokensShape(v: Value, arrayToken: Token, editors: map<TypeId, TypeId>)
    requires v.Obj? && ItemsNonNull(v)
    ensures ParentsEarlier(ListTokens(v, arrayToken, editors), Some(arrayToken))
    ensures Below(ListTokens(v, arrayToken, editors), Some(arrayToken))
    decreases v, 2, 0
  {
    var elems := ElementsTokens(v, |v.items|, arrayToken, editors);
    ElementsTokensShape(v, |v.items|, arrayToken, editors);
    ParentsEarlierConcat(elems, [InserterRow(v, arrayToken, editors)], Some(arrayToken), Some(arrayToken));
  }

  lemma {:induction false} ElementsTokensShape(v: Value, i: nat, arrayToken: Token, editors: map<TypeId, TypeId>)
    requires v.Obj? && ItemsNonNull(v) && i <= |v.items|
    ensures ParentsEarlier(ElementsTokens(v, i, arrayToken, editors), Some(arrayToken))
    ensures Below(ElementsTokens(v, i, arrayToken, editors), Some(arrayToken))
    decreases v, 1, i
  {
    if i > 0 {
      ElementsTokensShape(v, i - 1, arrayToken, editors);
      ElementTokensShape(v, i - 1, arrayToken, editors);
      ParentsEarlierConcat(ElementsTokens(v, i - 1, arrayToken, editors), ElementTokens(v, i - 1, arrayToken, editors),
                           Some(arrayToken), Some(arrayToken));
    }
  }

  lemma {:induction false} ElementTokensShape(v: Value, i: nat, arrayToken: Token, editors: map<TypeId, TypeId>)
    requires v.Obj? && ItemsNonNull(v) && i < |v.items|
    ensures ParentsEarlier(ElementTokens(v, i, arrayToken, editors), Some(arrayToken))
    ensures Below(ElementTokens(v, i, arrayToken, editors), Some(arrayToken))
    ensures ChildrenOf(ElementTokens(v, i, arrayToken, editors), Some(arrayToken)) == [ElementRow(v, i, arrayToken, editors)]
    decreases v, 0, 0
  {
    var et := ElementRow(v, i, arrayToken, editors);
    PropertyTokensShape(v.items[i], Some(et), editors);
    RowThenSubtree(et, PropertyTokens(v.items[i], Some(et), editors), Some(arrayToken));
  }

  // ---------------------------------------------------------------------
  // The direct children of a row

  /** The readable properties among the first k of ms, in order. */
  function Readable(ms: seq<Member>, k: nat): seq<PropInfo>
    requires k <= |ms|
  {
    if k == 0 then []
    else Readable(ms, k - 1) + (if ms[k - 1].prop.canRead then [ms[k - 1].prop] else [])
  }

  ghost predicate PropertyRows(rows: seq<Token>, props: seq<PropInfo>, owner: ObjRef, parent: Option<Token>)
  {
    && |rows| == |props|
    && forall j :: 0 <= j < |rows| ==>
         rows[j].property == props[j] && rows[j].owner == owner
         && rows[j].elementIndex == NotAnElement && rows[j].parent == parent
  }

  lemma PropertyRowsConcat(a: seq<Token>, pa: seq<PropInfo>, b: seq<Token>, pb: seq<PropInfo>, owner: ObjRef, parent: Option<Token>)
    requires PropertyRows(a, pa, owner, parent) && PropertyRows(b, pb, owner, parent)
    ensures PropertyRows(a + b, pa + pb, owner, parent)
  {
    forall j | 0 <= j < |a + b|
      ensures (a + b)[j].property == (pa + pb)[j] && (a + b)[j].owner == owner
           && (a + b)[j].elementIndex == NotAnElement && (a + b)[j].parent == parent
    {
      if j < |a| { assert (a + b)[j] == a[j] && (pa + pb)[j] == pa[j]; }
      else { assert (a + b)[j] == b[j - |a|] && (pa + pb)[j] == pb[j - |a|]; }
    }
  }

  /** The row tokens of the readable properties among the first k of o. */
  function RowsFor(o: Value, k: nat, parent: Option<Token>, editors: map<TypeId, TypeId>): seq<Token>
    requires o.Obj? && k <= |o.props|
  {
    if k == 0 then []
    else RowsFor(o, k - 1, parent, editors) + (if o.props[k - 1].prop.canRead then [PropertyRow(o, k - 1, parent, editors)] else [])
  }

  lemma {:induction false} RowsForAreRows(o: Value, k: nat, parent: Option<Token>, editors: map<TypeId, TypeId>)
    requires o.Obj? && k <= |o.props|
    ensures PropertyRows(RowsFor(o, k, parent, editors), Readable(o.props, k), o.ref, parent)
  {
    if k > 0 {
      RowsForAreRows(o, k - 1, parent, editors);
      var ph := if o.props[k - 1].prop.canRead then [o.props[k - 1].prop] else [];
      var rh := if o.props[k - 1].prop.canRead then [PropertyRow(o, k - 1, parent, editors)] else [];
      assert PropertyRows(rh, ph, o.ref, parent);
      PropertyRowsConcat(RowsFor(o, k - 1, parent, editors), Readable(o.props, k - 1), rh, ph, o.ref, parent);
    }
  }

  lemma {:induction false} MembersChildren(o: Value, k: nat, parent: Option<Token>, editors: map<TypeId, TypeId>)
    requires o.Obj? && ElementsNonNull(o) && k <= |o.props|
    ensures ChildrenOf(MembersTokens(o, k, parent, editors), parent) == RowsFor(o, k, parent, editors)
    decreases k
  {
    if k > 0 {
      var earlier := MembersTokens(o, k - 1, parent, editors);
      var last := MemberTokens(o, k - 1, parent, editors);
      assert MembersTokens(o, k, parent, editors) == earlier + last;
      MembersChildren(o, k - 1, parent, editors);
      MemberTokensShape(o, k - 1, parent, editors);
      ChildrenOfConcat(earlier, last, parent);
    }
  }

  /**
   * BuildPropertyTokenTree(o, parent) gives `parent` one child row per
   * readable property of o, in GetProperties order, each owned by o and not
   * a list element.
   */
  lemma PropertyChildren(o: Value, parent: Option<Token>, editors: map<TypeId, TypeId>)
    requires o.Obj? && ElementsNonNull(o)
    ensures var rows := ChildrenOf(PropertyTokens(o, parent, editors), parent);
      && |rows| == |Readable(o.props, |o.props|)|
      && forall j :: 0 <= j < |rows| ==>
           rows[j].property == Readable(o.props, |o.props|)[j] && rows[j].owner == o.ref
           && rows[j].elementIndex == NotAnElement && rows[j].parent == parent
  {
    MembersChildren(o, |o.props|, parent, editors);
    RowsForAreRows(o, |o.props|, parent, editors);
  }

  lemma {:induction false} ElementsChildren(v: Value, i: nat, arrayToken: Token, editors: map<TypeId, TypeId>)
    requires v.Obj? && ItemsNonNull(v) && i <= |v.items|
    ensures var rows := ChildrenOf(ElementsTokens(v, i, arrayToken, editors), Some(arrayToken));
      |rows| == i && forall j :: 0 <= j < i ==> rows[j] == ElementRow(v, j, arrayToken, editors)
    decreases i
  {
    if i > 0 {
      ElementsChildren(v, i - 1, arrayToken, editors);
      ElementTokensShape(v, i - 1, arrayToken, editors);
      ChildrenOfConcat(ElementsTokens(v, i - 1, arrayToken, editors), ElementTokens(v, i - 1, arrayToken, editors),
                       Some(arrayToken));
    }
  }

  /**
   * CreateListTokens gives the list row exactly N + 1 children: the element
   * rows with indices 0..N-1 in collection order, each recording its
   * element's runtime type, then one inserter row.
   */
  lemma ListChildren(v: Value, arrayToken: Token, editors: map<TypeId, TypeId>)
    requires v.Obj? && ItemsNonNull(v)
    ensures var rows := ChildrenOf(ListTokens(v, arrayToken, editors), Some(arrayToken));
      && |rows| == |v.items| + 1
      && (forall i :: 0 <= i < |v.items| ==>
            && rows[i].elementIndex == i && rows[i].nodeType == ArrayElement
            && rows[i].elementType == Some(v.items[i].runtimeType)
            && rows[i].property == arrayToken.property && rows[i].owner == arrayToken.owner)
      && rows[|v.items|].elementIndex == InserterIndex && rows[|v.items|].nodeType == ArrayInserter
      && rows[|v.items|].elementType == None
      && rows[|v.items|].property == arrayToken.property && rows[|v.items|].owner == arrayToken.owner
  {
    var ins := InserterRow(v, arrayToken, editors);
    ElementsChildren(v, |v.items|, arrayToken, editors);
    ChildrenOfConcat(ElementsTokens(v, |v.items|, arrayToken, editors), [ins], Some(arrayToken));
    assert ChildrenOf([ins], Some(arrayToken)) == [ins];
  }

  // ---------------------------------------------------------------------
  // How the type tests steer the builder

  /**
   * A readable property whose type IsTypeAList and whose value is not null
   * gets its row, then the list's rows under it: one row per element, in
   * collection order, and an inserter row last. The list object's own
   * properties are not walked, even when its type is also a class.
   */
  lemma ListPropertyRow(o: Value, k: nat, parent: Option<Token>, editors: map<TypeId, TypeId>)
    requires o.Obj? && ElementsNonNull(o) && k < |o.props|
    requires o.props[k].prop.canRead && IsTypeAList(o.props[k].prop.propertyType) && o.props[k].value.Obj?
    ensures var ts := MemberTokens(o, k, parent, editors);
      var v := o.props[k].value;
      && |ts| >= 2 && ts[0] == PropertyRow(o, k, parent, editors)
      && ts[|ts| - 1].elementIndex == InserterIndex && ts[|ts| - 1].parent == Some(ts[0])
      && |ChildrenOf(ts[1..], Some(ts[0]))| == |v.items| + 1
      && forall j :: 0 <= j < |v.items| ==> ChildrenOf(ts[1..], Some(ts[0]))[j].elementIndex == j
  {
    var row := PropertyRow(o, k, parent, editors);
    var v := o.props[k].value;
    var ts := MemberTokens(o, k, parent, editors);
    assert ts == [row] + ListTokens(v, row, editors);
    assert ts[1..] == ListTokens(v, row, editors);
    ListChildren(v, row, editors);
  }

  /**
   * A readable property whose type is not a list gets its row and, when
   * IsExpandableClassType holds and the value is not null, one child row per
   * readable property of the value, owned by it and not list elements;
   * otherwise (a string, a value type, or null) the row alone.
   */
  lemma ClassPropertyRow(o: Value, k: nat, parent: Option<Token>, editors: map<TypeId, TypeId>)
    requires o.Obj? && ElementsNonNull(o) && k < |o.props|
    requires o.props[k].prop.canRead && !IsTypeAList(o.props[k].prop.propertyType)
    ensures var ts := MemberTokens(o, k, parent, editors);
      var m := o.props[k];
      && |ts| >= 1 && ts[0] == PropertyRow(o, k, parent, editors)
      && (IsExpandableClassType(m.prop.propertyType) && m.value.Obj? ==>
            var rows := ChildrenOf(ts[1..], Some(ts[0]));
            && |rows| == |Readable(m.value.props, |m.value.props|)|
            && forall j :: 0 <= j < |rows| ==> rows[j].owner == m.value.ref && rows[j].elementIndex == NotAnElement)
      && (!IsExpandableClassType(m.prop.propertyType) || m.value.Null? ==> ts == [ts[0]])
  {
    var row := PropertyRow(o, k, parent, editors);
    var m := o.props[k];
    var ts := MemberTokens(o, k, parent, editors);
    if IsExpandableClassType(m.prop.propertyType) && m.value.Obj? {
      assert ts == [row] + PropertyTokens(m.value, Some(row), editors);
      assert ts[1..] == PropertyTokens(m.value, Some(row), editors);
      PropertyChildren(m.value, Some(row), editors);
    }
  }

  // ---------------------------------------------------------------------
  // Inserter rows

  /**
   * A token with the inserter index is the inserter row of its parent: same
   * property and owner as the list's own row, no element type. Two inserters
   * with the same parent are therefore the same token.
   */
  predicate InserterShaped(t: Token)
  {
    t.elementIndex == InserterIndex ==>
      && t.parent.Some?
      && t.property == t.parent.value.property
      && t.owner == t.parent.value.owner
      && t.elementType.None?
      && t.nodeType == ArrayInserter
  }

  ghost predicate AllInsertersShaped(s: seq<Token>)
  {
    forall t :: t in s ==> InserterShaped(t)
  }

  lemma {:induction false} PropertyTokensInserters(o: Value, parent: Option<Token>, editors: map<TypeId, TypeId>)
    requires o.Obj? && ElementsNonNull(o)
    ensures AllInsertersShaped(PropertyTokens(o, parent, editors))
    decreases o, 2, 0
  {
    MembersTokensInserters(o, |o.props|, parent, editors);
  }

  lemma {:induction false} MembersTokensInserters(o: Value, k: nat, parent: Option<Token>, editors: map<TypeId, TypeId>)
    requires o.Obj? && ElementsNonNull(o) && k <= |o.props|
    ensures AllInsertersShaped(MembersTokens(o, k, parent, editors))
    decreases o, 1, k
  {
    if k > 0 {
      MembersTokensInserters(o, k - 1, parent, editors);
      MemberTokensInserters(o, k - 1, parent, editors);
    }
  }

  lemma {:induction false} MemberTokensInserters(o: Value, k: nat, parent: Option<Token>, editors: map<TypeId, TypeId>)
    requires o.Obj? && ElementsNonNull(o) && k < |o.props|
    ensures AllInsertersShaped(MemberTokens(o, k, parent, editors))
    decreases o, 0, 0
  {
    var m := o.props[k];
    if m.prop.canRead {
      var t := PropertyRow(o, k, parent, editors);
      assert t.elementIndex == NotAnElement;
      if IsTypeAList(m.prop.propertyType) {
        if m.value.Obj? { ListTokensInserters(m.value, t, editors); }
      } else if IsExpandableClassType(m.prop.propertyType) && m.value.Obj? {
        PropertyTokensInserters(m.value, Some(t), editors);
      }
    }
  }

  lemma {:induction false} ListTokensInserters(v: Value, arrayToken: Token, editors: map<TypeId, TypeId>)
    requires v.Obj? && ItemsNonNull(v)
    ensures AllInsertersShaped(ListTokens(v, arrayToken, editors))
    decreases v, 2, 0
  {
    ElementsTokensInserters(v, |v.items|, arrayToken, editors);
    assert InserterShaped(InserterRow(v, arrayToken, editors));
  }

  lemma {:induction false} ElementsTokensInserters(v: Value, i: nat, arrayToken: Token, editors: map<TypeId, TypeId>)
    requires v.Obj? && ItemsNonNull(v) && i <= |v.items|
    ensures AllInsertersShaped(ElementsTokens(v, i, arrayToken, editors))
    decreases v, 1, i
  {
    if i > 0 {
      ElementsTokensInserters(v, i - 1, arrayToken, editors);
      ElementTokensInserters(v, i - 1, arrayToken, editors);
    }
  }

  lemma {:induction false} ElementTokensInserters(v: Value, i: nat, arrayToken: Token, editors: map<TypeId, TypeId>)
    requires v.Obj? && ItemsNonNull(v) && i < |v.items|
    ensures AllInsertersShaped(ElementTokens(v, i, arrayToken, editors))
    decreases v, 0, 0
  {
    var et := ElementRow(v, i, arrayToken, editors);
    assert et.elementIndex >= 0;
    PropertyTokensInserters(v.items[i], Some(et), editors);
  }

  /** Every token of the built list has its parent earlier in the list, so its set of tokens is closed under parents. */
  lemma BuiltTokensParentClosed(o: Value, editors: map<TypeId, TypeId>)
    requires o.Obj? && ElementsNonNull(o)
    ensures forall t :: t in PropertyTokens(o, None, editors) && t.parent.Some? ==> t.parent.value in PropertyTokens(o, None, editors)
  {
    var s := PropertyTokens(o, None, editors);
    PropertyTokensShape(o, None, editors);
    forall t | t in s && t.parent.Some? ensures t.parent.value in s {
      var j :| 0 <= j < |s| && s[j] == t;
      assert t.parent.value in s[..j];
    }
  }
}
