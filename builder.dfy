/**
 * The token builder: BuildPropertyTokenTree and CreateListTokens walk the
 * object graph depth-first and append one token per row to a flat list. The
 * flat list, a List<PropertyToken> shared by the recursive calls, is threaded
 * through the methods as an in/out sequence. The functions below define the
 * tokens each call appends; the lemmas state the shape of that list.
 */
module Builder {
  import opened Wrappers
  import opened RuntimeTypes
  import opened Tokens

  // ---------------------------------------------------------------------
  // What each call appends

  /** The tokens BuildPropertyTokenTree(o, parent) appends. */
  function PropertyTokens(o: Value, parent: Option<Token>, editors: map<TypeId, TypeId>): seq<Token>
    requires o.Obj? && ElementsNonNull(o)
    decreases o, 2, 0
  {
    MembersTokens(o, |o.props|, parent, editors)
  }

  /** The tokens appended for the first k properties of o. */
  function MembersTokens(o: Value, k: nat, parent: Option<Token>, editors: map<TypeId, TypeId>): seq<Token>
    requires o.Obj? && ElementsNonNull(o) && k <= |o.props|
    decreases o, 1, k
  {
    if k == 0 then [] else MembersTokens(o, k - 1, parent, editors) + MemberTokens(o, k - 1, parent, editors)
  }

  /** The row token of the k-th property of o. */
  function PropertyRow(o: Value, k: nat, parent: Option<Token>, editors: map<TypeId, TypeId>): Token
    requires o.Obj? && k < |o.props|
  {
    NewToken(o.props[k].prop, o.ref, NotAnElement, o.props[k].value, editors).(parent := parent)
  }

  /** The tokens appended for the k-th property of o: nothing when it cannot be read. */
  function MemberTokens(o: Value, k: nat, parent: Option<Token>, editors: map<TypeId, TypeId>): seq<Token>
    requires o.Obj? && ElementsNonNull(o) && k < |o.props|
    decreases o, 0, 0
  {
    var m := o.props[k];
    if !m.prop.canRead then []
    else
      var t := PropertyRow(o, k, parent, editors);
      [t] + (if IsTypeAList(m.prop.propertyType) then
               (if m.value.Obj? then ListTokens(m.value, t, editors) else [])
             else if IsExpandableClassType(m.prop.propertyType) && m.value.Obj? then
               PropertyTokens(m.value, Some(t), editors)
             else [])
  }

  /** The tokens CreateListTokens(v, arrayToken) appends. */
  function ListTokens(v: Value, arrayToken: Token, editors: map<TypeId, TypeId>): seq<Token>
    requires v.Obj? && ItemsNonNull(v)
    decreases v, 2, 0
  {
    ElementsTokens(v, |v.items|, arrayToken, editors) + [InserterRow(v, arrayToken, editors)]
  }

  /** The tokens appended for the first i elements of the list v. */
  function ElementsTokens(v: Value, i: nat, arrayToken: Token, editors: map<TypeId, TypeId>): seq<Token>
    requires v.Obj? && ItemsNonNull(v) && i <= |v.items|
    decreases v, 1, i
  {
    if i == 0 then [] else ElementsTokens(v, i - 1, arrayToken, editors) + ElementTokens(v, i - 1, arrayToken, editors)
  }

  /** The row token of the i-th element of the list v. */
  function ElementRow(v: Value, i: nat, arrayToken: Token, editors: map<TypeId, TypeId>): Token
    requires v.Obj? && ItemsNonNull(v) && i < |v.items|
  {
    NewToken(arrayToken.property, arrayToken.owner, i, v, editors)
      .(parent := Some(arrayToken), elementType := Some(v.items[i].runtimeType))
  }

  /** The "insert new element" row token of the list v. */
  function InserterRow(v: Value, arrayToken: Token, editors: map<TypeId, TypeId>): Token
  {
    NewToken(arrayToken.property, arrayToken.owner, InserterIndex, v, editors).(parent := Some(arrayToken))
  }

  /** The tokens appended for the i-th element: its row, then its own properties. */
  function ElementTokens(v: Value, i: nat, arrayToken: Token, editors: map<TypeId, TypeId>): seq<Token>
    requires v.Obj? && ItemsNonNull(v) && i < |v.items|
    decreases v, 0, 0
  {
    var et := ElementRow(v, i, arrayToken, editors);
    [et] + PropertyTokens(v.items[i], Some(et), editors)
  }

  /** One round of BuildPropertyTokenTree's loop appends the k-th property's tokens. */
  lemma MemberTokensAppended(o: Value, k: nat, parent: Option<Token>, editors: map<TypeId, TypeId>,
                             start: seq<Token>, before: seq<Token>, after: seq<Token>)
    requires o.Obj? && ElementsNonNull(o) && k < |o.props|
    requires before == start + MembersTokens(o, k, parent, editors)
    requires after == before + MemberTokens(o, k, parent, editors)
    ensures after == start + MembersTokens(o, k + 1, parent, editors)
  {
  }

  // ---------------------------------------------------------------------
  // The builder as the source runs it

  /** BuildPropertyTokenTree: one row per readable property, recursing into lists and non-null objects. */
  method BuildPropertyTokenTree(o: Value, parentToken: Option<Token>, editors: map<TypeId, TypeId>,
                                tokensFlatList: seq<Token>) returns (flat: seq<Token>)
    requires o.Obj? && ElementsNonNull(o)
    ensures flat == tokensFlatList + PropertyTokens(o, parentToken, editors)
    decreases o
  {
    flat := tokensFlatList;
    var k := 0;
    while k < |o.props|
      invariant 0 <= k <= |o.props|
      invariant flat == tokensFlatList + MembersTokens(o, k, parentToken, editors)
    {
      var prop := o.props[k].prop;
      ghost var before := flat;
      if prop.canRead {
        var token := PropertyRow(o, k, parentToken, editors);
        flat := flat + [token];
        var value := o.props[k].value;
        if IsTypeAList(prop.propertyType) {
          if value.Obj? {
            flat := CreateListTokens(value, token, editors, flat);
          }
        } else if IsExpandableClassType(prop.propertyType) {
          if value.Obj? {
            flat := BuildPropertyTokenTree(value, Some(token), editors, flat);
          }
        }
      }
      MemberTokensAppended(o, k, parentToken, editors, tokensFlatList, before, flat);
      k := k + 1;
    }
  }

  /** CreateListTokens: one row per element with its subtree, then one inserter row. */
  method CreateListTokens(v: Value, arrayToken: Token, editors: map<TypeId, TypeId>,
                          tokensFlatList: seq<Token>) returns (flat: seq<Token>)
    requires v.Obj? && ItemsNonNull(v)
    ensures flat == tokensFlatList + ListTokens(v, arrayToken, editors)
    decreases v
  {
    flat := tokensFlatList;
    var i := 0;
    while i < |v.items|
      invariant 0 <= i <= |v.items|
      invariant flat == tokensFlatList + ElementsTokens(v, i, arrayToken, editors)
    {
      ghost var before := flat;
      var elementToken := ElementRow(v, i, arrayToken, editors);
      flat := flat + [elementToken];
      flat := BuildPropertyTokenTree(v.items[i], Some(elementToken), editors, flat);
      assert flat == before + ElementTokens(v, i, arrayToken, editors);
      i := i + 1;
    }
    var adderToken := InserterRow(v, arrayToken, editors);
    flat := flat + [adderToken];
  }
}
