/**
 * PropertyToken: the value that identifies one row of the editor, its node
 * kind, its structural equality (Equals, operator ==, operator !=) and its
 * hash code.
 */
module Tokens {
  import opened Wrappers
  import opened RuntimeTypes

  /** PropertyToken.NodeTypeNeeded, in declaration order. */
  datatype NodeKind = Basic | NullClass | ArrayInserter | ArrayElement | Custom | CustomEditor

  /** The index of a token that is not a list element. */
  const NotAnElement: int := -1
  /** The index of the "insert new element" row of a list. */
  const InserterIndex: int := -2

  /**
   * A PropertyToken. The property descriptor and the element type are
   * runtime singletons and are compared as values; the owner is compared by
   * reference, i.e. by its ObjRef. `parent` and `elementType` are the two
   * fields the builder assigns after construction.
   */
  datatype Token = Token(
    property: PropInfo,
    owner: ObjRef,
    elementIndex: int,
    nodeType: NodeKind,
    parent: Option<Token>,
    elementType: Option<TypeId>)

  /**
   * The node-kind decision of the PropertyToken constructor: the first rule
   * that matches wins. `customEditors` is the registry of external editors
   * (sm_typeCustomEditors), keyed by exact type id.
   */
  function Classify(index: int, propertyType: TypeDesc, valueIsNull: bool, customEditors: map<TypeId, TypeId>): (r: NodeKind)
    ensures r == ArrayElement <==> index >= 0
    ensures r == ArrayInserter <==> index == InserterIndex
    ensures r == NullClass <==>
      index < 0 && index != InserterIndex && IsExpandableClassType(propertyType) && valueIsNull
    ensures r == Custom <==>
      index < 0 && index != InserterIndex && !(IsExpandableClassType(propertyType) && valueIsNull)
      && CustomEditInterface in propertyType.assignableTo
    ensures r == CustomEditor <==>
      index < 0 && index != InserterIndex && !(IsExpandableClassType(propertyType) && valueIsNull)
      && CustomEditInterface !in propertyType.assignableTo && propertyType.id in customEditors
    ensures r == Basic <==>
      index < 0 && index != InserterIndex && !(IsExpandableClassType(propertyType) && valueIsNull)
      && CustomEditInterface !in propertyType.assignableTo && propertyType.id !in customEditors
  {
    if index >= 0 then ArrayElement
    else if index == InserterIndex then ArrayInserter
    else if IsExpandableClassType(propertyType) && valueIsNull then NullClass
    else if CustomEditInterface in propertyType.assignableTo then Custom
    else if propertyType.id in customEditors then CustomEditor
    else Basic
  }

  /**
   * The PropertyToken constructor: `value` is what prop.GetValue(owner)
   * returns. The parent and the element type start out null.
   */
  function NewToken(prop: PropInfo, owner: ObjRef, index: int, value: Value, customEditors: map<TypeId, TypeId>): Token
  {
    Token(prop, owner, index, Classify(index, prop.propertyType, value.Null?, customEditors), None, None)
  }

  /** PropertyToken.Equals(PropertyToken): false against null, else field by field. */
  predicate Equals(a: Token, p: Option<Token>)
    decreases a
  {
    match p
    case None => false
    case Some(b) =>
      && a.property == b.property
      && a.owner == b.owner
      && a.elementIndex == b.elementIndex
      && OpEq(a.parent, b.parent)
      && a.elementType == b.elementType
      && a.nodeType == b.nodeType
  }

  /** PropertyToken operator ==: null equals only null, otherwise Equals. */
  predicate OpEq(lhs: Option<Token>, rhs: Option<Token>)
    decreases lhs
  {
    match lhs
    case None => rhs.None?
    case Some(a) => Equals(a, rhs)
  }

  /** PropertyToken operator !=. */
  predicate OpNeq(lhs: Option<Token>, rhs: Option<Token>)
  {
    !OpEq(lhs, rhs)
  }

  /** The structural Equals coincides with equality of the token values. */
  lemma {:induction false} EqualsIsValueEquality(a: Token, b: Token)
    ensures Equals(a, Some(b)) <==> a == b
    decreases a
  {
    if a.parent.Some? && b.parent.Some? {
      EqualsIsValueEquality(a.parent.value, b.parent.value);
      assert OpEq(a.parent, b.parent) <==> a.parent == b.parent;
    } else {
      assert OpEq(a.parent, b.parent) <==> a.parent == b.parent;
    }
  }

  /** operator == and != on possibly-null tokens are value equality and its negation. */
  lemma OperatorsAreValueEquality(x: Option<Token>, y: Option<Token>)
    ensures OpEq(x, y) <==> x == y
    ensures OpNeq(x, y) <==> x != y
  {
    if x.Some? && y.Some? {
      EqualsIsValueEquality(x.value, y.value);
    }
  }

  /** Equals is an equivalence relation, as the Dictionary keyed by tokens needs. */
  lemma EqualsIsEquivalence(a: Token, b: Token, c: Token)
    ensures Equals(a, Some(a))
    ensures Equals(a, Some(b)) ==> Equals(b, Some(a))
    ensures Equals(a, Some(b)) && Equals(b, Some(c)) ==> Equals(a, Some(c))
  {
    EqualsIsValueEquality(a, a);
    EqualsIsValueEquality(a, b);
    EqualsIsValueEquality(b, a);
    EqualsIsValueEquality(b, c);
    EqualsIsValueEquality(a, c);
  }

  /** The hash codes of the runtime objects a token refers to. */
  datatype HashSource = HashSource(ofProperty: PropInfo -> bv32, ofObject: ObjRef -> bv32, ofType: TypeId -> bv32)

  /** Int32.GetHashCode: the value's own 32 bits (two's complement). */
  function Int32Bits(i: int): bv32
  {
    (i % 0x1_0000_0000) as bv32
  }

  /** The underlying value of a NodeTypeNeeded, its enum hash code. */
  function KindOrdinal(k: NodeKind): bv32
  {
    match k
    case Basic => 0
    case NullClass => 1
    case ArrayInserter => 2
    case ArrayElement => 3
    case Custom => 4
    case CustomEditor => 5
  }

  /** One step of the unchecked 32-bit hash combination. */
  function Mix(acc: bv32, h: bv32): bv32
  {
    (acc * 397) ^ h
  }

  /** PropertyToken.GetHashCode. */
  function HashCode(t: Token, hs: HashSource): bv32
    decreases t
  {
    var r := Mix(Mix(Mix(Mix(0, hs.ofProperty(t.property)), hs.ofObject(t.owner)),
                     Int32Bits(t.elementIndex)), KindOrdinal(t.nodeType));
    var r' := if t.parent.Some? then Mix(r, HashCode(t.parent.value, hs)) else r;
    if t.elementType.Some? then Mix(r', hs.ofType(t.elementType.value)) else r'
  }

  /** Tokens that are Equal have equal hash codes, so Dictionary lookups find them. */
  lemma EqualTokensHashEqually(a: Token, b: Token, hs: HashSource)
    requires Equals(a, Some(b))
    ensures HashCode(a, hs) == HashCode(b, hs)
  {
    EqualsIsValueEquality(a, b);
  }

  /**
   * A null class reference that becomes non-null changes the token's node
   * kind and therefore its equality: the row is replaced rather than kept.
   */
  lemma FilledReferenceChangesToken(prop: PropInfo, owner: ObjRef, v: Value, parent: Option<Token>,
                                    customEditors: map<TypeId, TypeId>)
    requires IsExpandableClassType(prop.propertyType) && v.Obj?
    ensures !Equals(NewToken(prop, owner, NotAnElement, Null, customEditors).(parent := parent),
                    Some(NewToken(prop, owner, NotAnElement, v, customEditors).(parent := parent)))
  {
    var before := NewToken(prop, owner, NotAnElement, Null, customEditors);
    var after := NewToken(prop, owner, NotAnElement, v, customEditors);
    assert before.nodeType == NullClass;
    assert after.nodeType != NullClass;
  }
}
