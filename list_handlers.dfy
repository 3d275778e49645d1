/**
 * The two handlers that change a list in place: the erase button of an
 * element row (ArrayElementNode.OnEraseClicked) and the insert button of a
 * list's inserter row (ArrayInserterNode.OnAddClicked). Each acts on the
 * IList the node captured when it was created.
 */
module ListHandlers {
  import opened Wrappers
  import opened RuntimeTypes
  import opened Tokens
  import opened Catalog

  /** s with its i-th element taken out. */
  function RemovedAt(s: seq<Value>, i: nat): seq<Value>
    requires i < |s|
  {
    s[..i] + s[i + 1..]
  }

  /** Removing one element shortens the list by one and shifts the later elements down. */
  lemma RemovedAtShifts(s: seq<Value>, i: nat)
    requires i < |s|
    ensures |RemovedAt(s, i)| == |s| - 1
    ensures forall j :: 0 <= j < i ==> RemovedAt(s, i)[j] == s[j]
    ensures forall j :: i <= j < |s| - 1 ==> RemovedAt(s, i)[j] == s[j + 1]
    ensures multiset(RemovedAt(s, i)) + multiset{s[i]} == multiset(s)
  {
    assert s == s[..i] + [s[i]] + s[i + 1..];
  }

  /**
   * The IList a list row's nodes hold. A read-only or fixed-size list (an
   * array, a ReadOnlyCollection<T>) refuses both removal and insertion, and
   * the list accepts only values of a type assignable to its element type.
   */
  class BackingList {
    var items: seq<Value>
    /** IList.IsReadOnly || IList.IsFixedSize */
    const fixedSize: bool
    /** The T of the IList<T> the list implements. */
    const elementType: TypeId

    constructor (items: seq<Value>, fixedSize: bool, elementType: TypeId)
      ensures this.items == items && this.fixedSize == fixedSize && this.elementType == elementType
    {
      this.items := items;
      this.fixedSize := fixedSize;
      this.elementType := elementType;
    }

    /**
     * IList.RemoveAt: throws, changing nothing, for a fixed-size list or an
     * index outside the list.
     */
    method RemoveAt(index: int) returns (ok: bool)
      modifies this
      ensures ok == (!fixedSize && 0 <= index < |old(items)|)
      ensures ok ==> items == RemovedAt(old(items), index)
      ensures !ok ==> items == old(items)
    {
      ok := !fixedSize && 0 <= index < |items|;
      if ok {
        items := RemovedAt(items, index);
      }
    }

    /**
     * IList.Add of a value whose runtime type is vType: appends it, or throws,
     * changing nothing, for a fixed-size list or a value of another type.
     */
    method Add(v: Value, vType: TypeDesc) returns (ok: bool)
      modifies this
      ensures ok == (!fixedSize && elementType in vType.assignableTo)
      ensures ok ==> items == old(items) + [v]
      ensures !ok ==> items == old(items)
    {
      ok := !fixedSize && elementType in vType.assignableTo;
      if ok {
        items := items + [v];
      }
    }
  }

  /**
   * The type the inserter and null-reference rows instantiate: with more
   * than one candidate a selector is shown and its selected index is used,
   * otherwise the first candidate. An index outside the list (no candidate,
   * or a selector with nothing selected) makes the indexer throw.
   */
  function SelectedCandidate(candidates: seq<TypeDesc>, selectedIndex: int): (r: Option<TypeDesc>)
  {
    if |candidates| > 1 then
      (if 0 <= selectedIndex < |candidates| then Some(candidates[selectedIndex]) else None)
    else if |candidates| == 1 then Some(candidates[0])
    else None
  }

  /**
   * What the add button instantiates is always one of the candidates it was
   * offered, and it fails exactly when there is none to pick.
   */
  lemma SelectedCandidateIsOffered(candidates: seq<TypeDesc>, selectedIndex: int)
    ensures SelectedCandidate(candidates, selectedIndex).Some? ==> SelectedCandidate(candidates, selectedIndex).value in candidates
    ensures SelectedCandidate(candidates, selectedIndex).None? <==>
      |candidates| == 0 || (|candidates| > 1 && !(0 <= selectedIndex < |candidates|))
    ensures |candidates| == 1 ==> SelectedCandidate(candidates, selectedIndex) == Some(candidates[0])
  {
  }

  /**
   * An element inserted for a list whose element type is neither a value
   * type nor string has a loaded type assignable to the element type with a
   * parameterless constructor.
   */
  lemma InsertedTypeIsSuitable(elementType: TypeDesc, assemblies: seq<seq<TypeDesc>>, selectedIndex: int)
    requires !elementType.isValueType && elementType.id != StringType
    requires SelectedCandidate(SuitableTypes(elementType, assemblies), selectedIndex).Some?
    ensures var t := SelectedCandidate(SuitableTypes(elementType, assemblies), selectedIndex).value;
      Suitable(elementType, t) && exists a :: 0 <= a < |assemblies| && t in assemblies[a]
  {
    SelectedCandidateIsOffered(SuitableTypes(elementType, assemblies), selectedIndex);
    SuitableTypesExact(elementType, assemblies);
  }

  /**
   * InstantiateType: a new instance from the runtime's parameterless
   * constructor (`create`), except for string, which gets the empty string.
   * `create` answers None where Activator.CreateInstance throws: an open
   * generic definition, an abstract class, a constructor that throws.
   */
  function InstantiateType(t: TypeDesc, create: TypeDesc -> Option<Value>, emptyString: Value): Option<Value>
  {
    if t.id != StringType then create(t) else Some(emptyString)
  }

  /**
   * ArrayElementNode.OnEraseClicked: remove this row's element from the list;
   * the list's RemoveAt throws for a fixed-size list or an index outside it.
   */
  method OnEraseClicked(list: BackingList, token: Token) returns (ok: bool)
    modifies list
    ensures ok == (!list.fixedSize && 0 <= token.elementIndex < |old(list.items)|)
    ensures ok ==> list.items == RemovedAt(old(list.items), token.elementIndex)
    ensures !ok ==> list.items == old(list.items)
  {
    ok := list.RemoveAt(token.elementIndex);
  }

  /**
   * ArrayInserterNode.OnAddClicked: append one new instance of the selected
   * candidate type. It fails, changing nothing, when there is nothing to
   * pick, when the selected type cannot be instantiated, and when the list is
   * fixed-size or does not accept the candidate's type (the candidates come
   * from the list class's first generic argument, which need not be its
   * element type).
   */
  method OnAddClicked(list: BackingList, candidates: seq<TypeDesc>, selectedIndex: int,
                      create: TypeDesc -> Option<Value>, emptyString: Value) returns (ok: bool)
    modifies list
    ensures var chosen := SelectedCandidate(candidates, selectedIndex);
      ok == (chosen.Some? && InstantiateType(chosen.value, create, emptyString).Some? &&
             !list.fixedSize && list.elementType in chosen.value.assignableTo)
    ensures ok ==> (list.items ==
      old(list.items) + [InstantiateType(SelectedCandidate(candidates, selectedIndex).value, create, emptyString).value])
    ensures !ok ==> list.items == old(list.items)
  {
    var chosen := SelectedCandidate(candidates, selectedIndex);
    ok := false;
    if chosen.Some? {
      var newObject := InstantiateType(chosen.value, create, emptyString);
      if newObject.Some? {
        ok := list.Add(newObject.value, chosen.value);
      }
    }
  }
}
