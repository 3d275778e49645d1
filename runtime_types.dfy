/**
 * The part of the .NET runtime that the editor consults through reflection,
 * as plain values: type descriptors, property descriptors and the inspected
 * object graph. Reflection itself is not modelled; what it would report is
 * carried in these values.
 */
module RuntimeTypes {
  import opened Wrappers

  type TypeId = nat
  type ObjRef = nat

  /** typeof(string) */
  const StringType: TypeId := 0
  /** typeof(IList<>), the open generic list interface */
  const GenericIList: TypeId := 1
  /** typeof(ICustomPropertyEdit) */
  const CustomEditInterface: TypeId := 2

  /**
   * What the runtime knows about one type. `assignableTo` holds every type id
   * `u` for which `u.IsAssignableFrom(this)` holds; `interfaces` lists, for
   * each implemented interface, its generic type definition when it is generic.
   */
  datatype TypeDesc = TypeDesc(
    id: TypeId,
    isClass: bool,
    isInterface: bool,
    isValueType: bool,
    genericDefinition: Option<TypeId>,
    interfaces: seq<Option<TypeId>>,
    assignableTo: set<TypeId>,
    hasDefaultConstructor: bool)

  /** A PropertyInfo: identity, name, declared type and readability. */
  datatype PropInfo = PropInfo(id: nat, name: string, propertyType: TypeDesc, canRead: bool)

  /**
   * A node of the inspected object graph: null, or an instance with its
   * identity, its runtime type, the values of its public properties (in the
   * order GetProperties reports them) and, for a list, its elements.
   * Being an inductive value, the graph is acyclic.
   */
  datatype Value =
    | Null
    | Obj(ref: ObjRef, runtimeType: TypeId, props: seq<Member>, items: seq<Value>)

  datatype Member = Member(prop: PropInfo, value: Value)

  /** IsExpandableClassType: a class or an interface, but never string. */
  function IsExpandableClassType(t: TypeDesc): (r: bool)
    ensures t.id == StringType ==> !r
    ensures r <==> t.id != StringType && (t.isClass || t.isInterface)
  {
    if t.id == StringType then false else t.isClass || t.isInterface
  }

  /** The test applied to a type and to each of its interfaces: a closed IList<T>. */
  predicate IsIListInstance(genericDefinition: Option<TypeId>)
  {
    genericDefinition == Some(GenericIList)
  }

  /** IsTypeAList: the type is IList<T> itself or implements it. */
  function IsTypeAList(t: TypeDesc): (r: bool)
    ensures r <==> Some(GenericIList) in [t.genericDefinition] + t.interfaces
  {
    IsIListInstance(t.genericDefinition)
    || exists i :: 0 <= i < |t.interfaces| && IsIListInstance(t.interfaces[i])
  }

  /**
   * Every list element the builder reaches from the object v is non-null:
   * the elements of each readable, non-null list property, and the same
   * again inside every object it descends into. The builder calls GetType()
   * on each element, which throws on null, so callers must supply such
   * graphs; what the builder never reads is not constrained.
   */
  predicate ElementsNonNull(v: Value)
  {
    match v
    case Null => true
    case Obj(_, _, props, _) =>
      forall j :: 0 <= j < |props| && props[j].prop.canRead ==>
        if IsTypeAList(props[j].prop.propertyType) then ItemsNonNull(props[j].value)
        else IsExpandableClassType(props[j].prop.propertyType) ==> ElementsNonNull(props[j].value)
  }

  /** The same for a list the builder walks: its elements are non-null objects, each walked as above. */
  predicate ItemsNonNull(v: Value)
  {
    match v
    case Null => true
    case Obj(_, _, _, items) => forall i :: 0 <= i < |items| ==> items[i].Obj? && ElementsNonNull(items[i])
  }
}
