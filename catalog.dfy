/**
 * The candidate-type cache: GetSuitableTypes memoises, per target type, the
 * list of types that may be instantiated for it, in the process-wide
 * dictionary sm_typesDerived. The registry of external custom editors
 * (sm_typeCustomEditors, filled by AddCustomEditor) is the other static map.
 * The types of the loaded assemblies are an input to each lookup, since
 * more assemblies can be loaded between lookups.
 */
module Catalog {
  import opened RuntimeTypes

  /** A candidate for `target`: assignable to it and constructible without arguments. */
  predicate Suitable(target: TypeDesc, t: TypeDesc)
  {
    target.id in t.assignableTo && t.hasDefaultConstructor
  }

  /** The suitable types of one assembly, in its type order. */
  function AssemblyCandidates(target: TypeDesc, types: seq<TypeDesc>): seq<TypeDesc>
  {
    if types == [] then []
    else AssemblyCandidates(target, types[..|types| - 1])
         + (if Suitable(target, types[|types| - 1]) then [types[|types| - 1]] else [])
  }

  /** The suitable types of all assemblies, in assembly order. */
  function Discovered(target: TypeDesc, assemblies: seq<seq<TypeDesc>>): seq<TypeDesc>
  {
    if assemblies == [] then []
    else Discovered(target, assemblies[..|assemblies| - 1]) + AssemblyCandidates(target, assemblies[|assemblies| - 1])
  }

  /** What GetSuitableTypes computes on a cache miss. */
  function SuitableTypes(target: TypeDesc, assemblies: seq<seq<TypeDesc>>): seq<TypeDesc>
  {
    if !target.isValueType && target.id != StringType then Discovered(target, assemblies) else [target]
  }

  lemma {:induction false} AssemblyCandidatesExact(target: TypeDesc, types: seq<TypeDesc>)
    ensures forall t :: t in AssemblyCandidates(target, types) <==> t in types && Suitable(target, t)
  {
    if types != [] {
      AssemblyCandidatesExact(target, types[..|types| - 1]);
      assert types == types[..|types| - 1] + [types[|types| - 1]];
    }
  }

  lemma {:induction false} DiscoveredExact(target: TypeDesc, assemblies: seq<seq<TypeDesc>>)
    ensures forall t :: t in Discovered(target, assemblies) <==>
      Suitable(target, t) && exists a :: 0 <= a < |assemblies| && t in assemblies[a]
  {
    if assemblies != [] {
      var init, last := assemblies[..|assemblies| - 1], assemblies[|assemblies| - 1];
      DiscoveredExact(target, init);
      AssemblyCandidatesExact(target, last);
      forall t | Suitable(target, t) && (exists a :: 0 <= a < |assemblies| && t in assemblies[a])
        ensures t in Discovered(target, assemblies)
      {
        var a :| 0 <= a < |assemblies| && t in assemblies[a];
        if a < |init| { assert t in init[a]; }
      }
      forall t | t in Discovered(target, init) ensures exists a :: 0 <= a < |assemblies| && t in assemblies[a] {
        var a :| 0 <= a < |init| && t in init[a];
        assert t in assemblies[a];
      }
    }
  }

  /**
   * For a value type or string the only candidate is the type itself;
   * otherwise the candidates are exactly the loaded types that are
   * assignable to the target and have a parameterless constructor.
   */
  lemma SuitableTypesExact(target: TypeDesc, assemblies: seq<seq<TypeDesc>>)
    ensures target.isValueType || target.id == StringType ==> SuitableTypes(target, assemblies) == [target]
    ensures !target.isValueType && target.id != StringType ==>
      forall t :: t in SuitableTypes(target, assemblies) <==>
        Suitable(target, t) && exists a :: 0 <= a < |assemblies| && t in assemblies[a]
  {
    DiscoveredExact(target, assemblies);
  }

  /**
   * A suitable type in an assembly loaded after a lookup is missing from the
   * list that lookup computed, although a scan at the later moment would
   * offer it: a cache hit can be stale.
   */
  lemma LaterAssemblyNotSeen(target: TypeDesc, loaded: seq<seq<TypeDesc>>, u: TypeDesc)
    requires !target.isValueType && target.id != StringType && Suitable(target, u)
    requires forall a :: 0 <= a < |loaded| ==> u !in loaded[a]
    ensures u !in SuitableTypes(target, loaded)
    ensures u in SuitableTypes(target, loaded + [[u]])
  {
    SuitableTypesExact(target, loaded);
    SuitableTypesExact(target, loaded + [[u]]);
    assert u in (loaded + [[u]])[|loaded|];
  }

  /** The assembly scan of GetSuitableTypes, as the nested loops run it. */
  method DiscoverTypes(target: TypeDesc, assemblies: seq<seq<TypeDesc>>) returns (suitableTypes: seq<TypeDesc>)
    ensures suitableTypes == Discovered(target, assemblies)
  {
    suitableTypes := [];
    var a := 0;
    while a < |assemblies|
      invariant 0 <= a <= |assemblies|
      invariant suitableTypes == Discovered(target, assemblies[..a])
    {
      var types := assemblies[a];
      var k := 0;
      while k < |types|
        invariant 0 <= k <= |types|
        invariant suitableTypes == Discovered(target, assemblies[..a]) + AssemblyCandidates(target, types[..k])
      {
        if Suitable(target, types[k]) {
          suitableTypes := suitableTypes + [types[k]];
        }
        assert types[..k + 1][..k] == types[..k];
        k := k + 1;
      }
      assert types[..k] == types;
      assert assemblies[..a + 1][..a] == assemblies[..a];
      a := a + 1;
    }
    assert assemblies[..a] == assemblies;
  }

  class TypeCatalog {
    /** sm_typesDerived */
    var typesDerived: map<TypeDesc, seq<TypeDesc>>
    /** sm_typeCustomEditors: edited type id to editor type id */
    var customEditors: map<TypeId, TypeId>
    /** For each cached type, the loaded assemblies at the lookup that filled its entry. */
    ghost var scannedFrom: map<TypeDesc, seq<seq<TypeDesc>>>

    /**
     * Every cached list is the one a scan of the assemblies loaded at the
     * time of its miss produced; assemblies loaded later are not seen.
     */
    ghost predicate Valid()
      reads this
    {
      && typesDerived.Keys == scannedFrom.Keys
      && forall t :: t in typesDerived ==> typesDerived[t] == SuitableTypes(t, scannedFrom[t])
    }

    constructor ()
      ensures Valid()
      ensures typesDerived == map[] && customEditors == map[]
    {
      typesDerived := map[];
      customEditors := map[];
      scannedFrom := map[];
    }

    /** AddCustomEditor: register (or replace) the editor type for a type. */
    method AddCustomEditor(forType: TypeId, editorType: TypeId)
      modifies this`customEditors
      ensures customEditors == old(customEditors)[forType := editorType]
    {
      customEditors := customEditors[forType := editorType];
    }

    /**
     * GetSuitableTypes, with `loaded` the types of the assemblies loaded at
     * the moment of the call: a miss scans them and caches the result; a hit
     * returns the cached list, computed from whatever was loaded at its miss.
     */
    method GetSuitableTypes(t: TypeDesc, loaded: seq<seq<TypeDesc>>) returns (r: seq<TypeDesc>)
      requires Valid()
      modifies this`typesDerived, this`scannedFrom
      ensures Valid()
      ensures t in typesDerived && r == typesDerived[t] && r == SuitableTypes(t, scannedFrom[t])
      ensures t !in old(typesDerived) ==>
        r == SuitableTypes(t, loaded) && typesDerived == old(typesDerived)[t := r] && scannedFrom == old(scannedFrom)[t := loaded]
      ensures t in old(typesDerived) ==>
        r == old(typesDerived)[t] && typesDerived == old(typesDerived) && scannedFrom == old(scannedFrom)
    {
      if t !in typesDerived {
        var suitableTypes: seq<TypeDesc>;
        if !t.isValueType && t.id != StringType {
          suitableTypes := DiscoverTypes(t, loaded);
        } else {
          suitableTypes := [t];
        }
        typesDerived := typesDerived[t := suitableTypes];
        scannedFrom := scannedFrom[t := loaded];
      }
      r := typesDerived[t];
    }
  }
}
