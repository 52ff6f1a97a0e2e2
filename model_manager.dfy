/** The resource-type registry of JSONAPI.Core: the bidirectional table
    between CLR types and resource-type names, and the memo tables of what
    reflection says about each type (identifier property, JSON-key map,
    "is a collection" flag, element type).

    The first half of the module states, as functions, what each lookup
    computes; the class `ModelManager` keeps the dictionaries and its methods
    are proved to fill and consult them in agreement with those functions. */
module Core {
  import opened Wrappers
  import opened Sequences
  import opened Strings
  import opened Reflection

  /** The `InvalidOperationException`s the registry throws, one per message. */
  datatype Error =
    | TypeAlreadyRegistered(t: Type)
    | ResourceTypeNameAlreadyRegistered(name: string)
    | TypeNotRegistered(t: Type)
    | ResourceTypeNameNotRegistered(name: string)
    | NoIdProperty(t: Type)

  // ---------------------------------------------------------------------
  // JSON keys and default resource-type names
  // ---------------------------------------------------------------------

  /** Lower-cases the first character and keeps the rest as it is. */
  function FormatPropertyName(name: string): (r: string)
    requires |name| > 0
    ensures |r| == |name| && r[0] == ToLower(name[0])
    ensures forall i :: 0 < i < |name| ==> r[i] == name[i]
  {
    [ToLower(name[0])] + name[1..]
  }

  /** The JSON key of a property: its name with the first character
      lower-cased. */
  function GetJsonKeyForProperty(p: Property): (r: string)
    ensures |r| == |p.name| && r[0] == ToLower(p.name[0])
    ensures r[1..] == p.name[1..]
  {
    FormatPropertyName(p.name)
  }

  /** Two property names give the same JSON key exactly when they differ at
      most in the case of their first letter. */
  lemma JsonKeysCollide(a: Identifier, b: Identifier)
    ensures FormatPropertyName(a) == FormatPropertyName(b) <==>
            ToLower(a[0]) == ToLower(b[0]) && a[1..] == b[1..]
  {
  }

  /** Formatting a name that is already formatted changes nothing. */
  lemma FormatPropertyNameIdempotent(name: string)
    requires |name| > 0
    ensures FormatPropertyName(FormatPropertyName(name)) == FormatPropertyName(name)
  {
  }

  /** The word that is pluralized for the default resource-type name: the
      `[JsonObject(Title = ..)]` title when there is one, else the type name. */
  function TitleOf(t: Type): (r: string)
    ensures t.jsonObjectTitle.None? ==> r == t.name
    ensures t.jsonObjectTitle.Some? ==> r == t.jsonObjectTitle.value
  {
    match t.jsonObjectTitle
    case Some(title) => title
    case None => t.name
  }

  // ---------------------------------------------------------------------
  // Identifier property
  // ---------------------------------------------------------------------

  predicate IsTaggedId(p: Property) { p.useAsId }

  predicate IsNamedId(p: Property) { p.name == "Id" }

  /** The identifier property of a type: the first property tagged
      `[UseAsId]`, else the property named `Id`, else none. */
  function IdPropertyOf(t: Type): (r: Option<Property>)
    ensures r.Some? ==> r.value in t.properties
    ensures r.Some? && !r.value.useAsId ==>
              r.value.name == "Id" && forall p <- t.properties :: !p.useAsId
    ensures r.None? <==> forall p <- t.properties :: !p.useAsId && p.name != "Id"
  {
    match FindFirst(t.properties, IsTaggedId)
    case Some(i) => Some(t.properties[i])
    case None =>
      match FindFirst(t.properties, IsNamedId)
      case Some(i) => Some(t.properties[i])
      case None => None
  }

  /** A `[UseAsId]` property wins over everything after it, including a
      property named `Id`. */
  lemma IdPropertyIsFirstTagged(t: Type, i: nat)
    requires i < |t.properties| && t.properties[i].useAsId
    requires forall j :: 0 <= j < i ==> !t.properties[j].useAsId
    ensures IdPropertyOf(t) == Some(t.properties[i])
  {
    FindFirstAt(t.properties, i, IsTaggedId);
  }

  /** Without any `[UseAsId]` property the first property named `Id` is used. */
  lemma IdPropertyFallsBackToId(t: Type, i: nat)
    requires forall p <- t.properties :: !p.useAsId
    requires i < |t.properties| && t.properties[i].name == "Id"
    requires forall j :: 0 <= j < i ==> t.properties[j].name != "Id"
    ensures IdPropertyOf(t) == Some(t.properties[i])
  {
    FindFirstAt(t.properties, i, IsNamedId);
  }

  // ---------------------------------------------------------------------
  // Property maps
  // ---------------------------------------------------------------------

  /** The JSON-key map built by inserting the properties in order, each one
      overwriting any earlier property with the same key. */
  function PropertyMapOf(ps: seq<Property>): (r: map<string, Property>)
    ensures forall p :: p in ps ==> GetJsonKeyForProperty(p) in r
    ensures ps != [] ==> r[GetJsonKeyForProperty(ps[|ps| - 1])] == ps[|ps| - 1]
  {
    if ps == [] then map[]
    else
      var last := ps[|ps| - 1];
      PropertyMapOf(ps[..|ps| - 1])[GetJsonKeyForProperty(last) := last]
  }

  /** `found` is the last element of `s` whose key is `k`, or `None` when no
      element has that key. */
  ghost predicate LastWithKey<T>(s: seq<T>, key: T -> string, k: string, found: Option<T>)
  {
    && (found.None? <==> forall i :: 0 <= i < |s| ==> key(s[i]) != k)
    && (found.Some? ==>
          exists i :: 0 <= i < |s| && found.value == s[i] && key(s[i]) == k
                   && forall j :: i < j < |s| ==> key(s[j]) != k)
  }

  /** Appending an element makes it the last one with its key and leaves
      every other key's last element alone. */
  lemma LastWithKeyAppend<T>(init: seq<T>, last: T, key: T -> string, k: string, found: Option<T>)
    requires LastWithKey(init, key, k, found)
    ensures LastWithKey(init + [last], key, k, if key(last) == k then Some(last) else found)
  {
    var s := init + [last];
    assert forall i :: 0 <= i < |init| ==> s[i] == init[i];
    assert s[|init|] == last;
    if key(last) != k && found.Some? {
      var i :| 0 <= i < |init| && found.value == init[i] && key(init[i]) == k
               && forall j :: i < j < |init| ==> key(init[j]) != k;
      assert s[i] == init[i];
    }
  }

  /** A key is in the map exactly when some property formats to it, and it
      maps to the LAST property that does. */
  lemma {:induction false} PropertyMapLookup(ps: seq<Property>, k: string)
    ensures k in PropertyMapOf(ps) <==>
            exists i :: 0 <= i < |ps| && GetJsonKeyForProperty(ps[i]) == k
    ensures k in PropertyMapOf(ps) ==>
            exists i :: 0 <= i < |ps| && PropertyMapOf(ps)[k] == ps[i]
                     && GetJsonKeyForProperty(ps[i]) == k
                     && forall j :: i < j < |ps| ==> GetJsonKeyForProperty(ps[j]) != k
  {
    PropertyMapIsLastWithKey(ps, k);
  }

  /** The same fact, stated with the key function as a value. */
  lemma {:induction false} PropertyMapIsLastWithKey(ps: seq<Property>, k: string)
    ensures var r := PropertyMapOf(ps);
            LastWithKey(ps, GetJsonKeyForProperty, k, if k in r then Some(r[k]) else None)
  {
    if ps != [] {
      var init, last := ps[..|ps| - 1], ps[|ps| - 1];
      assert ps == init + [last];
      var m := PropertyMapOf(init);
      assert PropertyMapOf(ps) == m[GetJsonKeyForProperty(last) := last];
      PropertyMapIsLastWithKey(init, k);
      LastWithKeyAppend(init, last, GetJsonKeyForProperty, k, if k in m then Some(m[k]) else None);
    }
  }

  /** Every entry is keyed by the JSON key of the property it holds. */
  lemma PropertyMapKeysAreJsonKeys(ps: seq<Property>, k: string)
    requires k in PropertyMapOf(ps)
    ensures GetJsonKeyForProperty(PropertyMapOf(ps)[k]) == k
    ensures PropertyMapOf(ps)[k] in ps
  {
    PropertyMapLookup(ps, k);
  }

  /** A property is among the map's values exactly when no later property
      has the same JSON key. */
  lemma PropertyMapValues(ps: seq<Property>, p: Property)
    ensures p in PropertyMapOf(ps).Values <==>
            exists i :: 0 <= i < |ps| && ps[i] == p
                     && forall j :: i < j < |ps| ==> GetJsonKeyForProperty(ps[j]) != GetJsonKeyForProperty(p)
  {
    var m, k := PropertyMapOf(ps), GetJsonKeyForProperty(p);
    PropertyMapLookup(ps, k);
    if p in m.Values {
      var k' :| k' in m && m[k'] == p;
      PropertyMapLookup(ps, k');
    }
    if exists i :: 0 <= i < |ps| && ps[i] == p
                && forall j :: i < j < |ps| ==> GetJsonKeyForProperty(ps[j]) != k {
      var i :| 0 <= i < |ps| && ps[i] == p
               && forall j :: i < j < |ps| ==> GetJsonKeyForProperty(ps[j]) != k;
      var i' :| 0 <= i' < |ps| && m[k] == ps[i'] && GetJsonKeyForProperty(ps[i']) == k
                && forall j :: i' < j < |ps| ==> GetJsonKeyForProperty(ps[j]) != k;
      assert i' == i;
    }
  }

  // ---------------------------------------------------------------------
  // Collection types
  // ---------------------------------------------------------------------

  /** An array, or a generic type that implements `IEnumerable`. */
  function IsManyType(t: Type): (r: bool)
    ensures t.isArray ==> r
    ensures t.isGeneric && t.implementsIEnumerable ==> r
    ensures r ==> t.isArray || (t.isGeneric && t.implementsIEnumerable)
    ensures r && ReflectionConsistent(t) ==> ElementTypeOf(t).Some?
  {
    t.isArray || (t.implementsIEnumerable && t.isGeneric)
  }

  /** The first generic argument of a generic type, otherwise the array
      element type (`None` where `GetElementType` gives `null`). */
  function ElementTypeOf(t: Type): (r: Option<Type>)
    requires t.isGeneric ==> |t.genericArguments| > 0
    ensures t.isGeneric ==> r == Some(t.genericArguments[0])
    ensures !t.isGeneric ==> r == t.arrayElementType
  {
    if t.isGeneric then Some(t.genericArguments[0]) else t.arrayElementType
  }

  /** Every collection type the CLR can produce has an element type. */
  lemma CollectionHasElementType(t: Type)
    requires ReflectionConsistent(t) && IsManyType(t)
    ensures ElementTypeOf(t).Some?
  {
  }

  /** The type whose name stands for `t`: its element type for a collection. */
  function NamedType(t: Type): (r: Type)
    requires ReflectionConsistent(t)
    ensures !IsManyType(t) ==> r == t
    ensures IsManyType(t) ==> Some(r) == ElementTypeOf(t)
  {
    if IsManyType(t) then ElementTypeOf(t).value else t
  }

  // ---------------------------------------------------------------------
  // Resource-type names
  // ---------------------------------------------------------------------

  /** The ancestor list of a type: itself, its base, its base's base, ...,
      stopping before `Object` or at a type without a base. */
  function Chain(current: Option<Type>): (r: seq<Type>)
    ensures Object !in r
    ensures current.Some? && current.value != Object ==> |r| > 0 && r[0] == current.value
    ensures forall i, j :: 0 <= i && j == i + 1 && j < |r| ==> r[i].baseType == Some(r[j])
    ensures current.None? || current == Some(Object) ==> r == []
    ensures |r| > 0 ==> r[|r| - 1].baseType.None? || r[|r| - 1].baseType == Some(Object)
    decreases current
  {
    match current
    case None => []
    case Some(c) => if c == Object then [] else [c] + Chain(c.baseType)
  }

  /** The walk of `GetResourceTypeNameForType`: the name registered for the
      type or for its nearest registered ancestor, `Object` excluded. */
  function ResolveName(names: map<Type, string>, current: Option<Type>): (r: Option<string>)
    ensures r.Some? ==> exists t :: t in Chain(current) && t in names && names[t] == r.value
    ensures r.None? ==> forall t :: t in Chain(current) ==> t !in names
    decreases current
  {
    match current
    case None => None
    case Some(c) =>
      if c == Object then None
      else if c in names then Some(names[c])
      else ResolveName(names, c.baseType)
  }

  /** `found` is the name of the first element of `s` in `names`, or `None`
      when no element is. */
  ghost predicate NearestIn(names: map<Type, string>, s: seq<Type>, found: Option<string>)
  {
    && (found.None? <==> forall i :: 0 <= i < |s| ==> s[i] !in names)
    && (found.Some? ==>
          exists i :: 0 <= i < |s| && s[i] in names && found.value == names[s[i]]
                   && forall j :: 0 <= j < i ==> s[j] !in names)
  }

  /** Putting an unregistered type in front of a list keeps its nearest
      registered element. */
  lemma NearestSkipsUnregistered(names: map<Type, string>, c: Type, rest: seq<Type>, found: Option<string>)
    requires c !in names && NearestIn(names, rest, found)
    ensures NearestIn(names, [c] + rest, found)
  {
    var whole := [c] + rest;
    assert forall i :: 0 < i < |whole| ==> whole[i] == rest[i - 1];
    if found.Some? {
      var i :| 0 <= i < |rest| && rest[i] in names && found.value == names[rest[i]]
               && forall j :: 0 <= j < i ==> rest[j] !in names;
      assert whole[i + 1] == rest[i];
    } else {
      forall i | 0 <= i < |whole| ensures whole[i] !in names {
        if i > 0 { assert whole[i] == rest[i - 1]; }
      }
    }
  }

  /** The walk finds the FIRST registered type of the ancestor list, and
      fails exactly when none of them is registered. */
  lemma {:induction false} ResolveNameIsNearest(names: map<Type, string>, current: Option<Type>)
    ensures ResolveName(names, current).None? <==>
            forall i :: 0 <= i < |Chain(current)| ==> Chain(current)[i] !in names
    ensures ResolveName(names, current).Some? ==>
            exists i :: 0 <= i < |Chain(current)| && Chain(current)[i] in names
                     && ResolveName(names, current).value == names[Chain(current)[i]]
                     && forall j :: 0 <= j < i ==> Chain(current)[j] !in names
    decreases current
  {
    match current
    case None =>
    case Some(c) =>
      if c != Object {
        var rest := Chain(c.baseType);
        assert Chain(current) == [c] + rest;
        if c in names {
          assert Chain(current)[0] == c;
        } else {
          ResolveNameIsNearest(names, c.baseType);
          NearestSkipsUnregistered(names, c, rest, ResolveName(names, c.baseType));
        }
      }
  }

  /** An unregistered subclass answers with the name of its base type. */
  lemma SubclassInheritsName(names: map<Type, string>, s: Type, b: Type)
    requires s != Object && s !in names && s.baseType == Some(b)
    ensures ResolveName(names, Some(s)) == ResolveName(names, Some(b))
  {
  }

  /** The two name tables of the registry. */
  datatype Registry = Registry(namesByType: map<Type, string>, typesByName: map<string, Type>)
  {
    /** The tables are mutual inverses. */
    predicate Inverse()
    {
      && (forall t :: t in namesByType ==>
            namesByType[t] in typesByName && typesByName[namesByType[t]] == t)
      && (forall n :: n in typesByName ==>
            typesByName[n] in namesByType && namesByType[typesByName[n]] == n)
    }

    /** `RegisterResourceType(t, n)`: rejects a registered type, then a
        registered name; otherwise adds the pair to both tables. */
    function Register(t: Type, n: string): (r: Result<Registry, Error>)
      ensures r.Ok? <==> t !in namesByType && n !in typesByName
      ensures t in namesByType ==> r == Err(TypeAlreadyRegistered(t))
      ensures t !in namesByType && n in typesByName ==> r == Err(ResourceTypeNameAlreadyRegistered(n))
      ensures r.Ok? ==> t in r.value.namesByType && r.value.namesByType[t] == n
      ensures r.Ok? ==> n in r.value.typesByName && r.value.typesByName[n] == t
      ensures r.Ok? ==> forall u :: u != t ==> (u in r.value.namesByType <==> u in namesByType)
      ensures r.Ok? ==> forall m :: m != n ==> (m in r.value.typesByName <==> m in typesByName)
    {
      if t in namesByType then Err(TypeAlreadyRegistered(t))
      else if n in typesByName then Err(ResourceTypeNameAlreadyRegistered(n))
      else Ok(Registry(namesByType[t := n], typesByName[n := t]))
    }

    /** `GetTypeByResourceTypeName(n)`. */
    function TypeFor(n: string): (r: Result<Type, Error>)
      ensures r.Ok? <==> n in typesByName
      ensures r.Ok? ==> r.value == typesByName[n]
      ensures r.Err? ==> r.error == ResourceTypeNameNotRegistered(n)
    {
      if n in typesByName then Ok(typesByName[n]) else Err(ResourceTypeNameNotRegistered(n))
    }

    /** `GetResourceTypeNameForType(t)`. */
    function NameFor(t: Type): (r: Result<string, Error>)
      requires ReflectionConsistent(t)
      ensures r.Err? ==> r.error == TypeNotRegistered(NamedType(t))
      ensures r.Ok? <==> exists i :: 0 <= i < |Chain(Some(NamedType(t)))|
                                     && Chain(Some(NamedType(t)))[i] in namesByType
      ensures r.Ok? ==> exists i :: 0 <= i < |Chain(Some(NamedType(t)))|
                                    && Chain(Some(NamedType(t)))[i] in namesByType
                                    && r.value == namesByType[Chain(Some(NamedType(t)))[i]]
                                    && forall j :: 0 <= j < i ==> Chain(Some(NamedType(t)))[j] !in namesByType
    {
      ResolveNameIsNearest(namesByType, Some(NamedType(t)));
      match ResolveName(namesByType, Some(NamedType(t)))
      case Some(n) => Ok(n)
      case None => Err(TypeNotRegistered(NamedType(t)))
    }
  }

  /** A successful registration keeps the two tables mutual inverses and
      changes no other entry. */
  lemma RegisterKeepsInverse(g: Registry, t: Type, n: string)
    requires g.Inverse() && g.Register(t, n).Ok?
    ensures g.Register(t, n).value.Inverse()
    ensures forall u :: u in g.namesByType ==> g.Register(t, n).value.namesByType[u] == g.namesByType[u]
    ensures forall m :: m in g.typesByName ==> g.Register(t, n).value.typesByName[m] == g.typesByName[m]
  {
  }

  /** Once registered, a name leads back to its type and the type (if not a
      collection and not `Object`) to its name. */
  lemma RegisteredRoundTrip(g: Registry, t: Type, n: string)
    requires g.Inverse() && g.Register(t, n).Ok?
    requires ReflectionConsistent(t) && !IsManyType(t) && t != Object
    ensures g.Register(t, n).value.TypeFor(n) == Ok(t)
    ensures g.Register(t, n).value.NameFor(t) == Ok(n)
  {
  }

  /** Two different types with the same title get the same default name, so
      whichever is registered second by default is rejected. */
  lemma SameTitleCollides(mm: ModelManager, g: Registry, t1: Type, t2: Type)
    requires t1 != t2 && TitleOf(t1) == TitleOf(t2) && t2 !in g.namesByType
    requires |mm.pluralize(TitleOf(t1))| > 0
    requires g.Register(t1, mm.CalculateResourceTypeNameForType(t1)).Ok?
    ensures mm.CalculateResourceTypeNameForType(t2) == mm.CalculateResourceTypeNameForType(t1)
    ensures g.Register(t1, mm.CalculateResourceTypeNameForType(t1)).value
             .Register(t2, mm.CalculateResourceTypeNameForType(t2))
            == Err(ResourceTypeNameAlreadyRegistered(mm.CalculateResourceTypeNameForType(t1)))
  {
  }

  // ---------------------------------------------------------------------
  // The registry object
  // ---------------------------------------------------------------------

  class ModelManager {
    /** `IPluralizationService.Pluralize`, supplied by the caller. */
    const pluralize: string -> string
    /** The `Dasherize` string extension, supplied by the caller. */
    const dasherize: string -> string

    var idProperties: map<Type, Property>
    var propertyMaps: map<Type, map<string, Property>>
    var resourceTypeNamesByType: map<Type, string>
    var typesByResourceTypeName: map<string, Type>
    var isSerializedAsManyCache: map<Type, bool>
    var elementTypeCache: map<Type, Option<Type>>

    /** The name tables are inverses and every memo entry holds what
        reflection says about its type. */
    ghost predicate Valid()
      reads this
    {
      && Tables().Inverse()
      && (forall t :: t in idProperties ==> IdPropertyOf(t) == Some(idProperties[t]))
      && (forall t :: t in propertyMaps ==> propertyMaps[t] == PropertyMapOf(t.properties))
      && (forall t :: t in isSerializedAsManyCache ==> isSerializedAsManyCache[t] == IsManyType(t))
      && (forall t :: t in elementTypeCache ==>
            (t.isGeneric ==> |t.genericArguments| > 0) && elementTypeCache[t] == ElementTypeOf(t))
    }

    function Tables(): Registry
      reads this
    {
      Registry(resourceTypeNamesByType, typesByResourceTypeName)
    }

    constructor (pluralize: string -> string, dasherize: string -> string)
      ensures Valid()
      ensures this.pluralize == pluralize && this.dasherize == dasherize
      ensures idProperties == map[] && propertyMaps == map[]
      ensures resourceTypeNamesByType == map[] && typesByResourceTypeName == map[]
      ensures isSerializedAsManyCache == map[] && elementTypeCache == map[]
    {
      this.pluralize := pluralize;
      this.dasherize := dasherize;
      idProperties := map[];
      propertyMaps := map[];
      resourceTypeNamesByType := map[];
      typesByResourceTypeName := map[];
      isSerializedAsManyCache := map[];
      elementTypeCache := map[];
    }

    /** The identifier property of `t`; a successful answer is memoized,
        a failure is not. */
    method GetIdProperty(t: Type) returns (r: Result<Property, Error>)
      requires Valid()
      modifies this`idProperties
      ensures Valid()
      ensures r == match IdPropertyOf(t) case Some(p) => Ok(p) case None => Err(NoIdProperty(t))
      ensures t in old(idProperties) ==> idProperties == old(idProperties)
      ensures t !in old(idProperties) && r.Ok? ==> idProperties == old(idProperties)[t := r.value]
      ensures r.Err? ==> idProperties == old(idProperties)
    {
      if t in idProperties {
        return Ok(idProperties[t]);
      }
      var idprop: Option<Property> := None;
      var tagged := FindFirst(t.properties, IsTaggedId);
      if tagged.Some? {
        idprop := Some(t.properties[tagged.value]);
      }
      if idprop.None? {
        var named := FindFirst(t.properties, IsNamedId);
        if named.Some? {
          idprop := Some(t.properties[named.value]);
        }
      }
      if idprop.None? {
        return Err(NoIdProperty(t));
      }
      idProperties := idProperties[t := idprop.value];
      r := Ok(idprop.value);
    }

    /** The JSON-key map of `t`, built on first use by one pass over the
        properties and memoized. */
    method GetPropertyMap(t: Type) returns (m: map<string, Property>)
      requires Valid()
      modifies this`propertyMaps
      ensures Valid()
      ensures m == PropertyMapOf(t.properties)
      ensures t in old(propertyMaps) ==> propertyMaps == old(propertyMaps)
      ensures t !in old(propertyMaps) ==> propertyMaps == old(propertyMaps)[t := m]
    {
      if t in propertyMaps {
        return propertyMaps[t];
      }
      var props := t.properties;
      var propMap: map<string, Property> := map[];
      for i := 0 to |props|
        invariant propMap == PropertyMapOf(props[..i])
      {
        assert props[..i + 1][..i] == props[..i];
        propMap := propMap[GetJsonKeyForProperty(props[i]) := props[i]];
      }
      assert props[..|props|] == props;
      propertyMaps := propertyMaps[t := propMap];
      m := propMap;
    }

    /** The properties that appear in the JSON-key map of `t`. */
    method GetProperties(t: Type) returns (ps: set<Property>)
      requires Valid()
      modifies this`propertyMaps
      ensures Valid()
      ensures ps == PropertyMapOf(t.properties).Values
      ensures t in old(propertyMaps) ==> propertyMaps == old(propertyMaps)
      ensures t !in old(propertyMaps) ==> propertyMaps == old(propertyMaps)[t := PropertyMapOf(t.properties)]
    {
      var m := GetPropertyMap(t);
      ps := m.Values;
    }

    /** The property of `t` whose JSON key is `jsonKey`; `None` for `null`. */
    method GetPropertyForJsonKey(t: Type, jsonKey: string) returns (r: Option<Property>)
      requires Valid()
      modifies this`propertyMaps
      ensures Valid()
      ensures r.Some? <==> jsonKey in PropertyMapOf(t.properties)
      ensures r.Some? ==> r.value == PropertyMapOf(t.properties)[jsonKey]
      ensures t in old(propertyMaps) ==> propertyMaps == old(propertyMaps)
      ensures t !in old(propertyMaps) ==> propertyMaps == old(propertyMaps)[t := PropertyMapOf(t.properties)]
    {
      var m := GetPropertyMap(t);
      if jsonKey in m {
        r := Some(m[jsonKey]);
      } else {
        r := None;
      }
    }

    /** The resource-type name of `t` (of its element type for a collection):
        that of the nearest registered type in the chain self, base, ... */
    method GetResourceTypeNameForType(t: Type) returns (r: Result<string, Error>)
      requires Valid() && ReflectionConsistent(t)
      modifies this`isSerializedAsManyCache, this`elementTypeCache
      ensures Valid()
      ensures r == Tables().NameFor(t)
      ensures isSerializedAsManyCache == old(isSerializedAsManyCache)[t := IsManyType(t)]
      ensures IsManyType(t) ==> elementTypeCache == old(elementTypeCache)[t := ElementTypeOf(t)]
      ensures !IsManyType(t) ==> elementTypeCache == old(elementTypeCache)
    {
      var subject := t;
      var many := IsSerializedAsMany(t);
      if many {
        var e := GetElementType(t);
        subject := e.value;
      }
      var current := Some(subject);
      while current.Some? && current.value != Object
        invariant ResolveName(resourceTypeNamesByType, current) == ResolveName(resourceTypeNamesByType, Some(subject))
        decreases current
      {
        if current.value in resourceTypeNamesByType {
          return Ok(resourceTypeNamesByType[current.value]);
        }
        current := current.value.baseType;
      }
      r := Err(TypeNotRegistered(subject));
    }

    /** The type registered under `resourceTypeName`. */
    method GetTypeByResourceTypeName(resourceTypeName: string) returns (r: Result<Type, Error>)
      requires Valid()
      ensures r.Ok? <==> resourceTypeName in typesByResourceTypeName
      ensures r.Ok? ==> r.value in resourceTypeNamesByType
                        && resourceTypeNamesByType[r.value] == resourceTypeName
      ensures r.Err? ==> r.error == ResourceTypeNameNotRegistered(resourceTypeName)
    {
      if resourceTypeName in typesByResourceTypeName {
        return Ok(typesByResourceTypeName[resourceTypeName]);
      }
      r := Err(ResourceTypeNameNotRegistered(resourceTypeName));
    }

    /** Registers `t` under its default name. */
    method RegisterResourceType(t: Type) returns (r: Outcome<Error>)
      requires Valid()
      requires |pluralize(TitleOf(t))| > 0
      modifies this`resourceTypeNamesByType, this`typesByResourceTypeName
      ensures Valid()
      ensures match old(Tables()).Register(t, CalculateResourceTypeNameForType(t))
              case Ok(g) => r == Pass && Tables() == g
              case Err(e) => r == Fail(e) && Tables() == old(Tables())
    {
      var resourceTypeName := CalculateResourceTypeNameForType(t);
      r := RegisterResourceTypeAs(t, resourceTypeName);
    }

    /** Registers `t` under `resourceTypeName`: fails, changing nothing, if
        the type or the name is already registered. */
    method RegisterResourceTypeAs(t: Type, resourceTypeName: string) returns (r: Outcome<Error>)
      requires Valid()
      modifies this`resourceTypeNamesByType, this`typesByResourceTypeName
      ensures Valid()
      ensures match old(Tables()).Register(t, resourceTypeName)
              case Ok(g) => r == Pass && Tables() == g
              case Err(e) => r == Fail(e) && Tables() == old(Tables())
    {
      if t in resourceTypeNamesByType {
        return Fail(TypeAlreadyRegistered(t));
      }
      if resourceTypeName in typesByResourceTypeName {
        return Fail(ResourceTypeNameAlreadyRegistered(resourceTypeName));
      }
      RegisterKeepsInverse(Tables(), t, resourceTypeName);
      resourceTypeNamesByType := resourceTypeNamesByType[t := resourceTypeName];
      typesByResourceTypeName := typesByResourceTypeName[resourceTypeName := t];
      r := Pass;
    }

    /** The default resource-type name: the title, pluralized, with its first
        letter lower-cased, then dasherized. */
    function CalculateResourceTypeNameForType(t: Type): (r: string)
      requires |pluralize(TitleOf(t))| > 0
      ensures r == dasherize(FormatPropertyName(pluralize(TitleOf(t))))
    {
      dasherize(FormatPropertyName(pluralize(TitleOf(t))))
    }

    /** Whether `t` is serialized as a collection; memoized. */
    method IsSerializedAsMany(t: Type) returns (isMany: bool)
      requires Valid()
      modifies this`isSerializedAsManyCache
      ensures Valid()
      ensures isMany == (t.isArray || (t.implementsIEnumerable && t.isGeneric))
      ensures isSerializedAsManyCache == old(isSerializedAsManyCache)[t := isMany]
      ensures t in old(isSerializedAsManyCache) ==> isSerializedAsManyCache == old(isSerializedAsManyCache)
    {
      if t in isSerializedAsManyCache {
        return isSerializedAsManyCache[t];
      }
      isMany := t.isArray || (t.implementsIEnumerable && t.isGeneric);
      isSerializedAsManyCache := isSerializedAsManyCache[t := isMany];
    }

    /** The element type of `manyType`; memoized. */
    method GetElementType(manyType: Type) returns (etype: Option<Type>)
      requires Valid()
      requires manyType.isGeneric ==> |manyType.genericArguments| > 0
      modifies this`elementTypeCache
      ensures Valid()
      ensures etype == ElementTypeOf(manyType)
      ensures elementTypeCache == old(elementTypeCache)[manyType := etype]
      ensures manyType in old(elementTypeCache) ==> elementTypeCache == old(elementTypeCache)
    {
      if manyType in elementTypeCache {
        return elementTypeCache[manyType];
      }
      if manyType.isGeneric {
        etype := Some(manyType.genericArguments[0]);
      } else {
        etype := manyType.arrayElementType;
      }
      elementTypeCache := elementTypeCache[manyType := etype];
    }
  }
}
