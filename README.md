# JSONAPI.NET resource-type registry and query extractors, in Dafny

This project models two parts of JSONAPI.NET.

- **`ModelManager`** is the resource-type registry. It keeps a two-way table between CLR types and JSON:API resource-type names. It also memoizes what reflection says about each type:
  - the identifier property;
  - the map from JSON key to property;
  - whether the type is serialized as a collection;
  - the collection's element type.
- **The default include and sort extractors** take the `include` or `sort` query parameter of a request and split its value on commas.

Layout:

- `wrappers.dfy`: `Option`, `Result` and `Outcome`. They replace the source's `null` returns and thrown `InvalidOperationException`s.
- `sequences.dfy`: `FindFirst`, the front-to-back search behind LINQ's `Where(..).FirstOrDefault()` and `FirstOrDefault(predicate)`.
- `strings.dfy`: `String.Split(char)`, `String.Join`, character counting and `ToLower`.
- `reflection.dfy`: a CLR type as a value. It holds the type's name, its `[JsonObject]` title, its properties (name and `[UseAsId]` flag), its base type, the array/generic/`IEnumerable` flags, its generic arguments and its array element type. The base type is a field of the datatype, so every base-type chain is finite. `Object` is a constant of this type.
- `model_manager.dfy` (module `Core`) has two parts:
  - Functions that say what each lookup computes: `IdPropertyOf`, `PropertyMapOf`, `IsManyType`, `ElementTypeOf`, `Chain`/`ResolveName`, and the `Registry` value with `Register`, `TypeFor` and `NameFor`. Lemmas about them sit beside them.
  - The class `ModelManager`. It holds the six dictionaries as `map` fields. Its methods fill and consult them. `Valid()` states that the two name tables are mutual inverses and that every memo entry equals what the function above computes.
- `extractors.dfy` (module `Http`): `ExtractIncludeExpressions` and `ExtractSortExpressions`, with their properties.

The pluralization service and the `Dasherize` string extension are not modelled. They appear as function-valued constants `pluralize` and `dasherize` of `ModelManager`, and the constructor receives both.

## Model

| member | source | states |
|---|---|---|
| `Sequences.FindFirst` | JSONAPI/Core/ModelManager.cs:76-78 | The index of the first element satisfying the predicate: it satisfies it, no earlier element does, and the result is `None` exactly when no element does |
| `Strings.Split` | JSONAPI/Http/DefaultIncludeExpressionExtractor.cs:18 | `Split(',')` gives one more token than there are commas, keeps empty tokens (an empty value gives `[""]`), and no token contains a comma |
| `Strings.JoinSplit` | JSONAPI/Http/DefaultSortExpressionExtractor.cs:18 | Joining the split tokens with the separator rebuilds the value exactly |
| `Strings.SplitJoin` | JSONAPI/Http/DefaultIncludeExpressionExtractor.cs:18 | Conversely, splitting the join of a non-empty list of comma-free tokens gives the list back |
| `Strings.Join` | JSONAPI/Http/DefaultSortExpressionExtractor.cs:18 | A single part joins to itself, and a join always starts with its first part |
| `Strings.ToLower` | JSONAPI/Core/ModelManager.cs:223 | Upper-case ASCII letters become lower case and every other character is unchanged |
| `Core.FormatPropertyName` | JSONAPI/Core/ModelManager.cs:221-225 | The result has the same length, its first character is lower-cased, and every later character is unchanged |
| `Core.GetJsonKeyForProperty` | JSONAPI/Core/ModelManager.cs:215-219 | A property's JSON key is its name with only the first character lower-cased |
| `Core.JsonKeysCollide` | JSONAPI/Core/ModelManager.cs:221-225 | Two names give the same JSON key if and only if they agree after the first character and their first characters lower-case to the same letter |
| `Core.FormatPropertyNameIdempotent` | JSONAPI/Core/ModelManager.cs:221-225 | Formatting an already formatted name changes nothing |
| `Core.TitleOf` | JSONAPI/Core/ModelManager.cs:202-210 | The word to pluralize is the `[JsonObject]` `Title` when present, otherwise the type's `Name` |
| `Core.IdPropertyOf` | JSONAPI/Core/ModelManager.cs:75-85 | The identifier is one of the type's properties. If it is not tagged `[UseAsId]`, no property is tagged and it is named `Id`. There is none exactly when no property is tagged and none is named `Id` |
| `Core.IdPropertyIsFirstTagged` | JSONAPI/Core/ModelManager.cs:76-78 | The first `[UseAsId]` property, in the order `GetProperties()` returns them, is the identifier, ahead of any property named `Id` |
| `Core.IdPropertyFallsBackToId` | JSONAPI/Core/ModelManager.cs:79-82 | With no `[UseAsId]` property, the (first) property named `Id` is the identifier |
| `Core.PropertyMapOf` | JSONAPI/Core/ModelManager.cs:107-112 | Every property's JSON key is a key of the map, and the last property inserted is the one stored under its key |
| `Core.PropertyMapLookup` | JSONAPI/Core/ModelManager.cs:107-112 | A key is in the property map if and only if some property formats to it. It maps to the LAST property with that key, in the order `GetProperties()` returns them, so a later property overwrites an earlier one |
| `Core.PropertyMapKeysAreJsonKeys` | JSONAPI/Core/ModelManager.cs:109-112 | Every entry is keyed by the JSON key of the property it holds, and that property belongs to the type |
| `Core.PropertyMapValues` | JSONAPI/Core/ModelManager.cs:120-123 | A property is among the map's values if and only if no later property has the same JSON key |
| `Core.IsManyType` | JSONAPI/Core/ModelManager.cs:237-239 | A type is a collection if and only if it is an array or a generic type implementing `IEnumerable`. Every collection (for a type the CLR could produce) has an element type |
| `Core.ElementTypeOf` | JSONAPI/Core/ModelManager.cs:257-260 | A generic type's element type is its first generic argument. Any other type's is its array element type, absent (null) for a non-array |
| `Core.CollectionHasElementType` | JSONAPI/Core/ModelManager.cs:136-137 | Every type serialized as a collection has an element type, so the substitution in the name lookup always has a type to use |
| `Core.NamedType` | JSONAPI/Core/ModelManager.cs:136-137 | The name lookup uses the element type of a collection type and the type itself otherwise |
| `Core.Chain` | JSONAPI/Core/ModelManager.cs:139-147 | The types the name lookup visits: the starting type first, each next one the base type of the one before, never `Object`, and ending where the base type is null or `Object` (empty for a null or `Object` start) |
| `Core.ResolveName` | JSONAPI/Core/ModelManager.cs:139-147 | A found name is the registered name of some type on the chain. Nothing is found only when no type on the chain is registered |
| `Core.ResolveNameIsNearest` | JSONAPI/Core/ModelManager.cs:139-149 | The base-type walk returns the name of the first registered type in the list self, base, base-of-base, ... (before `Object`). It fails if and only if none of them is registered |
| `Core.SubclassInheritsName` | JSONAPI/Core/ModelManager.cs:143-146 | An unregistered subclass gets the same answer as its base type |
| `Core.Registry.Register` | JSONAPI/Core/ModelManager.cs:181-190 | Registration succeeds if and only if neither the type nor the name is registered. A registered type is rejected first, then a registered name even for a new type. On success the type maps to the name, the name maps to the type, and no other type or name is added |
| `Core.Registry.TypeFor` | JSONAPI/Core/ModelManager.cs:152-158 | Reverse lookup returns the type registered under the name, and fails with "not registered" exactly when the name is absent |
| `Core.Registry.NameFor` | JSONAPI/Core/ModelManager.cs:134-150 | The lookup succeeds if and only if some type on the chain of the (possibly substituted element) type is registered. It returns the name of the first such type. A failure reports that type as not registered |
| `Core.RegisterKeepsInverse` | JSONAPI/Core/ModelManager.cs:189-190 | A successful registration keeps the two tables mutual inverses and changes no existing entry of either table |
| `Core.RegisteredRoundTrip` | JSONAPI/Core/ModelManager.cs:175-193 | After registering `t` under `n`, the name leads back to `t`. The type (when it is not a collection and not `Object`) leads to `n` |
| `Core.SameTitleCollides` | JSONAPI/Core/ModelManager.cs:164-168 | Two distinct types with the same title get the same `CalculateResourceTypeNameForType` name, so registering the second one under its default name fails with "name already registered" |
| `Core.ModelManager.constructor` | JSONAPI/Core/ModelManager.cs:15-59 | A new registry keeps the given pluralizer and dasherizer, and all six tables start empty |
| `Core.ModelManager.GetIdProperty` | JSONAPI/Core/ModelManager.cs:65-91 | Returns the identifier property or fails with "unable to determine Id property". A success is memoized (a cached type returns the cached property and leaves the cache unchanged). A failure caches nothing |
| `Core.ModelManager.GetPropertyMap` | JSONAPI/Core/ModelManager.cs:97-118 | The loop builds exactly the property map, which is memoized. A second call returns the cached map and leaves the cache unchanged |
| `Core.ModelManager.GetProperties` | JSONAPI/Core/ModelManager.cs:120-123 | Returns the values of the property map |
| `Core.ModelManager.GetPropertyForJsonKey` | JSONAPI/Core/ModelManager.cs:125-130 | Returns the property under the key, or `None` (null) exactly when the key is absent |
| `Core.ModelManager.GetResourceTypeNameForType` | JSONAPI/Core/ModelManager.cs:134-150 | The `while` loop over the base-type chain returns what `NameFor` specifies. The type's collection flag and (for a collection) element type are cached on the way. The name tables do not change |
| `Core.ModelManager.GetTypeByResourceTypeName` | JSONAPI/Core/ModelManager.cs:152-158 | Succeeds exactly when the name is registered. The returned type is registered under that same name, and an absent name fails with "not registered" |
| `Core.ModelManager.RegisterResourceType` | JSONAPI/Core/ModelManager.cs:164-168 | Registers the type under its default name, with the same outcome and new tables as `Register` |
| `Core.ModelManager.RegisterResourceTypeAs` | JSONAPI/Core/ModelManager.cs:175-193 | The new tables are exactly `Register`'s result. On either failure both tables are left unchanged, and the tables stay mutual inverses |
| `Core.ModelManager.CalculateResourceTypeNameForType` | JSONAPI/Core/ModelManager.cs:200-213 | The default name is `Dasherize(FormatPropertyName(Pluralize(title)))` |
| `Core.ModelManager.IsSerializedAsMany` | JSONAPI/Core/ModelManager.cs:227-245 | The result is `isArray || (implements IEnumerable && isGeneric)` and is memoized. A cached type leaves the cache unchanged |
| `Core.ModelManager.GetElementType` | JSONAPI/Core/ModelManager.cs:247-266 | Returns `ElementTypeOf` and memoizes it. A cached type leaves the cache unchanged |
| `Http.FirstWithKey` | JSONAPI/Http/DefaultIncludeExpressionExtractor.cs:16 | The position of the first parameter with the key, or `None` exactly when no parameter has it |
| `Http.ExtractExpressions` | JSONAPI/Http/DefaultIncludeExpressionExtractor.cs:16-18 | The shared body of both extractors is empty if and only if no parameter has the key, and no token contains a comma |
| `Http.ExtractExpressionsSpec` | JSONAPI/Http/DefaultIncludeExpressionExtractor.cs:16-18 | The extraction is empty if and only if no parameter has the key. Otherwise it is the first such value split on commas: the tokens join back to it, number one more than its commas, and contain no comma |
| `Http.ExtractIgnoresLaterParams` | JSONAPI/Http/DefaultIncludeExpressionExtractor.cs:16 | Parameters after one with the key do not change the result |
| `Http.ExtractIgnoresOtherKeys` | JSONAPI/Http/DefaultSortExpressionExtractor.cs:16 | A parameter with another key, inserted anywhere, does not change the result |
| `Http.ExtractIncludeExpressions` | JSONAPI/Http/DefaultIncludeExpressionExtractor.cs:16-18 | Empty if and only if there is no `include` parameter. Otherwise the first `include` value's tokens join back to it, number one more than its commas, and contain no comma |
| `Http.ExtractSortExpressions` | JSONAPI/Http/DefaultSortExpressionExtractor.cs:16-18 | The same for `sort` |
| `Http.IncludeUsesFirstParamOnly` | JSONAPI/Http/DefaultIncludeExpressionExtractor.cs:16 | Later `include` parameters and parameters with other keys do not affect the include tokens |
| `Http.SortUsesFirstParamOnly` | JSONAPI/Http/DefaultSortExpressionExtractor.cs:16 | Later `sort` parameters and parameters with other keys do not affect the sort tokens |
| `Http.SortExample` | JSONAPI/Http/DefaultSortExpressionExtractor.cs:18 | `sort=name,-age` gives `["name", "-age"]`, with the `-` passed through |
| `Http.IncludeExample` | JSONAPI/Http/DefaultIncludeExpressionExtractor.cs:18 | `include=a,,b`, after an unrelated parameter, gives `["a", "", "b"]` |

Notes on the code, which the model follows:

- `RegisterResourceType(type, name)` rejects a name that is already registered, whichever type holds it.
- `GetElementType` does not fail on a type that is neither generic nor an array. It returns `null` (`None` here).
- The property map covers public properties only. When two properties format to the same key, only the later one remains.

## Left out

- The `lock` blocks and the `Lazy<>` wrappers around the six dictionaries exist for concurrency. The model is single-threaded with plain `map` fields.
- Reflection itself (`GetProperties`, `CustomAttributes`, `GetInterfaces`, `BaseType`, `GetGenericArguments`) is replaced by the `Type` datatype. Two CLR types with identical reflected data are the same `Type` value here, whereas the CLR compares types by identity.
- `Type.GetProperty("Id")` throws `AmbiguousMatchException` when several properties are named `Id` (through member hiding, or overloaded indexed properties named `Id`). The model takes the first one.
- The pluralization service and `Dasherize` are not modelled. `Dasherize` is a static extension method that is not part of this model, so the model passes it to the constructor beside the pluralizer.
- `Strings.ToLower`: lower-cases ASCII letters only, as under the invariant culture. .NET's `ToLower` uses the current culture, which the model does not. Under tr-TR, for example, `I` lower-cases to `ı` (U+0131), so `Id` gets the key `ıd` there while the model gives `id`. Non-ASCII letters are not lower-cased either.
- `Core.FormatPropertyName`: `Substring(0, 1)` throws on an empty string, which the model does not represent. Property and type names are non-empty by their type. `Core.ModelManager.RegisterResourceType` requires the pluralized title to be non-empty.
- `Core.ModelManager.GetPropertyMap`: returns the map as a value. The source returns the cached `Dictionary` object itself, so a caller could change the cache through that reference. The model does not capture that aliasing.
- `Core.ModelManager.GetProperties`: returns a set. The order of `Dictionary.Values.ToArray()` is not modelled.
- `Core.ModelManager.GetResourceTypeNameForType` requires `ReflectionConsistent(t)`: a generic type has a type argument and an array type has an element type. The CLR guarantees both, so the element-type substitution always yields a type.
- The order of `Type.GetProperties()` is not specified by .NET. The model fixes one order, the sequence `properties`, and "first `[UseAsId]`" and "the later property wins" refer to that order.
- Self-referential generic ancestry (`class User : Entity<User>`, `class Tree : List<Tree>`) cannot be built, because a `Type` value contains its base type and generic arguments as finite data.
- `CalculateResourceTypeNameForType` is `protected virtual`. A subclass that overrides it is not modelled; the model uses the default implementation only.
- Null arguments (a null `Type`, a null query value) are not modelled. Every value is present.
- `QueryableToOneRelatedResourceDocumentMaterializer` only awaits an abstract record fetch and hands the result to a document builder and a base-URL service. It has no logic of its own. The interfaces (`IDocumentMaterializer`, `IRelatedResourceDocumentMaterializer`, `IBaseUrlService`, `IIncludeExpressionExtractor`, `ISortExpressionExtractor`, `IFallbackDocumentBuilder`) only declare signatures. The test helper `QueryableTransformerTestsBase` calls an external transformer.
- `IDocumentMaterializer` declares five operations: `GetRecords`, `GetRecordById`, `CreateRecord`, `UpdateRecord` and `DeleteRecord`. Each takes a `CancellationToken`. They are signatures with no body here, so there is nothing to model.
