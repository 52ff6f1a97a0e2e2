/** What the registry learns about a CLR type through reflection, as a value.
    A `Type` carries its own base type, so the chain self, base,
    base-of-base, ... is finite and acyclic by construction. */
module Reflection {
  import opened Wrappers

  /** A member or type name: the CLR never hands out an empty one. */
  type Identifier = s: string | |s| > 0 witness "Id"

  /** A public property: its name and whether it carries `[UseAsId]`. */
  datatype Property = Property(name: Identifier, useAsId: bool)

  datatype Type = Type(
    name: Identifier,
    /** The `Title` argument of a `[JsonObject]` attribute on the type, if any. */
    jsonObjectTitle: Option<string>,
    /** `GetProperties()`, in the order it returns them. */
    properties: seq<Property>,
    /** `BaseType`; `None` stands for `null`. */
    baseType: Option<Type>,
    isArray: bool,
    isGeneric: bool,
    /** Whether `GetInterfaces()` contains `System.Collections.IEnumerable`. */
    implementsIEnumerable: bool,
    /** `GetGenericArguments()`. */
    genericArguments: seq<Type>,
    /** `GetElementType()`: the element type of an array type, `None` otherwise. */
    arrayElementType: Option<Type>)

  /** `typeof(Object)`, the root of every class hierarchy. */
  const Object: Type := Type("Object", None, [], None, false, false, false, [], None)

  /** Facts the CLR guarantees of every type: a generic type has at least
      one type argument and an array type has an element type. */
  predicate ReflectionConsistent(t: Type)
  {
    && (t.isGeneric ==> |t.genericArguments| > 0)
    && (t.isArray ==> t.arrayElementType.Some?)
  }
}
