/**
 * Selecting a struct, enum or fn definition by kind and name from the items
 * of a scope.
 */
module FindDependencies {
  import opened Wrappers
  import Syntax

  /** `Definition`: the kinds of definition that can be queried. */
  datatype Definition = Struct | Fn | Enum

  /** The definition kind of an item; None for every item that is not a struct, enum or fn. */
  function KindOf(item: Syntax.Item): Option<Definition> {
    match item
    case Struct(_, _) => Some(Struct)
    case Enum(_, _) => Some(Enum)
    case Fn(_, _) => Some(Fn)
    case _ => None
  }

  /** The identifier a definition is known by: a fn's is its signature's. */
  function NameOf(item: Syntax.Item): Syntax.Ident
    requires KindOf(item).Some?
  {
    match item
    case Struct(ident, _) => ident
    case Enum(ident, _) => ident
    case Fn(sig, _) => sig.ident
  }

  /** `item` is a `defType` definition called `name`. */
  predicate Matches(item: Syntax.Item, defType: Definition, name: Syntax.Ident) {
    KindOf(item) == Some(defType) && NameOf(item) == name
  }

  /**
   * `Definition::get_definition_name`: the item's identifier paired with
   * the item itself, when the item is a definition of kind `defType`.
   */
  function GetDefinitionName(item: Syntax.Item, defType: Definition): (r: Option<(Syntax.Ident, Syntax.Item)>)
    ensures r.Some? <==> KindOf(item) == Some(defType)
    ensures r.Some? ==> r.value.1 == item && r.value.0 == NameOf(item)
  {
    match item
    case Fn(sig, _) => if defType == Fn then Some((sig.ident, item)) else None
    case Struct(ident, _) => if defType == Struct then Some((ident, item)) else None
    case Enum(ident, _) => if defType == Enum then Some((ident, item)) else None
    case _ => None
  }

  /** `i` is the first position of the scope holding a `defType` definition called `name`. */
  predicate IsFirstMatch(scope: seq<Syntax.Item>, i: int, defType: Definition, name: Syntax.Ident) {
    0 <= i < |scope| && Matches(scope[i], defType, name)
    && forall j :: 0 <= j < i ==> !Matches(scope[j], defType, name)
  }

  /**
   * `find_definition_in_scope`: the first item, in scope order, of kind
   * `defType` whose identifier is `name`. The source unwraps the search, so
   * such an item must exist.
   */
  method FindDefinitionInScope(scope: seq<Syntax.Item>, defType: Definition, name: Syntax.Ident)
    returns (item: Syntax.Item)
    requires exists i :: 0 <= i < |scope| && Matches(scope[i], defType, name)
    ensures exists i :: IsFirstMatch(scope, i, defType, name) && scope[i] == item
    ensures KindOf(item) == Some(defType) && NameOf(item) == name
  {
    var i := 0;
    while i < |scope|
      invariant 0 <= i <= |scope|
      invariant forall j :: 0 <= j < i ==> !Matches(scope[j], defType, name)
    {
      var candidate := GetDefinitionName(scope[i], defType);
      if candidate.Some? && candidate.value.0 == name {
        assert IsFirstMatch(scope, i, defType, name);
        return candidate.value.1;
      }
      i := i + 1;
    }
    assert false;
  }
}
