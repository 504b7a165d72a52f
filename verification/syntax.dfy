/**
 * The part of `syn`'s item tree the resolver looks at. Only module items are
 * inspected; struct, enum and fn items are looked at by the definition
 * selector; every other item kind is opaque payload.
 */
module Syntax {
  import opened Wrappers

  /** An identifier, compared by its text (as `proc_macro2::Ident` equality does). */
  type Ident = string

  /**
   * `syn::ItemMod`: `mod ident { content }` has `Some(content)`,
   * the forward declaration `mod ident;` has `None`.
   */
  datatype ItemMod = ItemMod(ident: Ident, content: Option<seq<Item>>)

  /** `syn::Item`, reduced to the kinds the core distinguishes. */
  datatype Item =
    | Mod(itemMod: ItemMod)
    | Struct(structIdent: Ident, tokens: string)
    | Enum(enumIdent: Ident, tokens: string)
    | Fn(sig: Signature, tokens: string)
    | Verbatim(tokens: string)   // use, impl, const, macro invocations, ...

  /** `syn::Signature`; a function is named by its signature's identifier. */
  datatype Signature = Signature(ident: Ident, tokens: string)

  /** One segment of a `syn::Path`: its identifier and its (generic) arguments. */
  datatype PathSegment = PathSegment(ident: Ident, arguments: string)

  /** `syn::Path`: an optional leading `::` and the segments. */
  datatype SynPath = SynPath(leadingColon: bool, segments: seq<PathSegment>)
}
