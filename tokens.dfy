/// Token trees as a `macro_rules!` matcher sees them.
///
/// Every fragment that a matcher captures with a fragment specifier
/// (`$attr:meta`, `$vis:vis`, `$t:ty`, `$inner:expr`) is one opaque token:
/// its internal grammar belongs to the compiler. A delimited group is a
/// single token tree holding its contents.
module Tokens {

  datatype Option<+T> = None | Some(value: T)

  /// The contents of one attribute `#[...]`, such as `allow(unused)`;
  /// a doc comment `/// text` is the attribute `doc = "text"`.
  datatype Meta = Meta(text: string)

  /// A non-empty visibility qualifier such as `pub` or `pub(crate)`.
  datatype Vis = Vis(text: string)

  /// An element type such as `u8`.
  datatype Ty = Ty(text: string)

  /// One element expression such as `1 + 1`.
  datatype Expr = Expr(text: string)

  datatype Delim = Paren | Bracket | Brace

  datatype Token =
    | Pound                              // `#`
    | Colon                              // `:`
    | Semi                               // `;`
    | Eq                                 // `=`
    | Comma                              // `,`
    | Underscore                         // `_`, the length placeholder
    | KwConst                            // `const`
    | Ident(name: string)
    | MetaFrag(meta: Meta)
    | VisFrag(vis: Vis)
    | TyFrag(ty: Ty)
    | ExprFrag(expr: Expr)
    | Group(delim: Delim, inner: seq<Token>)
    | CountCall(args: seq<Token>)        // the emitted invocation `$crate::count!(args)`
    | Other(text: string)                // any other token tree

  /// `[ ... ]`, a bracket-delimited group.
  predicate IsBracketGroup(t: Token) {
    t.Group? && t.delim == Bracket
  }
}
