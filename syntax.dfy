/// The declaration grammar `attrs* vis? const NAME: [T; LEN] = [elems]`
/// shared by the four arms of `auto_const_array!`: writers that spell a
/// declaration as tokens, and matchers that read one back.
module Syntax {
  import opened Tokens

  /// One declaration as the macro captures it.
  datatype Decl = Decl(attrs: seq<Meta>, vis: Option<Vis>, name: string, ty: Ty, elems: seq<Expr>)

  /// The two spellings of an element list: `[a, b,]` (every element
  /// followed by a comma) and `[a, b]` (commas between elements).
  datatype ListStyle = TrailingComma | CommaSeparated

  /// How one declaration is written: its list style and whether a `;`
  /// follows it. Each arm of the macro accepts exactly one spelling.
  datatype Spelling = Spelling(list: ListStyle, terminated: bool)

  // ---------------------------------------------------------------- writers

  /// `#[m1] #[m2] ...`
  function AttrTokens(attrs: seq<Meta>): seq<Token>
    decreases |attrs|
  {
    if attrs == [] then []
    else [Pound, Group(Bracket, [MetaFrag(attrs[0])])] + AttrTokens(attrs[1..])
  }

  /// An absent visibility is written as nothing.
  function VisTokens(vis: Option<Vis>): seq<Token> {
    match vis
    case None => []
    case Some(v) => [VisFrag(v)]
  }

  /// `attrs vis const NAME: [T; len] =`
  function Header(attrs: seq<Meta>, vis: Option<Vis>, name: string, ty: Ty, len: Token): seq<Token> {
    AttrTokens(attrs) + VisTokens(vis) + [KwConst, Ident(name), Colon, Group(Bracket, [TyFrag(ty), Semi, len]), Eq]
  }

  /// `e1 e2 ...`, the elements with nothing between them.
  function ExprTokens(es: seq<Expr>): seq<Token> {
    seq(|es|, i requires 0 <= i < |es| => ExprFrag(es[i]))
  }

  /// `e1, e2, ..., en,`
  function TrailingTokens(es: seq<Expr>): (r: seq<Token>)
    ensures |r| == 2 * |es|
    ensures es != [] ==> r[|r| - 1] == Comma
    decreases |es|
  {
    if es == [] then [] else [ExprFrag(es[0]), Comma] + TrailingTokens(es[1..])
  }

  /// `e1, e2, ..., en`
  function SeparatedTokens(es: seq<Expr>): (r: seq<Token>)
    ensures |r| == if es == [] then 0 else 2 * |es| - 1
    decreases |es|
  {
    if es == [] then []
    else if |es| == 1 then [ExprFrag(es[0])]
    else [ExprFrag(es[0]), Comma] + SeparatedTokens(es[1..])
  }

  function ListTokens(es: seq<Expr>, style: ListStyle): seq<Token> {
    match style
    case TrailingComma => TrailingTokens(es)
    case CommaSeparated => SeparatedTokens(es)
  }

  /// `;`, or nothing after the last declaration.
  function Terminator(sp: Spelling): seq<Token> {
    if sp.terminated then [Semi] else []
  }

  /// A declaration as a user writes it, with the placeholder `_`.
  function Spell(d: Decl, sp: Spelling): seq<Token> {
    Header(d.attrs, d.vis, d.name, d.ty, Underscore)
      + [Group(Bracket, ListTokens(d.elems, sp.list))]
      + Terminator(sp)
  }

  /// Every declaration of a batch except the last one must be followed by `;`.
  predicate WellSeparated(sps: seq<Spelling>) {
    forall i :: 0 <= i < |sps| - 1 ==> sps[i].terminated
  }

  /// A whole macro input: the declarations one after the other.
  function SpellBatch(ds: seq<Decl>, sps: seq<Spelling>): seq<Token>
    requires |ds| == |sps|
    decreases |ds|
  {
    if ds == [] then [] else Spell(ds[0], sps[0]) + SpellBatch(ds[1..], sps[1..])
  }

  // --------------------------------------------------------------- matchers

  /// `#[$attr:meta]`: a bracket group holding one meta fragment.
  predicate IsAttrGroup(t: Token) {
    IsBracketGroup(t) && |t.inner| == 1 && t.inner[0].MetaFrag?
  }

  predicate StartsWithAttr(ts: seq<Token>) {
    |ts| >= 2 && ts[0] == Pound && IsAttrGroup(ts[1])
  }

  /// `$(#[$attr:meta])*`: takes as many attributes as stand at the front.
  function MatchAttrs(ts: seq<Token>): (r: (seq<Meta>, seq<Token>))
    ensures ts == AttrTokens(r.0) + r.1
    ensures !StartsWithAttr(r.1)
    decreases |ts|
  {
    if StartsWithAttr(ts) then
      var m := ts[1].inner[0].meta;
      var (ms, rest) := MatchAttrs(ts[2..]);
      assert ts[1] == Group(Bracket, [MetaFrag(m)]);
      assert ([m] + ms)[1..] == ms;
      assert ts == [Pound, Group(Bracket, [MetaFrag(m)])] + ts[2..];
      ([m] + ms, rest)
    else ([], ts)
  }

  /// `$vis:vis`: a visibility fragment, or nothing.
  function MatchVis(ts: seq<Token>): (r: (Option<Vis>, seq<Token>))
    ensures ts == VisTokens(r.0) + r.1
  {
    if ts != [] && ts[0].VisFrag? then (Some(ts[0].vis), ts[1..]) else (None, ts)
  }

  /// What the header part of a declaration captured, and what follows `=`.
  datatype HeaderMatch = HeaderMatch(attrs: seq<Meta>, vis: Option<Vis>, name: string, ty: Ty, len: Token, rest: seq<Token>)

  /// `const NAME: [T; len] =`, the fixed part of a header.
  function HeaderCore(name: string, ty: Ty, len: Token): seq<Token> {
    [KwConst, Ident(name), Colon, Group(Bracket, [TyFrag(ty), Semi, len]), Eq]
  }

  /// `const $name:ident: [$t:ty; LEN] =`, returning the name, the type,
  /// the length token and what follows.
  function MatchHeaderCore(t: seq<Token>): (r: Option<(string, Ty, Token, seq<Token>)>)
    ensures r.Some? ==> |r.value.3| == |t| - 5
  {
    if |t| >= 5 && t[0] == KwConst && t[1].Ident? && t[2] == Colon
       && IsBracketGroup(t[3]) && |t[3].inner| == 3 && t[3].inner[0].TyFrag? && t[3].inner[1] == Semi
       && t[4] == Eq
    then Some((t[1].name, t[3].inner[0].ty, t[3].inner[2], t[5..]))
    else None
  }

  /// What `MatchHeaderCore` accepts is a written `HeaderCore` followed by
  /// the rest.
  lemma MatchHeaderCoreSound(t: seq<Token>)
    requires MatchHeaderCore(t).Some?
    ensures t == HeaderCore(MatchHeaderCore(t).value.0, MatchHeaderCore(t).value.1, MatchHeaderCore(t).value.2)
                 + MatchHeaderCore(t).value.3
  {
    assert t[3] == Group(Bracket, [TyFrag(t[3].inner[0].ty), Semi, t[3].inner[2]]);
    assert t == t[..5] + t[5..];
  }

  lemma HeaderSplit(attrs: seq<Meta>, vis: Option<Vis>, name: string, ty: Ty, len: Token, rest: seq<Token>)
    ensures Header(attrs, vis, name, ty, len) + rest == AttrTokens(attrs) + (VisTokens(vis) + (HeaderCore(name, ty, len) + rest))
  {
  }

  /// `$(#[$attr:meta])* $vis:vis const $name:ident: [$t:ty; LEN] =`,
  /// with the length token left for the caller to check. What it accepts
  /// is stated by `MatchHeaderSound`.
  function MatchHeader(ts: seq<Token>): (r: Option<HeaderMatch>)
    ensures r.Some? ==> |r.value.rest| < |ts|
  {
    var (attrs, afterAttrs) := MatchAttrs(ts);
    var (vis, t) := MatchVis(afterAttrs);
    match MatchHeaderCore(t)
    case None => None
    case Some((name, ty, len, rest)) => Some(HeaderMatch(attrs, vis, name, ty, len, rest))
  }

  /// Whatever the header matcher accepts is a written header followed by
  /// the rest.
  lemma MatchHeaderSound(ts: seq<Token>)
    requires MatchHeader(ts).Some?
    ensures var h := MatchHeader(ts).value;
            ts == Header(h.attrs, h.vis, h.name, h.ty, h.len) + h.rest
  {
    var (attrs, afterAttrs) := MatchAttrs(ts);
    var (vis, t) := MatchVis(afterAttrs);
    MatchHeaderCoreSound(t);
    var (name, ty, len, rest) := MatchHeaderCore(t).value;
    HeaderSplit(attrs, vis, name, ty, len, rest);
  }

  /// `$($inner:expr,)*`
  function MatchTrailing(ts: seq<Token>): (r: Option<seq<Expr>>)
    ensures r.Some? ==> ts == TrailingTokens(r.value)
    decreases |ts|
  {
    if ts == [] then Some([])
    else if |ts| >= 2 && ts[0].ExprFrag? && ts[1] == Comma then
      match MatchTrailing(ts[2..])
      case None => None
      case Some(es) => Some([ts[0].expr] + es)
    else None
  }

  /// `$($inner:expr),+`, the non-empty case of `$($inner:expr),*`.
  function MatchSeparatedNonEmpty(ts: seq<Token>): (r: Option<seq<Expr>>)
    ensures r.Some? ==> r.value != [] && ts == SeparatedTokens(r.value)
    decreases |ts|
  {
    if |ts| == 1 && ts[0].ExprFrag? then Some([ts[0].expr])
    else if |ts| >= 3 && ts[0].ExprFrag? && ts[1] == Comma then
      match MatchSeparatedNonEmpty(ts[2..])
      case None => None
      case Some(es) => Some([ts[0].expr] + es)
    else None
  }

  /// `$($inner:expr),*`
  function MatchSeparated(ts: seq<Token>): (r: Option<seq<Expr>>)
    ensures r.Some? ==> ts == SeparatedTokens(r.value)
  {
    if ts == [] then Some([]) else MatchSeparatedNonEmpty(ts)
  }

  function MatchList(ts: seq<Token>, style: ListStyle): (r: Option<seq<Expr>>)
    ensures r.Some? ==> ts == ListTokens(r.value, style)
  {
    match style
    case TrailingComma => MatchTrailing(ts)
    case CommaSeparated => MatchSeparated(ts)
  }

  // ----------------------------------------------------------------- lemmas

  lemma {:induction false} MatchAttrsWritten(attrs: seq<Meta>, more: seq<Token>)
    requires more == [] || more[0] != Pound
    ensures MatchAttrs(AttrTokens(attrs) + more) == (attrs, more)
    decreases |attrs|
  {
    if attrs == [] {
      assert AttrTokens(attrs) + more == more;
      assert !StartsWithAttr(more);
    } else {
      var ts := AttrTokens(attrs) + more;
      assert ts == [Pound, Group(Bracket, [MetaFrag(attrs[0])])] + (AttrTokens(attrs[1..]) + more);
      assert ts[2..] == AttrTokens(attrs[1..]) + more;
      assert StartsWithAttr(ts) && ts[1].inner[0].meta == attrs[0];
      MatchAttrsWritten(attrs[1..], more);
      assert [attrs[0]] + attrs[1..] == attrs;
    }
  }

  lemma MatchVisWritten(vis: Option<Vis>, more: seq<Token>)
    requires more == [] || !more[0].VisFrag?
    ensures MatchVis(VisTokens(vis) + more) == (vis, more)
  {
    match vis
    case None => assert VisTokens(vis) + more == more;
    case Some(v) => assert (VisTokens(vis) + more)[1..] == more;
  }

  lemma HeaderCoreRead(name: string, ty: Ty, len: Token, more: seq<Token>)
    ensures MatchHeaderCore(HeaderCore(name, ty, len) + more) == Some((name, ty, len, more))
  {
    assert (HeaderCore(name, ty, len) + more)[5..] == more;
  }

  /// Reading a written header gives back every part of it.
  lemma MatchHeaderWritten(attrs: seq<Meta>, vis: Option<Vis>, name: string, ty: Ty, len: Token, more: seq<Token>)
    ensures MatchHeader(Header(attrs, vis, name, ty, len) + more) == Some(HeaderMatch(attrs, vis, name, ty, len, more))
  {
    var tail := HeaderCore(name, ty, len) + more;
    var afterAttrs := VisTokens(vis) + tail;
    HeaderSplit(attrs, vis, name, ty, len, more);
    HeaderCoreRead(name, ty, len, more);
    MatchVisWritten(vis, tail);
    MatchAttrsWritten(attrs, afterAttrs);
  }

  lemma {:induction false} MatchTrailingWritten(es: seq<Expr>)
    ensures MatchTrailing(TrailingTokens(es)) == Some(es)
    decreases |es|
  {
    if es != [] {
      var ts := TrailingTokens(es);
      assert ts[2..] == TrailingTokens(es[1..]);
      MatchTrailingWritten(es[1..]);
      assert [es[0]] + es[1..] == es;
    }
  }

  lemma {:induction false} MatchSeparatedNonEmptyWritten(es: seq<Expr>)
    requires es != []
    ensures MatchSeparatedNonEmpty(SeparatedTokens(es)) == Some(es)
    decreases |es|
  {
    if |es| == 1 {
      assert [es[0]] == es;
    } else {
      var ts := SeparatedTokens(es);
      assert ts[2..] == SeparatedTokens(es[1..]);
      MatchSeparatedNonEmptyWritten(es[1..]);
      assert [es[0]] + es[1..] == es;
    }
  }

  /// Each list matcher accepts exactly the lists its own style writes.
  lemma MatchListExactly(ts: seq<Token>, es: seq<Expr>, style: ListStyle)
    ensures MatchList(ts, style) == Some(es) <==> ts == ListTokens(es, style)
  {
    if ts == ListTokens(es, style) {
      match style
      case TrailingComma => MatchTrailingWritten(es);
      case CommaSeparated => if es != [] { MatchSeparatedNonEmptyWritten(es); }
    }
  }

  /// A list read in the style it was written in is read back unchanged;
  /// read in the other style it is accepted only when it is empty.
  lemma MatchListOtherStyle(es: seq<Expr>, written: ListStyle, read: ListStyle)
    ensures MatchList(ListTokens(es, written), read) == if written == read || es == [] then Some(es) else None
  {
    var ts := ListTokens(es, written);
    if written == read {
      MatchListExactly(ts, es, read);
    } else if es == [] {
      assert ts == [];
    } else {
      match MatchList(ts, read)
      case None =>
      case Some(xs) =>
        // Trailing-comma lists have even length, comma-separated ones odd.
        assert false;
    }
  }
}
