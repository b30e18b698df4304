/// What the expansion means to the compiler: each emitted declaration
/// read back as a constant whose length is the value of its `count!`
/// invocation.
module Expansion {
  import opened Tokens
  import opened Count
  import opened Syntax
  import opened AutoConstArray

  /// A constant array declaration with an explicit length, as the compiler
  /// sees it once `count!` has been expanded and evaluated.
  datatype Item = Item(attrs: seq<Meta>, vis: Option<Vis>, name: string, ty: Ty, len: nat, elems: seq<Expr>)

  /// The intended meaning of a declaration: the same attributes,
  /// visibility, name, type and elements, with the number of elements as
  /// its length.
  function Resolve(d: Decl): Item {
    Item(d.attrs, d.vis, d.name, d.ty, |d.elems|, d.elems)
  }

  function ResolveAll(ds: seq<Decl>): (r: seq<Item>)
    ensures |r| == |ds|
    ensures forall i :: 0 <= i < |ds| ==> r[i] == Resolve(ds[i])
    decreases |ds|
  {
    if ds == [] then [] else [Resolve(ds[0])] + ResolveAll(ds[1..])
  }

  /// Reads one emitted declaration
  /// `attrs vis const NAME: [T; $crate::count!(args)] = [e1, ..., en,];`
  /// and returns the constant it declares and what follows it.
  function ReadItem(out: seq<Token>): (r: Option<(Item, seq<Token>)>)
    ensures r.Some? ==> |r.value.1| < |out|
  {
    match MatchHeader(out)
    case None => None
    case Some(h) => ReadItemTail(h)
  }

  /// The part of `ReadItem` after the header: the length is a `count!`
  /// invocation, the value a trailing-comma list, then `;`.
  function ReadItemTail(h: HeaderMatch): (r: Option<(Item, seq<Token>)>)
    ensures r.Some? ==> |r.value.1| < |h.rest|
  {
    if !h.len.CountCall? || |h.rest| < 2 || !IsBracketGroup(h.rest[0]) || h.rest[1] != Semi then None
    else
      match MatchTrailing(h.rest[0].inner)
      case None => None
      case Some(es) => Some((Item(h.attrs, h.vis, h.name, h.ty, Value(CountExpansion(h.len.args)), es), h.rest[2..]))
  }

  /// Reads a sequence of emitted declarations.
  function ReadItems(out: seq<Token>): (r: Option<seq<Item>>)
    decreases |out|
  {
    if out == [] then Some([])
    else
      match ReadItem(out)
      case None => None
      case Some((item, rest)) =>
        match ReadItems(rest)
        case None => None
        case Some(items) => Some([item] + items)
  }

  /// One emitted declaration reads back as its intended meaning: its
  /// length is the number of its elements, and everything else is the
  /// input's, copied in order.
  lemma ReadEmit(d: Decl, more: seq<Token>)
    ensures ReadItem(Emit(d) + more) == Some((Resolve(d), more))
  {
    var len := CountCall(ExprTokens(d.elems));
    var after := [Group(Bracket, TrailingTokens(d.elems)), Semi] + more;
    EmitSplit(d, more);
    MatchHeaderWritten(d.attrs, d.vis, d.name, d.ty, len, after);
    ReadEmitTail(d, more);
  }

  lemma ReadEmitTail(d: Decl, more: seq<Token>)
    ensures ReadItemTail(HeaderMatch(d.attrs, d.vis, d.name, d.ty, CountCall(ExprTokens(d.elems)),
                                     [Group(Bracket, TrailingTokens(d.elems)), Semi] + more))
         == Some((Resolve(d), more))
  {
    var after := [Group(Bracket, TrailingTokens(d.elems)), Semi] + more;
    assert after[2..] == more;
    MatchTrailingWritten(d.elems);
    CountArgs(d.elems);
  }

  lemma ReadItemsStep(out: seq<Token>, item: Item, rest: seq<Token>)
    requires out != [] && ReadItem(out) == Some((item, rest))
    ensures ReadItems(out) == match ReadItems(rest) case None => None case Some(items) => Some([item] + items)
  {
  }

  lemma {:induction false} ReadEmitAll(ds: seq<Decl>)
    ensures ReadItems(EmitAll(ds)) == Some(ResolveAll(ds))
    decreases |ds|
  {
    if ds != [] {
      var d, tail := ds[0], ds[1..];
      var out := Emit(d) + EmitAll(tail);
      assert EmitAll(ds) == out;
      ReadEmit(d, EmitAll(tail));
      assert out != [];
      ReadItemsStep(out, Resolve(d), EmitAll(tail));
      ReadEmitAll(tail);
    }
  }

  /// Whenever the macro accepts its input, the input is a batch of written
  /// declarations, and the output declares one constant per declaration,
  /// in order; each one's length equals its number of elements, and its
  /// attributes, visibility, name, type and elements are those of the
  /// declaration as written.
  lemma ExpansionMeaning(ts: seq<Token>)
    requires Expand(ts).Some?
    ensures ReadItems(Expand(ts).value).Some?
    ensures |ReadItems(Expand(ts).value).value| == |ParseBatch(ts).value|
    ensures forall i :: 0 <= i < |ParseBatch(ts).value| ==>
              var item, d := ReadItems(Expand(ts).value).value[i], ParseBatch(ts).value[i];
              item.len == |d.elems| && item.elems == d.elems
              && item.attrs == d.attrs && item.vis == d.vis && item.name == d.name && item.ty == d.ty
    ensures exists sps :: |sps| == |ParseBatch(ts).value| && WellSeparated(sps)
              && ts == SpellBatch(ParseBatch(ts).value, sps)
  {
    ReadEmitAll(ParseBatch(ts).value);
    ParseBatchSound(ts, ParseBatch(ts).value);
  }

  /// `#[allow(unused)]`
  function AllowUnused(): seq<Token> {
    [Pound, Group(Bracket, [MetaFrag(Meta("allow(unused)"))])]
  }

  /// `[u8; _]`
  function U8Placeholder(): Token {
    Group(Bracket, [TyFrag(Ty("u8")), Semi, Underscore])
  }

  lemma SpellAllowU8(name: string, es: seq<Expr>, sp: Spelling)
    ensures Spell(Decl([Meta("allow(unused)")], None, name, Ty("u8"), es), sp)
         == AllowUnused() + [KwConst, Ident(name), Colon, U8Placeholder(), Eq, Group(Bracket, ListTokens(es, sp.list))]
            + (if sp.terminated then [Semi] else [])
  {
    assert AttrTokens([Meta("allow(unused)")]) == AllowUnused() + AttrTokens([]);
  }

  /// The invocation in the crate's own unit test (src/lib.rs, module
  /// `tests`).
  function UnitTestInput(): seq<Token> {
    AllowUnused() + [KwConst, Ident("ARRAY"), Colon, U8Placeholder(), Eq,
      Group(Bracket, [ExprFrag(Expr("1")), Comma, ExprFrag(Expr("2")), Comma, ExprFrag(Expr("3"))]), Semi]
    + AllowUnused() + [KwConst, Ident("ARRAY_EMPTY"), Colon, U8Placeholder(), Eq, Group(Bracket, []), Semi]
    + AllowUnused() + [KwConst, Ident("ARRAY_WITH_EXPR"), Colon, U8Placeholder(), Eq,
      Group(Bracket, [ExprFrag(Expr("1 + 1")), Comma, ExprFrag(Expr("2 + 2")), Comma]), Semi]
  }

  lemma UnitTestSpelled(d0: Decl, d1: Decl, d2: Decl)
    requires d0 == Decl([Meta("allow(unused)")], None, "ARRAY", Ty("u8"), [Expr("1"), Expr("2"), Expr("3")])
    requires d1 == Decl([Meta("allow(unused)")], None, "ARRAY_EMPTY", Ty("u8"), [])
    requires d2 == Decl([Meta("allow(unused)")], None, "ARRAY_WITH_EXPR", Ty("u8"), [Expr("1 + 1"), Expr("2 + 2")])
    ensures UnitTestInput()
         == Spell(d0, Spelling(CommaSeparated, true)) + (Spell(d1, Spelling(TrailingComma, true)) + Spell(d2, Spelling(TrailingComma, true)))
  {
    var sp0, sp1 := Spelling(CommaSeparated, true), Spelling(TrailingComma, true);
    SpellAllowU8(d0.name, d0.elems, sp0);
    SpellAllowU8(d1.name, d1.elems, sp1);
    SpellAllowU8(d2.name, d2.elems, sp1);
    assert ListTokens(d0.elems, sp0.list) == [ExprFrag(Expr("1")), Comma, ExprFrag(Expr("2")), Comma, ExprFrag(Expr("3"))];
    assert ListTokens(d1.elems, sp1.list) == [];
    assert ListTokens(d2.elems, sp1.list) == [ExprFrag(Expr("1 + 1")), Comma, ExprFrag(Expr("2 + 2")), Comma];
  }

  lemma ReadThree(d0: Decl, d1: Decl, d2: Decl)
    ensures ReadItems(Emit(d0) + (Emit(d1) + (Emit(d2) + []))) == Some([Resolve(d0), Resolve(d1), Resolve(d2)])
  {
    var ds := [d0, d1, d2];
    assert ds[1..] == [d1, d2] && ds[1..][1..] == [d2] && ds[1..][1..][1..] == [];
    assert EmitAll([d2]) == Emit(d2) + EmitAll([]);
    assert EmitAll([d1, d2]) == Emit(d1) + EmitAll([d2]);
    assert EmitAll(ds) == Emit(d0) + EmitAll([d1, d2]);
    assert ResolveAll(ds) == [Resolve(d0), Resolve(d1), Resolve(d2)];
    ReadEmitAll(ds);
  }

  /// The crate's own unit test: `[1, 2, 3]` gets length 3, `[]` length 0
  /// and `[1 + 1, 2 + 2,]` length 2; the attribute is kept on each.
  lemma UnitTestBatch()
    ensures Expand(UnitTestInput()).Some?
    ensures ReadItems(Expand(UnitTestInput()).value) == Some([
        Item([Meta("allow(unused)")], None, "ARRAY", Ty("u8"), 3, [Expr("1"), Expr("2"), Expr("3")]),
        Item([Meta("allow(unused)")], None, "ARRAY_EMPTY", Ty("u8"), 0, []),
        Item([Meta("allow(unused)")], None, "ARRAY_WITH_EXPR", Ty("u8"), 2, [Expr("1 + 1"), Expr("2 + 2")])])
  {
    var attrs := [Meta("allow(unused)")];
    var d0 := Decl(attrs, None, "ARRAY", Ty("u8"), [Expr("1"), Expr("2"), Expr("3")]);
    var d1 := Decl(attrs, None, "ARRAY_EMPTY", Ty("u8"), []);
    var d2 := Decl(attrs, None, "ARRAY_WITH_EXPR", Ty("u8"), [Expr("1 + 1"), Expr("2 + 2")]);
    UnitTestSpelled(d0, d1, d2);
    var sp0, sp1 := Spelling(CommaSeparated, true), Spelling(TrailingComma, true);
    var s1, s2 := Spell(d1, sp1), Spell(d2, sp1);
    ExpandSpelled(d2, sp1, []);
    assert s2 + [] == s2;
    ExpandSpelled(d1, sp1, s2);
    ExpandSpelled(d0, sp0, s1 + s2);
    var out := Emit(d0) + (Emit(d1) + (Emit(d2) + []));
    assert Expand(UnitTestInput()) == Some(out);
    ReadThree(d0, d1, d2);
  }

  /// `#[doc = "..."]`, the attribute a doc comment `/// ...` stands for.
  function DocAttr(text: string): Meta {
    Meta("doc = \"" + text + "\"")
  }

  function DemoCommon(): Decl {
    Decl([DocAttr(" Common array with public visibility."), Meta("allow(unused)")], Some(Vis("pub")),
         "ARRAY_COMMON", Ty("u8"), [Expr("1"), Expr("2"), Expr("4")])
  }

  /// The element `#[cfg(unix)] 2` is one expression fragment.
  function DemoWithAttr(): Decl {
    Decl([DocAttr(" Special array with cfg conditional compling.")], None,
         "ARRAY_WITH_ATTR", Ty("u8"), [Expr("1"), Expr("#[cfg(unix)] 2")])
  }

  /// The invocation in the crate's example program: two comma-separated
  /// lists, and no `;` after the last declaration.
  function DemoInput(): seq<Token> {
    DemoCommonTokens() + DemoWithAttrTokens()
  }

  function DemoCommonTokens(): seq<Token> {
    [Pound, Group(Bracket, [MetaFrag(DocAttr(" Common array with public visibility."))]),
     Pound, Group(Bracket, [MetaFrag(Meta("allow(unused)"))]),
     VisFrag(Vis("pub")), KwConst, Ident("ARRAY_COMMON"), Colon, U8Placeholder(), Eq,
     Group(Bracket, [ExprFrag(Expr("1")), Comma, ExprFrag(Expr("2")), Comma, ExprFrag(Expr("4"))]), Semi]
  }

  function DemoWithAttrTokens(): seq<Token> {
    [Pound, Group(Bracket, [MetaFrag(DocAttr(" Special array with cfg conditional compling."))]),
     KwConst, Ident("ARRAY_WITH_ATTR"), Colon, U8Placeholder(), Eq,
     Group(Bracket, [ExprFrag(Expr("1")), Comma, ExprFrag(Expr("#[cfg(unix)] 2"))])]
  }

  lemma DemoCommonSpelled()
    ensures DemoCommonTokens() == Spell(DemoCommon(), Spelling(CommaSeparated, true))
  {
    var d0 := DemoCommon();
    assert AttrTokens(d0.attrs) == [Pound, Group(Bracket, [MetaFrag(d0.attrs[0])])] + AttrTokens(d0.attrs[1..]);
    assert AttrTokens(d0.attrs[1..]) == [Pound, Group(Bracket, [MetaFrag(d0.attrs[1])])] + AttrTokens([]);
    assert SeparatedTokens(d0.elems) == [ExprFrag(Expr("1")), Comma, ExprFrag(Expr("2")), Comma, ExprFrag(Expr("4"))];
  }

  lemma DemoWithAttrSpelled()
    ensures DemoWithAttrTokens() == Spell(DemoWithAttr(), Spelling(CommaSeparated, false))
  {
    var d1 := DemoWithAttr();
    assert AttrTokens(d1.attrs) == [Pound, Group(Bracket, [MetaFrag(d1.attrs[0])])] + AttrTokens([]);
    assert SeparatedTokens(d1.elems) == [ExprFrag(Expr("1")), Comma, ExprFrag(Expr("#[cfg(unix)] 2"))];
  }

  lemma DemoSpelled()
    ensures DemoInput() == Spell(DemoCommon(), Spelling(CommaSeparated, true)) + Spell(DemoWithAttr(), Spelling(CommaSeparated, false))
  {
    DemoCommonSpelled();
    DemoWithAttrSpelled();
  }

  lemma ReadTwo(d0: Decl, d1: Decl)
    ensures ReadItems(Emit(d0) + (Emit(d1) + [])) == Some([Resolve(d0), Resolve(d1)])
  {
    var ds := [d0, d1];
    assert ds[1..] == [d1] && ds[1..][1..] == [];
    assert EmitAll([d1]) == Emit(d1) + EmitAll([]);
    assert EmitAll(ds) == Emit(d0) + EmitAll([d1]);
    assert ResolveAll(ds) == [Resolve(d0), Resolve(d1)];
    ReadEmitAll(ds);
  }

  /// The crate's example program: `ARRAY_COMMON` keeps its doc comment,
  /// its attribute and `pub`, and gets length 3; the last declaration,
  /// written without `;`, gets length 2, one per element expression.
  lemma DemoBatch()
    ensures Expand(DemoInput()).Some?
    ensures ReadItems(Expand(DemoInput()).value) == Some([
        Item([DocAttr(" Common array with public visibility."), Meta("allow(unused)")], Some(Vis("pub")),
             "ARRAY_COMMON", Ty("u8"), 3, [Expr("1"), Expr("2"), Expr("4")]),
        Item([DocAttr(" Special array with cfg conditional compling.")], None,
             "ARRAY_WITH_ATTR", Ty("u8"), 2, [Expr("1"), Expr("#[cfg(unix)] 2")])])
  {
    var d0, d1 := DemoCommon(), DemoWithAttr();
    var sp0, sp1 := Spelling(CommaSeparated, true), Spelling(CommaSeparated, false);
    DemoSpelled();
    ExpandSpelled(d1, sp1, []);
    assert Spell(d1, sp1) + [] == Spell(d1, sp1);
    ExpandSpelled(d0, sp0, Spell(d1, sp1));
    assert Expand(DemoInput()) == Some(Emit(d0) + (Emit(d1) + []));
    ReadTwo(d0, d1);
  }
}
