/// The `auto_const_array!` macro: four declaration arms and the empty
/// arm, tried in source order, each re-emitting one declaration with its
/// length counted and recursing on the tokens after its `;`.
module AutoConstArray {
  import opened Tokens
  import opened Count
  import opened Syntax

  /// The four declaration arms in source order, each named by the one
  /// spelling it accepts: a trailing-comma list, then a comma-separated
  /// one, first followed by `;` and the rest, then with nothing after.
  const Arms: seq<Spelling> := [
    Spelling(TrailingComma, true),
    Spelling(CommaSeparated, true),
    Spelling(TrailingComma, false),
    Spelling(CommaSeparated, false)
  ]

  lemma ArmsCoverEverySpelling(sp: Spelling)
    ensures sp in Arms
  {
    match sp
    case Spelling(TrailingComma, true) => assert Arms[0] == sp;
    case Spelling(CommaSeparated, true) => assert Arms[1] == sp;
    case Spelling(TrailingComma, false) => assert Arms[2] == sp;
    case Spelling(CommaSeparated, false) => assert Arms[3] == sp;
  }

  /// What a declaration arm captured, and the tokens `$($rest:tt)*`
  /// (empty for the two arms without `;`).
  datatype Match = Match(arm: Spelling, decl: Decl, rest: seq<Token>)

  /// The part of a declaration arm after the header: the length must be
  /// `_`, the value a bracket group in the arm's list spelling, followed
  /// by `;` and the rest (first two arms) or by nothing (last two).
  function MatchArmTail(arm: Spelling, h: HeaderMatch): (r: Option<Match>)
    ensures r.Some? ==> r.value.arm == arm
    ensures r.Some? ==> arm.terminated || r.value.rest == []
    ensures r.Some? ==> |r.value.rest| < |h.rest|
  {
    if h.len != Underscore || h.rest == [] || !IsBracketGroup(h.rest[0]) then None
    else
      match MatchList(h.rest[0].inner, arm.list)
      case None => None
      case Some(es) =>
        var d := Decl(h.attrs, h.vis, h.name, h.ty, es);
        var after := h.rest[1..];
        if arm.terminated then
          if after != [] && after[0] == Semi then Some(Match(arm, d, after[1..]))
          else None
        else if after == [] then Some(Match(arm, d, []))
        else None
  }

  /// What an arm's tail accepts: the placeholder `_`, then the value in
  /// the arm's list spelling and the arm's terminator, then the rest.
  lemma MatchArmTailSound(arm: Spelling, h: HeaderMatch)
    requires MatchArmTail(arm, h).Some?
    ensures h.len == Underscore
    ensures MatchArmTail(arm, h).value.decl
         == Decl(h.attrs, h.vis, h.name, h.ty, MatchArmTail(arm, h).value.decl.elems)
    ensures h.rest == [Group(Bracket, ListTokens(MatchArmTail(arm, h).value.decl.elems, arm.list))]
                      + Terminator(arm) + MatchArmTail(arm, h).value.rest
  {
    var es := MatchList(h.rest[0].inner, arm.list).value;
    var after := h.rest[1..];
    assert h.rest[0] == Group(Bracket, ListTokens(es, arm.list));
    assert h.rest == [h.rest[0]] + after;
    if arm.terminated {
      assert after == [Semi] + after[1..];
    }
  }

  /// Once the header is read, what an arm does is up to its tail.
  lemma MatchArmAfterHeader(arm: Spelling, ts: seq<Token>, h: HeaderMatch)
    requires MatchHeader(ts) == Some(h)
    ensures MatchArm(arm, ts) == MatchArmTail(arm, h)
  {
  }

  lemma SpellSplit(d: Decl, sp: Spelling, rest: seq<Token>)
    ensures Spell(d, sp) + rest
         == Header(d.attrs, d.vis, d.name, d.ty, Underscore) + ([Group(Bracket, ListTokens(d.elems, sp.list))] + Terminator(sp) + rest)
  {
  }

  /// One declaration arm of the macro applied to the whole input. What it
  /// accepts is stated by `MatchArmSound` and `ArmAcceptsExactly`.
  function MatchArm(arm: Spelling, ts: seq<Token>): (r: Option<Match>)
    ensures r.Some? ==> r.value.arm == arm
    ensures r.Some? ==> arm.terminated || r.value.rest == []
    ensures r.Some? ==> |r.value.rest| < |ts|
  {
    match MatchHeader(ts)
    case None => None
    case Some(h) => MatchArmTail(arm, h)
  }

  /// An arm that matches has captured a declaration written in that arm's
  /// spelling, followed by the rest.
  lemma MatchArmSound(arm: Spelling, ts: seq<Token>)
    requires MatchArm(arm, ts).Some?
    ensures ts == Spell(MatchArm(arm, ts).value.decl, arm) + MatchArm(arm, ts).value.rest
  {
    var h := MatchHeader(ts).value;
    var m := MatchArmTail(arm, h).value;
    MatchHeaderSound(ts);
    MatchArmTailSound(arm, h);
    SpellSplit(m.decl, arm, m.rest);
  }

  /// The position of the first `true` in `bs`, or `|bs|` when none is.
  function FirstTrue(bs: seq<bool>): (k: nat)
    ensures k <= |bs|
    ensures k < |bs| ==> bs[k]
    ensures forall j :: 0 <= j < k ==> !bs[j]
    decreases |bs|
  {
    if bs == [] || bs[0] then 0
    else
      var k := FirstTrue(bs[1..]);
      assert forall j :: 1 <= j < |bs| ==> bs[j] == bs[1..][j - 1];
      1 + k
  }

  /// Which arms of `arms` match `ts`, in order.
  function Matching(arms: seq<Spelling>, ts: seq<Token>): (bs: seq<bool>)
    ensures |bs| == |arms|
    ensures forall i :: 0 <= i < |arms| ==> bs[i] == MatchArm(arms[i], ts).Some?
  {
    seq(|arms|, i requires 0 <= i < |arms| => MatchArm(arms[i], ts).Some?)
  }

  /// The position of the first arm of `arms` that matches `ts`, or
  /// `|arms|` when none does: macro_rules tries the arms in order.
  function FirstArm(arms: seq<Spelling>, ts: seq<Token>): (k: nat)
    ensures k <= |arms|
    ensures k < |arms| ==> MatchArm(arms[k], ts).Some?
    ensures forall j :: 0 <= j < k ==> MatchArm(arms[j], ts).None?
  {
    var bs := Matching(arms, ts);
    var k := FirstTrue(bs);
    assert forall j :: 0 <= j < k ==> !bs[j];
    k
  }

  /// What the first matching arm captures; the first match wins.
  function FirstMatch(arms: seq<Spelling>, ts: seq<Token>): (r: Option<Match>)
    ensures r.None? <==> forall i :: 0 <= i < |arms| ==> MatchArm(arms[i], ts).None?
    ensures r.Some? ==> r == MatchArm(arms[FirstArm(arms, ts)], ts)
  {
    var k := FirstArm(arms, ts);
    if k < |arms| then MatchArm(arms[k], ts) else None
  }

  /// What every declaration arm emits: the attributes, visibility, name
  /// and type as captured, the length as a `count!` invocation over the
  /// element expressions, then the elements in trailing-comma form and `;`.
  function Emit(d: Decl): seq<Token> {
    Header(d.attrs, d.vis, d.name, d.ty, CountCall(ExprTokens(d.elems)))
      + [Group(Bracket, TrailingTokens(d.elems)), Semi]
  }

  /// The argument of the emitted `count!` has one token tree per element,
  /// so the length it evaluates to is the number of elements.
  lemma CountArgs(es: seq<Expr>)
    ensures Value(CountExpansion(ExprTokens(es))) == |es|
  {
  }

  lemma EmitSplit(d: Decl, more: seq<Token>)
    ensures Emit(d) + more
         == Header(d.attrs, d.vis, d.name, d.ty, CountCall(ExprTokens(d.elems)))
            + ([Group(Bracket, TrailingTokens(d.elems)), Semi] + more)
  {
  }

  /// The emitted declarations one after the other.
  function EmitAll(ds: seq<Decl>): seq<Token>
    decreases |ds|
  {
    if ds == [] then [] else Emit(ds[0]) + EmitAll(ds[1..])
  }

  /// The declarations an invocation consists of, or None when one of
  /// them matches no arm.
  function ParseBatch(ts: seq<Token>): (r: Option<seq<Decl>>)
    decreases |ts|
  {
    if ts == [] then Some([])
    else
      match FirstMatch(Arms, ts)
      case None => None
      case Some(m) =>
        if m.arm.terminated then
          match ParseBatch(m.rest)
          case None => None
          case Some(ds) => Some([m.decl] + ds)
        else Some([m.decl])
  }

  /// The expansion of `auto_const_array!(ts)`, or None when no arm
  /// matches (a compile error for the whole invocation). The empty input
  /// expands to nothing; a declaration followed by `;` expands to its
  /// emitted form followed by the expansion of the rest. The result is
  /// the emitted form of each parsed declaration, in input order.
  function Expand(ts: seq<Token>): (r: Option<seq<Token>>)
    ensures r.Some? <==> ParseBatch(ts).Some?
    ensures r.Some? ==> r.value == EmitAll(ParseBatch(ts).value)
    decreases |ts|
  {
    if ts == [] then Some([])
    else
      match FirstMatch(Arms, ts)
      case None => None
      case Some(m) =>
        ParseBatchStep(ts, m);
        if m.arm.terminated then
          match Expand(m.rest)
          case None => None
          case Some(out) =>
            EmitAllCons(m.decl, ParseBatch(m.rest).value);
            Some(Emit(m.decl) + out)
        else
          EmitAllCons(m.decl, []);
          Some(Emit(m.decl))
  }

  // ----------------------------------------------------------------- lemmas

  /// An arm matches a spelled declaration exactly when it is the arm for
  /// that spelling, or its list style differs only on an empty list; it
  /// then captures the declaration and the rest unchanged.
  lemma MatchArmTailSpelled(arm: Spelling, d: Decl, sp: Spelling, rest: seq<Token>)
    requires sp.terminated || rest == []
    ensures MatchArmTail(arm, HeaderMatch(d.attrs, d.vis, d.name, d.ty, Underscore,
                                          [Group(Bracket, ListTokens(d.elems, sp.list))] + Terminator(sp) + rest))
         == if arm.terminated == sp.terminated && (arm.list == sp.list || d.elems == [])
            then Some(Match(arm, d, rest)) else None
  {
    var value := Group(Bracket, ListTokens(d.elems, sp.list));
    var after := Terminator(sp) + rest;
    var h := HeaderMatch(d.attrs, d.vis, d.name, d.ty, Underscore, [value] + after);
    assert [value] + Terminator(sp) + rest == [value] + after;
    assert h.rest[0] == value && h.rest[1..] == after;
    MatchListOtherStyle(d.elems, sp.list, arm.list);
    if arm.list == sp.list || d.elems == [] {
      assert MatchList(h.rest[0].inner, arm.list) == Some(d.elems);
      if sp.terminated {
        assert after[0] == Semi && after[1..] == rest;
      } else {
        assert after == [];
      }
    } else {
      assert MatchList(h.rest[0].inner, arm.list) == None;
    }
  }

  /// An arm matches a spelled declaration exactly when it is the arm for
  /// that spelling, or its list style differs only on an empty list; it
  /// then captures the declaration and the rest unchanged.
  lemma MatchArmSpelled(arm: Spelling, d: Decl, sp: Spelling, rest: seq<Token>)
    requires sp.terminated || rest == []
    ensures MatchArm(arm, Spell(d, sp) + rest)
         == if arm.terminated == sp.terminated && (arm.list == sp.list || d.elems == [])
            then Some(Match(arm, d, rest)) else None
  {
    var after := [Group(Bracket, ListTokens(d.elems, sp.list))] + Terminator(sp) + rest;
    var ts := Spell(d, sp) + rest;
    SpellSplit(d, sp, rest);
    MatchHeaderWritten(d.attrs, d.vis, d.name, d.ty, Underscore, after);
    MatchArmAfterHeader(arm, ts, HeaderMatch(d.attrs, d.vis, d.name, d.ty, Underscore, after));
    MatchArmTailSpelled(arm, d, sp, rest);
  }

  /// Each arm accepts exactly the declarations written in its spelling.
  lemma ArmAcceptsExactly(arm: Spelling, ts: seq<Token>, d: Decl, rest: seq<Token>)
    ensures MatchArm(arm, ts) == Some(Match(arm, d, rest))
        <==> ts == Spell(d, arm) + rest && (arm.terminated || rest == [])
  {
    if ts == Spell(d, arm) + rest && (arm.terminated || rest == []) {
      MatchArmSpelled(arm, d, arm, rest);
    }
    if MatchArm(arm, ts) == Some(Match(arm, d, rest)) {
      MatchArmSound(arm, ts);
    }
  }

  /// Whichever arm of `arms` matches a spelled declaration first, it
  /// captures that declaration and the rest unchanged.
  lemma FirstMatchSpelled(arms: seq<Spelling>, d: Decl, sp: Spelling, rest: seq<Token>)
    requires sp in arms
    requires sp.terminated || rest == []
    ensures FirstMatch(arms, Spell(d, sp) + rest).Some?
    ensures FirstMatch(arms, Spell(d, sp) + rest).value.decl == d
    ensures FirstMatch(arms, Spell(d, sp) + rest).value.rest == rest
    ensures FirstMatch(arms, Spell(d, sp) + rest).value.arm.terminated == sp.terminated
  {
    var ts := Spell(d, sp) + rest;
    var i :| 0 <= i < |arms| && arms[i] == sp;
    MatchArmSpelled(sp, d, sp, rest);
    var k := FirstArm(arms, ts);
    assert k <= i;
    MatchArmSpelled(arms[k], d, sp, rest);
  }

  lemma ParseBatchStep(ts: seq<Token>, m: Match)
    requires ts != [] && FirstMatch(Arms, ts) == Some(m)
    ensures ParseBatch(ts) == if m.arm.terminated then
        (match ParseBatch(m.rest) case None => None case Some(ds) => Some([m.decl] + ds))
      else Some([m.decl])
  {
  }

  /// One spelled declaration followed by the rest of the input parses
  /// to that declaration followed by the declarations of the rest.
  lemma ParseSpelled(d: Decl, sp: Spelling, rest: seq<Token>)
    requires sp.terminated || rest == []
    ensures ParseBatch(Spell(d, sp) + rest)
         == match ParseBatch(rest) case None => None case Some(ds) => Some([d] + ds)
  {
    var ts := Spell(d, sp) + rest;
    ArmsCoverEverySpelling(sp);
    FirstMatchSpelled(Arms, d, sp, rest);
    assert |ts| > 0;
    var m := FirstMatch(Arms, ts).value;
    ParseBatchStep(ts, m);
    if !sp.terminated {
      ParseBatchEmpty();
      assert [d] + [] == [d];
    }
  }

  lemma ParseBatchEmpty()
    ensures ParseBatch([]) == Some([])
  {
  }

  lemma EmitAllCons(d: Decl, ds: seq<Decl>)
    ensures EmitAll([d] + ds) == Emit(d) + EmitAll(ds)
    ensures EmitAll([d]) == Emit(d)
  {
    assert ([d] + ds)[1..] == ds;
    assert [d][1..] == [];
  }

  /// One spelled declaration followed by the rest of the input: its
  /// emitted form, then the expansion of the rest; if the rest fails, the
  /// whole invocation fails. This holds for both list spellings and for a
  /// last declaration with or without `;`.
  lemma ExpandSpelled(d: Decl, sp: Spelling, rest: seq<Token>)
    requires sp.terminated || rest == []
    ensures Expand(Spell(d, sp) + rest)
         == match Expand(rest) case None => None case Some(out) => Some(Emit(d) + out)
  {
    ParseSpelled(d, sp, rest);
    match ParseBatch(rest)
    case None =>
    case Some(ds) => EmitAllCons(d, ds);
  }

  /// A batch parses to its declarations and expands to their emitted
  /// forms in order, whatever spelling each declaration uses.
  lemma ExpandSpellBatch(ds: seq<Decl>, sps: seq<Spelling>)
    requires |ds| == |sps| && WellSeparated(sps)
    ensures ParseBatch(SpellBatch(ds, sps)) == Some(ds)
    ensures Expand(SpellBatch(ds, sps)) == Some(EmitAll(ds))
  {
    ParseSpellBatch(ds, sps);
  }

  lemma SpellBatchHead(ds: seq<Decl>, sps: seq<Spelling>)
    requires |ds| == |sps| && ds != [] && WellSeparated(sps)
    ensures SpellBatch(ds, sps) == Spell(ds[0], sps[0]) + SpellBatch(ds[1..], sps[1..])
    ensures sps[0].terminated || SpellBatch(ds[1..], sps[1..]) == []
  {
  }

  lemma {:induction false} ParseSpellBatch(ds: seq<Decl>, sps: seq<Spelling>)
    requires |ds| == |sps| && WellSeparated(sps)
    ensures ParseBatch(SpellBatch(ds, sps)) == Some(ds)
    decreases |ds|
  {
    if ds != [] {
      assert WellSeparated(sps[1..]);
      ParseSpellBatch(ds[1..], sps[1..]);
      ParseSpellBatchStep(ds, sps);
    } else {
      assert SpellBatch(ds, sps) == [];
    }
  }

  lemma ParseSpellBatchStep(ds: seq<Decl>, sps: seq<Spelling>)
    requires |ds| == |sps| && ds != [] && WellSeparated(sps)
    requires ParseBatch(SpellBatch(ds[1..], sps[1..])) == Some(ds[1..])
    ensures ParseBatch(SpellBatch(ds, sps)) == Some(ds)
  {
    SpellBatchHead(ds, sps);
    ParseSpelled(ds[0], sps[0], SpellBatch(ds[1..], sps[1..]));
    assert [ds[0]] + ds[1..] == ds;
  }

  /// Two spellings of the same declarations, differing in trailing commas
  /// and in a final `;`, expand identically.
  lemma SpellingsAgree(ds: seq<Decl>, sps1: seq<Spelling>, sps2: seq<Spelling>)
    requires |ds| == |sps1| == |sps2| && WellSeparated(sps1) && WellSeparated(sps2)
    ensures Expand(SpellBatch(ds, sps1)) == Expand(SpellBatch(ds, sps2))
  {
    ExpandSpellBatch(ds, sps1);
    ExpandSpellBatch(ds, sps2);
  }

  /// Prepending one spelled declaration to a spelled batch.
  lemma SpellBatchCons(d: Decl, sp: Spelling, ds: seq<Decl>, sps: seq<Spelling>)
    requires |ds| == |sps|
    ensures SpellBatch([d] + ds, [sp] + sps) == Spell(d, sp) + SpellBatch(ds, sps)
    ensures sp.terminated && WellSeparated(sps) ==> WellSeparated([sp] + sps)
  {
    assert ([d] + ds)[1..] == ds;
    assert ([sp] + sps)[1..] == sps;
    if sp.terminated && WellSeparated(sps) {
      forall i | 0 <= i < |[sp] + sps| - 1
        ensures ([sp] + sps)[i].terminated
      {
        if i > 0 {
          assert ([sp] + sps)[i] == sps[i - 1];
        }
      }
    }
  }

  /// The first declaration of a non-empty input that parses: the arm that
  /// won has captured it written in its own spelling, followed by the rest.
  lemma FirstMatchSound(ts: seq<Token>)
    requires FirstMatch(Arms, ts).Some?
    ensures ts == Spell(FirstMatch(Arms, ts).value.decl, FirstMatch(Arms, ts).value.arm) + FirstMatch(Arms, ts).value.rest
    ensures FirstMatch(Arms, ts).value.arm.terminated || FirstMatch(Arms, ts).value.rest == []
    ensures |FirstMatch(Arms, ts).value.rest| < |ts|
  {
    var k := FirstArm(Arms, ts);
    MatchArmSound(Arms[k], ts);
  }

  /// Everything the macro accepts is a batch of written declarations, each
  /// but the last followed by `;`, and it parses to exactly those
  /// declarations: the converse of `ExpandSpellBatch`.
  lemma {:induction false} ParseBatchSound(ts: seq<Token>, ds: seq<Decl>)
    requires ParseBatch(ts) == Some(ds)
    ensures exists sps :: |sps| == |ds| && WellSeparated(sps) && ts == SpellBatch(ds, sps)
    decreases |ts|
  {
    if ts == [] {
      assert WellSeparated([]) && ts == SpellBatch(ds, []);
    } else {
      var m := ParseBatchUncons(ts, ds);
      if m.arm.terminated {
        ParseBatchSound(m.rest, ds[1..]);
        var sps :| |sps| == |ds[1..]| && WellSeparated(sps) && m.rest == SpellBatch(ds[1..], sps);
        SoundCons(ts, m, ds, sps);
      } else {
        SoundLast(ts, m, ds);
      }
    }
  }

  /// The first declaration of a non-empty input that parses, and what is
  /// left of the batch after it.
  lemma ParseBatchUncons(ts: seq<Token>, ds: seq<Decl>) returns (m: Match)
    requires ts != [] && ParseBatch(ts) == Some(ds)
    ensures ts == Spell(m.decl, m.arm) + m.rest && |m.rest| < |ts|
    ensures ds != [] && ds[0] == m.decl
    ensures m.arm.terminated ==> ParseBatch(m.rest) == Some(ds[1..])
    ensures !m.arm.terminated ==> ds == [m.decl] && m.rest == []
  {
    m := FirstMatch(Arms, ts).value;
    FirstMatchSound(ts);
    ParseBatchStep(ts, m);
    if m.arm.terminated {
      assert ds == [m.decl] + ParseBatch(m.rest).value;
    }
  }

  lemma SoundCons(ts: seq<Token>, m: Match, ds: seq<Decl>, sps: seq<Spelling>)
    requires ts == Spell(m.decl, m.arm) + m.rest && m.arm.terminated
    requires ds != [] && ds[0] == m.decl
    requires |sps| == |ds[1..]| && WellSeparated(sps) && m.rest == SpellBatch(ds[1..], sps)
    ensures |[m.arm] + sps| == |ds| && WellSeparated([m.arm] + sps)
    ensures ts == SpellBatch(ds, [m.arm] + sps)
  {
    SpellBatchCons(m.decl, m.arm, ds[1..], sps);
    assert [m.decl] + ds[1..] == ds;
  }

  lemma SoundLast(ts: seq<Token>, m: Match, ds: seq<Decl>)
    requires ts == Spell(m.decl, m.arm) + m.rest && ds == [m.decl] && m.rest == []
    ensures |[m.arm]| == |ds| && WellSeparated([m.arm]) && ts == SpellBatch(ds, [m.arm])
  {
    SpellBatchCons(m.decl, m.arm, [], []);
  }

  /// The macro accepts exactly the written batches whose declarations,
  /// except the last, end with `;`, and parses each to its declarations.
  lemma ParseBatchExactly(ts: seq<Token>, ds: seq<Decl>)
    ensures ParseBatch(ts) == Some(ds)
        <==> exists sps :: |sps| == |ds| && WellSeparated(sps) && ts == SpellBatch(ds, sps)
  {
    if ParseBatch(ts) == Some(ds) {
      ParseBatchSound(ts, ds);
    }
    if exists sps :: |sps| == |ds| && WellSeparated(sps) && ts == SpellBatch(ds, sps) {
      var sps :| |sps| == |ds| && WellSeparated(sps) && ts == SpellBatch(ds, sps);
      ParseSpellBatch(ds, sps);
    }
  }

  /// A declaration that matches no arm fails the whole invocation, however
  /// many well-formed declarations come before it.
  lemma LaterFailureRejected(ds: seq<Decl>, sps: seq<Spelling>, rest: seq<Token>)
    requires |ds| == |sps| && forall i :: 0 <= i < |sps| ==> sps[i].terminated
    requires Expand(rest) == None
    ensures Expand(SpellBatch(ds, sps) + rest) == None
  {
    LaterParseFailure(ds, sps, rest);
  }

  lemma {:induction false} LaterParseFailure(ds: seq<Decl>, sps: seq<Spelling>, rest: seq<Token>)
    requires |ds| == |sps| && forall i :: 0 <= i < |sps| ==> sps[i].terminated
    requires ParseBatch(rest) == None
    ensures ParseBatch(SpellBatch(ds, sps) + rest) == None
    decreases |ds|
  {
    if ds != [] {
      var after := SpellBatch(ds[1..], sps[1..]) + rest;
      LaterParseFailure(ds[1..], sps[1..], rest);
      SpellBatchThen(ds, sps, rest);
      FailCons(ds[0], sps[0], after);
    } else {
      assert SpellBatch(ds, sps) + rest == rest;
    }
  }

  lemma SpellBatchThen(ds: seq<Decl>, sps: seq<Spelling>, rest: seq<Token>)
    requires |ds| == |sps| && ds != []
    ensures SpellBatch(ds, sps) + rest == Spell(ds[0], sps[0]) + (SpellBatch(ds[1..], sps[1..]) + rest)
  {
  }

  lemma FailCons(d: Decl, sp: Spelling, after: seq<Token>)
    requires sp.terminated && ParseBatch(after) == None
    ensures ParseBatch(Spell(d, sp) + after) == None
  {
    ParseSpelled(d, sp, after);
  }

  /// When no arm matches a non-empty input, the invocation fails.
  lemma NoArmMatches(ts: seq<Token>)
    requires ts != []
    requires forall i :: 0 <= i < |Arms| ==> MatchArm(Arms[i], ts).None?
    ensures Expand(ts) == None && ParseBatch(ts) == None
  {
    assert FirstMatch(Arms, ts).None?;
  }

  /// No arm matches a declaration whose length is anything but `_`, so the
  /// whole invocation fails.
  lemma LengthNotPlaceholderRejected(attrs: seq<Meta>, vis: Option<Vis>, name: string, ty: Ty, len: Token, more: seq<Token>)
    requires len != Underscore
    ensures Expand(Header(attrs, vis, name, ty, len) + more) == None
  {
    var ts := Header(attrs, vis, name, ty, len) + more;
    MatchHeaderWritten(attrs, vis, name, ty, len, more);
    forall i | 0 <= i < |Arms|
      ensures MatchArm(Arms[i], ts).None?
    {
      MatchArmAfterHeader(Arms[i], ts, HeaderMatch(attrs, vis, name, ty, len, more));
    }
    NoArmMatches(ts);
  }

  /// The macro does not accept its own output: the length slot then
  /// holds a `count!` invocation instead of `_`.
  lemma OutputRejected(d: Decl, more: seq<Token>)
    ensures Expand(Emit(d) + more) == None
  {
    var rest := [Group(Bracket, TrailingTokens(d.elems)), Semi] + more;
    EmitSplit(d, more);
    LengthNotPlaceholderRejected(d.attrs, d.vis, d.name, d.ty, CountCall(ExprTokens(d.elems)), rest);
  }

  /// `[...]` holding an element list in one of the two spellings.
  predicate IsElementList(v: Token) {
    IsBracketGroup(v) && (MatchTrailing(v.inner).Some? || MatchSeparated(v.inner).Some?)
  }

  /// No arm matches a declaration whose value is not a bracketed element
  /// list (a parenthesised or braced group, a path, a call, `[x; 3]`), so
  /// the whole invocation fails.
  lemma ValueNotListRejected(attrs: seq<Meta>, vis: Option<Vis>, name: string, ty: Ty, value: Token, more: seq<Token>)
    requires !IsElementList(value)
    ensures Expand(Header(attrs, vis, name, ty, Underscore) + [value] + more) == None
  {
    var ts := Header(attrs, vis, name, ty, Underscore) + [value] + more;
    var h := HeaderMatch(attrs, vis, name, ty, Underscore, [value] + more);
    assert ts == Header(attrs, vis, name, ty, Underscore) + ([value] + more);
    MatchHeaderWritten(attrs, vis, name, ty, Underscore, [value] + more);
    forall i | 0 <= i < |Arms|
      ensures MatchArm(Arms[i], ts).None?
    {
      MatchArmAfterHeader(Arms[i], ts, h);
      ValueNotListArm(Arms[i], h);
    }
    NoArmMatches(ts);
  }

  lemma ValueNotListArm(arm: Spelling, h: HeaderMatch)
    requires h.rest != [] && !IsElementList(h.rest[0])
    ensures MatchArmTail(arm, h).None?
  {
    if IsBracketGroup(h.rest[0]) {
      assert MatchList(h.rest[0].inner, arm.list).None?;
    }
  }

  /// No arm matches a declaration that is followed by more tokens but not
  /// by `;`, so the whole invocation fails.
  lemma MissingSemicolonRejected(d: Decl, sp: Spelling, more: seq<Token>)
    requires !sp.terminated && more != [] && more[0] != Semi
    ensures Expand(Spell(d, sp) + more) == None
  {
    var ts := Spell(d, sp) + more;
    SpellSplit(d, sp, more);
    var after := [Group(Bracket, ListTokens(d.elems, sp.list))] + Terminator(sp) + more;
    MatchHeaderWritten(d.attrs, d.vis, d.name, d.ty, Underscore, after);
    var h := HeaderMatch(d.attrs, d.vis, d.name, d.ty, Underscore, after);
    forall i | 0 <= i < |Arms|
      ensures MatchArm(Arms[i], ts).None?
    {
      MatchArmAfterHeader(Arms[i], ts, h);
      MissingSemicolonArm(Arms[i], h, more);
    }
    NoArmMatches(ts);
  }

  lemma MissingSemicolonArm(arm: Spelling, h: HeaderMatch, more: seq<Token>)
    requires |h.rest| >= 1 && h.rest[1..] == more && more != [] && more[0] != Semi
    ensures MatchArmTail(arm, h).None?
  {
  }
}
