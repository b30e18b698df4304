# auto-const-array, modelled in Dafny

`auto_const_array!` is a declarative (`macro_rules!`) Rust macro. It lets a
crate declare constant arrays without writing out their length:

```rust
auto_const_array! {
    pub const FOO: [u8; _] = [1, 2, 3];
    #[allow(unused)]
    const BAR: [u32; _] = [1];
}
```

Each declaration is re-emitted with `_` replaced by
`$crate::count!(1 2 3)`. The helper macro `count!` expands to
`1usize + (1usize + (1usize + 0usize))`, which the compiler evaluates to 3.
The elements are re-emitted in trailing-comma form. The macro then recurses
on the tokens after the declaration's `;`.

The model is pure, like the macros: datatypes, recursive functions and
lemmas. There are five modules:

- `Tokens` (tokens.dfy): the token trees the matcher sees. Each captured
  fragment (`meta`, `vis`, `ty`, `expr`) is one opaque token. A delimited
  group is one token holding its contents. The emitted
  `$crate::count!(args)` is one token, `CountCall(args)`.
- `Count` (count.dfy): `count!` as `CountExpansion`, which builds the
  `0usize` / `1usize + …` expression, and `Value`, its value as the
  compiler evaluates it.
- `Syntax` (syntax.dfy): the declaration grammar shared by the four arms.
  It has writers (`Spell`, `Header`, `TrailingTokens`, `SeparatedTokens`)
  and matchers (`MatchAttrs`, `MatchVis`, `MatchHeader`, `MatchTrailing`,
  `MatchSeparated`). Lemmas show that each matcher accepts exactly what its
  writer produces.
- `AutoConstArray` (macro.dfy): the four declaration arms (`MatchArm`),
  tried in source order (`FirstMatch`). It also holds the emitter (`Emit`),
  the recursive driver (`Expand`) and the declarations the driver walks
  through (`ParseBatch`). Its lemmas cover the batch, spelling-equivalence
  and failure properties.
- `Expansion` (expansion.dfy): `ReadItems` reads the output the way the
  compiler does: each emitted declaration becomes a constant with a
  numeric length. The headline theorem `ExpansionMeaning` says that every
  accepted invocation is a batch of written declarations, each but the last
  followed by `;`, and that the output declares, in order, one constant per
  written declaration. Each constant's length equals its number of
  elements, and its attributes, visibility, name, type and elements are
  copied from the declaration as written. The crate's unit test and its
  example program are worked through as concrete lemmas.

An arm is named by the one spelling it accepts (`Spelling(list,
terminated)`). Arms 1 and 2 (src/lib.rs:19, 23) take a trailing-comma list
and a comma-separated list, each followed by `;` and the rest. Arms 3 and 4
(src/lib.rs:27, 30) take the same two lists with nothing after them. A
`[]` list is matched by the trailing-comma arm first.

The code modelled is the `macro_rules!` version in src/lib.rs. Every
element expression is counted once, whatever its attributes. Any `expr`
fragment is accepted. Every failure is a plain "no arm matches", which
fails the whole invocation.

## Model

| member | source | states |
|---|---|---|
| Count.CountExpansion | src/lib.rs:37-40 | `count!()` expands to `0usize` and only the empty invocation does; a non-empty one adds `1usize +` per leading token tree, so the value of the expansion is exactly the number of token trees |
| Count.CountIgnoresContents | src/lib.rs:39 | the expansion depends only on how many token trees there are, not on what they are (attributes on an element do not change its count) |
| Syntax.TrailingTokens | src/lib.rs:20 | the emitted list `[$($inner,)*]` has two tokens per element and ends with a comma when non-empty |
| Syntax.SeparatedTokens | src/lib.rs:23 | the spelling `[$($inner:expr),*]` has 2n-1 tokens for n > 0 elements, none for zero |
| Syntax.MatchAttrs | src/lib.rs:19 | `$(#[$attr:meta])*` consumes a run of attributes, in order, and leaves no attribute at the front of what follows |
| Syntax.MatchVis | src/lib.rs:19 | `$vis:vis` captures a visibility fragment or nothing (private) |
| Syntax.MatchHeaderSound | src/lib.rs:19 | whatever the header matcher accepts is a written header `attrs vis const NAME: [T; LEN] =` followed by the rest |
| Syntax.MatchTrailing | src/lib.rs:19 | whatever `[$($inner:expr,)*]` accepts is the trailing-comma spelling of the captured elements |
| Syntax.MatchSeparatedNonEmpty | src/lib.rs:23 | whatever `$($inner:expr),+` accepts is the comma-separated spelling of a non-empty element list |
| Syntax.MatchSeparated | src/lib.rs:23 | whatever `[$($inner:expr),*]` accepts is the comma-separated spelling of the captured elements |
| Syntax.MatchList | src/lib.rs:19-23 | each list matcher accepts only its own spelling of the captured elements |
| Syntax.MatchAttrsWritten | src/lib.rs:19 | written attributes are captured back in order, and the rest is untouched |
| Syntax.MatchVisWritten | src/lib.rs:19 | a written visibility, or its absence, is captured back exactly |
| Syntax.MatchHeaderWritten | src/lib.rs:19 | a written header is read back with its attributes, visibility, name, type and length token unchanged |
| Syntax.MatchTrailingWritten | src/lib.rs:19 | a trailing-comma list reads back as the same elements in the same order |
| Syntax.MatchSeparatedNonEmptyWritten | src/lib.rs:23 | a non-empty comma-separated list reads back as the same elements in the same order |
| Syntax.MatchListExactly | src/lib.rs:19-23 | a list matcher returns elements `es` if and only if the tokens are `es` in that style |
| Syntax.MatchListOtherStyle | src/lib.rs:19-24 | a list read in its own style gives back its elements; read in the other style it is accepted exactly when it is empty |
| AutoConstArray.ArmsCoverEverySpelling | src/lib.rs:19-31 | the four arms cover every combination of list spelling and final `;` |
| AutoConstArray.MatchArm | src/lib.rs:19-31 | an arm that matches reports itself, captures no rest if it is one of the two arms without `;`, and leaves a rest shorter than its input (so the recursion terminates) |
| AutoConstArray.MatchArmTailSound | src/lib.rs:19-31 | after the header, an arm accepts only the placeholder `_` as length, then the value in its own list spelling, then `;` and the rest (first two arms) or nothing (last two) |
| AutoConstArray.MatchArmSound | src/lib.rs:19-31 | an arm that matches has captured a declaration written in that arm's spelling, followed by the rest |
| AutoConstArray.FirstArm | src/lib.rs:17-33 | the arm chosen is the first one that matches: it matches and every earlier arm does not; past the end means no arm matches |
| AutoConstArray.FirstMatch | src/lib.rs:17-33 | there is no result if and only if no arm matches; otherwise the result is the capture of the first matching arm |
| AutoConstArray.Expand | src/lib.rs:18-32 | the invocation succeeds exactly when every declaration parses, and its output is the emitted form of each parsed declaration, concatenated in input order |
| AutoConstArray.CountArgs | src/lib.rs:20 | the argument `$($inner)*` of the emitted `count!` has one token tree per element, so the length it evaluates to is the number of elements |
| AutoConstArray.ParseBatchSound | src/lib.rs:18-32 | everything the macro splits into declarations is those declarations written one after the other, each but the last followed by `;` |
| AutoConstArray.ParseBatchExactly | src/lib.rs:18-32 | the input splits into declarations `ds` if and only if it is `ds` written one after the other, in any mix of list spellings, each but the last followed by `;` |
| AutoConstArray.MatchArmSpelled | src/lib.rs:19-31 | on a written declaration an arm matches if and only if it has the same terminator and the same list style (or the list is empty), and it captures the declaration and the rest unchanged |
| AutoConstArray.ArmAcceptsExactly | src/lib.rs:19-31 | an arm captures declaration `d` and rest `r` if and only if the input is `d` in that arm's spelling followed by `r` |
| AutoConstArray.FirstMatchSpelled | src/lib.rs:17-33 | whichever arm matches first on a written declaration, it yields that declaration, the rest, and the declaration's own terminator |
| AutoConstArray.ParseSpelled | src/lib.rs:19-32 | a written declaration followed by the rest parses as that declaration followed by the declarations of the rest |
| AutoConstArray.ExpandSpelled | src/lib.rs:19-32 | a written declaration followed by the rest expands to its emitted form followed by the expansion of the rest, for both list spellings and for a final declaration with or without `;`; if the rest fails, the invocation fails |
| AutoConstArray.ExpandSpellBatch | src/lib.rs:18-32 | a batch in which every declaration except the last ends with `;` parses to its declarations and expands to their emitted forms in order; the empty batch expands to nothing |
| AutoConstArray.SpellingsAgree | src/lib.rs:19-32 | two spellings of the same declarations that differ in trailing commas and in the final `;` expand identically |
| AutoConstArray.LengthNotPlaceholderRejected | src/lib.rs:19-30 | a declaration whose length is not `_` matches no arm, and the invocation fails |
| AutoConstArray.OutputRejected | src/lib.rs:19-31 | the macro rejects its own output, whose length slot holds a `count!` invocation |
| AutoConstArray.ValueNotListRejected | src/lib.rs:19-30 | a declaration whose value is not a bracketed element list matches no arm, and the invocation fails |
| AutoConstArray.ValueNotListArm | src/lib.rs:19-30 | after a header, no arm accepts a value that is not a bracketed element list |
| AutoConstArray.MissingSemicolonRejected | src/lib.rs:19-31 | a declaration followed by more tokens that do not start with `;` matches no arm, and the invocation fails |
| AutoConstArray.MissingSemicolonArm | src/lib.rs:19-31 | after a header and a value, no arm accepts a token other than `;`: the first two arms want `;`, the last two want nothing |
| AutoConstArray.LaterFailureRejected | src/lib.rs:19-32 | a declaration that matches no arm fails the whole invocation, however many well-formed declarations come before it |
| Expansion.ReadEmit | src/lib.rs:20-31 | an emitted declaration reads back with length equal to its number of elements, the elements unchanged and in order, and attributes, visibility, name and type copied |
| Expansion.ReadEmitAll | src/lib.rs:18-32 | concatenated emitted declarations read back, in order, as their intended constants |
| Expansion.ExpansionMeaning | src/lib.rs:17-40 | every accepted invocation is a batch of written declarations, each but the last followed by `;`, and declares one constant per declaration, in order, with length equal to its number of elements and all other parts copied from the declaration as written |
| Expansion.UnitTestBatch | src/lib.rs:44-51 | the crate's unit test expands to lengths 3 for `[1, 2, 3]`, 0 for `[]` and 2 for `[1 + 1, 2 + 2,]`, keeping `#[allow(unused)]` |
| Expansion.DemoBatch | examples/demo.rs:3-17 | the example program's invocation expands to `ARRAY_COMMON` of length 3, which keeps its doc comment, attribute and `pub`, and to `ARRAY_WITH_ATTR`, written without a final `;`, of length 2 (the unix case of the example's assertion) |

## Left out

- Conditional compilation: `count!` adds one per element whatever `#[cfg]` the element carries, and the model shows this (`CountIgnoresContents`; `DemoBatch` gives `ARRAY_WITH_ATTR`, whose second element is `#[cfg(unix)] 2`, length 2 in every build configuration). Whether the compiler then removes a cfg-disabled element from the array is the compiler's business and is not modelled. So, by this reading of src/lib.rs, a non-unix build of examples/demo.rs would declare a `[u8; 2]` holding one element and fail to compile (not confirmed by a build), contrary to the expectation at examples/demo.rs:14-15 and the crate documentation at src/lib.rs:2.
- The internal grammar of `meta`, `vis`, `ty` and `expr` fragments: each is one opaque token, and the input is taken as already classified into such tokens. Expression parsing, type checking and macro hygiene belong to the compiler.
- rustc's matcher can stop on a hard error inside a fragment parser or on a local ambiguity, rather than fall through to the next arm. With opaque fragments every failure is "no arm matches". The outcome is the same: the invocation fails.
- `usize` arithmetic in `1usize + …`: the compiler evaluates it, and the model uses `nat`.
- Expansion depth: the model puts no limit on it. `count!` nests one macro expansion per element (src/lib.rs:39) and `auto_const_array!` one per declaration (src/lib.rs:21, 25), and rustc stops at its `recursion_limit` (128 by default). A long element list or a long batch can therefore fail to expand where `ExpandSpellBatch` says it expands.
- The `main` function of examples/demo.rs: it only asserts `.len()` at run time.
- `#[macro_export]`, `#[doc(hidden)]`, the `$crate::` path, diagnostic texts and spans: compiler plumbing, not logic. `$crate::count!(…)` is one token.
