/// The `count!` macro: a counter over token trees.
module Count {
  import opened Tokens

  /// The expression `count!` expands to: `0usize`, or `1usize + (rest)`.
  datatype SizeExpr = ZeroUsize | OnePlus(rest: SizeExpr)

  /// What the compiler evaluates a size expression to (as `nat`:
  /// `usize` arithmetic is left to the compiler).
  function Value(e: SizeExpr): nat {
    match e
    case ZeroUsize => 0
    case OnePlus(rest) => 1 + Value(rest)
  }

  /// The full expansion of `count!(ts)`: the empty invocation gives
  /// `0usize`, and a leading token tree followed by more gives
  /// `1usize + count!(more)`. Its value is the number of token trees.
  function CountExpansion(ts: seq<Token>): (r: SizeExpr)
    ensures Value(r) == |ts|
    ensures r == ZeroUsize <==> ts == []
    decreases |ts|
  {
    if ts == [] then ZeroUsize else OnePlus(CountExpansion(ts[1..]))
  }

  /// The expansion looks at no token's contents: two invocations with the
  /// same number of token trees expand to the same expression.
  lemma {:induction false} CountIgnoresContents(a: seq<Token>, b: seq<Token>)
    requires |a| == |b|
    ensures CountExpansion(a) == CountExpansion(b)
    decreases |a|
  {
    if a != [] {
      CountIgnoresContents(a[1..], b[1..]);
    }
  }
}
