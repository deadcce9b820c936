/** The recursive-descent parser of the policy expression language. */
module PolicyParser {
  import opened Text
  import opened PolicyAst
  import opened PolicyLexer

  // ---- The recursive descent as functions of the token list and an index ----

  /** A tree and the index of the first token after it, or the error that is raised and the index it is raised at. */
  datatype Parse<+T> = Parsed(value: T, next: nat) | Failed(error: SyntaxError, at: nat)

  /** The token list is closed by `Eof`; the parser never moves past it. */
  predicate Closed(t: seq<Token>) { t != [] && t[|t| - 1] == Eof }

  function ParseOr(t: seq<Token>, i: nat): (r: Parse<Expr>)
    requires Closed(t) && i < |t|
    ensures r.Parsed? ==> i < r.next < |t|
    ensures r.Failed? ==> i <= r.at < |t|
    decreases |t| - i, 6
  {
    match ParseAnd(t, i)
    case Parsed(left, j) => OrRest(t, j, left)
    case Failed(e, p) => Failed(e, p)
  }

  /** `or` operands from index `i` on, folded onto `left`. */
  function OrRest(t: seq<Token>, i: nat, left: Expr): (r: Parse<Expr>)
    requires Closed(t) && i < |t|
    ensures r.Parsed? ==> i <= r.next < |t|
    ensures r.Failed? ==> i <= r.at < |t|
    decreases |t| - i, 5
  {
    if t[i] != KwOr then Parsed(left, i)
    else match ParseAnd(t, i + 1)
      case Parsed(right, j) => OrRest(t, j, Or(left, right))
      case Failed(e, p) => Failed(e, p)
  }

  function ParseAnd(t: seq<Token>, i: nat): (r: Parse<Expr>)
    requires Closed(t) && i < |t|
    ensures r.Parsed? ==> i < r.next < |t|
    ensures r.Failed? ==> i <= r.at < |t|
    decreases |t| - i, 4
  {
    match ParseNot(t, i)
    case Parsed(left, j) => AndRest(t, j, left)
    case Failed(e, p) => Failed(e, p)
  }

  function AndRest(t: seq<Token>, i: nat, left: Expr): (r: Parse<Expr>)
    requires Closed(t) && i < |t|
    ensures r.Parsed? ==> i <= r.next < |t|
    ensures r.Failed? ==> i <= r.at < |t|
    decreases |t| - i, 3
  {
    if t[i] != KwAnd then Parsed(left, i)
    else match ParseNot(t, i + 1)
      case Parsed(right, j) => AndRest(t, j, And(left, right))
      case Failed(e, p) => Failed(e, p)
  }

  function ParseNot(t: seq<Token>, i: nat): (r: Parse<Expr>)
    requires Closed(t) && i < |t|
    ensures r.Parsed? ==> i < r.next < |t|
    ensures r.Failed? ==> i <= r.at < |t|
    decreases |t| - i, 2
  {
    if t[i] == KwNot then
      match ParseNot(t, i + 1)
      case Parsed(x, j) => Parsed(Unary("not", x), j)
      case Failed(e, p) => Failed(e, p)
    else ParseComparison(t, i)
  }

  /** The comparison operator at index `i` and how many tokens write it. */
  function OperatorAt(t: seq<Token>, i: nat): Option<(string, nat)>
    requires i < |t|
  {
    if t[i].Cmp? && t[i].op in COMPARISONS then Some((t[i].op, 1))
    else if t[i] == KwNot && i + 1 < |t| && t[i + 1] == KwIn then Some(("not_in", 2))
    else if t[i] == KwIn then Some(("in", 1))
    else None
  }

  function ParseComparison(t: seq<Token>, i: nat): (r: Parse<Expr>)
    requires Closed(t) && i < |t|
    ensures r.Parsed? ==> i < r.next < |t|
    ensures r.Failed? ==> i <= r.at < |t|
    decreases |t| - i, 1
  {
    match ParsePrimary(t, i)
    case Failed(e, p) => Failed(e, p)
    case Parsed(left, j) =>
      match OperatorAt(t, j)
      case None => Parsed(left, j)
      case Some((op, n)) =>
        match ParsePrimary(t, j + n)
        case Parsed(right, k) => Parsed(Binary(left, op, right), k)
        case Failed(e, p) => Failed(e, p)
  }

  function ParsePrimary(t: seq<Token>, i: nat): (r: Parse<Expr>)
    requires Closed(t) && i < |t|
    ensures r.Parsed? ==> i < r.next < |t|
    ensures r.Failed? ==> i <= r.at < |t|
    decreases |t| - i, 0
  {
    if t[i] == LParen then
      match ParseOr(t, i + 1)
      case Failed(e, p) => Failed(e, p)
      case Parsed(inner, j) =>
        if t[j] == RParen then Parsed(inner, j + 1) else Failed(ExpectedToken(RParen, t[j]), j)
    else if LiteralOf(t[i]).Some? then Parsed(Literal(LiteralOf(t[i]).value), i + 1)
    else if t[i].Ident? then
      match RefParts(t, i)
      case Parsed(parts, j) => Parsed(Ref(parts), j)
      case Failed(e, p) => Failed(e, p)
    else Failed(UnexpectedToken(t[i]), i)
  }

  function LiteralOf(tok: Token): Option<Value> {
    match tok
    case KwNull => Some(Null)
    case KwTrue => Some(Bool(true))
    case KwFalse => Some(Bool(false))
    case StrTok(s) => Some(Str(s))
    case NumTok(v) => Some(v)
    case _ => None
  }

  function RefParts(t: seq<Token>, i: nat): (r: Parse<seq<string>>)
    requires Closed(t) && i < |t| && t[i].Ident?
    ensures r.Parsed? ==> i < r.next < |t|
    ensures r.Failed? ==> i <= r.at < |t|
    decreases |t| - i
  {
    if t[i + 1] != Dot then Parsed([t[i].name], i + 1)
    else if !t[i + 2].Ident? then Failed(ExpectedIdentifier, i + 2)
    else match RefParts(t, i + 2)
      case Parsed(parts, j) => Parsed([t[i].name] + parts, j)
      case Failed(e, p) => Failed(e, p)
  }

  /** `_Parser.parse`: the tree must reach to the closing `Eof`. */
  function ParseTokens(t: seq<Token>): Result<Expr, SyntaxError>
    requires Closed(t)
  {
    match ParseOr(t, 0)
    case Parsed(e, j) => if t[j] == Eof then Ok(e) else Err(UnexpectedToken(t[j]))
    case Failed(e, _) => Err(e)
  }

  // ---- The parser object ----

  class Parser {
    const tokens: seq<Token>
    var i: nat

    ghost predicate Valid()
      reads this
    {
      Closed(tokens) && i < |tokens|
    }

    constructor (tokens: seq<Token>)
      requires Closed(tokens)
      ensures Valid() && this.tokens == tokens && i == 0
    {
      this.tokens := tokens;
      i := 0;
    }

    /** What a parsing method promises: it does what the function of the same name says, and stops at the same token. */
    ghost predicate Did<T>(spec: Parse<T>, r: Result<T, SyntaxError>)
      reads this
    {
      match r
      case Ok(v) => spec == Parsed(v, i)
      case Err(e) => spec == Failed(e, i)
    }

    function Peek(): Token
      requires Valid()
      reads this
    {
      tokens[i]
    }

    method Advance() returns (tok: Token)
      requires Valid()
      modifies this
      ensures Valid() && tok == tokens[old(i)]
      ensures i == if tok == Eof then old(i) else old(i) + 1
    {
      tok := Peek();
      if tok != Eof {
        i := i + 1;
      }
    }

    method Expect(tok: Token) returns (r: Result<Token, SyntaxError>)
      requires Valid() && tok != Eof
      modifies this
      ensures Valid()
      ensures tokens[old(i)] == tok ==> r == Ok(tok) && i == old(i) + 1
      ensures tokens[old(i)] != tok ==> r == Err(ExpectedToken(tok, tokens[old(i)])) && i == old(i)
    {
      var got := Peek();
      if got != tok {
        return Err(ExpectedToken(tok, got));
      }
      got := Advance();
      return Ok(got);
    }

    method Run() returns (r: Result<Expr, SyntaxError>)
      requires Valid() && i == 0
      modifies this
      ensures r == ParseTokens(tokens)
    {
      var expr :- Or();
      if Peek() != Eof {
        return Err(UnexpectedToken(Peek()));
      }
      return Ok(expr);
    }

    method Or() returns (r: Result<Expr, SyntaxError>)
      requires Valid()
      modifies this
      ensures Valid() && Did(ParseOr(tokens, old(i)), r)
      decreases |tokens| - i, 4
    {
      var left :- And();
      while Peek() == KwOr
        invariant Valid() && old(i) < i
        invariant ParseOr(tokens, old(i)) == OrRest(tokens, i, left)
        decreases |tokens| - i
      {
        var _ := Advance();
        var right :- And();
        left := Expr.Or(left, right);
      }
      return Ok(left);
    }

    method And() returns (r: Result<Expr, SyntaxError>)
      requires Valid()
      modifies this
      ensures Valid() && Did(ParseAnd(tokens, old(i)), r)
      decreases |tokens| - i, 3
    {
      var left :- Not();
      while Peek() == KwAnd
        invariant Valid() && old(i) < i
        invariant ParseAnd(tokens, old(i)) == AndRest(tokens, i, left)
        decreases |tokens| - i
      {
        var _ := Advance();
        var right :- Not();
        left := Expr.And(left, right);
      }
      return Ok(left);
    }

    method Not() returns (r: Result<Expr, SyntaxError>)
      requires Valid()
      modifies this
      ensures Valid() && Did(ParseNot(tokens, old(i)), r)
      decreases |tokens| - i, 2
    {
      if Peek() == KwNot {
        var _ := Advance();
        var x :- Not();
        return Ok(Unary("not", x));
      }
      r := Comparison();
    }

    method Comparison() returns (r: Result<Expr, SyntaxError>)
      requires Valid()
      modifies this
      ensures Valid() && Did(ParseComparison(tokens, old(i)), r)
      decreases |tokens| - i, 1
    {
      var left :- Primary();
      var tok := Peek();
      if tok.Cmp? && tok.op in COMPARISONS {
        var op := Advance();
        var right :- Primary();
        return Ok(Binary(left, op.op, right));
      }
      if tok == KwNot && i + 1 < |tokens| && tokens[i + 1] == KwIn {
        var _ := Advance();
        var _ := Expect(KwIn);  // cannot fail: the token was looked at
        var right :- Primary();
        return Ok(Binary(left, "not_in", right));
      }
      if tok == KwIn {
        var _ := Advance();
        var right :- Primary();
        return Ok(Binary(left, "in", right));
      }
      return Ok(left);
    }

    method Primary() returns (r: Result<Expr, SyntaxError>)
      requires Valid()
      modifies this
      ensures Valid() && Did(ParsePrimary(tokens, old(i)), r)
      decreases |tokens| - i, 0
    {
      var tok := Peek();
      if tok == LParen {
        var _ := Advance();
        var inner :- Or();
        var _ :- Expect(RParen);
        return Ok(inner);
      }
      match LiteralOf(tok)
      case Some(v) =>
        var _ := Advance();
        return Ok(Literal(v));
      case None =>
        if tok.Ident? {
          r := Reference();
        } else {
          r := Err(UnexpectedToken(tok));
        }
    }

    method Reference() returns (r: Result<Expr, SyntaxError>)
      requires Valid() && Peek().Ident?
      modifies this
      ensures Valid()
      ensures Did(match RefParts(tokens, old(i))
                  case Parsed(parts, j) => Parsed(Ref(parts), j)
                  case Failed(e, p) => Failed(e, p), r)
    {
      var parts: seq<string> := [];
      ghost var whole := RefParts(tokens, i);
      assert whole.Parsed? ==> whole.value == parts + whole.value;
      while true
        invariant Valid() && Peek().Ident?
        invariant whole == match RefParts(tokens, i)
                           case Parsed(more, j) => Parsed(parts + more, j)
                           case Failed(e, p) => Failed(e, p)
        decreases |tokens| - i
      {
        ghost var rest := RefParts(tokens, i);
        var tok := Advance();
        if Peek() != Dot {
          parts := parts + [tok.name];
          break;
        }
        var _ := Advance();
        if !Peek().Ident? {
          return Err(ExpectedIdentifier);
        }
        assert rest.Parsed? ==> parts + rest.value == (parts + [tok.name]) + rest.value[1..];
        parts := parts + [tok.name];
      }
      return Ok(Ref(parts));
    }
  }

  // ---- The grammar ----

  ghost predicate DerivesOr(e: Expr, ts: seq<Token>)
    decreases |ts|, 5
  {
    || DerivesAnd(e, ts)
    || (e.Or? && exists k ::
          0 <= k < |ts| && ts[k] == KwOr && DerivesOr(e.left, ts[..k]) && DerivesAnd(e.right, ts[k + 1..]))
  }

  ghost predicate DerivesAnd(e: Expr, ts: seq<Token>)
    decreases |ts|, 4
  {
    || DerivesNot(e, ts)
    || (e.And? && exists k ::
          0 <= k < |ts| && ts[k] == KwAnd && DerivesAnd(e.left, ts[..k]) && DerivesNot(e.right, ts[k + 1..]))
  }

  ghost predicate DerivesNot(e: Expr, ts: seq<Token>)
    decreases |ts|, 3
  {
    || DerivesComparison(e, ts)
    || (e.Unary? && e.op == "not" && ts != [] && ts[0] == KwNot && DerivesNot(e.operand, ts[1..]))
  }

  predicate IsOperator(op: string) { op in COMPARISONS || op in {"in", "not_in"} }

  /** The tokens that write a binary operator. */
  function OperatorTokens(op: string): (ts: seq<Token>)
    ensures ts != []
  {
    if op == "in" then [KwIn] else if op == "not_in" then [KwNot, KwIn] else [Cmp(op)]
  }

  ghost predicate DerivesComparison(e: Expr, ts: seq<Token>)
    decreases |ts|, 2
  {
    || DerivesPrimary(e, ts)
    || (e.Binary? && IsOperator(e.op) && exists k, n :: ComparesAt(e, ts, k, n))
  }

  /** Two primary operands with the operator of `e` written in `ts[k..n]` between them. */
  ghost predicate ComparesAt(e: Expr, ts: seq<Token>, k: int, n: int)
    requires e.Binary?
    decreases |ts|, 1
  {
    && 0 < k < n <= |ts|
    && ts[k..n] == OperatorTokens(e.op)
    && DerivesPrimary(e.left, ts[..k])
    && DerivesPrimary(e.right, ts[n..])
  }

  ghost predicate DerivesPrimary(e: Expr, ts: seq<Token>)
    decreases |ts|, 0
  {
    || (e.Literal? && |ts| == 1 && LiteralOf(ts[0]) == Some(e.value))
    || (e.Ref? && e.parts != [] && ts == RefTokens(e.parts))
    || (|ts| > 2 && ts[0] == LParen && ts[|ts| - 1] == RParen && DerivesOr(e, ts[1..|ts| - 1]))
  }

  /** A dotted path of identifiers. */
  function RefTokens(parts: seq<string>): (ts: seq<Token>)
    ensures parts != [] ==> ts != []
  {
    if parts == [] then []
    else if |parts| == 1 then [Ident(parts[0])]
    else [Ident(parts[0]), Dot] + RefTokens(parts[1..])
  }

  // ---- Derivations of stretches of one token list ----

  lemma SliceOfSlice<T>(t: seq<T>, i: nat, j: nat, a: nat, b: nat)
    requires i <= j <= |t| && a <= b <= j - i
    ensures t[i..j][a..b] == t[i + a..i + b]
  {
    forall k | 0 <= k < b - a ensures t[i..j][a..b][k] == t[i + a..i + b][k] {
      assert t[i..j][a..b][k] == t[i..j][a + k] == t[i + a + k];
    }
  }

  /** Where a derived stretch splits at its operator; the inverse of the `Join` lemmas below. */
  lemma SplitOr(e: Expr, t: seq<Token>, i: nat, j: nat) returns (m: nat)
    requires i <= j <= |t| && DerivesOr(e, t[i..j]) && !DerivesAnd(e, t[i..j])
    ensures e.Or? && i <= m < j && t[m] == KwOr
    ensures DerivesOr(e.left, t[i..m]) && DerivesAnd(e.right, t[m + 1..j])
  {
    var ts := t[i..j];
    var k :| 0 <= k < |ts| && ts[k] == KwOr && DerivesOr(e.left, ts[..k]) && DerivesAnd(e.right, ts[k + 1..]);
    m := i + k;
    SliceOfSlice(t, i, j, 0, k);
    SliceOfSlice(t, i, j, k + 1, j - i);
    assert ts[..k] == ts[0..k] && ts[k + 1..] == ts[k + 1..j - i];
  }

  lemma JoinOr(e: Expr, t: seq<Token>, i: nat, m: nat, j: nat)
    requires i <= m < j <= |t| && e.Or? && t[m] == KwOr
    requires DerivesOr(e.left, t[i..m]) && DerivesAnd(e.right, t[m + 1..j])
    ensures DerivesOr(e, t[i..j])
  {
    var ts, k := t[i..j], m - i;
    SliceOfSlice(t, i, j, 0, k);
    SliceOfSlice(t, i, j, k + 1, j - i);
    assert ts[..k] == ts[0..k] && ts[k + 1..] == ts[k + 1..j - i] && ts[k] == KwOr;
  }

  lemma SplitAnd(e: Expr, t: seq<Token>, i: nat, j: nat) returns (m: nat)
    requires i <= j <= |t| && DerivesAnd(e, t[i..j]) && !DerivesNot(e, t[i..j])
    ensures e.And? && i <= m < j && t[m] == KwAnd
    ensures DerivesAnd(e.left, t[i..m]) && DerivesNot(e.right, t[m + 1..j])
  {
    var ts := t[i..j];
    var k :| 0 <= k < |ts| && ts[k] == KwAnd && DerivesAnd(e.left, ts[..k]) && DerivesNot(e.right, ts[k + 1..]);
    m := i + k;
    SliceOfSlice(t, i, j, 0, k);
    SliceOfSlice(t, i, j, k + 1, j - i);
    assert ts[..k] == ts[0..k] && ts[k + 1..] == ts[k + 1..j - i];
  }

  lemma JoinAnd(e: Expr, t: seq<Token>, i: nat, m: nat, j: nat)
    requires i <= m < j <= |t| && e.And? && t[m] == KwAnd
    requires DerivesAnd(e.left, t[i..m]) && DerivesNot(e.right, t[m + 1..j])
    ensures DerivesAnd(e, t[i..j])
  {
    var ts, k := t[i..j], m - i;
    SliceOfSlice(t, i, j, 0, k);
    SliceOfSlice(t, i, j, k + 1, j - i);
    assert ts[..k] == ts[0..k] && ts[k + 1..] == ts[k + 1..j - i] && ts[k] == KwAnd;
  }

  lemma SplitComparison(e: Expr, t: seq<Token>, i: nat, j: nat) returns (m: nat, n: nat)
    requires i <= j <= |t| && DerivesComparison(e, t[i..j]) && !DerivesPrimary(e, t[i..j])
    ensures e.Binary? && IsOperator(e.op) && i < m < n <= j && t[m..n] == OperatorTokens(e.op)
    ensures DerivesPrimary(e.left, t[i..m]) && DerivesPrimary(e.right, t[n..j])
  {
    var ts := t[i..j];
    var k, l :| ComparesAt(e, ts, k, l);
    m, n := i + k, i + l;
    SliceOfSlice(t, i, j, 0, k);
    SliceOfSlice(t, i, j, k, l);
    SliceOfSlice(t, i, j, l, j - i);
    assert ts[..k] == ts[0..k] && ts[l..] == ts[l..j - i];
  }

  lemma JoinComparison(e: Expr, t: seq<Token>, i: nat, m: nat, n: nat, j: nat)
    requires i < m < n <= j <= |t| && e.Binary? && IsOperator(e.op) && t[m..n] == OperatorTokens(e.op)
    requires DerivesPrimary(e.left, t[i..m]) && DerivesPrimary(e.right, t[n..j])
    ensures DerivesComparison(e, t[i..j])
  {
    var ts, k, l := t[i..j], m - i, n - i;
    SliceOfSlice(t, i, j, 0, k);
    SliceOfSlice(t, i, j, k, l);
    SliceOfSlice(t, i, j, l, j - i);
    assert ts[..k] == ts[0..k] && ts[l..] == ts[l..j - i];
    assert ComparesAt(e, ts, k, l);
  }

  lemma NotStretch(e: Expr, t: seq<Token>, i: nat, j: nat)
    requires i < j <= |t| && e.Unary? && e.op == "not" && t[i] == KwNot
    ensures DerivesNot(e.operand, t[i + 1..j]) ==> DerivesNot(e, t[i..j])
    ensures DerivesNot(e, t[i..j]) && !DerivesComparison(e, t[i..j]) ==> DerivesNot(e.operand, t[i + 1..j])
  {
    assert t[i..j][1..] == t[i + 1..j];
  }

  lemma ParenStretch(e: Expr, t: seq<Token>, i: nat, j: nat)
    requires i + 2 < j <= |t| && t[i] == LParen && t[j - 1] == RParen
    ensures DerivesPrimary(e, t[i..j]) <==> DerivesOr(e, t[i + 1..j - 1])
  {
    SliceOfSlice(t, i, j, 1, j - i - 1);
    assert t[i..j][0] == LParen;
  }

  // ---- Soundness: what the parser accepts is derived ----

  lemma {:induction false} SoundOr(t: seq<Token>, i: nat)
    requires Closed(t) && i < |t|
    ensures var r := ParseOr(t, i);
            r.Parsed? ==> DerivesOr(r.value, t[i..r.next])
    decreases |t| - i, 6
  {
    SoundAnd(t, i);
    match ParseAnd(t, i)
    case Parsed(left, j) => SoundOrRest(t, i, j, left);
    case Failed(_, _) =>
  }

  lemma {:induction false} SoundOrRest(t: seq<Token>, start: nat, i: nat, left: Expr)
    requires Closed(t) && start < i < |t| && DerivesOr(left, t[start..i])
    ensures var r := OrRest(t, i, left);
            r.Parsed? ==> DerivesOr(r.value, t[start..r.next])
    decreases |t| - i, 5
  {
    if t[i] == KwOr && ParseAnd(t, i + 1).Parsed? {
      var Parsed(right, j) := ParseAnd(t, i + 1);
      SoundAnd(t, i + 1);
      JoinOr(Or(left, right), t, start, i, j);
      SoundOrRest(t, start, j, Or(left, right));
    }
  }

  lemma {:induction false} SoundAnd(t: seq<Token>, i: nat)
    requires Closed(t) && i < |t|
    ensures var r := ParseAnd(t, i);
            r.Parsed? ==> DerivesAnd(r.value, t[i..r.next])
    decreases |t| - i, 4
  {
    SoundNot(t, i);
    match ParseNot(t, i)
    case Parsed(left, j) => SoundAndRest(t, i, j, left);
    case Failed(_, _) =>
  }

  lemma {:induction false} SoundAndRest(t: seq<Token>, start: nat, i: nat, left: Expr)
    requires Closed(t) && start < i < |t| && DerivesAnd(left, t[start..i])
    ensures var r := AndRest(t, i, left);
            r.Parsed? ==> DerivesAnd(r.value, t[start..r.next])
    decreases |t| - i, 3
  {
    if t[i] == KwAnd && ParseNot(t, i + 1).Parsed? {
      var Parsed(right, j) := ParseNot(t, i + 1);
      SoundNot(t, i + 1);
      JoinAnd(And(left, right), t, start, i, j);
      SoundAndRest(t, start, j, And(left, right));
    }
  }

  lemma {:induction false} SoundNot(t: seq<Token>, i: nat)
    requires Closed(t) && i < |t|
    ensures var r := ParseNot(t, i);
            r.Parsed? ==> DerivesNot(r.value, t[i..r.next])
    decreases |t| - i, 2
  {
    if t[i] != KwNot {
      SoundComparison(t, i);
    } else if ParseNot(t, i + 1).Parsed? {
      SoundNot(t, i + 1);
      var Parsed(x, j) := ParseNot(t, i + 1);
      NotStretch(Unary("not", x), t, i, j);
    }
  }

  lemma OperatorWritten(t: seq<Token>, j: nat)
    requires Closed(t) && j < |t| && OperatorAt(t, j).Some?
    ensures var (op, n) := OperatorAt(t, j).value;
            IsOperator(op) && j + n < |t| && t[j..j + n] == OperatorTokens(op)
  {
  }

  lemma ComparisonOf(t: seq<Token>, i: nat)
    requires Closed(t) && i < |t| && ParseComparison(t, i).Parsed?
    ensures var r, left := ParseComparison(t, i), ParsePrimary(t, i);
            left.Parsed? &&
            if OperatorAt(t, left.next).None? then r == left
            else
              var (op, n) := OperatorAt(t, left.next).value;
              var right := ParsePrimary(t, left.next + n);
              right.Parsed? && r == Parsed(Binary(left.value, op, right.value), right.next)
  {
  }

  lemma {:induction false} SoundComparison(t: seq<Token>, i: nat)
    requires Closed(t) && i < |t|
    ensures var r := ParseComparison(t, i);
            r.Parsed? ==> DerivesComparison(r.value, t[i..r.next])
    decreases |t| - i, 1
  {
    SoundPrimary(t, i);
    if ParseComparison(t, i).Parsed? {
      ComparisonOf(t, i);
      var left := ParsePrimary(t, i);
      if OperatorAt(t, left.next).Some? {
        var (op, n) := OperatorAt(t, left.next).value;
        SoundOperator(t, i, left, op, n, ParsePrimary(t, left.next + n));
      }
    }
  }

  /** The case of an operator behind the first operand. */
  lemma {:induction false} SoundOperator(t: seq<Token>, i: nat, left: Parse<Expr>, op: string, n: nat,
                                         right: Parse<Expr>)
    requires Closed(t) && left.Parsed? && i < left.next < |t| && OperatorAt(t, left.next) == Some((op, n))
    requires left.next + n < |t| && right == ParsePrimary(t, left.next + n) && right.Parsed?
    requires DerivesPrimary(left.value, t[i..left.next])
    ensures DerivesComparison(Binary(left.value, op, right.value), t[i..right.next])
    decreases |t| - i, 0, 1
  {
    OperatorWritten(t, left.next);
    SoundPrimary(t, left.next + n);
    OperandsJoin(t, i, left, op, n, right);
  }

  lemma OperandsJoin(t: seq<Token>, i: nat, left: Parse<Expr>, op: string, n: nat, right: Parse<Expr>)
    requires left.Parsed? && right.Parsed? && i < left.next && n > 0 && left.next + n <= right.next <= |t|
    requires IsOperator(op) && t[left.next..left.next + n] == OperatorTokens(op)
    requires DerivesPrimary(left.value, t[i..left.next]) && DerivesPrimary(right.value, t[left.next + n..right.next])
    ensures DerivesComparison(Binary(left.value, op, right.value), t[i..right.next])
  {
    JoinComparison(Binary(left.value, op, right.value), t, i, left.next, left.next + n, right.next);
  }

  lemma {:induction false} SoundPrimary(t: seq<Token>, i: nat)
    requires Closed(t) && i < |t|
    ensures var r := ParsePrimary(t, i);
            r.Parsed? ==> DerivesPrimary(r.value, t[i..r.next])
    decreases |t| - i, 0
  {
    if t[i] == LParen {
      SoundOr(t, i + 1);
      if ParsePrimary(t, i).Parsed? {
        var Parsed(inner, j) := ParseOr(t, i + 1);
        ParenStretch(inner, t, i, j + 1);
      }
    } else if t[i].Ident? {
      SoundRef(t, i);
    }
  }

  lemma {:induction false} SoundRef(t: seq<Token>, i: nat)
    requires Closed(t) && i < |t| && t[i].Ident?
    ensures var r := RefParts(t, i);
            r.Parsed? ==> r.value != [] && t[i..r.next] == RefTokens(r.value)
    decreases |t| - i
  {
    if t[i + 1] == Dot && t[i + 2].Ident? {
      SoundRef(t, i + 2);
      var r := RefParts(t, i + 2);
      if r.Parsed? {
        var parts := [t[i].name] + r.value;
        assert parts[1..] == r.value;
        assert t[i..r.next] == [t[i], t[i + 1]] + t[i + 2..r.next];
      }
    }
  }

  // ---- Completeness: what is derived, the parser accepts ----

  lemma {:induction false} CompleteOr(e: Expr, t: seq<Token>, i: nat, j: nat)
    requires Closed(t) && i <= j < |t| && DerivesOr(e, t[i..j])
    requires t[j] in {KwOr, RParen, Eof}
    ensures ParseOr(t, i) == OrRest(t, j, e)
    decreases j - i, 4
  {
    if DerivesAnd(e, t[i..j]) {
      CompleteAnd(e, t, i, j);
    } else {
      var m := SplitOr(e, t, i, j);
      CompleteOr(e.left, t, i, m);
      CompleteAnd(e.right, t, m + 1, j);
      assert AndRest(t, j, e.right) == Parsed(e.right, j);
    }
  }

  lemma {:induction false} CompleteAnd(e: Expr, t: seq<Token>, i: nat, j: nat)
    requires Closed(t) && i <= j < |t| && DerivesAnd(e, t[i..j])
    requires t[j] in {KwAnd, KwOr, RParen, Eof}
    ensures ParseAnd(t, i) == AndRest(t, j, e)
    decreases j - i, 3
  {
    if DerivesNot(e, t[i..j]) {
      CompleteNot(e, t, i, j);
    } else {
      var m := SplitAnd(e, t, i, j);
      CompleteAnd(e.left, t, i, m);
      CompleteNot(e.right, t, m + 1, j);
    }
  }

  lemma {:induction false} CompleteNot(e: Expr, t: seq<Token>, i: nat, j: nat)
    requires Closed(t) && i <= j < |t| && DerivesNot(e, t[i..j])
    requires t[j] in {KwAnd, KwOr, RParen, Eof}
    ensures ParseNot(t, i) == Parsed(e, j)
    decreases j - i, 2
  {
    if DerivesComparison(e, t[i..j]) {
      CompleteComparison(e, t, i, j);
    } else {
      NotStretch(e, t, i, j);
      CompleteNot(e.operand, t, i + 1, j);
    }
  }

  lemma ComparisonStep(e: Expr, t: seq<Token>, i: nat, m: nat, n: nat, j: nat)
    requires Closed(t) && i < m < n < j < |t| && e.Binary?
    requires ParsePrimary(t, i) == Parsed(e.left, m) && OperatorAt(t, m) == Some((e.op, n - m))
    requires ParsePrimary(t, n) == Parsed(e.right, j)
    ensures ParseComparison(t, i) == Parsed(e, j)
  {
  }

  lemma {:induction false} CompleteComparison(e: Expr, t: seq<Token>, i: nat, j: nat)
    requires Closed(t) && i <= j < |t| && DerivesComparison(e, t[i..j])
    requires t[j] in {KwAnd, KwOr, RParen, Eof}
    ensures ParseComparison(t, i) == Parsed(e, j)
    ensures t[i] != KwNot
    decreases j - i, 1
  {
    if DerivesPrimary(e, t[i..j]) {
      CompletePrimary(e, t, i, j);
      assert OperatorAt(t, j) == None;
    } else {
      var m, n := SplitComparison(e, t, i, j);
      OperatorRead(e.op, t, m, n);
      CompletePrimary(e.left, t, i, m);
      CompletePrimary(e.right, t, n, j);
      ComparisonStep(e, t, i, m, n, j);
    }
  }

  lemma OperatorRead(op: string, t: seq<Token>, m: nat, n: nat)
    requires IsOperator(op) && m <= n <= |t| && t[m..n] == OperatorTokens(op)
    ensures m < n && OperatorAt(t, m) == Some((op, n - m)) && t[m] != Dot
  {
    assert n - m == |OperatorTokens(op)|;
    assert t[m] == t[m..n][0];
    assert n == m + 2 ==> t[m + 1] == t[m..n][1];
  }

  lemma {:induction false} CompletePrimary(e: Expr, t: seq<Token>, i: nat, j: nat)
    requires Closed(t) && i <= j < |t| && DerivesPrimary(e, t[i..j])
    requires t[j] != Dot
    ensures i < j && ParsePrimary(t, i) == Parsed(e, j)
    ensures t[i] != KwNot
    decreases j - i, 0
  {
    var ts := t[i..j];
    assert ts != [] && ts[0] == t[i];
    if e.Literal? && |ts| == 1 && LiteralOf(ts[0]) == Some(e.value) {
    } else if e.Ref? && e.parts != [] && ts == RefTokens(e.parts) {
      CompleteRef(e.parts, t, i, j);
    } else {
      assert t[j - 1] == ts[|ts| - 1];
      ParenStretch(e, t, i, j);
      CompleteOr(e, t, i + 1, j - 1);
    }
  }

  lemma {:induction false} CompleteRef(parts: seq<string>, t: seq<Token>, i: nat, j: nat)
    requires Closed(t) && parts != [] && i <= j < |t| && t[i..j] == RefTokens(parts)
    requires t[j] != Dot
    ensures i < j && t[i].Ident? && RefParts(t, i) == Parsed(parts, j)
  {
    var ts := t[i..j];
    assert t[i] == ts[0];
    if |parts| > 1 {
      assert t[i + 1] == ts[1];
      assert t[i + 2..j] == ts[2..] == RefTokens(parts[1..]);
      CompleteRef(parts[1..], t, i + 2, j);
      assert [parts[0]] + parts[1..] == parts;
    } else {
      assert parts == [parts[0]];
    }
  }

  /** The parser returns `e` exactly when the grammar derives `e` from the whole list. */
  lemma ParseExact(ts: seq<Token>, e: Expr)
    requires Eof !in ts
    ensures ParseTokens(ts + [Eof]) == Ok(e) <==> DerivesOr(e, ts)
  {
    var t := ts + [Eof];
    assert t[0..|ts|] == ts;
    if ParseTokens(t) == Ok(e) {
      SoundOr(t, 0);
      var j := ParseOr(t, 0).next;
      assert t[j] == Eof;
    }
    if DerivesOr(e, ts) {
      CompleteOr(e, t, 0, |ts|);
    }
  }

  /** No token list derives two trees. */
  lemma GrammarUnambiguous(ts: seq<Token>, e: Expr, f: Expr)
    requires Eof !in ts && DerivesOr(e, ts) && DerivesOr(f, ts)
    ensures e == f
  {
    ParseExact(ts, e);
    ParseExact(ts, f);
  }
}
