/** Where parsing a policy expression fails, and what the error says. */
module PolicyErrors {
  import opened Text
  import opened PolicyAst
  import opened PolicyLexer
  import opened PolicyText
  import opened PolicyParser
  import opened PolicyPrinter

  /** Tokens that an operand must follow, and tokens that an operand can end in. */
  predicate OpensOperand(tok: Token) { tok in {LParen, KwAnd, KwOr, KwNot, KwIn} || tok.Cmp? }
  predicate EndsOperand(tok: Token) { tok == RParen || tok.Ident? || LiteralOf(tok).Some? }

  // ---- What the error names ----

  /** The error for the token at `p`, in a descent from index `i`. */
  function Blame(t: seq<Token>, i: nat, p: nat): SyntaxError
    requires i <= p < |t|
  {
    if i < p && t[p - 1] == Dot then ExpectedIdentifier
    else if i == p || OpensOperand(t[p - 1]) then UnexpectedToken(t[p])
    else ExpectedToken(RParen, t[p])
  }

  lemma BlameFrom(t: seq<Token>, i: nat, later: nat, p: nat)
    requires i <= later <= p < |t| && (i < later ==> OpensOperand(t[later - 1]))
    ensures Blame(t, later, p) == Blame(t, i, p)
  {
  }

  /** A descent from `i` ends behind an operand, or blames the token at which it fails. */
  predicate Told<T>(t: seq<Token>, i: nat, r: Parse<T>) {
    match r
    case Parsed(_, j) => i < j < |t| && EndsOperand(t[j - 1])
    case Failed(e, p) => i <= p < |t| && e == Blame(t, i, p)
  }

  lemma {:induction false} ToldOr(t: seq<Token>, i: nat)
    requires Closed(t) && i < |t|
    ensures Told(t, i, ParseOr(t, i))
    decreases |t| - i, 6
  {
    ToldAnd(t, i);
    if ParseAnd(t, i).Parsed? {
      ToldOrRest(t, i, ParseAnd(t, i).next, ParseAnd(t, i).value);
    }
  }

  lemma {:induction false} ToldOrRest(t: seq<Token>, start: nat, i: nat, left: Expr)
    requires Closed(t) && start < i < |t| && EndsOperand(t[i - 1])
    ensures Told(t, start, OrRest(t, i, left))
    decreases |t| - i, 5
  {
    if t[i] == KwOr {
      ToldAnd(t, i + 1);
      match ParseAnd(t, i + 1)
      case Parsed(right, j) => ToldOrRest(t, start, j, Or(left, right));
      case Failed(_, p) => BlameFrom(t, start, i + 1, p);
    }
  }

  lemma {:induction false} ToldAnd(t: seq<Token>, i: nat)
    requires Closed(t) && i < |t|
    ensures Told(t, i, ParseAnd(t, i))
    decreases |t| - i, 4
  {
    ToldNot(t, i);
    if ParseNot(t, i).Parsed? {
      ToldAndRest(t, i, ParseNot(t, i).next, ParseNot(t, i).value);
    }
  }

  lemma {:induction false} ToldAndRest(t: seq<Token>, start: nat, i: nat, left: Expr)
    requires Closed(t) && start < i < |t| && EndsOperand(t[i - 1])
    ensures Told(t, start, AndRest(t, i, left))
    decreases |t| - i, 3
  {
    if t[i] == KwAnd {
      ToldNot(t, i + 1);
      match ParseNot(t, i + 1)
      case Parsed(right, j) => ToldAndRest(t, start, j, And(left, right));
      case Failed(_, p) => BlameFrom(t, start, i + 1, p);
    }
  }

  lemma {:induction false} ToldNot(t: seq<Token>, i: nat)
    requires Closed(t) && i < |t|
    ensures Told(t, i, ParseNot(t, i))
    decreases |t| - i, 2
  {
    if t[i] == KwNot {
      ToldNot(t, i + 1);
      if ParseNot(t, i + 1).Failed? {
        BlameFrom(t, i, i + 1, ParseNot(t, i + 1).at);
      }
    } else {
      ToldComparison(t, i);
    }
  }

  lemma {:induction false} ToldComparison(t: seq<Token>, i: nat)
    requires Closed(t) && i < |t|
    ensures Told(t, i, ParseComparison(t, i))
    decreases |t| - i, 1
  {
    var left := ParsePrimary(t, i);
    ToldPrimary(t, i);
    ComparisonYields(t, i, left);
    if left.Parsed? && OperatorAt(t, left.next).Some? {
      OperatorOpens(t, left.next);
      var later := left.next + OperatorAt(t, left.next).value.1;
      ToldPrimary(t, later);
      ToldBehind(t, i, later, ParsePrimary(t, later));
    }
  }

  lemma OperatorOpens(t: seq<Token>, j: nat)
    requires Closed(t) && j < |t| && OperatorAt(t, j).Some?
    ensures var n := OperatorAt(t, j).value.1;
            n > 0 && j + n < |t| && OpensOperand(t[j + n - 1])
  {
  }

  lemma ToldBehind<T>(t: seq<Token>, i: nat, later: nat, r: Parse<T>)
    requires i < later < |t| && OpensOperand(t[later - 1]) && Told(t, later, r)
    ensures Told(t, i, r)
  {
  }

  lemma {:induction false} ToldPrimary(t: seq<Token>, i: nat)
    requires Closed(t) && i < |t|
    ensures Told(t, i, ParsePrimary(t, i))
    decreases |t| - i, 0
  {
    if t[i] == LParen {
      ToldOr(t, i + 1);
      if ParseOr(t, i + 1).Failed? {
        BlameFrom(t, i, i + 1, ParseOr(t, i + 1).at);
      }
    } else if t[i].Ident? {
      ToldRef(t, i);
    }
  }

  lemma {:induction false} ToldRef(t: seq<Token>, i: nat)
    requires Closed(t) && i < |t| && t[i].Ident?
    ensures Told(t, i, RefParts(t, i))
    ensures RefParts(t, i).Failed? ==> i + 2 <= RefParts(t, i).at && t[RefParts(t, i).at - 1] == Dot
    decreases |t| - i
  {
    if t[i + 1] == Dot && t[i + 2].Ident? {
      ToldRef(t, i + 2);
    }
  }

  // ---- What the parser has looked at when it stops ----

  /** `u` is `t` up to index `p`, and there ends, or goes on like `t` as far as the parser looks. */
  predicate Alike(t: seq<Token>, u: seq<Token>, p: nat) {
    && p < |t| && p < |u| && (forall k :: 0 <= k < p ==> u[k] == t[k])
    && (u[p] == Eof || (u[p] == t[p] && (t[p] == KwNot && p + 1 < |t| ==> p + 1 < |u| && u[p + 1] == t[p + 1])))
  }

  /** How the two operands of a comparison make up what it yields. */
  lemma ComparisonYields(t: seq<Token>, i: nat, left: Parse<Expr>)
    requires Closed(t) && i < |t| && left == ParsePrimary(t, i)
    ensures left.Failed? || OperatorAt(t, left.next).None? ==> ParseComparison(t, i) == left
    ensures left.Parsed? && OperatorAt(t, left.next).Some? ==>
            var (op, n) := OperatorAt(t, left.next).value;
            left.next + n < |t| && ParseComparison(t, i) == Compared(left.value, op, ParsePrimary(t, left.next + n))
  {
    if left.Parsed? && OperatorAt(t, left.next).Some? {
      OperatorWritten(t, left.next);
    }
  }

  function Compared(left: Expr, op: string, right: Parse<Expr>): Parse<Expr> {
    match right
    case Parsed(e, k) => Parsed(Binary(left, op, e), k)
    case Failed(e, k) => Failed(e, k)
  }

  /** A comparison operator lies before any token at which parsing stops behind it. */
  lemma SameOperator(t: seq<Token>, u: seq<Token>, j: nat, p: nat)
    requires Closed(t) && Closed(u) && j < |t| && OperatorAt(t, j).Some? && j + OperatorAt(t, j).value.1 <= p
    requires Alike(t, u, p)
    ensures Alike(t, u, j) && OperatorAt(u, j) == OperatorAt(t, j)
  {
  }

  lemma {:induction false} LocalOr(t: seq<Token>, u: seq<Token>, i: nat)
    requires Closed(t) && Closed(u) && i < |t| && ParseOr(t, i).Parsed? && Alike(t, u, ParseOr(t, i).next)
    ensures ParseOr(u, i) == ParseOr(t, i)
    decreases |t| - i, 6
  {
    var Parsed(left, j) := ParseAnd(t, i);
    OrRestFrom(t, j, left);
    LocalAnd(t, u, i);
    LocalOrRest(t, u, j, left);
  }

  /** A loop that goes on does so behind its own operator. */
  lemma OrRestFrom(t: seq<Token>, i: nat, left: Expr)
    requires Closed(t) && i < |t|
    ensures var r := OrRest(t, i, left);
            (r.Parsed? && i < r.next) || r.Failed? ==> t[i] == KwOr && (r.Failed? ==> i < r.at)
  {
  }

  lemma AndRestFrom(t: seq<Token>, i: nat, left: Expr)
    requires Closed(t) && i < |t|
    ensures var r := AndRest(t, i, left);
            (r.Parsed? && i < r.next) || r.Failed? ==> t[i] == KwAnd && (r.Failed? ==> i < r.at)
  {
  }

  lemma {:induction false} LocalOrRest(t: seq<Token>, u: seq<Token>, i: nat, left: Expr)
    requires Closed(t) && Closed(u) && i < |t|
    requires OrRest(t, i, left).Parsed? && Alike(t, u, OrRest(t, i, left).next)
    ensures OrRest(u, i, left) == OrRest(t, i, left)
    decreases |t| - i, 5
  {
    if t[i] == KwOr {
      var Parsed(right, j) := ParseAnd(t, i + 1);
      OrRestFrom(t, j, Or(left, right));
      LocalAnd(t, u, i + 1);
      LocalOrRest(t, u, j, Or(left, right));
    }
  }

  lemma {:induction false} LocalAnd(t: seq<Token>, u: seq<Token>, i: nat)
    requires Closed(t) && Closed(u) && i < |t| && ParseAnd(t, i).Parsed? && Alike(t, u, ParseAnd(t, i).next)
    ensures ParseAnd(u, i) == ParseAnd(t, i)
    decreases |t| - i, 4
  {
    var Parsed(left, j) := ParseNot(t, i);
    AndRestFrom(t, j, left);
    LocalNot(t, u, i);
    LocalAndRest(t, u, j, left);
  }

  lemma {:induction false} LocalAndRest(t: seq<Token>, u: seq<Token>, i: nat, left: Expr)
    requires Closed(t) && Closed(u) && i < |t|
    requires AndRest(t, i, left).Parsed? && Alike(t, u, AndRest(t, i, left).next)
    ensures AndRest(u, i, left) == AndRest(t, i, left)
    decreases |t| - i, 3
  {
    if t[i] == KwAnd {
      var Parsed(right, j) := ParseNot(t, i + 1);
      AndRestFrom(t, j, And(left, right));
      LocalNot(t, u, i + 1);
      LocalAndRest(t, u, j, And(left, right));
    }
  }

  lemma {:induction false} LocalNot(t: seq<Token>, u: seq<Token>, i: nat)
    requires Closed(t) && Closed(u) && i < |t| && ParseNot(t, i).Parsed? && Alike(t, u, ParseNot(t, i).next)
    ensures ParseNot(u, i) == ParseNot(t, i)
    decreases |t| - i, 2
  {
    if t[i] == KwNot {
      LocalNot(t, u, i + 1);
    } else {
      LocalComparison(t, u, i);
    }
  }

  lemma {:induction false} LocalComparison(t: seq<Token>, u: seq<Token>, i: nat)
    requires Closed(t) && Closed(u) && i < |t|
    requires ParseComparison(t, i).Parsed? && Alike(t, u, ParseComparison(t, i).next)
    ensures ParseComparison(u, i) == ParseComparison(t, i)
    decreases |t| - i, 1
  {
    var left := ParsePrimary(t, i);
    ComparisonYields(t, i, left);
    if OperatorAt(t, left.next).Some? {
      LocalOperands(t, u, i, left, OperatorAt(t, left.next).value.1);
    } else {
      LocalPrimary(t, u, i);
    }
    ComparisonYields(u, i, left);
  }

  lemma {:induction false} LocalOperands(t: seq<Token>, u: seq<Token>, i: nat, left: Parse<Expr>, n: nat)
    requires Closed(t) && Closed(u) && i < |t| && left == ParsePrimary(t, i) && left.Parsed?
    requires OperatorAt(t, left.next).Some? && n == OperatorAt(t, left.next).value.1 && left.next + n < |t|
    requires ParsePrimary(t, left.next + n).Parsed? && Alike(t, u, ParsePrimary(t, left.next + n).next)
    ensures ParsePrimary(u, i) == left && OperatorAt(u, left.next) == OperatorAt(t, left.next)
    ensures left.next + n < |u| && ParsePrimary(u, left.next + n) == ParsePrimary(t, left.next + n)
    decreases |t| - i, 1, 0
  {
    SameOperator(t, u, left.next, ParsePrimary(t, left.next + n).next);
    LocalPrimary(t, u, i);
    LocalPrimary(t, u, left.next + n);
  }

  lemma {:induction false} LocalPrimary(t: seq<Token>, u: seq<Token>, i: nat)
    requires Closed(t) && Closed(u) && i < |t| && ParsePrimary(t, i).Parsed? && Alike(t, u, ParsePrimary(t, i).next)
    ensures ParsePrimary(u, i) == ParsePrimary(t, i)
    decreases |t| - i, 0
  {
    if t[i] == LParen {
      LocalOr(t, u, i + 1);
    } else if t[i].Ident? {
      LocalRef(t, u, i);
    }
  }

  lemma {:induction false} LocalRef(t: seq<Token>, u: seq<Token>, i: nat)
    requires Closed(t) && Closed(u) && i < |t| && t[i].Ident?
    requires RefParts(t, i).Parsed? && Alike(t, u, RefParts(t, i).next)
    ensures u[i] == t[i] && RefParts(u, i) == RefParts(t, i)
    decreases |t| - i
  {
    if t[i + 1] == Dot {
      LocalRef(t, u, i + 2);
    }
  }

  // ---- A failure is decided by the tokens up to the one it names ----

  lemma {:induction false} FailsOr(t: seq<Token>, u: seq<Token>, i: nat)
    requires Closed(t) && Closed(u) && i < |t| && ParseOr(t, i).Failed? && Alike(t, u, ParseOr(t, i).at)
    ensures ParseOr(u, i).Failed?
    decreases |t| - i, 6
  {
    match ParseAnd(t, i)
    case Failed(_, _) =>
      FailsAnd(t, u, i);
    case Parsed(left, j) =>
      OrRestFrom(t, j, left);
      LocalAnd(t, u, i);
      FailsOrRest(t, u, j, left);
  }

  lemma {:induction false} FailsOrRest(t: seq<Token>, u: seq<Token>, i: nat, left: Expr)
    requires Closed(t) && Closed(u) && i < |t|
    requires OrRest(t, i, left).Failed? && Alike(t, u, OrRest(t, i, left).at)
    ensures OrRest(u, i, left).Failed?
    decreases |t| - i, 5
  {
    OrRestFrom(t, i, left);
    match ParseAnd(t, i + 1)
    case Failed(_, _) =>
      FailsAnd(t, u, i + 1);
    case Parsed(right, j) =>
      OrRestFrom(t, j, Or(left, right));
      LocalAnd(t, u, i + 1);
      FailsOrRest(t, u, j, Or(left, right));
  }

  lemma {:induction false} FailsAnd(t: seq<Token>, u: seq<Token>, i: nat)
    requires Closed(t) && Closed(u) && i < |t| && ParseAnd(t, i).Failed? && Alike(t, u, ParseAnd(t, i).at)
    ensures ParseAnd(u, i).Failed?
    decreases |t| - i, 4
  {
    match ParseNot(t, i)
    case Failed(_, _) =>
      FailsNot(t, u, i);
    case Parsed(left, j) =>
      AndRestFrom(t, j, left);
      LocalNot(t, u, i);
      FailsAndRest(t, u, j, left);
  }

  lemma {:induction false} FailsAndRest(t: seq<Token>, u: seq<Token>, i: nat, left: Expr)
    requires Closed(t) && Closed(u) && i < |t|
    requires AndRest(t, i, left).Failed? && Alike(t, u, AndRest(t, i, left).at)
    ensures AndRest(u, i, left).Failed?
    decreases |t| - i, 3
  {
    AndRestFrom(t, i, left);
    match ParseNot(t, i + 1)
    case Failed(_, _) =>
      FailsNot(t, u, i + 1);
    case Parsed(right, j) =>
      AndRestFrom(t, j, And(left, right));
      LocalNot(t, u, i + 1);
      FailsAndRest(t, u, j, And(left, right));
  }

  lemma {:induction false} FailsNot(t: seq<Token>, u: seq<Token>, i: nat)
    requires Closed(t) && Closed(u) && i < |t| && ParseNot(t, i).Failed? && Alike(t, u, ParseNot(t, i).at)
    ensures ParseNot(u, i).Failed?
    decreases |t| - i, 2
  {
    if t[i] == KwNot {
      FailsNot(t, u, i + 1);
    } else {
      FailsComparison(t, u, i);
    }
  }

  lemma {:induction false} FailsComparison(t: seq<Token>, u: seq<Token>, i: nat)
    requires Closed(t) && Closed(u) && i < |t|
    requires ParseComparison(t, i).Failed? && Alike(t, u, ParseComparison(t, i).at)
    ensures ParseComparison(u, i).Failed?
    decreases |t| - i, 1
  {
    var left := ParsePrimary(t, i);
    ComparisonYields(t, i, left);
    if left.Parsed? {
      FailsOperand(t, u, i, left, OperatorAt(t, left.next).value.1);
    } else {
      FailsPrimary(t, u, i);
    }
    ComparisonYields(u, i, ParsePrimary(u, i));
  }

  lemma {:induction false} FailsOperand(t: seq<Token>, u: seq<Token>, i: nat, left: Parse<Expr>, n: nat)
    requires Closed(t) && Closed(u) && i < |t| && left == ParsePrimary(t, i) && left.Parsed?
    requires OperatorAt(t, left.next).Some? && n == OperatorAt(t, left.next).value.1 && left.next + n < |t|
    requires ParsePrimary(t, left.next + n).Failed? && Alike(t, u, ParsePrimary(t, left.next + n).at)
    ensures ParsePrimary(u, i) == left && OperatorAt(u, left.next) == OperatorAt(t, left.next)
    ensures left.next + n < |u| && ParsePrimary(u, left.next + n).Failed?
    decreases |t| - i, 1, 0
  {
    SameOperator(t, u, left.next, ParsePrimary(t, left.next + n).at);
    LocalPrimary(t, u, i);
    FailsPrimary(t, u, left.next + n);
  }

  lemma {:induction false} FailsPrimary(t: seq<Token>, u: seq<Token>, i: nat)
    requires Closed(t) && Closed(u) && i < |t| && ParsePrimary(t, i).Failed? && Alike(t, u, ParsePrimary(t, i).at)
    ensures ParsePrimary(u, i).Failed?
    decreases |t| - i, 0
  {
    if t[i] == LParen {
      if ParseOr(t, i + 1).Failed? {
        FailsOr(t, u, i + 1);
      } else {
        LocalOr(t, u, i + 1);
      }
    } else if t[i].Ident? {
      ToldRef(t, i);
      FailsRef(t, u, i);
    }
  }

  lemma {:induction false} FailsRef(t: seq<Token>, u: seq<Token>, i: nat)
    requires Closed(t) && Closed(u) && i < |t| && t[i].Ident?
    requires RefParts(t, i).Failed? && Alike(t, u, RefParts(t, i).at)
    ensures u[i] == t[i] && RefParts(u, i).Failed?
    decreases |t| - i
  {
    if t[i + 2].Ident? {
      FailsRef(t, u, i + 2);
    }
  }

  // ---- Up to the token it names, the list can be completed ----

  lemma ConcatParentheses(e: Expr, a: seq<Token>)
    requires DerivesOr(e, a)
    ensures DerivesPrimary(e, [LParen] + a + [RParen])
  {
    var t := [LParen] + a + [RParen];
    DerivesNonEmpty(e, a);
    assert t[0..|t|] == t && t[1..|t| - 1] == a;
    ParenStretch(e, t, 0, |t|);
  }

  /** `c` completes what stands in `t` between `i` and `p`. */
  function Completed(t: seq<Token>, i: nat, p: nat, c: seq<Token>): seq<Token>
    requires i <= p <= |t|
  {
    t[i..p] + c
  }

  lemma CompletedFrom(t: seq<Token>, i: nat, j: nat, k: nat, p: nat, c: seq<Token>)
    requires i <= j <= k <= p <= |t|
    ensures Completed(t, i, p, c) == t[i..j] + t[j..k] + Completed(t, k, p, c)
  {
  }

  lemma CompletedInside(t: seq<Token>, i: nat, p: nat, e: Expr, c: seq<Token>)
    requires i < p <= |t| && t[i] == LParen && DerivesOr(e, Completed(t, i + 1, p, c))
    ensures DerivesPrimary(e, Completed(t, i, p, c + [RParen]))
  {
    ConcatParentheses(e, Completed(t, i + 1, p, c));
    assert [LParen] + (t[i + 1..p] + c) + [RParen] == t[i..p] + (c + [RParen]);
  }

  lemma {:induction false} ViableOr(t: seq<Token>, i: nat) returns (e: Expr, c: seq<Token>)
    requires Closed(t) && i < |t| && ParseOr(t, i).Failed?
    ensures DerivesOr(e, Completed(t, i, ParseOr(t, i).at, c))
    decreases |t| - i, 6
  {
    match ParseAnd(t, i)
    case Failed(_, _) =>
      e, c := ViableAnd(t, i);
    case Parsed(left, j) =>
      SoundAnd(t, i);
      e, c := ViableOrRest(t, i, j, left);
  }

  lemma {:induction false} ViableOrRest(t: seq<Token>, start: nat, i: nat, left: Expr)
    returns (e: Expr, c: seq<Token>)
    requires Closed(t) && start < i < |t| && DerivesOr(left, t[start..i]) && OrRest(t, i, left).Failed?
    ensures DerivesOr(e, Completed(t, start, OrRest(t, i, left).at, c))
    decreases |t| - i, 5
  {
    match ParseAnd(t, i + 1)
    case Failed(_, p) =>
      e, c := ViableAnd(t, i + 1);
      CompletedFrom(t, start, i, i + 1, p, c);
      assert t[i..i + 1] == [KwOr];
      ConcatOr(Or(left, e), t[start..i], Completed(t, i + 1, p, c));
      e := Or(left, e);
    case Parsed(right, j) =>
      SoundAnd(t, i + 1);
      JoinOr(Or(left, right), t, start, i, j);
      e, c := ViableOrRest(t, start, j, Or(left, right));
  }

  lemma {:induction false} ViableAnd(t: seq<Token>, i: nat) returns (e: Expr, c: seq<Token>)
    requires Closed(t) && i < |t| && ParseAnd(t, i).Failed?
    ensures DerivesAnd(e, Completed(t, i, ParseAnd(t, i).at, c))
    decreases |t| - i, 4
  {
    match ParseNot(t, i)
    case Failed(_, _) =>
      e, c := ViableNot(t, i);
    case Parsed(left, j) =>
      SoundNot(t, i);
      e, c := ViableAndRest(t, i, j, left);
  }

  lemma {:induction false} ViableAndRest(t: seq<Token>, start: nat, i: nat, left: Expr)
    returns (e: Expr, c: seq<Token>)
    requires Closed(t) && start < i < |t| && DerivesAnd(left, t[start..i]) && AndRest(t, i, left).Failed?
    ensures DerivesAnd(e, Completed(t, start, AndRest(t, i, left).at, c))
    decreases |t| - i, 3
  {
    match ParseNot(t, i + 1)
    case Failed(_, p) =>
      e, c := ViableNot(t, i + 1);
      CompletedFrom(t, start, i, i + 1, p, c);
      assert t[i..i + 1] == [KwAnd];
      ConcatAnd(And(left, e), t[start..i], Completed(t, i + 1, p, c));
      e := And(left, e);
    case Parsed(right, j) =>
      SoundNot(t, i + 1);
      JoinAnd(And(left, right), t, start, i, j);
      e, c := ViableAndRest(t, start, j, And(left, right));
  }

  lemma {:induction false} ViableNot(t: seq<Token>, i: nat) returns (e: Expr, c: seq<Token>)
    requires Closed(t) && i < |t| && ParseNot(t, i).Failed?
    ensures DerivesNot(e, Completed(t, i, ParseNot(t, i).at, c))
    decreases |t| - i, 2
  {
    if t[i] == KwNot {
      e, c := ViableNot(t, i + 1);
      var p := ParseNot(t, i + 1).at;
      CompletedFrom(t, i, i, i + 1, p, c);
      assert t[i..i] + t[i..i + 1] == [KwNot];
      ConcatNot(Unary("not", e), Completed(t, i + 1, p, c));
      e := Unary("not", e);
    } else {
      e, c := ViableComparison(t, i);
    }
  }

  lemma {:induction false} ViableComparison(t: seq<Token>, i: nat) returns (e: Expr, c: seq<Token>)
    requires Closed(t) && i < |t| && ParseComparison(t, i).Failed?
    ensures DerivesComparison(e, Completed(t, i, ParseComparison(t, i).at, c))
    decreases |t| - i, 1
  {
    var left := ParsePrimary(t, i);
    ComparisonYields(t, i, left);
    if left.Failed? {
      e, c := ViablePrimary(t, i);
    } else {
      SoundPrimary(t, i);
      e, c := ViableOperand(t, i, left);
    }
  }

  lemma {:induction false} ViableOperand(t: seq<Token>, i: nat, left: Parse<Expr>) returns (e: Expr, c: seq<Token>)
    requires Closed(t) && i < |t| && ParseComparison(t, i).Failed?
    requires left == ParsePrimary(t, i) && left.Parsed? && DerivesPrimary(left.value, t[i..left.next])
    ensures DerivesComparison(e, Completed(t, i, ParseComparison(t, i).at, c))
    decreases |t| - i, 1, 0
  {
    ComparisonYields(t, i, left);
    OperatorWritten(t, left.next);
    var (op, n) := OperatorAt(t, left.next).value;
    e, c := ViablePrimary(t, left.next + n);
    CompletedOperand(t, i, left, op, n, ParsePrimary(t, left.next + n).at, e, c);
    e := Binary(left.value, op, e);
  }

  lemma CompletedOperand(t: seq<Token>, i: nat, left: Parse<Expr>, op: string, n: nat, p: nat, e: Expr, c: seq<Token>)
    requires left.Parsed? && i < left.next && left.next + n <= p <= |t|
    requires IsOperator(op) && t[left.next..left.next + n] == OperatorTokens(op)
    requires DerivesPrimary(left.value, t[i..left.next]) && DerivesPrimary(e, Completed(t, left.next + n, p, c))
    ensures DerivesComparison(Binary(left.value, op, e), Completed(t, i, p, c))
  {
    CompletedFrom(t, i, left.next, left.next + n, p, c);
    ConcatComparison(Binary(left.value, op, e), t[i..left.next], Completed(t, left.next + n, p, c));
  }

  lemma {:induction false} ViablePrimary(t: seq<Token>, i: nat) returns (e: Expr, c: seq<Token>)
    requires Closed(t) && i < |t| && ParsePrimary(t, i).Failed?
    ensures DerivesPrimary(e, Completed(t, i, ParsePrimary(t, i).at, c))
    decreases |t| - i, 0
  {
    if t[i] == LParen {
      var p := ParsePrimary(t, i).at;
      if ParseOr(t, i + 1).Failed? {
        e, c := ViableOr(t, i + 1);
      } else {
        SoundOr(t, i + 1);
        e, c := ParseOr(t, i + 1).value, [];
        assert t[i + 1..p] + [] == t[i + 1..p];
      }
      CompletedInside(t, i, p, e, c);
      c := c + [RParen];
    } else if t[i].Ident? {
      var parts := ViableRef(t, i);
      e, c := Ref(parts), [Ident("x")];
    } else {
      e, c := Literal(Null), [KwNull];
      assert t[i..i] + c == c;
    }
  }

  lemma {:induction false} ViableRef(t: seq<Token>, i: nat) returns (parts: seq<string>)
    requires Closed(t) && i < |t| && t[i].Ident? && RefParts(t, i).Failed?
    ensures parts != [] && Completed(t, i, RefParts(t, i).at, [Ident("x")]) == RefTokens(parts)
    decreases |t| - i
  {
    var p, rest := RefParts(t, i).at, ["x"];
    if t[i + 2].Ident? {
      rest := ViableRef(t, i + 2);
    } else {
      assert t[i + 2..i + 2] + [Ident("x")] == RefTokens(rest);
    }
    parts := [t[i].name] + rest;
    assert parts[1..] == rest;
    assert t[i..p] == [t[i], t[i + 1]] + t[i + 2..p];
  }

  // ---- The first token that cannot stand where it stands ----

  /** `us` begins like `ts` up to the token at `p`, or is `ts` if they end there; behind `not` one token further. */
  predicate BeginsLike(ts: seq<Token>, us: seq<Token>, p: nat)
    requires p <= |ts|
  {
    var n := if p < |ts| && ts[p] == KwNot then p + 2 else p + 1;
    if n <= |ts| then n <= |us| && us[..n] == ts[..n] else us == ts
  }

  lemma BeginsAlike(ts: seq<Token>, us: seq<Token>, p: nat)
    requires p <= |ts| && BeginsLike(ts, us, p)
    ensures Alike(ts + [Eof], us + [Eof], p)
    ensures p < |us + [Eof]| && (us + [Eof])[p] == (ts + [Eof])[p]
  {
  }

  /**
   * When parsing fails, the tokens before some index `p` can be completed to an expression, and no
   * expression goes on with the token at `p` (with `not` and the token behind it). The error names
   * that token, or the end: an identifier is missing behind a dot; a closing parenthesis behind an
   * operand, unless the tokens before `p` are an expression already; and the token is unexpected otherwise.
   */
  lemma FirstErrorExactly(ts: seq<Token>) returns (p: nat, e: Expr, c: seq<Token>)
    requires Eof !in ts && ParseTokens(ts + [Eof]).Err?
    ensures p <= |ts| && DerivesOr(e, ts[..p] + c)
    ensures forall us, x :: Eof !in us && BeginsLike(ts, us, p) ==> !DerivesOr(x, us)
    ensures var (tok, error) := ((ts + [Eof])[p], ParseTokens(ts + [Eof]).error);
            error ==
            if p > 0 && ts[p - 1] == Dot then ExpectedIdentifier
            else if p == 0 || OpensOperand(ts[p - 1]) || exists x :: DerivesOr(x, ts[..p]) then UnexpectedToken(tok)
            else ExpectedToken(RParen, tok)
  {
    var t := ts + [Eof];
    ToldOr(t, 0);
    match ParseOr(t, 0)
    case Parsed(x, j) =>
      p, e, c := j, x, [];
      SoundOr(t, 0);
      assert t[0..j] == ts[..j] == ts[..j] + c;
      assert DerivesOr(x, ts[..p]);
      forall us, y | Eof !in us && BeginsLike(ts, us, p) ensures !DerivesOr(y, us) {
        BeginsAlike(ts, us, p);
        LocalOr(t, us + [Eof], 0);
        ParseExact(us, y);
      }
    case Failed(_, at) =>
      p := at;
      e, c := ViableOr(t, 0);
      assert t[0..p] == ts[..p];
      forall us, y | Eof !in us && (BeginsLike(ts, us, p) || us == ts[..p]) ensures !DerivesOr(y, us) {
        if us == ts[..p] {
          assert Alike(t, us + [Eof], p);
        } else {
          BeginsAlike(ts, us, p);
        }
        FailsOr(t, us + [Eof], 0);
        ParseExact(us, y);
      }
      assert Eof !in ts[..p];
      assert forall y :: !DerivesOr(y, ts[..p]);
  }

  lemma BlankExactly(s: string)
    ensures Strip(s) == "" <==> AllSpace(s)
  {
    var before, after := StripCutsWhitespace(s);
    assert Strip(s) != "" ==> |before| < |s| && s[|before|] == Strip(s)[0];
  }

  /** The parser fails with `error` on a legal layout of the source. */
  ghost predicate FailsAsLaidOut(s: string, l: Layout, error: SyntaxError) {
    Legal(l) && Source(l) == s && ParseTokens(Toks(l) + [Eof]) == Err(error)
  }

  /** A source fails, exactly: blank as empty, where something offends with its error, or as its tokens fail. */
  lemma SourceErrorExactly(source: string, error: SyntaxError)
    ensures ParseExpr(source) == Err(error) <==>
            if AllSpace(source) then error == EmptyExpression
            else
              || (exists l :: OffendsBehind(Strip(source), l, error))
              || (exists l :: FailsAsLaidOut(Strip(source), l, error))
  {
    var s := Strip(source);
    BlankExactly(source);
    LexErrorExactly(s, error);
    forall l | Legal(l) && Source(l) == s ensures Tokens(s) == Ok(Toks(l)) {
      LexComplete(l);
    }
    if Tokens(s).Ok? {
      var l := LexSound(s);
      assert FailsAsLaidOut(s, l, error) <==> ParseTokens(Tokens(s).value + [Eof]) == Err(error);
    }
  }
}
