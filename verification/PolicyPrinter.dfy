/** `parse_expr`, and a reference printer that puts parentheses only where precedence needs them. */
module PolicyPrinter {
  import opened Text
  import opened PolicyAst
  import opened PolicyLexer
  import opened PolicyText
  import opened PolicyParser

  // ---- From source text to tree ----

  function ParseExpr(source: string): Result<Expr, SyntaxError> {
    var s := Strip(source);
    if s == "" then Err(EmptyExpression)
    else match Tokens(s)
      case Ok(ts) => ParseTokens(ts + [Eof])
      case Err(e) => Err(e)
  }

  method ParseSource(source: string) returns (r: Result<Expr, SyntaxError>)
    ensures r == ParseExpr(source)
  {
    var s := Strip(source);
    if s == "" {
      return Err(EmptyExpression);
    }
    var tokens :- Lex(s);
    var parser := new Parser(tokens);
    r := parser.Run();
  }

  // ---- From tree to source text ----

  /** How tightly the outermost construct of a tree binds, loosest first. */
  function Precedence(e: Expr): nat {
    match e
    case Or(_, _) => 0
    case And(_, _) => 1
    case Unary(_, _) => 2
    case Binary(_, _, _) => 3
    case _ => 4
  }

  function LiteralTokens(v: Value): seq<Token> {
    match v
    case Null => [KwNull]
    case Bool(b) => [if b then KwTrue else KwFalse]
    case Str(s) => [StrTok(s)]
    case _ => [NumTok(v)]
  }

  /** The tokens of `e` where a construct of at least the given precedence is expected. */
  function Print(e: Expr, level: nat): (ts: seq<Token>)
    ensures Precedence(e) >= level ==> ts == PrintBody(e)
    ensures Precedence(e) < level ==> ts == [LParen] + PrintBody(e) + [RParen]
    decreases e, 1
  {
    if Precedence(e) < level then [LParen] + PrintBody(e) + [RParen] else PrintBody(e)
  }

  function PrintBody(e: Expr): seq<Token>
    decreases e, 0
  {
    match e
    case Literal(v) => LiteralTokens(v)
    case Ref(parts) => RefTokens(parts)
    case Unary(_, x) => [KwNot] + Print(x, 2)
    case Binary(l, op, r) => Print(l, 4) + OperatorTokens(op) + Print(r, 4)
    case And(l, r) => Print(l, 1) + [KwAnd] + Print(r, 2)
    case Or(l, r) => Print(l, 0) + [KwOr] + Print(r, 1)
  }

  /** The grammar's nonterminals, numbered like precedences. */
  ghost predicate Derives(e: Expr, ts: seq<Token>, level: nat) {
    if level == 0 then DerivesOr(e, ts)
    else if level == 1 then DerivesAnd(e, ts)
    else if level == 2 then DerivesNot(e, ts)
    else if level == 3 then DerivesComparison(e, ts)
    else DerivesPrimary(e, ts)
  }

  lemma {:induction false} DerivesLooser(e: Expr, ts: seq<Token>, level: nat, looser: nat)
    requires Derives(e, ts, level) && looser <= level <= 4
    ensures Derives(e, ts, looser)
    decreases level - looser
  {
    if looser < level {
      DerivesLooser(e, ts, level, looser + 1);
    }
  }

  lemma {:induction false} PrintDerives(e: Expr, level: nat)
    requires WellFormed(e) && level <= 4
    ensures Derives(e, Print(e, level), level)
    ensures Derives(e, PrintBody(e), Precedence(e))
    decreases e, 1
  {
    PrintBodyDerives(e);
    if Precedence(e) >= level {
      DerivesLooser(e, PrintBody(e), Precedence(e), level);
    } else {
      var body := PrintBody(e);
      var ts := Print(e, level);
      DerivesLooser(e, body, Precedence(e), 0);
      assert ts[1..|ts| - 1] == body;
      assert ts[0..|ts|] == ts;
      DerivesNonEmpty(e, body);
      ParenStretch(e, ts, 0, |ts|);
      DerivesLooser(e, ts, 4, level);
    }
  }

  lemma DerivesNonEmpty(e: Expr, ts: seq<Token>)
    requires DerivesOr(e, ts)
    ensures ts != []
  {
    if ts == [] {
      assert [] + [Eof] == [Eof];
      CompleteOr(e, [Eof], 0, 0);
      assert false;
    }
  }

  lemma ConcatOr(e: Expr, a: seq<Token>, b: seq<Token>)
    requires e.Or? && DerivesOr(e.left, a) && DerivesAnd(e.right, b)
    ensures DerivesOr(e, a + [KwOr] + b)
  {
    var t := a + [KwOr] + b;
    assert t[0..|a|] == a && t[|a| + 1..|t|] == b && t[0..|t|] == t;
    JoinOr(e, t, 0, |a|, |t|);
  }

  lemma ConcatAnd(e: Expr, a: seq<Token>, b: seq<Token>)
    requires e.And? && DerivesAnd(e.left, a) && DerivesNot(e.right, b)
    ensures DerivesAnd(e, a + [KwAnd] + b)
  {
    var t := a + [KwAnd] + b;
    assert t[0..|a|] == a && t[|a| + 1..|t|] == b && t[0..|t|] == t;
    JoinAnd(e, t, 0, |a|, |t|);
  }

  lemma ConcatComparison(e: Expr, a: seq<Token>, b: seq<Token>)
    requires e.Binary? && IsOperator(e.op) && DerivesPrimary(e.left, a) && DerivesPrimary(e.right, b)
    ensures DerivesComparison(e, a + OperatorTokens(e.op) + b)
  {
    var ops := OperatorTokens(e.op);
    var t := a + ops + b;
    assert Derives(e.left, a, 4);
    DerivesLooser(e.left, a, 4, 0);
    DerivesNonEmpty(e.left, a);
    var m, n := |a|, |a| + |ops|;
    assert t[0..m] == a && t[m..n] == ops && t[n..|t|] == b && t[0..|t|] == t;
    JoinComparison(e, t, 0, m, n, |t|);
  }

  lemma ConcatNot(e: Expr, a: seq<Token>)
    requires e.Unary? && e.op == "not" && DerivesNot(e.operand, a)
    ensures DerivesNot(e, [KwNot] + a)
  {
    var t := [KwNot] + a;
    assert t[1..|t|] == a && t[0..|t|] == t;
    NotStretch(e, t, 0, |t|);
  }

  lemma {:induction false} PrintBodyDerives(e: Expr)
    requires WellFormed(e)
    ensures Derives(e, PrintBody(e), Precedence(e))
    decreases e, 0
  {
    match e
    case Literal(_) =>
    case Ref(_) =>
    case Unary(_, x) =>
      PrintDerives(x, 2);
      ConcatNot(e, Print(x, 2));
    case Binary(l, _, r) =>
      PrintDerives(l, 4);
      PrintDerives(r, 4);
      ConcatComparison(e, Print(l, 4), Print(r, 4));
    case And(l, r) =>
      PrintDerives(l, 1);
      PrintDerives(r, 2);
      ConcatAnd(e, Print(l, 1), Print(r, 2));
    case Or(l, r) =>
      PrintDerives(l, 0);
      PrintDerives(r, 1);
      ConcatOr(e, Print(l, 0), Print(r, 1));
  }

  lemma {:induction false} PrintTokensWellFormed(e: Expr, level: nat)
    requires WellFormed(e)
    ensures WellFormedTokens(Print(e, level))
    decreases e, 1
  {
    BodyTokensWellFormed(e);
  }

  lemma {:induction false} BodyTokensWellFormed(e: Expr)
    requires WellFormed(e)
    ensures WellFormedTokens(PrintBody(e))
    decreases e, 0
  {
    match e
    case Literal(_) =>
    case Ref(parts) => RefTokensWellFormed(parts);
    case Unary(_, x) => PrintTokensWellFormed(x, 2);
    case Binary(l, op, r) =>
      PrintTokensWellFormed(l, 4);
      PrintTokensWellFormed(r, 4);
      assert WellFormedTokens(OperatorTokens(op));
    case And(l, r) =>
      PrintTokensWellFormed(l, 1);
      PrintTokensWellFormed(r, 2);
    case Or(l, r) =>
      PrintTokensWellFormed(l, 0);
      PrintTokensWellFormed(r, 1);
  }

  lemma WellFormedConcat(a: seq<Token>, b: seq<Token>)
    ensures WellFormedTokens(a + b) <==> WellFormedTokens(a) && WellFormedTokens(b)
  {
    if WellFormedTokens(a + b) {
      assert forall t :: t in a ==> t in a + b;
      assert forall t :: t in b ==> t in a + b;
    }
  }

  lemma {:induction false} RefTokensWellFormed(parts: seq<string>)
    ensures AllIdentifiers(parts) <==> WellFormedTokens(RefTokens(parts))
  {
    if parts == [] {
    } else if |parts| == 1 {
      assert parts == [parts[0]] && RefTokens(parts) == [Ident(parts[0])];
      assert Ident(parts[0]) in RefTokens(parts);
    } else {
      var head := [Ident(parts[0]), Dot];
      RefTokensWellFormed(parts[1..]);
      WellFormedConcat(head, RefTokens(parts[1..]));
      assert Ident(parts[0]) in head;
      assert parts == [parts[0]] + parts[1..];
    }
  }

  /** The printed text of a tree. */
  function Write(e: Expr): string
    requires WellFormed(e)
  {
    PrintTokensWellFormed(e, 0);
    Render(Print(e, 0))
  }

  // ---- The main theorems ----

  /** Printing and parsing again gives back exactly the tree, for every tree the syntax can express. */
  lemma TextRoundTrip(e: Expr)
    requires WellFormed(e)
    ensures ParseExpr(Write(e)) == Ok(e)
  {
    var ts := Print(e, 0);
    PrintTokensWellFormed(e, 0);
    LexRender(ts);
    StripKeepsTokens(Write(e), ts);
    PrintDerives(e, 0);
    assert Eof !in ts;
    ParseExact(ts, e);
    if Strip(Write(e)) == "" {
      DerivesNonEmpty(e, ts);
      assert false;
    }
  }

  lemma ParseExprSound(s: string, e: Expr) returns (l: Layout)
    requires ParseExpr(s) == Ok(e)
    ensures Legal(l) && Source(l) == s && DerivesOr(e, Toks(l))
  {
    var ts := Tokens(Strip(s)).value;
    StripKeepsTokens(s, ts);
    l := LexSound(s);
    LegalToks(l);
    ParseExact(ts, e);
  }

  lemma ParseExprComplete(l: Layout, e: Expr)
    requires Legal(l) && DerivesOr(e, Toks(l))
    ensures ParseExpr(Source(l)) == Ok(e)
  {
    var ts := Toks(l);
    LexComplete(l);
    LegalToks(l);
    StripKeepsTokens(Source(l), ts);
    ParseExact(ts, e);
    DerivesNonEmpty(e, ts);
  }

  /** `parse_expr` returns `e` exactly on the legal layouts of the token lists that derive `e`. */
  lemma ParseExprExact(s: string, e: Expr)
    ensures ParseExpr(s) == Ok(e) <==> exists l :: Legal(l) && Source(l) == s && DerivesOr(e, Toks(l))
  {
    if ParseExpr(s) == Ok(e) {
      var l := ParseExprSound(s, e);
    }
    forall l | Legal(l) && Source(l) == s && DerivesOr(e, Toks(l)) ensures ParseExpr(s) == Ok(e) {
      ParseExprComplete(l, e);
    }
  }

  lemma {:induction false} LegalToks(l: Layout)
    requires Legal(l)
    ensures WellFormedTokens(Toks(l))
  {
    match l
    case End(_) =>
    case Piece(_, _, _, rest) => LegalToks(rest);
  }

  /** Parsing yields only trees the printer handles, so a text can be normalised by parsing and printing. */
  lemma ParsedTreesPrint(s: string)
    requires ParseExpr(s).Ok?
    ensures var e := ParseExpr(s).value;
            WellFormed(e) && ParseExpr(Write(e)) == ParseExpr(s)
  {
    var e := ParseExpr(s).value;
    var l := ParseExprSound(s, e);
    LegalToks(l);
    var t := Toks(l);
    assert t[0..|t|] == t;
    DerivedIsWellFormed(e, t, 0, |t|, 0);
    TextRoundTrip(e);
  }

  lemma Stretches(t: seq<Token>, i: nat, j: nat)
    requires i <= j <= |t| && WellFormedTokens(t[i..j])
    ensures forall a, b :: i <= a <= b <= j ==> WellFormedTokens(t[a..b])
  {
    forall a, b, tok | i <= a <= b <= j && tok in t[a..b] ensures WellFormedToken(tok) {
      var k :| 0 <= k < b - a && t[a..b][k] == tok;
      assert t[i..j][a + k - i] == tok;
    }
  }

  lemma {:induction false} DerivedIsWellFormed(e: Expr, t: seq<Token>, i: nat, j: nat, level: nat)
    requires i <= j <= |t| && level <= 4 && Derives(e, t[i..j], level)
    requires WellFormedTokens(t[i..j])
    ensures WellFormed(e)
    decreases j - i, 5 - level
  {
    assert forall a, b :: i <= a <= b <= j ==> WellFormedTokens(t[a..b]) by { Stretches(t, i, j); }
    if level < 4 && Derives(e, t[i..j], level + 1) {
      DerivedIsWellFormed(e, t, i, j, level + 1);
    } else if level == 0 {
      var m := SplitOr(e, t, i, j);
      DerivedIsWellFormed(e.left, t, i, m, 0);
      DerivedIsWellFormed(e.right, t, m + 1, j, 1);
    } else if level == 1 {
      var m := SplitAnd(e, t, i, j);
      DerivedIsWellFormed(e.left, t, i, m, 1);
      DerivedIsWellFormed(e.right, t, m + 1, j, 2);
    } else if level == 2 {
      NotStretch(e, t, i, j);
      DerivedIsWellFormed(e.operand, t, i + 1, j, 2);
    } else if level == 3 {
      var m, n := SplitComparison(e, t, i, j);
      DerivedIsWellFormed(e.left, t, i, m, 4);
      DerivedIsWellFormed(e.right, t, n, j, 4);
    } else {
      PrimaryIsWellFormed(e, t, i, j);
    }
  }

  lemma {:induction false} PrimaryIsWellFormed(e: Expr, t: seq<Token>, i: nat, j: nat)
    requires i <= j <= |t| && DerivesPrimary(e, t[i..j])
    requires WellFormedTokens(t[i..j])
    ensures WellFormed(e)
    decreases j - i, 0
  {
    var ts := t[i..j];
    Stretches(t, i, j);
    if e.Literal? && |ts| == 1 && LiteralOf(ts[0]) == Some(e.value) {
      assert WellFormedToken(ts[0]);
    } else if e.Ref? && e.parts != [] && ts == RefTokens(e.parts) {
      RefTokensWellFormed(e.parts);
    } else {
      assert t[i] == ts[0] && t[j - 1] == ts[|ts| - 1];
      ParenStretch(e, t, i, j);
      DerivedIsWellFormed(e, t, i + 1, j - 1, 0);
    }
  }

  /** No token list that derives a tree is shorter than the printed one: no parenthesis is to spare. */
  lemma PrintShortest(e: Expr, ts: seq<Token>)
    requires DerivesOr(e, ts)
    ensures |Print(e, 0)| <= |ts|
  {
    assert ts[0..|ts|] == ts;
    ShortestOr(e, ts, 0, |ts|);
  }

  lemma LooserIsShorter(e: Expr, level: nat)
    ensures |Print(e, level)| <= |Print(e, level + 1)|
  {
  }

  lemma ChainSize(e: Expr)
    ensures e.And? ==> |Print(e, 1)| == |Print(e.left, 1)| + 1 + |Print(e.right, 2)|
    ensures e.Or? ==> |Print(e, 0)| == |Print(e.left, 0)| + 1 + |Print(e.right, 1)|
  {
  }

  lemma {:induction false} ShortestOr(e: Expr, t: seq<Token>, i: nat, j: nat)
    requires i <= j <= |t| && DerivesOr(e, t[i..j])
    ensures |Print(e, 0)| <= j - i
    decreases j - i, 5
  {
    if DerivesAnd(e, t[i..j]) {
      ShortestAnd(e, t, i, j);
      LooserIsShorter(e, 0);
    } else {
      var m := SplitOr(e, t, i, j);
      ShortestOr(e.left, t, i, m);
      ShortestAnd(e.right, t, m + 1, j);
      ChainSize(e);
    }
  }

  lemma {:induction false} ShortestAnd(e: Expr, t: seq<Token>, i: nat, j: nat)
    requires i <= j <= |t| && DerivesAnd(e, t[i..j])
    ensures |Print(e, 1)| <= j - i
    decreases j - i, 4
  {
    if DerivesNot(e, t[i..j]) {
      ShortestNot(e, t, i, j);
      LooserIsShorter(e, 1);
    } else {
      var m := SplitAnd(e, t, i, j);
      ShortestAnd(e.left, t, i, m);
      ShortestNot(e.right, t, m + 1, j);
      ChainSize(e);
    }
  }

  lemma {:induction false} ShortestNot(e: Expr, t: seq<Token>, i: nat, j: nat)
    requires i <= j <= |t| && DerivesNot(e, t[i..j])
    ensures |Print(e, 2)| <= j - i
    decreases j - i, 3
  {
    if DerivesComparison(e, t[i..j]) {
      ShortestComparison(e, t, i, j);
      LooserIsShorter(e, 2);
    } else {
      NotStretch(e, t, i, j);
      ShortestNot(e.operand, t, i + 1, j);
    }
  }

  lemma {:induction false} ShortestComparison(e: Expr, t: seq<Token>, i: nat, j: nat)
    requires i <= j <= |t| && DerivesComparison(e, t[i..j])
    ensures |Print(e, 3)| <= j - i
    decreases j - i, 2
  {
    if DerivesPrimary(e, t[i..j]) {
      ShortestPrimary(e, t, i, j);
      LooserIsShorter(e, 3);
    } else {
      var m, n := SplitComparison(e, t, i, j);
      ShortestPrimary(e.left, t, i, m);
      ShortestPrimary(e.right, t, n, j);
    }
  }

  lemma {:induction false} ShortestPrimary(e: Expr, t: seq<Token>, i: nat, j: nat)
    requires i <= j <= |t| && DerivesPrimary(e, t[i..j])
    ensures |Print(e, 4)| <= j - i
    decreases j - i, 1
  {
    var ts := t[i..j];
    if e.Literal? && |ts| == 1 && LiteralOf(ts[0]) == Some(e.value) {
    } else if e.Ref? && e.parts != [] && ts == RefTokens(e.parts) {
    } else {
      assert t[i] == ts[0] && t[j - 1] == ts[|ts| - 1];
      ParenStretch(e, t, i, j);
      ShortestOr(e, t, i + 1, j - 1);
    }
  }
}
