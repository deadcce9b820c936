/** The hand-written lexer of the policy expression language. */
module PolicyLexer {
  import opened Text
  import opened PolicyAst

  /** Token kinds; `Cmp` carries one of the six comparison operators. */
  datatype Token =
    | LParen | RParen | Dot
    | Cmp(op: string)
    | StrTok(text: string)
    | NumTok(value: Value)
    | KwAnd | KwOr | KwNot | KwIn | KwNull | KwTrue | KwFalse
    | Ident(name: string)
    | Eof

  datatype SyntaxError =
    | EmptyExpression
    | UnexpectedEquals | UnexpectedBang
    | UnterminatedEscape | UnterminatedString
    | UnexpectedCharacter(c: char)
    | UnexpectedToken(tok: Token)
    | ExpectedToken(expected: Token, got: Token)
    | ExpectedIdentifier

  // ---- What a token may look like in the text ----

  function Unescape(c: char): char { if c == 'n' then '\n' else c }

  /** `body` is a way to write `v` between two `quote` characters. */
  predicate BodySpells(body: string, quote: char, v: string) {
    if body == "" then v == ""
    else if body[0] == '\\' then
      |body| > 1 && v != "" && v[0] == Unescape(body[1]) && BodySpells(body[2..], quote, v[1..])
    else body[0] != quote && v != "" && v[0] == body[0] && BodySpells(body[1..], quote, v[1..])
  }

  /** Length of the run of digits at the front of `s`. */
  function DigitRun(s: string): (n: nat)
    ensures n <= |s| && AllDigits(s[..n]) && (n < |s| ==> !IsDigit(s[n]))
  {
    if s != "" && IsDigit(s[0]) then 1 + DigitRun(s[1..]) else 0
  }

  function Signed(negative: bool, n: int): int { if negative then -n else n }

  /** Digits, or digits around one dot; the dot may end the numeral but not begin it. */
  predicate IsUnsignedNumeral(s: string) {
    var n := DigitRun(s);
    n > 0 && (n == |s| || (s[n] == '.' && AllDigits(s[n + 1..])))
  }

  function NumeralValue(negative: bool, s: string): Value
    requires IsUnsignedNumeral(s)
  {
    var n := DigitRun(s);
    if n == |s| then Int(Signed(negative, ParseNat(s)))
    else Dec(Signed(negative, ParseNat(s[..n] + s[n + 1..])), |s| - n - 1)
  }

  /** `text` is a way to write a numeral of value `v`. */
  predicate NumeralSpells(text: string, v: Value) {
    var negative := text != "" && text[0] == '-';
    var digits := if negative then text[1..] else text;
    IsUnsignedNumeral(digits) && v == NumeralValue(negative, digits)
  }

  function KeywordText(t: Token): Option<string> {
    match t
    case KwAnd => Some("and")
    case KwOr => Some("or")
    case KwNot => Some("not")
    case KwIn => Some("in")
    case KwNull => Some("null")
    case KwTrue => Some("true")
    case KwFalse => Some("false")
    case _ => None
  }

  /** `text` is a legal way to write token `t`. */
  predicate Spells(t: Token, text: string) {
    match t
    case LParen => text == "("
    case RParen => text == ")"
    case Dot => text == "."
    case Cmp(op) => op in COMPARISONS && text == op
    case StrTok(v) =>
      |text| >= 2 && text[0] in {'\'', '"'} && text[|text| - 1] == text[0]
      && BodySpells(text[1..|text| - 1], text[0], v)
    case NumTok(v) => NumeralSpells(text, v)
    case Ident(name) => text == name && IsIdentifier(name)
    case Eof => false
    case _ => IsWord(text) && KeywordText(t) == Some(Lower(text))
  }

  /** Text `rest` that follows a spelling of `t` does not prolong it. */
  predicate Cuts(t: Token, rest: string) {
    rest == "" ||
    match t
    case LParen => true
    case RParen => true
    case Dot => true
    case StrTok(_) => true
    case Eof => true
    case Cmp(op) => op in {"<", ">"} ==> rest[0] != '='
    case NumTok(v) => !IsDigit(rest[0]) && (v.Int? ==> rest[0] != '.')
    case _ => !IsWordChar(rest[0])
  }

  // ---- The scanner ----

  datatype Scan<+T> = Scanned(value: T, len: nat) | Bad(error: SyntaxError)

  /** Scans a string body up to and with its closing quote. */
  function ScanString(s: string, quote: char): (r: Scan<string>)
    ensures r.Scanned? ==> 0 < r.len <= |s|
  {
    if s == "" then Bad(UnterminatedString)
    else if s[0] == '\\' then
      if |s| < 2 then Bad(UnterminatedEscape)
      else match ScanString(s[2..], quote)
        case Scanned(v, n) => Scanned([Unescape(s[1])] + v, n + 2)
        case Bad(e) => Bad(e)
    else if s[0] == quote then Scanned("", 1)
    else match ScanString(s[1..], quote)
      case Scanned(v, n) => Scanned([s[0]] + v, n + 1)
      case Bad(e) => Bad(e)
  }

  /** Length of the longest numeral at the front of `s`. */
  function NumeralRun(s: string, seenDot: bool): (n: nat)
    ensures n <= |s|
  {
    if s != "" && IsDigit(s[0]) then 1 + NumeralRun(s[1..], seenDot)
    else if s != "" && s[0] == '.' && !seenDot then 1 + NumeralRun(s[1..], true)
    else 0
  }

  function WordRun(s: string): (n: nat)
    ensures n <= |s| && (forall k :: 0 <= k < n ==> IsWordChar(s[k])) && (n < |s| ==> !IsWordChar(s[n]))
  {
    if s != "" && IsWordChar(s[0]) then 1 + WordRun(s[1..]) else 0
  }

  function WordToken(word: string): Token {
    match Lower(word)
    case "and" => KwAnd
    case "or" => KwOr
    case "not" => KwNot
    case "in" => KwIn
    case "null" => KwNull
    case "true" => KwTrue
    case "false" => KwFalse
    case _ => Ident(word)
  }

  /** A prefix that holds the run of digits has the same run. */
  lemma {:induction false} DigitRunOfPrefix(s: string, n: nat)
    requires DigitRun(s) <= n <= |s|
    ensures DigitRun(s[..n]) == DigitRun(s)
  {
    if n > 0 && IsDigit(s[0]) {
      DigitRunOfPrefix(s[1..], n - 1);
      assert s[..n][1..] == s[1..][..n - 1];
    }
  }

  lemma {:induction false} NumeralRunAfterDot(s: string)
    ensures NumeralRun(s, true) == DigitRun(s)
  {
    if s != "" && IsDigit(s[0]) {
      NumeralRunAfterDot(s[1..]);
    }
  }

  /** The run is the digits, then, if a dot follows them, the dot and its digits. */
  lemma {:induction false} NumeralRunSplits(s: string)
    ensures var d := DigitRun(s);
            NumeralRun(s, false) ==
            if d < |s| && s[d] == '.' then d + 1 + DigitRun(s[d + 1..]) else d
  {
    if s != "" && IsDigit(s[0]) {
      NumeralRunSplits(s[1..]);
      var d := DigitRun(s);
      assert d < |s| ==> s[1..][d - 1] == s[d] && s[1..][d..] == s[d + 1..];
    } else if s != "" {
      NumeralRunAfterDot(s[1..]);
    }
  }

  lemma {:induction false} NumeralRunIsNumeral(s: string)
    requires s != "" && IsDigit(s[0])
    ensures IsUnsignedNumeral(s[..NumeralRun(s, false)])
    ensures var n := NumeralRun(s, false);
            n < |s| ==> !IsDigit(s[n]) && (DigitRun(s[..n]) == n ==> s[n] != '.')
  {
    NumeralRunSplits(s);
    var d, n := DigitRun(s), NumeralRun(s, false);
    DigitRunOfPrefix(s, n);
    if d < |s| && s[d] == '.' {
      assert s[..n][d + 1..] == s[d + 1..][..DigitRun(s[d + 1..])];
      assert n < |s| ==> s[n] == s[d + 1..][n - d - 1];
    }
  }

  function ScanOperator(s: string): (r: Scan<Token>)
    requires s != ""
    ensures r.Scanned? ==> 0 < r.len <= |s|
  {
    if |s| > 1 && s[1] == '=' then Scanned(Cmp(s[..2]), 2)
    else if s[0] == '=' then Bad(UnexpectedEquals)
    else if s[0] == '!' then Bad(UnexpectedBang)
    else Scanned(Cmp(s[..1]), 1)
  }

  function ScanQuoted(s: string): (r: Scan<Token>)
    requires s != ""
    ensures r.Scanned? ==> 0 < r.len <= |s|
  {
    match ScanString(s[1..], s[0])
    case Scanned(v, n) => Scanned(StrTok(v), n + 1)
    case Bad(e) => Bad(e)
  }

  predicate StartsNumeral(s: string) {
    s != "" && (IsDigit(s[0]) || (s[0] == '-' && |s| > 1 && IsDigit(s[1])))
  }

  function ScanNumeral(s: string): (r: Scan<Token>)
    requires StartsNumeral(s)
    ensures r.Scanned? ==> 0 < r.len <= |s|
  {
    var sign := if s[0] == '-' then 1 else 0;
    var n := NumeralRun(s[sign..], false);
    NumeralRunIsNumeral(s[sign..]);
    Scanned(NumTok(NumeralValue(s[0] == '-', s[sign..][..n])), sign + n)
  }

  function ScanWord(s: string): (r: Scan<Token>)
    requires s != "" && IsWordChar(s[0])
    ensures r.Scanned? ==> 0 < r.len <= |s|
  {
    var n := WordRun(s);
    Scanned(WordToken(s[..n]), n)
  }

  /** Scans the token at the front of a text that begins with neither space nor end. */
  function ScanToken(s: string): (r: Scan<Token>)
    requires s != ""
    ensures r.Scanned? ==> 0 < r.len <= |s|
  {
    var c := s[0];
    if c == '(' then Scanned(LParen, 1)
    else if c == ')' then Scanned(RParen, 1)
    else if c == '.' then Scanned(Dot, 1)
    else if c in {'<', '>', '=', '!'} then ScanOperator(s)
    else if c in {'\'', '"'} then ScanQuoted(s)
    else if StartsNumeral(s) then ScanNumeral(s)
    else if IsLetter(c) || c == '_' then ScanWord(s)
    else Bad(UnexpectedCharacter(c))
  }

  /** The tokens of a text, without the closing `Eof`. */
  function Tokens(s: string): Result<seq<Token>, SyntaxError> {
    if s == "" then Ok([])
    else if IsSpace(s[0]) then Tokens(s[1..])
    else match ScanToken(s)
      case Bad(e) => Err(e)
      case Scanned(t, n) => Prefixed([t], Tokens(s[n..]))
  }

  function Prefixed(ts: seq<Token>, r: Result<seq<Token>, SyntaxError>): Result<seq<Token>, SyntaxError> {
    match r
    case Ok(us) => Ok(ts + us)
    case Err(e) => Err(e)
  }

  lemma TokensOfScan(s: string)
    requires s != "" && !IsSpace(s[0])
    ensures var r := ScanToken(s);
            Tokens(s) == if r.Bad? then Err(r.error) else Prefixed([r.value], Tokens(s[r.len..]))
  {
  }

  lemma PrefixedTwice(ts: seq<Token>, us: seq<Token>, r: Result<seq<Token>, SyntaxError>)
    ensures Prefixed(ts, Prefixed(us, r)) == Prefixed(ts + us, r)
  {
    if r.Ok? {
      assert ts + (us + r.value) == ts + us + r.value;
    }
  }

  // ---- The scanner finds exactly the legal spellings ----

  lemma {:induction false} ScanStringSound(s: string, quote: char)
    ensures match ScanString(s, quote)
            case Scanned(v, n) => s[n - 1] == quote && BodySpells(s[..n - 1], quote, v)
            case Bad(_) => true
  {
    if s == "" {
    } else if s[0] == '\\' {
      if |s| >= 2 && ScanString(s[2..], quote).Scanned? {
        ScanStringSound(s[2..], quote);
        var n := ScanString(s[2..], quote).len;
        assert s[..n + 1][2..] == s[2..][..n - 1];
      }
    } else if s[0] != quote && ScanString(s[1..], quote).Scanned? {
      ScanStringSound(s[1..], quote);
      var n := ScanString(s[1..], quote).len;
      assert s[..n][1..] == s[1..][..n - 1];
    }
  }

  lemma {:induction false} ScanStringComplete(body: string, quote: char, v: string, rest: string)
    requires BodySpells(body, quote, v) && quote != '\\'
    ensures ScanString(body + [quote] + rest, quote) == Scanned(v, |body| + 1)
  {
    var s := body + [quote] + rest;
    assert v != "" ==> v == [v[0]] + v[1..];
    if body == "" {
    } else if body[0] == '\\' {
      ScanStringComplete(body[2..], quote, v[1..], rest);
      assert s[2..] == body[2..] + [quote] + rest;
    } else {
      ScanStringComplete(body[1..], quote, v[1..], rest);
      assert s[1..] == body[1..] + [quote] + rest;
    }
  }

  lemma {:induction false} DigitRunOfConcat(s: string, rest: string)
    requires AllDigits(s) && (rest != "" ==> !IsDigit(rest[0]))
    ensures DigitRun(s + rest) == |s|
  {
    if s != "" {
      assert (s + rest)[1..] == s[1..] + rest;
      DigitRunOfConcat(s[1..], rest);
    } else {
      assert s + rest == rest;
    }
  }

  /** Digits, a dot and digits run to their end and no further. */
  lemma {:induction false} DottedRunComplete(whole: string, fraction: string, rest: string)
    requires AllDigits(whole) && AllDigits(fraction) && (rest != "" ==> !IsDigit(rest[0]))
    ensures NumeralRun(whole + ("." + (fraction + rest)), false) == |whole| + 1 + |fraction|
  {
    var tail := fraction + rest;
    var s := whole + ("." + tail);
    NumeralRunSplits(s);
    DigitRunOfConcat(whole, "." + tail);
    assert s[|whole|] == '.' && s[|whole| + 1..] == tail;
    DigitRunOfConcat(fraction, rest);
  }

  lemma {:induction false} NumeralRunComplete(s: string, rest: string)
    requires IsUnsignedNumeral(s)
    requires rest != "" ==> !IsDigit(rest[0]) && (DigitRun(s) == |s| ==> rest[0] != '.')
    ensures NumeralRun(s + rest, false) == |s|
  {
    var d := DigitRun(s);
    if d == |s| {
      NumeralRunSplits(s + rest);
      assert s[..d] == s;
      DigitRunOfConcat(s, rest);
    } else {
      assert s + rest == s[..d] + ("." + (s[d + 1..] + rest));
      DottedRunComplete(s[..d], s[d + 1..], rest);
    }
  }

  lemma {:induction false} WordRunComplete(s: string, rest: string)
    requires forall k :: 0 <= k < |s| ==> IsWordChar(s[k])
    requires rest != "" ==> !IsWordChar(rest[0])
    ensures WordRun(s + rest) == |s|
  {
    if s != "" {
      assert (s + rest)[1..] == s[1..] + rest;
      WordRunComplete(s[1..], rest);
    } else {
      assert s + rest == rest;
    }
  }

  lemma SymbolSound(s: string)
    requires s != "" && ScanToken(s).Scanned? && s[0] in {'<', '>', '=', '!'}
    ensures var r := ScanToken(s);
            Spells(r.value, s[..r.len]) && Cuts(r.value, s[r.len..])
  {
    var r := ScanToken(s);
    assert s[..r.len] == if |s| > 1 && s[1] == '=' then [s[0], '='] else [s[0]];
  }

  lemma StringSound(s: string)
    requires s != "" && ScanToken(s).Scanned? && s[0] in {'\'', '"'}
    ensures var r := ScanToken(s);
            Spells(r.value, s[..r.len]) && Cuts(r.value, s[r.len..])
  {
    var n := ScanToken(s).len;
    ScanStringSound(s[1..], s[0]);
    assert s[..n][1..n - 1] == s[1..][..n - 2];
  }

  // Which scanner a text goes to.

  lemma DispatchQuoted(s: string)
    requires s != "" && s[0] in {'\'', '"'}
    ensures ScanToken(s) == ScanQuoted(s)
  {
  }

  lemma DispatchNumeral(s: string)
    requires s != "" && (IsDigit(s[0]) || s[0] == '-')
    ensures ScanToken(s) == if StartsNumeral(s) then ScanNumeral(s) else Bad(UnexpectedCharacter('-'))
  {
  }

  lemma DispatchWord(s: string)
    requires s != "" && (IsLetter(s[0]) || s[0] == '_')
    ensures ScanToken(s) == ScanWord(s)
  {
  }

  function SignText(negative: bool): string { if negative then "-" else "" }

  lemma SignedSpells(negative: bool, digits: string)
    requires IsUnsignedNumeral(digits)
    ensures NumeralSpells(SignText(negative) + digits, NumeralValue(negative, digits))
  {
    assert (SignText(negative) + digits)[|SignText(negative)|..] == digits;
  }

  lemma NumeralCuts(negative: bool, digits: string, rest: string)
    requires IsUnsignedNumeral(digits)
    requires rest != "" ==> !IsDigit(rest[0]) && (DigitRun(digits) == |digits| ==> rest[0] != '.')
    ensures Cuts(NumTok(NumeralValue(negative, digits)), rest)
  {
  }

  lemma NumeralAhead(s: string) returns (digits: string, rest: string)
    requires s != "" && IsDigit(s[0])
    ensures IsUnsignedNumeral(digits) && s == digits + rest
    ensures |digits| == NumeralRun(s, false) && digits == s[..|digits|]
    ensures rest != "" ==> !IsDigit(rest[0]) && (DigitRun(digits) == |digits| ==> rest[0] != '.')
  {
    NumeralRunIsNumeral(s);
    var n := NumeralRun(s, false);
    digits, rest := s[..n], s[n..];
  }

  lemma ScanNumeralOf(s: string, sign: nat, digits: string)
    requires StartsNumeral(s) && sign == (if s[0] == '-' then 1 else 0)
    requires IsUnsignedNumeral(digits) && digits == s[sign..][..NumeralRun(s[sign..], false)]
    ensures ScanNumeral(s) == Scanned(NumTok(NumeralValue(s[0] == '-', digits)), sign + |digits|)
  {
  }

  lemma SignAhead(s: string, sign: nat)
    requires s != "" && sign == (if s[0] == '-' then 1 else 0)
    ensures |SignText(s[0] == '-')| == sign && s == SignText(s[0] == '-') + s[sign..]
  {
    assert s[..sign] == SignText(s[0] == '-');
  }

  lemma ScannedNumeral(s: string) returns (negative: bool, digits: string, rest: string)
    requires StartsNumeral(s)
    ensures IsUnsignedNumeral(digits) && s == SignText(negative) + digits + rest
    ensures rest != "" ==> !IsDigit(rest[0]) && (DigitRun(digits) == |digits| ==> rest[0] != '.')
    ensures ScanNumeral(s) == Scanned(NumTok(NumeralValue(negative, digits)), |SignText(negative)| + |digits|)
  {
    negative := s[0] == '-';
    var sign := if negative then 1 else 0;
    digits, rest := NumeralAhead(s[sign..]);
    ScanNumeralOf(s, sign, digits);
    SignAhead(s, sign);
    Regrouped(SignText(negative), digits, rest);
  }

  lemma Regrouped(a: string, b: string, c: string)
    ensures a + (b + c) == a + b + c
  {
  }

  lemma NumeralSound(s: string)
    requires StartsNumeral(s)
    ensures var r := ScanNumeral(s);
            r.Scanned? && Spells(r.value, s[..r.len]) && Cuts(r.value, s[r.len..])
  {
    var negative, digits, rest := ScannedNumeral(s);
    SignedSpells(negative, digits);
    NumeralCuts(negative, digits, rest);
    var text := SignText(negative) + digits;
    assert s[..|text|] == text && s[|text|..] == rest;
  }

  lemma WordSound(s: string)
    requires s != "" && (IsLetter(s[0]) || s[0] == '_')
    ensures var r := ScanWord(s);
            r.Scanned? && Spells(r.value, s[..r.len]) && Cuts(r.value, s[r.len..])
  {
    var r := ScanWord(s);
    assert r.value.Ident? ==> IsIdentifier(s[..r.len]);
  }

  /** Every token scanned is spelled by the text it covers, and covers as much as it can. */
  lemma ScanSound(s: string)
    requires s != "" && ScanToken(s).Scanned?
    ensures var r := ScanToken(s);
            Spells(r.value, s[..r.len]) && Cuts(r.value, s[r.len..])
  {
    var c := s[0];
    if c in {'\'', '"'} {
      StringSound(s);
    } else if IsDigit(c) || c == '-' {
      DispatchNumeral(s);
      NumeralSound(s);
    } else if c in {'<', '>', '=', '!'} {
      SymbolSound(s);
    } else if IsLetter(c) || c == '_' {
      DispatchWord(s);
      WordSound(s);
    } else {
      assert s[..1] == [c];
    }
  }

  lemma ScanSymbol(t: Token, text: string, rest: string)
    requires t.LParen? || t.RParen? || t.Dot? || t.Cmp?
    requires Spells(t, text) && Cuts(t, rest)
    ensures ScanToken(text + rest) == Scanned(t, |text|)
  {
    var s := text + rest;
    assert s[..|text|] == text;
    if t.Cmp? && |text| == 2 {
      assert text in {"==", "!=", "<=", ">="};
    }
  }

  lemma ScanStringToken(t: Token, text: string, rest: string)
    requires t.StrTok? && Spells(t, text)
    ensures ScanToken(text + rest) == Scanned(t, |text|)
  {
    var quote, body := text[0], text[1..|text| - 1];
    ScanStringComplete(body, quote, t.text, rest);
    assert text == [quote] + body + [quote];
    assert text + rest == [quote] + (body + [quote] + rest);
    assert ([quote] + (body + [quote] + rest))[1..] == body + [quote] + rest;
    DispatchQuoted(text + rest);
  }

  lemma ScanNumeralToken(t: Token, text: string, rest: string)
    requires t.NumTok? && Spells(t, text) && Cuts(t, rest)
    ensures ScanToken(text + rest) == Scanned(t, |text|)
  {
    var s, negative := text + rest, text[0] == '-';
    var digits := text[|SignText(negative)|..];
    assert s[|SignText(negative)|..] == digits + rest;
    NumeralRunComplete(digits, rest);
    assert (digits + rest)[..|digits|] == digits;
    assert StartsNumeral(s) by {
      assert (digits + rest)[0] == digits[0];
    }
    DispatchNumeral(s);
  }

  lemma ScanWordToken(t: Token, text: string, rest: string)
    requires IsWord(text) && Spells(t, text) && Cuts(t, rest)
    requires t.Ident? || KeywordText(t).Some?
    ensures ScanToken(text + rest) == Scanned(t, |text|)
  {
    WordRunComplete(text, rest);
    assert (text + rest)[..|text|] == text;
    DispatchWord(text + rest);
    WordTokenSpelled(t, text);
  }

  lemma WordTokenSpelled(t: Token, text: string)
    requires Spells(t, text) && (t.Ident? || KeywordText(t).Some?)
    ensures WordToken(text) == t
  {
  }

  /** Whatever legal spelling a token is given, the scanner finds that token there. */
  lemma ScanComplete(t: Token, text: string, rest: string)
    requires Spells(t, text) && Cuts(t, rest)
    ensures text != "" && !IsSpace(text[0])
    ensures ScanToken(text + rest) == Scanned(t, |text|)
  {
    if t.StrTok? {
      ScanStringToken(t, text, rest);
    } else if t.NumTok? {
      ScanNumeralToken(t, text, rest);
    } else if t.LParen? || t.RParen? || t.Dot? || t.Cmp? {
      ScanSymbol(t, text, rest);
    } else {
      ScanWordToken(t, text, rest);
    }
  }

  // ---- The loops of the lexer ----

  /** The scan `r` of what follows, after `buf` was read from `n` characters. */
  function After(buf: string, n: nat, r: Scan<string>): Scan<string> {
    match r
    case Scanned(v, m) => Scanned(buf + v, n + m)
    case Bad(e) => Bad(e)
  }

  lemma AfterAfter(a: string, n: nat, b: string, m: nat, r: Scan<string>)
    ensures After(a, n, After(b, m, r)) == After(a + b, n + m, r)
  {
    if r.Scanned? {
      assert a + (b + r.value) == a + b + r.value;
    }
  }

  /** Reads the string whose body starts at `start`; `len` counts the closing quote too. */
  method LexString(source: string, start: nat, quote: char) returns (r: Scan<string>)
    requires start <= |source|
    ensures r == ScanString(source[start..], quote)
  {
    var buf := "";
    var i := start;
    ghost var whole := ScanString(source[start..], quote);
    assert whole.Scanned? ==> "" + whole.value == whole.value;
    while i < |source|
      invariant start <= i <= |source|
      invariant whole == After(buf, i - start, ScanString(source[i..], quote))
    {
      var ch := source[i];
      assert source[i..][1..] == source[i + 1..];
      if ch == '\\' {
        if i + 1 >= |source| {
          return Bad(UnterminatedEscape);
        }
        assert source[i..][2..] == source[i + 2..];
        var nxt := if source[i + 1] == 'n' then '\n' else source[i + 1];
        AfterAfter(buf, i - start, [nxt], 2, ScanString(source[i + 2..], quote));
        buf := buf + [nxt];
        i := i + 2;
        continue;
      }
      if ch == quote {
        assert buf + "" == buf;
        return Scanned(buf, i - start + 1);
      }
      AfterAfter(buf, i - start, [ch], 1, ScanString(source[i + 1..], quote));
      buf := buf + [ch];
      i := i + 1;
    }
    return Bad(UnterminatedString);
  }

  /** Finds the end `j` of the numeral that starts at `i`. */
  method LexNumeral(source: string, i: nat) returns (j: nat)
    requires i < |source| && IsDigit(source[i])
    ensures j == i + NumeralRun(source[i..], false)
  {
    j := i;
    var seenDot := false;
    while j < |source|
      invariant i <= j <= |source|
      invariant NumeralRun(source[i..], false) == j - i + NumeralRun(source[j..], seenDot)
    {
      assert source[j..][1..] == source[j + 1..];
      if IsDigit(source[j]) {
        j := j + 1;
      } else if source[j] == '.' && !seenDot {
        seenDot := true;
        j := j + 1;
      } else {
        break;
      }
    }
  }

  /** Finds the end `j` of the word that starts at `i`. */
  method LexWord(source: string, i: nat) returns (j: nat)
    requires i < |source| && (IsLetter(source[i]) || source[i] == '_')
    ensures j == i + WordRun(source[i..])
  {
    j := i + 1;
    assert source[i..][1..] == source[i + 1..];
    while j < |source| && IsWordChar(source[j])
      invariant i < j <= |source|
      invariant WordRun(source[i..]) == j - i + WordRun(source[j..])
    {
      assert source[j..][1..] == source[j + 1..];
      j := j + 1;
    }
  }

  method LexOperator(source: string, i: nat) returns (r: Scan<Token>)
    requires i < |source| && source[i] in {'<', '>', '=', '!'}
    ensures r == ScanOperator(source[i..])
  {
    var c := source[i];
    ghost var s := source[i..];
    assert s[..1] == [c];
    if i + 1 < |source| {
      var two := source[i..i + 2];
      assert two == s[..2] == [c, s[1]];
      if two in {"<=", ">=", "==", "!="} {
        return Scanned(Cmp(two), 2);
      }
    }
    if c == '<' {
      return Scanned(Cmp("<"), 1);
    }
    if c == '>' {
      return Scanned(Cmp(">"), 1);
    }
    if c == '=' {
      return Bad(UnexpectedEquals);
    }
    return Bad(UnexpectedBang);
  }

  method LexQuoted(source: string, i: nat) returns (r: Scan<Token>)
    requires i < |source|
    ensures r == ScanQuoted(source[i..])
  {
    var body := LexString(source, i + 1, source[i]);
    assert source[i..][1..] == source[i + 1..];
    if body.Bad? {
      return Bad(body.error);
    }
    return Scanned(StrTok(body.value), body.len + 1);
  }

  lemma LexedNumber(source: string, i: nat, first: nat, j: nat)
    requires i < |source| && StartsNumeral(source[i..]) && first == if source[i] == '-' then i + 1 else i
    requires first <= j <= |source| && j - first == NumeralRun(source[first..], false)
    ensures IsUnsignedNumeral(source[first..j])
    ensures ScanNumeral(source[i..]) == Scanned(NumTok(NumeralValue(source[i] == '-', source[first..j])), j - i)
  {
    NumeralRunIsNumeral(source[first..]);
    assert source[i..][first - i..] == source[first..];
    assert source[first..j] == source[first..][..j - first];
  }

  method LexNumber(source: string, i: nat) returns (r: Scan<Token>)
    requires i < |source| && StartsNumeral(source[i..])
    ensures r == ScanNumeral(source[i..])
  {
    var first := if source[i] == '-' then i + 1 else i;
    var j := LexNumeral(source, first);
    LexedNumber(source, i, first, j);
    return Scanned(NumTok(NumeralValue(source[i] == '-', source[first..j])), j - i);
  }

  /** The branches of `_lex` for one character that is no space: the token there and its length. */
  method LexToken(source: string, i: nat) returns (r: Scan<Token>)
    requires i < |source|
    ensures r == ScanToken(source[i..])
  {
    var c := source[i];
    if c == '(' {
      return Scanned(LParen, 1);
    }
    if c == ')' {
      return Scanned(RParen, 1);
    }
    if c == '.' {
      return Scanned(Dot, 1);
    }
    if c in {'<', '>', '=', '!'} {
      r := LexOperator(source, i);
    } else if c in {'\'', '"'} {
      r := LexQuoted(source, i);
    } else if IsDigit(c) || (c == '-' && i + 1 < |source| && IsDigit(source[i + 1])) {
      r := LexNumber(source, i);
    } else if IsLetter(c) || c == '_' {
      var j := LexWord(source, i);
      assert source[i..j] == source[i..][..j - i];
      r := Scanned(WordToken(source[i..j]), j - i);
    } else {
      r := Bad(UnexpectedCharacter(c));
    }
  }

  /** What is left to find from `i` on, when `tokens` were found before. */
  ghost predicate LeftToLex(source: string, tokens: seq<Token>, i: nat)
    requires i <= |source|
  {
    Tokens(source) == Prefixed(tokens, Tokens(source[i..]))
  }

  lemma LexStarts(source: string)
    ensures LeftToLex(source, [], 0)
  {
    assert source[0..] == source;
    assert Tokens(source).Ok? ==> [] + Tokens(source).value == Tokens(source).value;
  }

  lemma LexSkips(source: string, tokens: seq<Token>, i: nat)
    requires i < |source| && IsSpace(source[i]) && LeftToLex(source, tokens, i)
    ensures LeftToLex(source, tokens, i + 1)
  {
    assert source[i..][1..] == source[i + 1..];
  }

  lemma LexEnds(source: string, tokens: seq<Token>)
    requires LeftToLex(source, tokens, |source|)
    ensures Tokens(source) == Ok(tokens)
  {
    assert tokens + [] == tokens;
  }

  /** The token at `i`, after `tokens` were found before it. */
  method LexNext(source: string, i: nat, ghost tokens: seq<Token>) returns (r: Scan<Token>)
    requires i < |source| && !IsSpace(source[i]) && LeftToLex(source, tokens, i)
    ensures r.Bad? ==> Tokens(source) == Err(r.error)
    ensures r.Scanned? ==> 0 < r.len <= |source| - i && LeftToLex(source, tokens + [r.value], i + r.len)
  {
    r := LexToken(source, i);
    TokensOfScan(source[i..]);
    if r.Scanned? {
      assert source[i..][r.len..] == source[i + r.len..];
      PrefixedTwice(tokens, [r.value], Tokens(source[i + r.len..]));
    }
  }

  /** `_lex`: the token list of a text, closed by `Eof`, or the first lexical error. */
  method Lex(source: string) returns (r: Result<seq<Token>, SyntaxError>)
    ensures Tokens(source).Ok? ==> r == Ok(Tokens(source).value + [Eof])
    ensures Tokens(source).Err? ==> r == Err(Tokens(source).error)
  {
    var tokens: seq<Token> := [];
    var i := 0;
    LexStarts(source);
    while i < |source|
      invariant 0 <= i <= |source|
      invariant LeftToLex(source, tokens, i)
    {
      if IsSpace(source[i]) {
        LexSkips(source, tokens, i);
        i := i + 1;
        continue;
      }
      var scan := LexNext(source, i, tokens);
      if scan.Bad? {
        return Err(scan.error);
      }
      tokens := tokens + [scan.value];
      i := i + scan.len;
    }
    LexEnds(source, tokens);
    return Ok(tokens + [Eof]);
  }
}
