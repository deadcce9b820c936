/** What texts a token list can be read from, and one canonical text for each list. */
module PolicyText {
  import opened Text
  import opened PolicyAst
  import opened PolicyLexer

  /** A way to write tokens: legal or not, gaps of whitespace and texts that spell the tokens. */
  datatype Layout =
    | End(space: string)
    | Piece(gap: string, text: string, tok: Token, rest: Layout)

  function Source(l: Layout): string {
    match l
    case End(space) => space
    case Piece(gap, text, _, rest) => gap + (text + Source(rest))
  }

  /** Whitespace separates legally spelled tokens, and none of them runs into the next. */
  predicate Legal(l: Layout) {
    match l
    case End(space) => AllSpace(space)
    case Piece(gap, text, tok, rest) =>
      AllSpace(gap) && Spells(tok, text) && Cuts(tok, Source(rest)) && Legal(rest)
  }

  function Toks(l: Layout): seq<Token> {
    match l
    case End(_) => []
    case Piece(_, _, tok, rest) => [tok] + Toks(rest)
  }

  lemma {:induction false} TokensSkipSpace(gap: string, s: string)
    requires AllSpace(gap)
    ensures Tokens(gap + s) == Tokens(s)
  {
    if gap == "" {
      assert gap + s == s;
    } else {
      assert (gap + s)[1..] == gap[1..] + s;
      TokensSkipSpace(gap[1..], s);
    }
  }

  /** Every legal layout of a token list lexes to that list. */
  lemma {:induction false} LexComplete(l: Layout)
    requires Legal(l)
    ensures Tokens(Source(l)) == Ok(Toks(l))
  {
    match l
    case End(space) =>
      TokensSkipSpace(space, "");
      assert space + "" == space;
    case Piece(gap, text, tok, rest) =>
      TokensSkipSpace(gap, text + Source(rest));
      ScanComplete(tok, text, Source(rest));
      assert (text + Source(rest))[|text|..] == Source(rest);
      LexComplete(rest);
  }

  function Indented(c: char, l: Layout): Layout {
    match l
    case End(space) => End([c] + space)
    case Piece(gap, text, tok, rest) => Piece([c] + gap, text, tok, rest)
  }

  lemma IndentedSource(c: char, l: Layout)
    ensures Source(Indented(c, l)) == [c] + Source(l) && Toks(Indented(c, l)) == Toks(l)
    ensures IsSpace(c) && Legal(l) ==> Legal(Indented(c, l))
  {
    match l
    case End(_) =>
    case Piece(gap, text, _, rest) =>
      assert [c] + gap + (text + Source(rest)) == [c] + (gap + (text + Source(rest)));
  }

  /** Whenever lexing succeeds, the text is a legal layout of the tokens found. */
  lemma {:induction false} LexSound(s: string) returns (l: Layout)
    requires Tokens(s).Ok?
    ensures Legal(l) && Source(l) == s && Toks(l) == Tokens(s).value
    decreases |s|
  {
    if s == "" {
      l := End("");
    } else if IsSpace(s[0]) {
      l := LexSound(s[1..]);
      IndentedSource(s[0], l);
      l := Indented(s[0], l);
    } else {
      TokensOfScan(s);
      l := LexSound(s[ScanToken(s).len..]);
      l := TokenAhead(s, l);
    }
  }

  /** The token at the front of a text, and a layout of what follows it. */
  lemma TokenAhead(s: string, rest: Layout) returns (l: Layout)
    requires s != "" && ScanToken(s).Scanned? && Legal(rest) && Source(rest) == s[ScanToken(s).len..]
    ensures Legal(l) && Source(l) == s && Toks(l) == [ScanToken(s).value] + Toks(rest)
  {
    var n := ScanToken(s).len;
    ScanSound(s);
    l := PieceLegal(s[..n], ScanToken(s).value, rest);
    assert s[..n] + s[n..] == s;
  }

  lemma PieceLegal(text: string, tok: Token, rest: Layout) returns (l: Layout)
    requires Spells(tok, text) && Cuts(tok, Source(rest)) && Legal(rest)
    ensures Legal(l) && Source(l) == text + Source(rest) && Toks(l) == [tok] + Toks(rest)
  {
    l := Piece("", text, tok, rest);
    assert "" + (text + Source(rest)) == text + Source(rest);
  }

  /** Lexing succeeds with `ts` exactly on the legal layouts of `ts`. */
  lemma LexExact(s: string, ts: seq<Token>)
    ensures Tokens(s) == Ok(ts) <==> exists l :: Legal(l) && Source(l) == s && Toks(l) == ts
  {
    if Tokens(s) == Ok(ts) {
      var l := LexSound(s);
    }
    forall l | Legal(l) && Source(l) == s && Toks(l) == ts ensures Tokens(s) == Ok(ts) {
      LexComplete(l);
    }
  }

  // ---- Which texts do not lex, and with what error ----

  /** A text that begins with nothing that a token can begin with, or with a string that does not end. */
  ghost predicate Offends(s: string, e: SyntaxError) {
    s != "" &&
    match e
    case UnexpectedEquals => s[0] == '=' && (|s| == 1 || s[1] != '=')
    case UnexpectedBang => s[0] == '!' && (|s| == 1 || s[1] != '=')
    case UnterminatedString => s[0] in {'\'', '"'} && Unclosed(s[1..], s[0])
    case UnterminatedEscape =>
      s[0] in {'\'', '"'} && |s| > 1 && s[|s| - 1] == '\\' && Unclosed(s[1..|s| - 1], s[0])
    case UnexpectedCharacter(c) =>
      && s[0] == c && !IsSpace(c) && !IsDigit(c) && !IsLetter(c) && c !in "().<>=!'\"_"
      && !(c == '-' && |s| > 1 && IsDigit(s[1]))
    case _ => false
  }

  /** A string body as far as it goes: every escape is complete, and no quote closes it. */
  ghost predicate Unclosed(body: string, quote: char) { exists v :: BodySpells(body, quote, v) }

  lemma {:induction false} ScanStringBad(s: string, quote: char)
    requires quote in {'\'', '"'}
    ensures ScanString(s, quote) == Bad(UnterminatedString) <==> Unclosed(s, quote)
    ensures ScanString(s, quote) == Bad(UnterminatedEscape) <==>
            s != "" && s[|s| - 1] == '\\' && Unclosed(s[..|s| - 1], quote)
    ensures ScanString(s, quote).Bad? ==> ScanString(s, quote).error in {UnterminatedString, UnterminatedEscape}
  {
    if s == "" {
      assert BodySpells(s, quote, "");
    } else if s[0] == '\\' && |s| == 1 {
      assert BodySpells(s[..0], quote, "");
    } else {
      UnclosedStep(s, quote);
      if |s| > 1 {
        UnclosedStep(s[..|s| - 1], quote);
      }
      if s[0] == '\\' {
        ScanStringBad(s[2..], quote);
        assert |s| > 2 ==> s[..|s| - 1][2..] == s[2..][..|s| - 3] && s[2..][|s| - 3] == s[|s| - 1];
      } else if s[0] != quote {
        ScanStringBad(s[1..], quote);
        assert |s| > 1 ==> s[..|s| - 1][1..] == s[1..][..|s| - 2] && s[1..][|s| - 2] == s[|s| - 1];
      }
    }
  }

  lemma UnclosedStep(s: string, quote: char)
    requires quote in {'\'', '"'} && s != ""
    ensures s[0] == '\\' ==> (Unclosed(s, quote) <==> |s| > 1 && Unclosed(s[2..], quote))
    ensures s[0] != '\\' ==> (Unclosed(s, quote) <==> s[0] != quote && Unclosed(s[1..], quote))
  {
    var n := if s[0] == '\\' then 2 else 1;
    if Unclosed(s, quote) {
      var v :| BodySpells(s, quote, v);
      assert BodySpells(s[n..], quote, v[1..]);
    }
    if |s| >= n && Unclosed(s[n..], quote) {
      var w :| BodySpells(s[n..], quote, w);
      var v := [if n == 2 then Unescape(s[1]) else s[0]] + w;
      assert v[1..] == w;
      assert s[0] != quote ==> BodySpells(s, quote, v);
    }
  }

  lemma ScanBadExactly(s: string, e: SyntaxError)
    requires s != "" && !IsSpace(s[0])
    ensures ScanToken(s) == Bad(e) <==> Offends(s, e)
  {
    if s[0] in {'\'', '"'} {
      ScanStringBad(s[1..], s[0]);
      assert |s| > 1 ==> s[1..][..|s| - 2] == s[1..|s| - 1] && s[1..][|s| - 2] == s[|s| - 1];
    }
  }

  /** Tokens legally laid out in front of a text into which none of them runs. */
  predicate LegalBefore(l: Layout, text: string) {
    match l
    case End(space) => AllSpace(space)
    case Piece(gap, spelled, tok, rest) =>
      AllSpace(gap) && Spells(tok, spelled) && Cuts(tok, Source(rest) + text) && LegalBefore(rest, text)
  }

  lemma {:induction false} LexErrorComplete(l: Layout, text: string, e: SyntaxError)
    requires LegalBefore(l, text) && Offends(text, e)
    ensures Tokens(Source(l) + text) == Err(e)
  {
    match l
    case End(space) =>
      TokensSkipSpace(space, text);
      ScanBadExactly(text, e);
    case Piece(gap, spelled, tok, rest) =>
      var after := Source(rest) + text;
      assert Source(l) + text == gap + (spelled + after);
      TokensSkipSpace(gap, spelled + after);
      ScanComplete(tok, spelled, after);
      TokensOfScan(spelled + after);
      assert (spelled + after)[|spelled|..] == after;
      LexErrorComplete(rest, text, e);
  }

  lemma {:induction false} LexErrorSound(s: string) returns (l: Layout, text: string)
    requires Tokens(s).Err?
    ensures LegalBefore(l, text) && s == Source(l) + text && Offends(text, Tokens(s).error)
    decreases |s|
  {
    if IsSpace(s[0]) {
      l, text := LexErrorSound(s[1..]);
      l := IndentedBefore(s, l, text);
    } else if ScanToken(s).Bad? {
      TokensOfScan(s);
      ScanBadExactly(s, ScanToken(s).error);
      l, text := End(""), s;
    } else {
      TokensOfScan(s);
      l, text := LexErrorSound(s[ScanToken(s).len..]);
      l := TokenBefore(s, l, text);
    }
  }

  lemma IndentedBefore(s: string, l: Layout, text: string) returns (k: Layout)
    requires s != "" && IsSpace(s[0]) && LegalBefore(l, text) && s[1..] == Source(l) + text
    ensures LegalBefore(k, text) && s == Source(k) + text
  {
    k := Indented(s[0], l);
    IndentedSource(s[0], l);
    assert s == [s[0]] + s[1..];
    assert [s[0]] + (Source(l) + text) == [s[0]] + Source(l) + text;
  }

  lemma TokenBefore(s: string, rest: Layout, text: string) returns (l: Layout)
    requires s != "" && ScanToken(s).Scanned? && LegalBefore(rest, text) && s[ScanToken(s).len..] == Source(rest) + text
    ensures LegalBefore(l, text) && s == Source(l) + text
  {
    var n := ScanToken(s).len;
    ScanSound(s);
    l := PieceBefore(s[..n], ScanToken(s).value, rest, text);
    assert s == s[..n] + s[n..];
  }

  lemma PieceBefore(spelled: string, tok: Token, rest: Layout, text: string) returns (l: Layout)
    requires Spells(tok, spelled) && Cuts(tok, Source(rest) + text) && LegalBefore(rest, text)
    ensures LegalBefore(l, text) && Source(l) + text == spelled + (Source(rest) + text)
  {
    l := Piece("", spelled, tok, rest);
    assert "" + (spelled + Source(rest)) == spelled + Source(rest);
    assert spelled + Source(rest) + text == spelled + (Source(rest) + text);
  }

  /** Behind the tokens of `l`, legally laid out, the rest of `s` offends with `e`. */
  ghost predicate OffendsBehind(s: string, l: Layout, e: SyntaxError) {
    && |Source(l)| <= |s| && s[..|Source(l)|] == Source(l)
    && LegalBefore(l, s[|Source(l)|..]) && Offends(s[|Source(l)|..], e)
  }

  /** Lexing fails exactly on the texts in which, behind legally laid out tokens, something offends: with that error. */
  lemma LexErrorExactly(s: string, e: SyntaxError)
    ensures Tokens(s) == Err(e) <==> exists l :: OffendsBehind(s, l, e)
  {
    if Tokens(s) == Err(e) {
      var l, text := LexErrorSound(s);
      assert s[|Source(l)|..] == text;
      assert OffendsBehind(s, l, e);
    }
    forall l | OffendsBehind(s, l, e) ensures Tokens(s) == Err(e) {
      LexErrorComplete(l, s[|Source(l)|..], e);
      assert s == Source(l) + s[|Source(l)|..];
    }
  }

  // ---- Stripping the text first changes no tokens ----

  function Trailing(l: Layout): string {
    match l
    case End(space) => space
    case Piece(_, _, _, rest) => Trailing(rest)
  }

  function WithTrailing(l: Layout, space: string): Layout {
    match l
    case End(_) => End(space)
    case Piece(gap, text, tok, rest) => Piece(gap, text, tok, WithTrailing(rest, space))
  }

  lemma {:induction false} SourceWithTrailing(l: Layout, space: string)
    ensures Source(WithTrailing(l, space)) == Source(WithTrailing(l, "")) + space
    ensures Source(l) == Source(WithTrailing(l, "")) + Trailing(l)
    ensures Toks(WithTrailing(l, space)) == Toks(l)
  {
    match l
    case End(s) =>
      assert "" + space == space && "" + s == s;
    case Piece(gap, text, _, rest) =>
      SourceWithTrailing(rest, space);
      var core := Source(WithTrailing(rest, ""));
      assert gap + (text + core) + space == gap + (text + (core + space));
      assert gap + (text + core) + Trailing(rest) == gap + (text + (core + Trailing(rest)));
  }

  /** Whether a text prolongs a token does not depend on the whitespace at its end. */
  lemma CutsBySpace(t: Token, core: string, tail: string, tail': string)
    requires AllSpace(tail') && Cuts(t, core + tail)
    ensures Cuts(t, core + tail')
  {
    if core == "" {
      assert core + tail' == tail';
      assert tail' != "" ==> IsSpace(tail'[0]);
    } else {
      assert (core + tail)[0] == (core + tail')[0];
    }
  }

  /** The whitespace at the end of a legal layout may be exchanged for any other. */
  lemma {:induction false} LegalWithTrailing(l: Layout, space: string)
    requires Legal(l) && AllSpace(space)
    ensures Legal(WithTrailing(l, space)) && AllSpace(Trailing(l))
  {
    match l
    case End(_) =>
    case Piece(_, _, tok, rest) =>
      LegalWithTrailing(rest, space);
      SourceWithTrailing(rest, space);
      CutsBySpace(tok, Source(WithTrailing(rest, "")), Trailing(rest), space);
  }

  lemma NumeralEndsInk(s: string)
    requires IsUnsignedNumeral(s)
    ensures s != "" && (IsDigit(s[|s| - 1]) || s[|s| - 1] == '.')
  {
    var n := DigitRun(s);
    if n == |s| {
      assert s[..n][n - 1] == s[n - 1];
    } else if n < |s| - 1 {
      assert s[n + 1..][|s| - n - 2] == s[|s| - 1];
    }
  }

  lemma SpellingEndsInk(t: Token, text: string)
    requires Spells(t, text)
    ensures text != "" && !IsSpace(text[|text| - 1])
  {
    if t.NumTok? {
      NumeralEndsInk(if text != "" && text[0] == '-' then text[1..] else text);
    }
  }

  lemma {:induction false} SourceEndsInk(l: Layout)
    requires Legal(l) && Trailing(l) == "" && l.Piece?
    ensures var s := Source(l);
            s != "" && !IsSpace(s[|s| - 1])
  {
    SpellingEndsInk(l.tok, l.text);
    var s, rest := Source(l), Source(l.rest);
    if l.rest.Piece? {
      SourceEndsInk(l.rest);
      assert s[|s| - 1] == rest[|rest| - 1];
    } else {
      assert s == l.gap + l.text;
    }
  }

  lemma {:induction false} TrailingOfWith(l: Layout, space: string)
    ensures Trailing(WithTrailing(l, space)) == space && (WithTrailing(l, space).Piece? <==> l.Piece?)
  {
    match l
    case End(_) =>
    case Piece(_, _, _, rest) => TrailingOfWith(rest, space);
  }

  lemma {:induction false} SpaceAdded(core: string, after: string)
    requires AllSpace(after) && Tokens(core).Ok?
    ensures Tokens(core + after) == Tokens(core)
  {
    var l := LexSound(core);
    var space := Trailing(l) + after;
    LegalWithTrailing(l, "");
    LegalWithTrailing(l, space);
    SourceWithTrailing(l, space);
    LexComplete(WithTrailing(l, space));
    assert core + after == Source(WithTrailing(l, space));
  }

  lemma {:induction false} SpaceRemoved(core: string, after: string)
    requires AllSpace(after) && Tokens(core + after).Ok?
    ensures Tokens(core) == Tokens(core + after)
  {
    var l := LexSound(core + after);
    var ink := WithTrailing(l, "");
    var base, tail := Source(ink), Trailing(l);
    LegalWithTrailing(l, "");
    SourceWithTrailing(l, "");
    TrailingOfWith(l, "");
    assert base + tail == core + after;
    if |core| < |base| {
      assert base[|base| - 1] == (core + after)[|base| - 1] == after[|base| - 1 - |core|];
      assert l.End? ==> base == "";
      SourceEndsInk(ink);
      assert false;
    }
    var keep := tail[..|core| - |base|];
    assert core == (core + after)[..|core|] == (base + tail)[..|core|] == base + keep;
    LegalWithTrailing(l, keep);
    SourceWithTrailing(l, keep);
    LexComplete(WithTrailing(l, keep));
  }

  lemma SurroundingSpace(before: string, core: string, after: string, ts: seq<Token>)
    requires AllSpace(before) && AllSpace(after)
    ensures Tokens(before + core + after) == Ok(ts) <==> Tokens(core) == Ok(ts)
  {
    assert before + core + after == before + (core + after);
    TokensSkipSpace(before, core + after);
    if Tokens(core).Ok? {
      SpaceAdded(core, after);
    }
    if Tokens(core + after).Ok? {
      SpaceRemoved(core, after);
    }
  }

  /** `parse_expr` strips its source first; that never changes the tokens. */
  lemma StripKeepsTokens(s: string, ts: seq<Token>)
    ensures Tokens(s) == Ok(ts) <==> Tokens(Strip(s)) == Ok(ts)
  {
    var before, after := StripCutsWhitespace(s);
    SurroundingSpace(before, Strip(s), after, ts);
  }

  // ---- One canonical text for every token list ----

  predicate WellFormedToken(t: Token) {
    match t
    case Cmp(op) => op in COMPARISONS
    case NumTok(v) => v.Int? || v.Dec?
    case Ident(name) => IsIdentifier(name)
    case Eof => false
    case _ => true
  }

  predicate WellFormedTokens(ts: seq<Token>) { forall t :: t in ts ==> WellFormedToken(t) }

  function Escape(v: string): string {
    if v == "" then ""
    else (if v[0] == '\n' then "\\n" else if v[0] in {'\\', '"'} then ['\\', v[0]] else [v[0]]) + Escape(v[1..])
  }

  /** `s` with zeros in front, at least `width` digits in all. */
  function Padded(s: string, width: nat): (r: string)
    requires AllDigits(s)
    ensures AllDigits(r) && |r| >= width && |r| >= |s|
    decreases width - |s|
  {
    if |s| >= width then s else Padded("0" + s, width)
  }

  /** `digits` with a dot before the last `scale` of them. */
  function DottedText(negative: bool, digits: string, scale: nat): string
    requires AllDigits(digits) && |digits| > scale
  {
    var whole := |digits| - scale;
    (if negative then "-" else "") + (digits[..whole] + ("." + digits[whole..]))
  }

  function NumeralText(v: Value): string
    requires v.Int? || v.Dec?
  {
    if v.Int? then PrintInt(v.n)
    else if v.mantissa < 0 then DottedText(true, Padded(PrintNat(-v.mantissa), v.scale + 1), v.scale)
    else DottedText(false, Padded(PrintNat(v.mantissa), v.scale + 1), v.scale)
  }

  function CanonicalText(t: Token): string
    requires WellFormedToken(t)
  {
    match t
    case LParen => "("
    case RParen => ")"
    case Dot => "."
    case Cmp(op) => op
    case StrTok(v) => "\"" + (Escape(v) + "\"")
    case NumTok(v) => NumeralText(v)
    case Ident(name) => name
    case _ => match KeywordText(t) { case Some(word) => word case None => "" }
  }

  lemma {:induction false} EscapeSpells(v: string)
    ensures BodySpells(Escape(v), '"', v)
  {
    if v != "" {
      EscapeSpells(v[1..]);
      var rest := Escape(v[1..]);
      if v[0] == '\n' || v[0] in {'\\', '"'} {
        assert Escape(v)[2..] == rest;
        assert Unescape(Escape(v)[1]) == v[0];
      } else {
        assert Escape(v)[1..] == rest;
      }
    }
  }

  lemma {:induction false} PaddedKeepsValue(s: string, width: nat)
    requires AllDigits(s)
    ensures ParseNat(Padded(s, width)) == ParseNat(s)
    decreases width - |s|
  {
    if |s| < width {
      ParseNatIgnoresLeadingZero(s);
      PaddedKeepsValue("0" + s, width);
    }
  }

  lemma IntTextSpells(v: Value)
    requires v.Int?
    ensures NumeralSpells(NumeralText(v), v)
  {
    var n := if v.n < 0 then -v.n else v.n;
    ParsePrintNat(n);
    DigitRunOfConcat(PrintNat(n), "");
    assert PrintNat(n) + "" == PrintNat(n);
    assert v.n < 0 ==> NumeralText(v)[1..] == PrintNat(n);
  }

  lemma DottedNumeral(whole: string, fraction: string, negative: bool)
    requires AllDigits(whole) && AllDigits(fraction) && whole != ""
    ensures var s := whole + ("." + fraction);
            IsUnsignedNumeral(s) &&
            NumeralValue(negative, s) == Dec(Signed(negative, ParseNat(whole + fraction)), |fraction|)
  {
    var s := whole + ("." + fraction);
    DigitRunOfConcat(whole, "." + fraction);
    assert s[..|whole|] == whole && s[|whole| + 1..] == fraction;
  }

  lemma SignedNumeral(negative: bool, s: string)
    requires IsUnsignedNumeral(s)
    ensures NumeralSpells((if negative then "-" else "") + s, NumeralValue(negative, s))
  {
    var text := (if negative then "-" else "") + s;
    assert IsDigit(s[0]) by { assert s[..DigitRun(s)][0] == s[0]; }
    assert text[if negative then 1 else 0..] == s;
    assert !negative ==> text == s;
  }

  lemma {:induction false} DottedTextSpells(negative: bool, digits: string, scale: nat)
    requires AllDigits(digits) && |digits| > scale
    ensures NumeralSpells(DottedText(negative, digits, scale), Dec(Signed(negative, ParseNat(digits)), scale))
  {
    var whole := |digits| - scale;
    DottedNumeral(digits[..whole], digits[whole..], negative);
    assert digits[..whole] + digits[whole..] == digits;
    SignedNumeral(negative, digits[..whole] + ("." + digits[whole..]));
  }

  lemma DecTextSpells(v: Value)
    requires v.Dec?
    ensures NumeralSpells(NumeralText(v), v)
  {
    var n := if v.mantissa < 0 then -v.mantissa else v.mantissa;
    ParsePrintNat(n);
    PaddedKeepsValue(PrintNat(n), v.scale + 1);
    DottedTextSpells(v.mantissa < 0, Padded(PrintNat(n), v.scale + 1), v.scale);
  }

  lemma LowercaseIsLower(s: string)
    requires s != "" && forall k :: 0 <= k < |s| ==> 'a' <= s[k] <= 'z'
    ensures Lower(s) == s && IsWord(s)
  {
  }

  lemma QuotedSpells(v: string)
    ensures Spells(StrTok(v), "\"" + (Escape(v) + "\""))
  {
    var text := "\"" + (Escape(v) + "\"");
    EscapeSpells(v);
    assert text[1..|text| - 1] == Escape(v);
  }

  lemma KeywordSpells(t: Token)
    requires KeywordText(t).Some?
    ensures Spells(t, KeywordText(t).value)
  {
    LowercaseIsLower(KeywordText(t).value);
  }

  lemma CanonicalSpells(t: Token)
    requires WellFormedToken(t)
    ensures Spells(t, CanonicalText(t))
  {
    if t.StrTok? {
      QuotedSpells(t.text);
    } else if t.NumTok? {
      if t.value.Int? { IntTextSpells(t.value); } else { DecTextSpells(t.value); }
    } else if KeywordText(t).Some? {
      KeywordSpells(t);
    }
  }

  // ---- What an escape stands for ----

  /**
   * A way to write the text `v` between two `quote` characters: the quote, the backslash and the
   * characters in `escaped` behind a backslash each, a newline as backslash and `n` if `short`.
   */
  function Written(v: string, quote: char, escaped: set<char>, short: bool): string {
    if v == "" then ""
    else
      (if v[0] == '\n' && short then "\\n"
       else if v[0] == quote || v[0] == '\\' || v[0] in escaped then ['\\', v[0]]
       else [v[0]])
      + Written(v[1..], quote, escaped, short)
  }

  lemma {:induction false} WrittenScans(v: string, quote: char, escaped: set<char>, short: bool)
    requires quote in {'\'', '"'} && 'n' !in escaped
    ensures ScanString(Written(v, quote, escaped, short) + [quote], quote)
         == Scanned(v, |Written(v, quote, escaped, short)| + 1)
  {
    var text := Written(v, quote, escaped, short) + [quote];
    if v != "" {
      var rest := Written(v[1..], quote, escaped, short);
      WrittenScans(v[1..], quote, escaped, short);
      assert v == [v[0]] + v[1..];
      if text[0] == '\\' {
        assert text[2..] == rest + [quote];
      } else {
        assert text[1..] == rest + [quote];
      }
    }
  }

  /**
   * In either quoting a backslash before a character other than `n` stands for that character, and
   * before `n` for a newline: however a text is written so, lexing finds that text.
   */
  lemma EscapesStand(v: string, quote: char, escaped: set<char>, short: bool)
    requires quote in {'\'', '"'} && 'n' !in escaped
    ensures Tokens([quote] + (Written(v, quote, escaped, short) + [quote])) == Ok([StrTok(v)])
  {
    var body := Written(v, quote, escaped, short) + [quote];
    var text := [quote] + body;
    WrittenScans(v, quote, escaped, short);
    assert text[1..] == body;
    DispatchQuoted(text);
    TokensOfScan(text);
    assert text[|text|..] == "" && [StrTok(v)] + [] == [StrTok(v)];
  }

  /** Tokens written without a space between them. */
  predicate Tight(a: Token, b: Token) {
    a.LParen? || b.RParen? || (a.Ident? && b.Dot?) || (a.Dot? && b.Ident?)
  }

  function Spaced(ts: seq<Token>, gap: string): Layout
    requires WellFormedTokens(ts)
  {
    if ts == [] then End("")
    else Piece(gap, CanonicalText(ts[0]), ts[0], Spaced(ts[1..], GapAfter(ts)))
  }

  function GapAfter(ts: seq<Token>): string
    requires ts != []
  {
    if |ts| > 1 && !Tight(ts[0], ts[1]) then " " else ""
  }

  /** The canonical text of a token list. */
  function Render(ts: seq<Token>): string
    requires WellFormedTokens(ts)
  {
    Source(Spaced(ts, ""))
  }

  lemma TightCuts(a: Token, b: Token, rest: string)
    requires WellFormedToken(a) && WellFormedToken(b)
    ensures Tight(a, b) ==> Cuts(a, CanonicalText(b) + rest)
    ensures Cuts(a, " " + rest)
  {
  }

  lemma SpacedCuts(ts: seq<Token>)
    requires WellFormedTokens(ts) && ts != []
    ensures Cuts(ts[0], Source(Spaced(ts[1..], GapAfter(ts))))
  {
    if |ts| > 1 {
      var l := Spaced(ts[1..], GapAfter(ts));
      assert l.text == CanonicalText(ts[1]) && l.gap == GapAfter(ts);
      TightCuts(ts[0], ts[1], Source(l.rest));
      TightCuts(ts[0], ts[1], l.text + Source(l.rest));
      assert l.gap == "" ==> Source(l) == l.text + Source(l.rest);
    }
  }

  lemma {:induction false} SpacedLegal(ts: seq<Token>, gap: string)
    requires WellFormedTokens(ts) && AllSpace(gap)
    ensures Legal(Spaced(ts, gap)) && Toks(Spaced(ts, gap)) == ts
  {
    if ts != [] {
      SpacedLegal(ts[1..], GapAfter(ts));
      CanonicalSpells(ts[0]);
      SpacedCuts(ts);
    }
  }

  /** Lexing undoes rendering on every list of well-formed tokens. */
  lemma LexRender(ts: seq<Token>)
    requires WellFormedTokens(ts)
    ensures Tokens(Render(ts)) == Ok(ts)
  {
    SpacedLegal(ts, "");
    LexComplete(Spaced(ts, ""));
  }
}
