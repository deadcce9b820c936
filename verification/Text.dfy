/** Result types, ASCII character classes and the decimal text of whole numbers. */
module Text {

  datatype Option<+T> = None | Some(value: T)

  /** A failure-compatible result; `E` stands for the exception the program raises. */
  datatype Result<+T, +E> = Ok(value: T) | Err(error: E) {
    predicate IsFailure() { Err? }

    function PropagateFailure<U>(): Result<U, E>
      requires Err?
    {
      Err(error)
    }

    function Extract(): T
      requires Ok?
    {
      value
    }
  }

  predicate IsDigit(c: char) { '0' <= c <= '9' }

  predicate IsLetter(c: char) { 'a' <= c <= 'z' || 'A' <= c <= 'Z' }

  /** The ASCII characters for which `str.isspace` holds. */
  predicate IsSpace(c: char) {
    c == ' ' || 9 <= c as int <= 13 || 28 <= c as int <= 31
  }

  function LowerChar(c: char): char {
    if 'A' <= c <= 'Z' then (c as int + 32) as char else c
  }

  function Lower(s: string): (r: string)
    ensures |r| == |s|
    ensures forall k :: 0 <= k < |s| ==> r[k] == LowerChar(s[k])
  {
    if s == "" then "" else [LowerChar(s[0])] + Lower(s[1..])
  }

  predicate AllSpace(s: string) { forall k :: 0 <= k < |s| ==> IsSpace(s[k]) }

  predicate AllDigits(s: string) { forall k :: 0 <= k < |s| ==> IsDigit(s[k]) }

  /** `needle in text`. */
  predicate Occurs(needle: string, text: string) {
    needle <= text || (text != "" && Occurs(needle, text[1..]))
  }

  // ---- The order of strings ----

  /** `a < b` on strings: by the first differing character, a proper prefix first. */
  predicate TextLess(a: string, b: string) {
    b != "" && (a == "" || a[0] < b[0] || (a[0] == b[0] && TextLess(a[1..], b[1..])))
  }

  lemma {:induction false} TextTrichotomy(a: string, b: string)
    ensures !(TextLess(a, b) && TextLess(b, a))
    ensures !TextLess(a, b) && !TextLess(b, a) <==> a == b
  {
    if a != "" && b != "" && a[0] == b[0] {
      TextTrichotomy(a[1..], b[1..]);
      assert a == [a[0]] + a[1..] && b == [b[0]] + b[1..];
    }
  }

  lemma {:induction false} TextLessTransitive(a: string, b: string, c: string)
    requires TextLess(a, b) && TextLess(b, c)
    ensures TextLess(a, c)
  {
    if a != "" && a[0] == b[0] == c[0] {
      TextLessTransitive(a[1..], b[1..], c[1..]);
    }
  }

  /** The strings first differ at `k`, where `a` ends or has the smaller character. */
  predicate BeforeAt(a: string, b: string, k: int) {
    && 0 <= k <= |a| && k < |b|
    && a[..k] == b[..k]
    && (k == |a| || a[k] < b[k])
  }

  ghost predicate Before(a: string, b: string) { exists k :: BeforeAt(a, b, k) }

  lemma {:induction false} TextLessExactly(a: string, b: string)
    ensures TextLess(a, b) <==> Before(a, b)
  {
    assert BeforeAt(a, b, 0) <==> b != "" && (a == "" || a[0] < b[0]);
    if a != "" && b != "" {
      TextLessExactly(a[1..], b[1..]);
      BeforeLater(a, b);
    }
  }

  lemma BeforeLater(a: string, b: string)
    requires a != "" && b != ""
    ensures a[0] == b[0] && Before(a[1..], b[1..]) <==> exists k :: k > 0 && BeforeAt(a, b, k)
  {
    if a[0] == b[0] && Before(a[1..], b[1..]) {
      var k :| BeforeAt(a[1..], b[1..], k);
      OneLater(a, b, k + 1);
    }
    if exists k :: k > 0 && BeforeAt(a, b, k) {
      var k :| k > 0 && BeforeAt(a, b, k);
      OneLater(a, b, k);
    }
  }

  lemma OneLater(a: string, b: string, k: int)
    requires a != "" && b != "" && k > 0
    ensures BeforeAt(a, b, k) <==> a[0] == b[0] && BeforeAt(a[1..], b[1..], k - 1)
  {
    if k <= |a| && k < |b| {
      assert a[..k] == [a[0]] + a[1..][..k - 1] && b[..k] == [b[0]] + b[1..][..k - 1];
      assert a[1..][..k - 1] == a[..k][1..] && b[1..][..k - 1] == b[..k][1..];
    }
  }

  /** `needle` stands at index `k` of `text`. */
  predicate OccursAt(needle: string, text: string, k: int) {
    0 <= k && k + |needle| <= |text| && text[k..k + |needle|] == needle
  }

  lemma {:induction false} OccursExactly(needle: string, text: string)
    ensures Occurs(needle, text) <==> exists k :: OccursAt(needle, text, k)
  {
    assert needle <= text <==> OccursAt(needle, text, 0);
    if text != "" {
      OccursExactly(needle, text[1..]);
      OccursLater(needle, text);
    }
  }

  lemma OccursLater(needle: string, text: string)
    requires text != ""
    ensures (exists k :: OccursAt(needle, text[1..], k)) <==> exists k :: k > 0 && OccursAt(needle, text, k)
  {
    forall k ensures OccursAt(needle, text[1..], k) <==> k >= 0 && OccursAt(needle, text, k + 1) {
      OneFurther(needle, text, k);
    }
    if exists k :: k > 0 && OccursAt(needle, text, k) {
      var k :| k > 0 && OccursAt(needle, text, k);
      assert OccursAt(needle, text[1..], k - 1) <==> OccursAt(needle, text, k - 1 + 1);
    }
  }

  lemma OneFurther(needle: string, text: string, k: int)
    requires text != ""
    ensures OccursAt(needle, text[1..], k) <==> k >= 0 && OccursAt(needle, text, k + 1)
  {
    if k >= 0 && k + 1 + |needle| <= |text| {
      assert text[1..][k..k + |needle|] == text[k + 1..k + 1 + |needle|];
    }
  }

  // ---- str.strip ----

  function StripLeft(s: string): string {
    if s != "" && IsSpace(s[0]) then StripLeft(s[1..]) else s
  }

  function StripRight(s: string): string {
    if s != "" && IsSpace(s[|s| - 1]) then StripRight(s[..|s| - 1]) else s
  }

  function Strip(s: string): string { StripRight(StripLeft(s)) }

  lemma {:induction false} StripLeftCuts(s: string) returns (before: string)
    ensures AllSpace(before) && s == before + StripLeft(s)
    ensures StripLeft(s) != "" ==> !IsSpace(StripLeft(s)[0])
  {
    if s != "" && IsSpace(s[0]) {
      before := StripLeftCuts(s[1..]);
      assert s == [s[0]] + s[1..] == [s[0]] + before + StripLeft(s[1..]);
      before := [s[0]] + before;
    } else {
      before := "";
    }
  }

  lemma {:induction false} StripRightCuts(s: string) returns (after: string)
    ensures AllSpace(after) && s == StripRight(s) + after
    ensures StripRight(s) != "" ==> !IsSpace(StripRight(s)[|StripRight(s)| - 1])
  {
    if s != "" && IsSpace(s[|s| - 1]) {
      after := StripRightCuts(s[..|s| - 1]);
      assert s == s[..|s| - 1] + [s[|s| - 1]] == StripRight(s) + (after + [s[|s| - 1]]);
      after := after + [s[|s| - 1]];
    } else {
      after := "";
    }
  }

  /** Stripping cuts whitespace from both ends and from nowhere else. */
  lemma StripCutsWhitespace(s: string) returns (before: string, after: string)
    ensures AllSpace(before) && AllSpace(after) && s == before + Strip(s) + after
    ensures Strip(s) != "" ==> !IsSpace(Strip(s)[0]) && !IsSpace(Strip(s)[|Strip(s)| - 1])
  {
    before := StripLeftCuts(s);
    after := StripRightCuts(StripLeft(s));
    assert Strip(s) != "" ==> Strip(s)[0] == StripLeft(s)[0];
  }

  // ---- Numbers ----

  function Max(a: int, b: int): int { if a < b then b else a }

  function Min(a: int, b: int): int { if a < b then a else b }

  /** `int(x)`: truncation toward zero. */
  function Truncate(x: real): int { if x >= 0.0 then x.Floor else 0 - (0.0 - x).Floor }

  // ---- Decimal text ----

  function DigitChar(d: nat): (c: char)
    requires d < 10
    ensures IsDigit(c)
  {
    ('0' as int + d) as char
  }

  function DigitValue(c: char): nat
    requires IsDigit(c)
  {
    c as int - '0' as int
  }

  /** `str(n)` for a non-negative integer. */
  function PrintNat(n: nat): (s: string)
    ensures s != "" && AllDigits(s)
  {
    if n < 10 then [DigitChar(n)] else PrintNat(n / 10) + [DigitChar(n % 10)]
  }

  /** `int(s)` for a text of decimal digits. */
  function ParseNat(s: string): nat
    requires AllDigits(s)
  {
    if s == "" then 0 else 10 * ParseNat(s[..|s| - 1]) + DigitValue(s[|s| - 1])
  }

  lemma {:induction false} ParsePrintNat(n: nat)
    ensures ParseNat(PrintNat(n)) == n
  {
    if n >= 10 {
      ParsePrintNat(n / 10);
      assert PrintNat(n)[..|PrintNat(n)| - 1] == PrintNat(n / 10);
    }
  }

  lemma {:induction false} ParseNatIgnoresLeadingZero(s: string)
    requires AllDigits(s)
    ensures AllDigits("0" + s) && ParseNat("0" + s) == ParseNat(s)
  {
    if s == "" {
      assert ("0" + s)[..0] == "";
    } else {
      ParseNatIgnoresLeadingZero(s[..|s| - 1]);
      assert ("0" + s)[..|s|] == "0" + s[..|s| - 1];
    }
  }

  /** `str(n)`. */
  function PrintInt(n: int): string {
    if n < 0 then "-" + PrintNat(-n) else PrintNat(n)
  }

  /** `int(s)` for an optional minus sign and decimal digits. */
  function ParseInt(s: string): Option<int> {
    if s != "" && AllDigits(s) then Some(ParseNat(s))
    else if |s| > 1 && s[0] == '-' && AllDigits(s[1..]) then Some(0 - ParseNat(s[1..]))
    else None
  }

  lemma ParsePrintInt(n: int)
    ensures ParseInt(PrintInt(n)) == Some(n)
  {
    if n < 0 {
      ParsePrintNat(-n);
      assert PrintInt(n)[0] == '-' && PrintInt(n)[1..] == PrintNat(-n);
    } else {
      ParsePrintNat(n);
    }
  }
}
