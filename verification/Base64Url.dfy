/** Unpadded base64url: section 5 of RFC 4648, without padding as in section 2 of RFC 7515. */
module Base64Url {
  import opened Text

  type Byte = b: int | 0 <= b < 256

  type Sextet = v: int | 0 <= v < 64

  function CharOf(v: Sextet): char {
    if v < 26 then ('A' as int + v) as char
    else if v < 52 then ('a' as int + (v - 26)) as char
    else if v < 62 then ('0' as int + (v - 52)) as char
    else if v == 62 then '-'
    else '_'
  }

  predicate InAlphabet(c: char) { 'A' <= c <= 'Z' || 'a' <= c <= 'z' || '0' <= c <= '9' || c == '-' || c == '_' }

  function ValueOf(c: char): Sextet
    requires InAlphabet(c)
  {
    if 'A' <= c <= 'Z' then c as int - 'A' as int
    else if 'a' <= c <= 'z' then c as int - 'a' as int + 26
    else if '0' <= c <= '9' then c as int - '0' as int + 52
    else if c == '-' then 62
    else 63
  }

  lemma ValueOfCharOf(v: Sextet)
    ensures InAlphabet(CharOf(v)) && ValueOf(CharOf(v)) == v
  {
  }

  // ---- With padding, as the library function encodes and decodes ----

  /** The four characters of the first three bytes, or of all if there are fewer. */
  function FirstText(bytes: seq<Byte>): (text: string)
    requires bytes != []
    ensures |text| == 4
  {
    if |bytes| == 1 then
      [CharOf(bytes[0] / 4), CharOf(bytes[0] % 4 * 16), '=', '=']
    else if |bytes| == 2 then
      [CharOf(bytes[0] / 4), CharOf(bytes[0] % 4 * 16 + bytes[1] / 16), CharOf(bytes[1] % 16 * 4), '=']
    else
      [CharOf(bytes[0] / 4), CharOf(bytes[0] % 4 * 16 + bytes[1] / 16),
       CharOf(bytes[1] % 16 * 4 + bytes[2] / 64), CharOf(bytes[2] % 64)]
  }

  function Encode(bytes: seq<Byte>): string {
    if bytes == [] then ""
    else if |bytes| < 3 then FirstText(bytes)
    else FirstText(bytes) + Encode(bytes[3..])
  }

  /** The bytes of the first group of a text, and whether padding ends it; `None` if it is malformed. */
  function FirstBytes(s: string): Option<(seq<Byte>, bool)> {
    if |s| < 4 || !InAlphabet(s[0]) || !InAlphabet(s[1]) then None
    else
      var a, b := ValueOf(s[0]), ValueOf(s[1]);
      var first: Byte := a * 4 + b / 16;
      if s[2..] == "==" then Some(([first], true))
      else if !InAlphabet(s[2]) then None
      else
        var c := ValueOf(s[2]);
        var second: Byte := b % 16 * 16 + c / 4;
        if s[3..] == "=" then Some(([first, second], true))
        else if !InAlphabet(s[3]) then None
        else Some(([first, second, c % 4 * 64 + ValueOf(s[3])], false))
  }

  /** The bytes of a padded text, or `None` if it is malformed; unused trailing bits are not looked at. */
  function Decode(s: string): Option<seq<Byte>> {
    if s == "" then Some([])
    else match FirstBytes(s)
      case None => None
      case Some((bytes, ended)) =>
        if ended then Some(bytes)
        else match Decode(s[4..])
          case Some(rest) => Some(bytes + rest)
          case None => None
  }

  // ---- Without padding ----

  /** `text.rstrip("=")`. */
  function StripPadding(s: string): string {
    if s != "" && s[|s| - 1] == '=' then StripPadding(s[..|s| - 1]) else s
  }

  /** `value + "=" * (-len(value) % 4)`. */
  function Pad(s: string): string { s + ["", "===", "==", "="][|s| % 4] }

  function UrlEncode(bytes: seq<Byte>): string { StripPadding(Encode(bytes)) }

  function UrlDecode(s: string): Option<seq<Byte>> { Decode(Pad(s)) }

  predicate IsUrlText(s: string) { forall i :: 0 <= i < |s| ==> InAlphabet(s[i]) }

  /** The padding signs that encoding `n` bytes ends in. */
  function Padding(n: nat): string { if n % 3 == 1 then "==" else if n % 3 == 2 then "=" else "" }

  /** What the last two or three characters with padding decode to. */
  lemma DecodeFew(a: Sextet, b: Sextet, c: Sextet)
    ensures FirstBytes([CharOf(a), CharOf(b), '=', '=']) == Some(([a * 4 + b / 16], true))
    ensures FirstBytes([CharOf(a), CharOf(b), CharOf(c), '='])
         == Some(([a * 4 + b / 16, b % 16 * 16 + c / 4], true))
  {
    ValueOfCharOf(a);
    ValueOfCharOf(b);
    ValueOfCharOf(c);
    var two, three := [CharOf(a), CharOf(b), '=', '='], [CharOf(a), CharOf(b), CharOf(c), '='];
    assert two[2..] == "==";
    assert three[2..] == [CharOf(c), '='] && three[2..][0] != '=' && three[3..] == "=";
  }

  /** What four characters decode to. */
  lemma DecodeQuad(a: Sextet, b: Sextet, c: Sextet, d: Sextet, rest: string)
    ensures FirstBytes([CharOf(a), CharOf(b), CharOf(c), CharOf(d)] + rest)
         == Some(([a * 4 + b / 16, b % 16 * 16 + c / 4, c % 4 * 64 + d], false))
  {
    ValueOfCharOf(a);
    ValueOfCharOf(b);
    ValueOfCharOf(c);
    ValueOfCharOf(d);
    var four := [CharOf(a), CharOf(b), CharOf(c), CharOf(d)] + rest;
    assert four[2..][0] == CharOf(c) && four[3..][0] == CharOf(d);
  }

  /** Three bytes cut into four sextets, and put together again. */
  lemma Cut(x: Byte, y: Byte, z: Byte) returns (a: Sextet, b: Sextet, c: Sextet, d: Sextet)
    ensures a == x / 4 && b == x % 4 * 16 + y / 16 && c == y % 16 * 4 + z / 64 && d == z % 64
    ensures a * 4 + b / 16 == x && b % 16 * 16 + c / 4 == y && c % 4 * 64 + d == z
  {
    a, b, c, d := x / 4, x % 4 * 16 + y / 16, y % 16 * 4 + z / 64, z % 64;
  }

  lemma FewDecode(bytes: seq<Byte>)
    requires 0 < |bytes| < 3
    ensures FirstBytes(FirstText(bytes)) == Some((bytes, true))
  {
    if |bytes| == 1 {
      OneDecodes(bytes[0]);
      assert bytes == [bytes[0]];
    } else {
      TwoDecode(bytes[0], bytes[1]);
      assert bytes == [bytes[0], bytes[1]];
    }
  }

  lemma OneDecodes(x: Byte)
    ensures FirstBytes(FirstText([x])) == Some(([x], true))
  {
    var a, b, c, d := Cut(x, 0, 0);
    DecodeFew(a, b, c);
    TextOfFew(x, 0, a, b, c);
  }

  lemma TextOfFew(x: Byte, y: Byte, a: Sextet, b: Sextet, c: Sextet)
    requires a == x / 4 && b == x % 4 * 16 + y / 16 && c == y % 16 * 4
    ensures y == 0 ==> FirstText([x]) == [CharOf(a), CharOf(b), '=', '=']
    ensures FirstText([x, y]) == [CharOf(a), CharOf(b), CharOf(c), '=']
  {
  }

  lemma TwoDecode(x: Byte, y: Byte)
    ensures FirstBytes(FirstText([x, y])) == Some(([x, y], true))
  {
    var a, b, c, d := Cut(x, y, 0);
    DecodeFew(a, b, c);
    TextOfFew(x, y, a, b, c);
  }

  lemma QuadDecodes(bytes: seq<Byte>, rest: string)
    requires |bytes| >= 3
    ensures FirstBytes(FirstText(bytes) + rest) == Some((bytes[..3], false))
  {
    var x, y, z := bytes[0], bytes[1], bytes[2];
    var a, b, c, d := Cut(x, y, z);
    DecodeQuad(a, b, c, d, rest);
    assert FirstText(bytes) == [CharOf(a), CharOf(b), CharOf(c), CharOf(d)];
    assert bytes[..3] == [x, y, z];
  }

  lemma {:induction false} DecodeEncode(bytes: seq<Byte>)
    ensures Decode(Encode(bytes)) == Some(bytes)
  {
    if |bytes| >= 3 {
      var rest := Encode(bytes[3..]);
      QuadDecodes(bytes, rest);
      DecodeEncode(bytes[3..]);
      assert (FirstText(bytes) + rest)[4..] == rest;
      assert bytes == bytes[..3] + bytes[3..];
    } else if bytes != [] {
      FewDecode(bytes);
    }
  }

  lemma StripPaddingOf(text: string, pads: string)
    requires text == "" || text[|text| - 1] != '='
    requires pads in {"", "=", "=="}
    ensures StripPadding(text + pads) == text
  {
    assert StripPadding(text) == text;
    if pads == "=" {
      assert (text + pads)[..|text|] == text;
    } else if pads == "==" {
      assert (text + pads)[..|text| + 1] == text + "=";
      assert (text + "=")[..|text|] == text;
    } else {
      assert text + pads == text;
    }
  }

  /** An encoded text is alphabet characters only, then the padding that its length calls for. */
  lemma {:induction false} EncodeShape(bytes: seq<Byte>) returns (text: string)
    ensures Encode(bytes) == text + Padding(|bytes|)
    ensures IsUrlText(text)
    ensures |text| % 4 == [0, 2, 3][|bytes| % 3]
  {
    if |bytes| < 3 {
      text := ShortShape(bytes);
    } else {
      var quad := FirstText(bytes);
      var rest := EncodeShape(bytes[3..]);
      ThreeLess(|bytes|, |rest|);
      text := quad + rest;
      QuadShape(bytes);
      JoinShapes(quad, rest, Padding(|bytes|));
    }
  }

  lemma ShortShape(bytes: seq<Byte>) returns (text: string)
    requires |bytes| < 3
    ensures Encode(bytes) == text + Padding(|bytes|) && IsUrlText(text) && |text| == [0, 2, 3][|bytes|]
  {
    text := Encode(bytes)[..[0, 2, 3][|bytes|]];
    assert Encode(bytes) == text + Padding(|bytes|);
  }

  lemma QuadShape(bytes: seq<Byte>)
    requires |bytes| >= 3
    ensures IsUrlText(FirstText(bytes))
  {
  }

  lemma JoinShapes(quad: string, rest: string, padding: string)
    requires IsUrlText(quad) && IsUrlText(rest)
    ensures quad + (rest + padding) == quad + rest + padding && IsUrlText(quad + rest)
  {
  }

  lemma ThreeLess(n: nat, k: nat)
    requires n >= 3
    ensures (n - 3) % 3 == n % 3 && (k + 4) % 4 == k % 4
  {
  }

  /** Stripping the padding and working it out again from the length gives back the padded text. */
  lemma PadRestores(bytes: seq<Byte>)
    ensures Pad(UrlEncode(bytes)) == Encode(bytes)
    ensures IsUrlText(UrlEncode(bytes))
  {
    var text := EncodeShape(bytes);
    StripPaddingOf(text, Padding(|bytes|));
  }

  /** Every byte string survives unpadded encoding and decoding. */
  lemma UrlRoundTrip(bytes: seq<Byte>)
    ensures UrlDecode(UrlEncode(bytes)) == Some(bytes)
  {
    PadRestores(bytes);
    DecodeEncode(bytes);
  }

  // ---- The alphabet and the order of the bits ----

  /** The alphabet of section 5 of RFC 4648, the character for the value v at index v. */
  const ALPHABET: string := UPPER + (LOWER + ("0123456789" + "-_"))

  const UPPER: string := "ABCDEFGHIJKLMNOPQRSTUVWXYZ"
  const LOWER: string := "abcdefghijklmnopqrstuvwxyz"

  /** `c` stands for the value `v`. */
  predicate StandsFor(c: char, v: int) { 0 <= v < |ALPHABET| && ALPHABET[v] == c }

  lemma AlphabetChar(v: Sextet)
    ensures StandsFor(CharOf(v), v)
  {
    if v < 26 {
      assert UPPER[v] == CharOf(v);
    } else if v < 52 {
      assert LOWER[v - 26] == CharOf(v);
    } else {
      assert ("0123456789" + "-_")[v - 52] == CharOf(v);
    }
  }

  /** The characters taken are those of the alphabet, and each is read as the value it stands for. */
  lemma AlphabetExactly(c: char)
    ensures |ALPHABET| == 64
    ensures InAlphabet(c) <==> exists v :: StandsFor(c, v)
    ensures InAlphabet(c) ==> StandsFor(c, ValueOf(c))
  {
    if InAlphabet(c) {
      AlphabetChar(ValueOf(c));
    }
    forall v | StandsFor(c, v) ensures InAlphabet(c) {
      AlphabetChar(v);
    }
  }

  /** Four characters stand for the 24 bits of three bytes, the highest bits first. */
  ghost predicate Quad(c: string, x: Byte, y: Byte, z: Byte) {
    exists p, q, r, t :: QuadValues(c, p, q, r, t) && ((p * 64 + q) * 64 + r) * 64 + t == (x * 256 + y) * 256 + z
  }

  predicate QuadValues(c: string, p: int, q: int, r: int, t: int) {
    |c| == 4 && StandsFor(c[0], p) && StandsFor(c[1], q) && StandsFor(c[2], r) && StandsFor(c[3], t)
  }

  function ByteAt(bytes: seq<Byte>, i: nat): Byte { if i < |bytes| then bytes[i] else 0 }

  lemma QuadOf(x: Byte, y: Byte, z: Byte, a: Sextet, b: Sextet, c: Sextet, d: Sextet)
    requires a == x / 4 && b == x % 4 * 16 + y / 16 && c == y % 16 * 4 + z / 64 && d == z % 64
    ensures Quad([CharOf(a), CharOf(b), CharOf(c), CharOf(d)], x, y, z)
  {
    AlphabetChar(a);
    AlphabetChar(b);
    AlphabetChar(c);
    AlphabetChar(d);
    assert QuadValues([CharOf(a), CharOf(b), CharOf(c), CharOf(d)], a, b, c, d);
  }

  /** The first group of an encoded text, when zero bytes fill up the last three. */
  lemma FirstGroup(bytes: seq<Byte>) returns (quad: string)
    requires bytes != []
    ensures Quad(quad, bytes[0], ByteAt(bytes, 1), ByteAt(bytes, 2)) && |quad| == 4
    ensures forall j :: 0 <= j <= |bytes| && j < 4 ==> FirstText(bytes)[j] == quad[j]
  {
    var x, y, z := bytes[0], ByteAt(bytes, 1), ByteAt(bytes, 2);
    var a, b, c, d := Cut(x, y, z);
    quad := [CharOf(a), CharOf(b), CharOf(c), CharOf(d)];
    FirstChars(bytes, a, b, c, d);
    QuadOf(x, y, z, a, b, c, d);
  }

  lemma FirstChars(bytes: seq<Byte>, a: Sextet, b: Sextet, c: Sextet, d: Sextet)
    requires bytes != [] && a == bytes[0] / 4 && b == bytes[0] % 4 * 16 + ByteAt(bytes, 1) / 16
    requires c == ByteAt(bytes, 1) % 16 * 4 + ByteAt(bytes, 2) / 64 && d == ByteAt(bytes, 2) % 64
    ensures var text := FirstText(bytes);
            && text[0] == CharOf(a) && text[1] == CharOf(b)
            && (|bytes| >= 2 ==> text[2] == CharOf(c)) && (|bytes| >= 3 ==> text[3] == CharOf(d))
  {
  }

  /** Three bytes more are four characters more. */
  lemma {:induction false} EncodeFrom(bytes: seq<Byte>, k: nat)
    requires 3 * k <= |bytes|
    ensures |Encode(bytes)| >= 4 * k && Encode(bytes)[4 * k..] == Encode(bytes[3 * k..])
  {
    if k == 0 {
      assert bytes[0..] == bytes && Encode(bytes)[0..] == Encode(bytes);
    } else {
      EncodeFrom(bytes[3..], k - 1);
      DropMore(FirstText(bytes), Encode(bytes[3..]), 4 * (k - 1));
      assert bytes[3..][3 * (k - 1)..] == bytes[3 * k..];
    }
  }

  lemma DropMore(front: string, rest: string, n: nat)
    requires n <= |rest|
    ensures (front + rest)[|front| + n..] == rest[n..]
  {
  }

  lemma {:induction false} EncodeLength(bytes: seq<Byte>)
    ensures |Encode(bytes)| == (|bytes| + 2) / 3 * 4
  {
    if |bytes| >= 3 {
      EncodeLength(bytes[3..]);
      assert (|bytes[3..]| + 2) / 3 == (|bytes| + 2) / 3 - 1;
    }
  }

  /**
   * The text of `n` bytes has `ceil(8 n / 6)` characters, and its k-th group of four characters, or
   * the two or three that are left of the last one, stands for the k-th group of three bytes.
   */
  lemma EncodedBits(bytes: seq<Byte>, k: nat) returns (quad: string)
    requires 3 * k < |bytes|
    ensures Quad(quad, bytes[3 * k], ByteAt(bytes, 3 * k + 1), ByteAt(bytes, 3 * k + 2))
    ensures |UrlEncode(bytes)| == (8 * |bytes| + 5) / 6
    ensures forall j :: 0 <= j <= |bytes| - 3 * k && j < 4 ==>
            4 * k + j < |UrlEncode(bytes)| && UrlEncode(bytes)[4 * k + j] == quad[j]
  {
    EncodeFrom(bytes, k);
    var rest := bytes[3 * k..];
    quad := FirstGroup(rest);
    assert Encode(rest)[..4] == FirstText(rest);
    var n := UnpaddedLength(bytes);
    forall j | 0 <= j <= |bytes| - 3 * k && j < 4
      ensures 4 * k + j < n && UrlEncode(bytes)[4 * k + j] == quad[j]
    {
      InsideUnpadded(|bytes|, n, k, j);
      assert Encode(bytes)[4 * k..][j] == quad[j];
    }
  }

  lemma InsideUnpadded(m: nat, n: nat, k: nat, j: nat)
    requires 6 * n <= 8 * m + 5 < 6 * n + 6 && 3 * k < m && j <= m - 3 * k && j < 4
    ensures 4 * k + j < n
  {
  }

  lemma UnpaddedLength(bytes: seq<Byte>) returns (n: nat)
    ensures n == |UrlEncode(bytes)| == (8 * |bytes| + 5) / 6 && n <= |Encode(bytes)|
    ensures forall i :: 0 <= i < n ==> UrlEncode(bytes)[i] == Encode(bytes)[i]
  {
    EncodeLength(bytes);
    var text := EncodeShape(bytes);
    StripPaddingOf(text, Padding(|bytes|));
    n := |text|;
    PaddedLength(|bytes|);
  }

  lemma PaddedLength(n: nat)
    ensures (n + 2) / 3 * 4 - |Padding(n)| == (8 * n + 5) / 6
  {
    var k := n / 3;
    assert n % 3 == 0 ==> (n + 2) / 3 == k;
    assert n % 3 != 0 ==> (n + 2) / 3 == k + 1;
  }

  /** Two test vectors of section 10 of RFC 4648, and a text with the two characters that base64 writes otherwise. */
  lemma EncodedVectors()
    ensures UrlEncode([102, 111, 111]) == "Zm9v" && UrlEncode([102]) == "Zg" && UrlEncode([251, 255]) == "-_8"
  {
    assert [102, 111, 111][3..] == [];
    assert Encode([102, 111, 111]) == "Zm9v" + "" && Encode([102]) == "Zg" + "==" && Encode([251, 255]) == "-_8" + "=";
    StripPaddingOf("Zm9v", "");
    StripPaddingOf("Zg", "==");
    StripPaddingOf("-_8", "=");
  }
}
