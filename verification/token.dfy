/** The session token of the authentication routes: `JSON.stringify` of the payload,
    encoded as UTF-8, then as base64. There is no signature; decoding is the inverse. */
module Token {
  import opened Wrappers
  import opened Bytes
  import opened Text
  import Base64
  import Utf8

  /** The payload a login or registration puts in a token: the user's id, email and role,
      and the issue time in milliseconds. */
  datatype TokenData = TokenData(id: string, email: string, role: string, iat: int)

  // ---------------------------------------------------------------------------
  // JSON string literals

  /** How `JSON.stringify` writes one character inside a string literal (section 25.5.2.3,
      QuoteJSONString, of ECMA-262): quote and backslash are escaped, control characters get
      their short escape or a lower-case `\u00XX`. */
  function EscapeChar(c: char): (r: string)
    ensures |r| >= 1
  {
    var n := c as int;
    if c == '"' then ['\\', '"']
    else if c == '\\' then ['\\', '\\']
    else if n == 0x08 then ['\\', 'b']
    else if n == 0x09 then ['\\', 't']
    else if n == 0x0A then ['\\', 'n']
    else if n == 0x0C then ['\\', 'f']
    else if n == 0x0D then ['\\', 'r']
    else if n < 0x20 then ['\\', 'u', '0', '0', HexDigit(n / 16), HexDigit(n % 16)]
    else [c]
  }

  function Escape(s: string): string
    decreases |s|
  {
    if |s| == 0 then "" else EscapeChar(s[0]) + Escape(s[1..])
  }

  /** `JSON.stringify` of a string. */
  function Quote(s: string): string {
    ['"'] + Escape(s) + ['"']
  }

  /** The character an escape sequence stands for, given the text after the backslash, and
      how many characters of that text it uses. */
  function Unescape(s: string): (r: Option<(char, nat)>)
    ensures r.Some? ==> 1 <= r.value.1 <= |s|
  {
    if |s| == 0 then None
    else if s[0] == '"' || s[0] == '\\' || s[0] == '/' then Some((s[0], 1))
    else if s[0] == 'b' then Some((8 as char, 1))
    else if s[0] == 't' then Some((9 as char, 1))
    else if s[0] == 'n' then Some((10 as char, 1))
    else if s[0] == 'f' then Some((12 as char, 1))
    else if s[0] == 'r' then Some((13 as char, 1))
    else if s[0] == 'u' && |s| >= 5 then
      var h0 :- HexValue(s[1]);
      var h1 :- HexValue(s[2]);
      var h2 :- HexValue(s[3]);
      var h3 :- HexValue(s[4]);
      var v := h0 * 4096 + h1 * 256 + h2 * 16 + h3;
      if v < 0xD800 || 0xE000 <= v then Some((v as char, 5)) else None
    else None
  }

  /** Reads the body of a string literal up to its closing quote; answers the value and the
      text after the quote. */
  function ParseChars(s: string): (r: Option<(string, string)>)
    ensures r.Some? ==> |r.value.1| < |s|
    decreases |s|
  {
    if |s| == 0 then None
    else if s[0] == '"' then Some(("", s[1..]))
    else if s[0] == '\\' then
      var (c, k) :- Unescape(s[1..]);
      var (v, rest) :- ParseChars(s[1 + k..]);
      Some(([c] + v, rest))
    else if (s[0] as int) < 0x20 then None
    else
      var (v, rest) :- ParseChars(s[1..]);
      Some(([s[0]] + v, rest))
  }

  function ParseString(s: string): Option<(string, string)> {
    if |s| > 0 && s[0] == '"' then ParseChars(s[1..]) else None
  }

  lemma ParseEscapedChar(c: char, more: string)
    ensures ParseChars(EscapeChar(c) + more) ==
      match ParseChars(more)
      case None => None
      case Some((v, rest)) => Some(([c] + v, rest))
  {
    var e := EscapeChar(c);
    var s := e + more;
    var n := c as int;
    if |e| == 1 {
      assert s[1..] == more;
    } else if |e| == 2 {
      assert s[1..] == [e[1]] + more;
      assert s[1..][1..] == more;
      assert Unescape(s[1..]) == Some((c, 1));
    } else {
      var u := s[1..];
      assert u == e[1..] + more;
      assert u[0] == 'u' && u[1] == '0' && u[2] == '0';
      assert u[3] == HexDigit(n / 16) && u[4] == HexDigit(n % 16);
      HexRoundTrip(n / 16);
      HexRoundTrip(n % 16);
      assert Unescape(u) == Some((c, 5));
      assert s[6..] == more;
    }
  }

  lemma {:induction false} ParseEscaped(x: string, rest: string)
    ensures ParseChars(Escape(x) + ['"'] + rest) == Some((x, rest))
    decreases |x|
  {
    if |x| == 0 {
      assert Escape(x) + ['"'] + rest == ['"'] + rest;
      assert (['"'] + rest)[1..] == rest;
    } else {
      ParseEscaped(x[1..], rest);
      ParseEscapedChar(x[0], Escape(x[1..]) + ['"'] + rest);
      assert Escape(x) + ['"'] + rest == EscapeChar(x[0]) + (Escape(x[1..]) + ['"'] + rest);
      assert x == [x[0]] + x[1..];
    }
  }

  /** A quoted string reads back as itself, leaving what follows it. */
  lemma ParseQuote(x: string, rest: string)
    ensures ParseString(Quote(x) + rest) == Some((x, rest))
  {
    ParseEscaped(x, rest);
    var s := Quote(x) + rest;
    assert s[1..] == Escape(x) + ['"'] + rest;
  }

  // ---------------------------------------------------------------------------
  // JSON numbers (integers)

  /** A JSON integer: an optional minus sign and a canonical decimal. */
  function ParseInteger(s: string): Option<(int, string)> {
    if |s| > 0 && s[0] == '-' then
      var (digits, rest) := SpanDigits(s[1..]);
      var n :- ParseNat(digits);
      var v: int := -(n as int);
      Some((v, rest))
    else
      var (digits, rest) := SpanDigits(s);
      var n :- ParseNat(digits);
      Some((n, rest))
  }

  /** How `ParseInteger` reads a signed text, once its digit run is known. */
  lemma ParseIntegerSigned(s: string, digits: string, rest: string, n: nat)
    requires |s| > 0 && s[0] == '-'
    requires SpanDigits(s[1..]) == (digits, rest) && ParseNat(digits) == Some(n)
    ensures ParseInteger(s) == Some((-(n as int), rest))
  {
  }

  /** How `ParseInteger` reads an unsigned text, once its digit run is known. */
  lemma ParseIntegerUnsigned(s: string, digits: string, rest: string, n: nat)
    requires |s| == 0 || s[0] != '-'
    requires SpanDigits(s) == (digits, rest) && ParseNat(digits) == Some(n)
    ensures ParseInteger(s) == Some((n, rest))
  {
  }

  lemma ParseNaturalOf(n: nat, t: string)
    requires |t| == 0 || !IsDigit(t[0])
    ensures ParseInteger(NatToString(n) + t) == Some((n, t))
  {
    var d := NatToString(n);
    var s := d + t;
    assert s[0] == d[0];
    SpanDigitsOf(d, t);
    NatToStringParses(n);
    ParseIntegerUnsigned(s, d, t, n);
  }

  lemma ParseNegativeOf(n: nat, t: string)
    requires n > 0 && (|t| == 0 || !IsDigit(t[0]))
    ensures ParseInteger("-" + NatToString(n) + t) == Some((-(n as int), t))
  {
    var d := NatToString(n);
    var s := "-" + d + t;
    assert s[1..] == d + t;
    SpanDigitsOf(d, t);
    NatToStringParses(n);
    ParseIntegerSigned(s, d, t, n);
  }

  lemma ParseIntegerOf(i: int, t: string)
    requires |t| == 0 || !IsDigit(t[0])
    ensures ParseInteger(IntToString(i) + t) == Some((i, t))
  {
    if i < 0 {
      ParseNegativeOf(-i, t);
    } else {
      ParseNaturalOf(i, t);
    }
  }

  // ---------------------------------------------------------------------------
  // The token payload

  const IdKey: string := "{\"id\":"
  const EmailKey: string := ",\"email\":"
  const RoleKey: string := ",\"role\":"
  const IatKey: string := ",\"iat\":"

  /** `JSON.stringify({ id, email, role, iat })` */
  function Stringify(d: TokenData): string {
    IdKey + (Quote(d.id) + (EmailKey + (Quote(d.email) + (RoleKey + (Quote(d.role) + (IatKey
    + (IntToString(d.iat) + "}")))))))
  }

  function Expect(s: string, lit: string): Option<string> {
    if StartsWith(s, lit) then Some(s[|lit|..]) else None
  }

  lemma ExpectPrefix(lit: string, rest: string)
    ensures Expect(lit + rest, lit) == Some(rest)
  {
    assert (lit + rest)[..|lit|] == lit;
  }

  /** `JSON.parse` for texts of the shape `Stringify` writes; every other text is `None`. */
  function Parse(s: string): Option<TokenData> {
    var r0 :- Expect(s, IdKey);
    var (id, r1) :- ParseString(r0);
    var r2 :- Expect(r1, EmailKey);
    var (email, r3) :- ParseString(r2);
    var r4 :- Expect(r3, RoleKey);
    var (role, r5) :- ParseString(r4);
    var r6 :- Expect(r5, IatKey);
    var (iat, r7) :- ParseInteger(r6);
    if r7 == "}" then Some(TokenData(id, email, role, iat)) else None
  }

  lemma {:induction false} ParseStringify(d: TokenData)
    ensures Parse(Stringify(d)) == Some(d)
  {
    var t7 := "}";
    var t6 := IntToString(d.iat) + t7;
    var t5 := IatKey + t6;
    var t4 := Quote(d.role) + t5;
    var t3 := RoleKey + t4;
    var t2 := Quote(d.email) + t3;
    var t1 := EmailKey + t2;
    var t0 := Quote(d.id) + t1;
    assert Stringify(d) == IdKey + t0;
    ExpectPrefix(IdKey, t0);
    ParseQuote(d.id, t1);
    ExpectPrefix(EmailKey, t2);
    ParseQuote(d.email, t3);
    ExpectPrefix(RoleKey, t4);
    ParseQuote(d.role, t5);
    ExpectPrefix(IatKey, t6);
    ParseIntegerOf(d.iat, t7);
  }

  // ---------------------------------------------------------------------------
  // Tokens

  /** `encodeToken`: `Buffer.from(JSON.stringify(data)).toString("base64")`. */
  function Encode(d: TokenData): string {
    Base64.Encode(Utf8.Encode(Stringify(d)))
  }

  /** `decodeToken`: never fails, answers `None` where the source catches an exception. */
  function Decode(token: string): Option<TokenData> {
    var octets :- Base64.Decode(token);
    var text :- Utf8.Decode(octets);
    Parse(text)
  }

  /** A token issued by the server decodes to the payload it was built from. */
  lemma DecodeEncode(d: TokenData)
    ensures Decode(Encode(d)) == Some(d)
  {
    Base64.DecodeEncode(Utf8.Encode(Stringify(d)));
    Utf8.DecodeEncode(Stringify(d));
    ParseStringify(d);
  }
}
