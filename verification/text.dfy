/** The JavaScript string operations the handlers and dashboards rely on:
    `startsWith`, `includes`, `toLowerCase` (ASCII letters), `trim`, `split` on one
    character, and the decimal rendering of integers. */
module Text {
  import opened Wrappers

  /** `s.startsWith(p)` */
  predicate StartsWith(s: string, p: string) {
    |p| <= |s| && s[..|p|] == p
  }

  /** `s.includes(sub)`, scanning from the left. */
  predicate Includes(s: string, sub: string)
    decreases |s|
  {
    StartsWith(s, sub) || (|s| > 0 && Includes(s[1..], sub))
  }

  /** The reference meaning of `Includes`: `sub` occurs at some position of `s`. */
  predicate OccursAt(s: string, sub: string, i: int) {
    0 <= i && i + |sub| <= |s| && s[i..i + |sub|] == sub
  }

  lemma {:induction false} OccursThenIncludes(s: string, sub: string, i: int)
    requires OccursAt(s, sub, i)
    ensures Includes(s, sub)
    decreases i
  {
    if i == 0 {
      assert s[..|sub|] == s[0..0 + |sub|];
    } else {
      assert s[1..][i - 1..i - 1 + |sub|] == s[i..i + |sub|];
      OccursThenIncludes(s[1..], sub, i - 1);
    }
  }

  lemma {:induction false} IncludesThenOccurs(s: string, sub: string) returns (i: int)
    requires Includes(s, sub)
    ensures OccursAt(s, sub, i)
    decreases |s|
  {
    if StartsWith(s, sub) {
      i := 0;
    } else {
      var j := IncludesThenOccurs(s[1..], sub);
      assert s[1..][j..j + |sub|] == s[j + 1..j + 1 + |sub|];
      i := j + 1;
    }
  }

  lemma IncludesIffOccurs(s: string, sub: string)
    ensures Includes(s, sub) <==> exists i :: OccursAt(s, sub, i)
  {
    if Includes(s, sub) {
      var i := IncludesThenOccurs(s, sub);
    }
    forall i | OccursAt(s, sub, i) ensures Includes(s, sub) {
      OccursThenIncludes(s, sub, i);
    }
  }

  /** Whatever starts `b` occurs in `a + b`. */
  lemma {:induction false} IncludesInSuffix(a: string, b: string, sub: string)
    requires StartsWith(b, sub)
    ensures Includes(a + b, sub)
    decreases |a|
  {
    if |a| == 0 {
      assert a + b == b;
    } else {
      IncludesInSuffix(a[1..], b, sub);
      assert (a + b)[1..] == a[1..] + b;
    }
  }

  /** Appending text never removes an occurrence. */
  lemma {:induction false} IncludesExtend(s: string, t: string, sub: string)
    requires Includes(s, sub)
    ensures Includes(s + t, sub)
    decreases |s|
  {
    if StartsWith(s, sub) {
      assert (s + t)[..|sub|] == s[..|sub|];
    } else {
      IncludesExtend(s[1..], t, sub);
      assert (s + t)[1..] == s[1..] + t;
    }
  }

  // ---------------------------------------------------------------------------
  // Case folding

  /** `toLowerCase` on one character; only the ASCII letters are folded here. */
  function LowerChar(c: char): char {
    if 'A' <= c <= 'Z' then (c as int + 32) as char else c
  }

  function Lower(s: string): (r: string)
    ensures |r| == |s|
    ensures forall i :: 0 <= i < |s| ==> r[i] == LowerChar(s[i])
  {
    seq(|s|, i requires 0 <= i < |s| => LowerChar(s[i]))
  }

  /** Folding twice is folding once. */
  lemma LowerIdempotent(s: string)
    ensures Lower(Lower(s)) == Lower(s)
  {
  }

  /** `a.toLowerCase().includes(b.toLowerCase())` */
  predicate IncludesIgnoringCase(s: string, sub: string) {
    Includes(Lower(s), Lower(sub))
  }

  /** `a.toLowerCase() === b.toLowerCase()` */
  predicate EqualsIgnoringCase(a: string, b: string) {
    Lower(a) == Lower(b)
  }

  // ---------------------------------------------------------------------------
  // Whitespace

  /** The characters `String.prototype.trim` removes: WhiteSpace and LineTerminator of
      section 12.2 and 12.3 of ECMA-262. */
  predicate IsJsSpace(c: char) {
    var n := c as int;
    n == 0x09 || n == 0x0A || n == 0x0B || n == 0x0C || n == 0x0D || n == 0x20
    || n == 0xA0 || n == 0x1680 || (0x2000 <= n <= 0x200A) || n == 0x2028 || n == 0x2029
    || n == 0x202F || n == 0x205F || n == 0x3000 || n == 0xFEFF
  }

  /** A string with nothing but whitespace (the empty string included). */
  predicate IsBlank(s: string) {
    forall i :: 0 <= i < |s| ==> IsJsSpace(s[i])
  }

  function TrimStart(s: string): (r: string)
    ensures |r| <= |s| && r == s[|s| - |r|..]
    ensures IsBlank(s[..|s| - |r|])
    ensures |r| == 0 || !IsJsSpace(r[0])
    decreases |s|
  {
    if |s| > 0 && IsJsSpace(s[0]) then TrimStart(s[1..]) else s
  }

  function TrimEnd(s: string): (r: string)
    ensures |r| <= |s| && r == s[..|r|]
    ensures IsBlank(s[|r|..])
    ensures |r| == 0 || !IsJsSpace(r[|r| - 1])
    decreases |s|
  {
    if |s| > 0 && IsJsSpace(s[|s| - 1]) then TrimEnd(s[..|s| - 1]) else s
  }

  /** `s.trim()` */
  function Trim(s: string): string {
    TrimEnd(TrimStart(s))
  }

  /** `!s.trim()` holds exactly of the blank strings. */
  lemma TrimEmptyIffBlank(s: string)
    ensures Trim(s) == "" <==> IsBlank(s)
  {
    var a := TrimStart(s);
    if Trim(s) == "" {
      assert IsBlank(a[|Trim(s)|..]);
      assert a == a[0..];
      forall i | 0 <= i < |s| ensures IsJsSpace(s[i]) {
        assert s[..|s| - |a|][i] == s[i];
      }
    } else {
      assert !IsJsSpace(Trim(s)[0]) by {
        if |a| > 0 { assert a[0] == Trim(s)[0]; }
      }
      var k := |s| - |a|;
      assert s[k] == a[0] == Trim(s)[0];
    }
  }

  // ---------------------------------------------------------------------------
  // split on one character

  /** `s.split(sep)` for a one-character separator: the maximal pieces between separators. */
  function Split(s: string, sep: char): (r: seq<string>)
    ensures |r| >= 1
    ensures forall k :: 0 <= k < |r| ==> sep !in r[k]
    decreases |s|
  {
    if |s| == 0 then [""]
    else
      var rest := Split(s[1..], sep);
      if s[0] == sep then [""] + rest else [[s[0]] + rest[0]] + rest[1..]
  }

  /** Putting the separators back: `s.split(sep).join(sep) == s`. */
  function Join(pieces: seq<string>, sep: char): string
    requires |pieces| >= 1
    decreases |pieces|
  {
    if |pieces| == 1 then pieces[0] else pieces[0] + [sep] + Join(pieces[1..], sep)
  }

  lemma {:induction false} JoinSplit(s: string, sep: char)
    ensures Join(Split(s, sep), sep) == s
    decreases |s|
  {
    if |s| > 0 {
      JoinSplit(s[1..], sep);
      var rest := Split(s[1..], sep);
      if s[0] != sep {
        if |rest| == 1 {
          assert Join(Split(s, sep), sep) == [s[0]] + rest[0];
        } else {
          assert rest == [rest[0]] + rest[1..];
          assert Join(Split(s, sep), sep) == [s[0]] + rest[0] + [sep] + Join(rest[1..], sep);
        }
        assert s == [s[0]] + s[1..];
      } else {
        assert s == [s[0]] + s[1..];
      }
    }
  }

  /** The piece after the first separator, when there is one: `a + [sep] + b` with no
      separator in `a` splits as `[a]` followed by the pieces of `b`. */
  lemma {:induction false} SplitAfterFirst(a: string, sep: char, b: string)
    requires sep !in a
    ensures Split(a + [sep] + b, sep) == [a] + Split(b, sep)
    decreases |a|
  {
    if |a| == 0 {
      assert a + [sep] + b == [sep] + b;
      assert ([sep] + b)[1..] == b;
    } else {
      SplitAfterFirst(a[1..], sep, b);
      assert (a + [sep] + b)[1..] == a[1..] + [sep] + b;
      assert a == [a[0]] + a[1..];
    }
  }

  /** A string without the separator is one piece. */
  lemma {:induction false} SplitWithoutSeparator(s: string, sep: char)
    requires sep !in s
    ensures Split(s, sep) == [s]
    decreases |s|
  {
    if |s| > 0 {
      SplitWithoutSeparator(s[1..], sep);
      assert s == [s[0]] + s[1..];
    }
  }

  /** `s.split(sep)[k]`, which is `undefined` past the last piece. */
  function SplitPart(s: string, sep: char, k: nat): Option<string> {
    var pieces := Split(s, sep);
    if k < |pieces| then Some(pieces[k]) else None
  }

  // ---------------------------------------------------------------------------
  // Decimal numbers

  predicate IsDigit(c: char) {
    '0' <= c <= '9'
  }

  function DigitChar(d: nat): (c: char)
    requires d < 10
    ensures IsDigit(c) && c as int - '0' as int == d
  {
    ('0' as int + d) as char
  }

  /** The value of a string of decimal digits (0 for the empty string). */
  function DigitsValue(s: string): nat
    requires forall i :: 0 <= i < |s| ==> IsDigit(s[i])
    decreases |s|
  {
    if |s| == 0 then 0
    else
      var last := s[|s| - 1];
      assert IsDigit(last);
      DigitsValue(s[..|s| - 1]) * 10 + (last as int - '0' as int)
  }

  /** The canonical decimal rendering of a natural number: no sign, no leading zero. */
  predicate IsCanonicalDecimal(s: string) {
    |s| >= 1 && (forall i :: 0 <= i < |s| ==> IsDigit(s[i])) && (|s| == 1 || s[0] != '0')
  }

  /** `String(n)` for a non-negative integer. */
  function NatToString(n: nat): (r: string)
    ensures IsCanonicalDecimal(r)
    ensures DigitsValue(r) == n
    decreases n
  {
    if n < 10 then [DigitChar(n)]
    else
      var r := NatToString(n / 10) + [DigitChar(n % 10)];
      assert r[..|r| - 1] == NatToString(n / 10);
      r
  }

  /** `String(i)` for an integer (no exponent form: the values here are far below 1e21). */
  function IntToString(i: int): string {
    if i < 0 then "-" + NatToString(-i) else NatToString(i)
  }

  /** A canonical decimal string whose first digit is not zero is worth at least one. */
  lemma {:induction false} LeadingDigitPositive(s: string)
    requires IsCanonicalDecimal(s) && s[0] != '0'
    ensures DigitsValue(s) >= 1
    decreases |s|
  {
    if |s| > 1 {
      var p := s[..|s| - 1];
      assert p[0] == s[0];
      LeadingDigitPositive(p);
    }
  }

  /** Parsing a canonical decimal string, the inverse of `NatToString`. */
  function ParseNat(s: string): (r: Option<nat>)
    ensures r.Some? <==> IsCanonicalDecimal(s)
    ensures r.Some? ==> NatToString(r.value) == s
  {
    if IsCanonicalDecimal(s) then
      CanonicalRoundTrip(s);
      Some(DigitsValue(s))
    else None
  }

  lemma {:induction false} CanonicalRoundTrip(s: string)
    requires IsCanonicalDecimal(s)
    ensures NatToString(DigitsValue(s)) == s
    decreases |s|
  {
    if |s| > 1 {
      var p := s[..|s| - 1];
      assert p[0] == s[0];
      CanonicalRoundTrip(p);
      LeadingDigitPositive(p);
      assert s == p + [s[|s| - 1]];
    }
  }

  lemma NatToStringParses(n: nat)
    ensures ParseNat(NatToString(n)) == Some(n)
  {
  }

  // ---------------------------------------------------------------------------
  // Digit runs and hexadecimal digits

  /** The longest run of digits at the front of `s`, and the text after it. */
  function SpanDigits(s: string): (r: (string, string))
    ensures r.0 + r.1 == s
    ensures forall i :: 0 <= i < |r.0| ==> IsDigit(r.0[i])
    decreases |s|
  {
    if |s| > 0 && IsDigit(s[0]) then
      var (d, rest) := SpanDigits(s[1..]);
      assert [s[0]] + d + rest == s;
      ([s[0]] + d, rest)
    else ("", s)
  }

  lemma {:induction false} SpanDigitsOf(d: string, t: string)
    requires forall i :: 0 <= i < |d| ==> IsDigit(d[i])
    requires |t| == 0 || !IsDigit(t[0])
    ensures SpanDigits(d + t) == (d, t)
    decreases |d|
  {
    if |d| == 0 {
      assert d + t == t;
    } else {
      SpanDigitsOf(d[1..], t);
      assert (d + t)[1..] == d[1..] + t;
      assert d == [d[0]] + d[1..];
    }
  }

  function HexDigit(v: int): (c: char)
    requires 0 <= v < 16
  {
    if v < 10 then ('0' as int + v) as char else ('a' as int + v - 10) as char
  }

  lemma HexRoundTrip(v: int)
    requires 0 <= v < 16
    ensures HexValue(HexDigit(v)) == Some(v)
  {
  }

  function HexValue(c: char): (r: Option<int>)
    ensures r.Some? ==> 0 <= r.value < 16
  {
    if '0' <= c <= '9' then Some(c as int - '0' as int)
    else if 'a' <= c <= 'f' then Some(c as int - 'a' as int + 10)
    else if 'A' <= c <= 'F' then Some(c as int - 'A' as int + 10)
    else None
  }

  /** The longest run of hexadecimal digits at the front of `s`, and the text after it. */
  function SpanHex(s: string): (r: (string, string))
    ensures r.0 + r.1 == s
    ensures forall i :: 0 <= i < |r.0| ==> HexValue(r.0[i]).Some?
    decreases |s|
  {
    if |s| > 0 && HexValue(s[0]).Some? then
      var (d, rest) := SpanHex(s[1..]);
      assert [s[0]] + d + rest == s;
      ([s[0]] + d, rest)
    else ("", s)
  }

  /** The value of a string of hexadecimal digits. */
  function HexDigitsValue(s: string): nat
    requires forall i :: 0 <= i < |s| ==> HexValue(s[i]).Some?
    decreases |s|
  {
    if |s| == 0 then 0
    else
      assert HexValue(s[|s| - 1]).Some?;
      HexDigitsValue(s[..|s| - 1]) * 16 + HexValue(s[|s| - 1]).value
  }

  // ---------------------------------------------------------------------------
  // parseInt

  /** The magnitude `parseInt` reads after the sign: hexadecimal after a `0x` or `0X`
      prefix, decimal otherwise, stopping at the first character that is not a digit. */
  function ParseMagnitude(u: string): Option<nat> {
    if |u| >= 2 && u[0] == '0' && (u[1] == 'x' || u[1] == 'X') then
      var h := SpanHex(u[2..]).0;
      if h == "" then None else Some(HexDigitsValue(h))
    else
      var d := SpanDigits(u).0;
      if d == "" then None else Some(DigitsValue(d))
  }

  /** `parseInt(s)` with no radix (section 19.2.5 of ECMA-262): leading whitespace is
      skipped, then an optional sign and the magnitude. `None` stands for NaN. */
  function ParseInt(s: string): Option<int> {
    var t := TrimStart(s);
    var signed := |t| > 0 && (t[0] == '-' || t[0] == '+');
    var n :- ParseMagnitude(if signed then t[1..] else t);
    Some(if signed && t[0] == '-' then -(n as int) else n)
  }

  lemma ParseMagnitudeOf(n: nat)
    ensures ParseMagnitude(NatToString(n)) == Some(n)
  {
    var d := NatToString(n);
    SpanDigitsOf(d, "");
    assert d + "" == d;
  }

  lemma TrimStartUnspaced(s: string)
    requires |s| > 0 && !IsJsSpace(s[0])
    ensures TrimStart(s) == s
  {
  }

  lemma ParseIntOfNat(n: nat)
    ensures ParseInt(NatToString(n)) == Some(n)
    ensures ParseInt(IntToString(n)) == Some(n)
  {
    var s := NatToString(n);
    assert IsDigit(s[0]);
    TrimStartUnspaced(s);
    ParseMagnitudeOf(n);
    assert s[0] != '-' && s[0] != '+';
    var signed := |s| > 0 && (s[0] == '-' || s[0] == '+');
    assert !signed;
  }

  lemma ParseIntOfNegative(n: nat)
    requires n > 0
    ensures ParseInt("-" + NatToString(n)) == Some(-(n as int))
    ensures ParseInt(IntToString(-(n as int))) == Some(-(n as int))
  {
    var s := "-" + NatToString(n);
    TrimStartUnspaced(s);
    assert s[1..] == NatToString(n);
    ParseMagnitudeOf(n);
  }

  /** `parseInt` reads back what `String` writes for an integer. */
  lemma ParseIntOfString(i: int)
    ensures ParseInt(IntToString(i)) == Some(i)
  {
    if i < 0 {
      ParseIntOfNegative(-i);
    } else {
      ParseIntOfNat(i);
    }
  }

  // ---------------------------------------------------------------------------
  // JavaScript string length

  /** The number of UTF-16 code units of a string: JavaScript's `length`. A character
      outside the Basic Multilingual Plane is a surrogate pair, two units. */
  function Utf16Length(s: string): (n: nat)
    ensures |s| <= n <= 2 * |s|
    decreases |s|
  {
    if |s| == 0 then 0 else (if s[0] as int >= 0x10000 then 2 else 1) + Utf16Length(s[1..])
  }

  /** The length counts characters exactly when every character is in the Basic
      Multilingual Plane. */
  lemma {:induction false} Utf16LengthBmp(s: string)
    ensures Utf16Length(s) == |s| <==> forall i :: 0 <= i < |s| ==> s[i] as int < 0x10000
    decreases |s|
  {
    if |s| > 0 {
      Utf16LengthBmp(s[1..]);
      assert forall i :: 1 <= i < |s| ==> s[i] == s[1..][i - 1];
    }
  }

  lemma {:induction false} Utf16Append(a: string, b: string)
    ensures Utf16Length(a + b) == Utf16Length(a) + Utf16Length(b)
    decreases |a|
  {
    if |a| > 0 {
      assert (a + b)[1..] == a[1..] + b;
      Utf16Append(a[1..], b);
    } else {
      assert a + b == b;
    }
  }
}
