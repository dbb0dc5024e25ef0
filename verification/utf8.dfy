/** UTF-8 (RFC 3629), the encoding `Buffer.from(text)` and `buffer.toString("utf-8")` use.
    Characters are Unicode scalar values; decoding accepts only well-formed input
    (shortest form, no surrogates, nothing above U+10FFFF). */
module Utf8 {
  import opened Wrappers
  import opened Bytes

  /** The octets of one scalar value. */
  function EncodeChar(c: char): (b: seq<byte>)
    ensures 1 <= |b| <= 4
  {
    var n := c as int;
    if n < 0x80 then [n]
    else if n < 0x800 then [0xC0 + n / 64, 0x80 + n % 64]
    else if n < 0x10000 then [0xE0 + n / 4096, 0x80 + n / 64 % 64, 0x80 + n % 64]
    else [0xF0 + n / 262144, 0x80 + n / 4096 % 64, 0x80 + n / 64 % 64, 0x80 + n % 64]
  }

  function Encode(s: string): (b: seq<byte>)
    ensures |b| >= |s|
    decreases |s|
  {
    if |s| == 0 then [] else EncodeChar(s[0]) + Encode(s[1..])
  }

  predicate IsContinuation(b: byte) {
    0x80 <= b < 0xC0
  }

  predicate IsScalar(n: int) {
    (0 <= n < 0xD800) || (0xE000 <= n < 0x110000)
  }

  /** The scalar value at the front of `b` and how many octets it takes. */
  function DecodeFirst(b: seq<byte>): (r: Option<(char, nat)>)
    ensures r.Some? ==> 1 <= r.value.1 <= |b| && r.value.1 <= 4
  {
    if |b| == 0 then None
    else if b[0] < 0x80 then Some((b[0] as char, 1))
    else if 0xC0 <= b[0] < 0xE0 && |b| >= 2 && IsContinuation(b[1]) then
      var n := (b[0] as int - 0xC0) * 64 + (b[1] as int - 0x80);
      if 0x80 <= n then Some((n as char, 2)) else None
    else if 0xE0 <= b[0] < 0xF0 && |b| >= 3 && IsContinuation(b[1]) && IsContinuation(b[2]) then
      var n := (b[0] as int - 0xE0) * 4096 + (b[1] as int - 0x80) * 64 + (b[2] as int - 0x80);
      if 0x800 <= n && IsScalar(n) then Some((n as char, 3)) else None
    else if 0xF0 <= b[0] < 0xF8 && |b| >= 4 && IsContinuation(b[1]) && IsContinuation(b[2])
            && IsContinuation(b[3]) then
      var n := (b[0] as int - 0xF0) * 262144 + (b[1] as int - 0x80) * 4096 + (b[2] as int - 0x80) * 64 + (b[3] as int - 0x80);
      if 0x10000 <= n < 0x110000 then Some((n as char, 4)) else None
    else None
  }

  function Decode(b: seq<byte>): Option<string>
    decreases |b|
  {
    if |b| == 0 then Some("")
    else
      match DecodeFirst(b)
      case None => None
      case Some((c, k)) =>
        match Decode(b[k..])
        case None => None
        case Some(rest) => Some([c] + rest)
  }

  lemma TwoOctets(c: char, more: seq<byte>)
    requires 0x80 <= c as int < 0x800
    ensures DecodeFirst(EncodeChar(c) + more) == Some((c, 2))
  {
    var n := c as int;
    var b0, b1 := 0xC0 + n / 64, 0x80 + n % 64;
    assert EncodeChar(c) == [b0, b1];
    assert (b0 - 0xC0) * 64 + (b1 - 0x80) == n;
    var b := EncodeChar(c) + more;
    assert b[0] == b0 && b[1] == b1;
  }

  lemma ThreeOctets(c: char, more: seq<byte>)
    requires 0x800 <= c as int < 0x10000
    ensures DecodeFirst(EncodeChar(c) + more) == Some((c, 3))
  {
    var n := c as int;
    var b0, b1, b2 := 0xE0 + n / 4096, 0x80 + n / 64 % 64, 0x80 + n % 64;
    assert EncodeChar(c) == [b0, b1, b2];
    assert (b0 - 0xE0) * 4096 + (b1 - 0x80) * 64 + (b2 - 0x80) == n by {
      assert n == n / 4096 * 4096 + n % 4096;
      assert n % 4096 == n / 64 % 64 * 64 + n % 64;
    }
    var b := EncodeChar(c) + more;
    assert b[0] == b0 && b[1] == b1 && b[2] == b2;
  }

  lemma FourOctets(c: char, more: seq<byte>)
    requires 0x10000 <= c as int
    ensures DecodeFirst(EncodeChar(c) + more) == Some((c, 4))
  {
    var n := c as int;
    assert n < 0x110000;
    var b0, b1, b2, b3 := 0xF0 + n / 262144, 0x80 + n / 4096 % 64, 0x80 + n / 64 % 64, 0x80 + n % 64;
    assert EncodeChar(c) == [b0, b1, b2, b3];
    assert (b0 - 0xF0) * 262144 + (b1 - 0x80) * 4096 + (b2 - 0x80) * 64 + (b3 - 0x80) == n by {
      assert n == n / 262144 * 262144 + n % 262144;
      assert n % 262144 == n / 4096 % 64 * 4096 + n % 4096;
      assert n % 4096 == n / 64 % 64 * 64 + n % 64;
    }
    var b := EncodeChar(c) + more;
    assert b[0] == b0 && b[1] == b1 && b[2] == b2 && b[3] == b3;
  }

  /** One character's octets, followed by anything, decode to that character first. */
  lemma DecodeFirstEncodeChar(c: char, more: seq<byte>)
    ensures DecodeFirst(EncodeChar(c) + more) == Some((c, |EncodeChar(c)|))
  {
    var n := c as int;
    if n < 0x80 {
      assert (EncodeChar(c) + more)[0] == n;
    } else if n < 0x800 {
      TwoOctets(c, more);
    } else if n < 0x10000 {
      ThreeOctets(c, more);
    } else {
      FourOctets(c, more);
    }
  }

  /** Text survives the trip through UTF-8 octets. */
  lemma {:induction false} DecodeEncode(s: string)
    ensures Decode(Encode(s)) == Some(s)
    decreases |s|
  {
    if |s| > 0 {
      var head := EncodeChar(s[0]);
      var tail := Encode(s[1..]);
      DecodeFirstEncodeChar(s[0], tail);
      assert (head + tail)[|head|..] == tail;
      DecodeEncode(s[1..]);
      assert s == [s[0]] + s[1..];
    }
  }
}
