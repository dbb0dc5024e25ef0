/** The base64 alphabet and padding of section 4 of RFC 4648, which Node's
    `Buffer.toString("base64")` produces. Decoding accepts exactly the canonical texts:
    whole 4-character quanta, padding only at the end, zero padding bits. */
module Base64 {
  import opened Wrappers
  import opened Bytes

  /** The character for a 6-bit value (Table 1 of RFC 4648). */
  function SextetChar(v: int): char
    requires 0 <= v < 64
  {
    if v < 26 then ('A' as int + v) as char
    else if v < 52 then ('a' as int + (v - 26)) as char
    else if v < 62 then ('0' as int + (v - 52)) as char
    else if v == 62 then '+'
    else '/'
  }

  /** The 6-bit value of an alphabet character; `None` for anything else ('=' included). */
  function CharSextet(c: char): (r: Option<int>)
    ensures r.Some? ==> 0 <= r.value < 64 && SextetChar(r.value) == c
  {
    if 'A' <= c <= 'Z' then Some(c as int - 'A' as int)
    else if 'a' <= c <= 'z' then Some(c as int - 'a' as int + 26)
    else if '0' <= c <= '9' then Some(c as int - '0' as int + 52)
    else if c == '+' then Some(62)
    else if c == '/' then Some(63)
    else None
  }

  lemma SextetRoundTrip(v: int)
    requires 0 <= v < 64
    ensures CharSextet(SextetChar(v)) == Some(v)
  {
  }

  predicate IsAlphabet(c: char) {
    CharSextet(c).Some?
  }

  // ---------------------------------------------------------------------------
  // One quantum: three octets become four sextets, high bits first

  function Encode3(b0: byte, b1: byte, b2: byte): (s: string)
    ensures |s| == 4
  {
    [SextetChar(b0 / 4), SextetChar(b0 % 4 * 16 + b1 / 16),
     SextetChar(b1 % 16 * 4 + b2 / 64), SextetChar(b2 % 64)]
  }

  function Encode2(b0: byte, b1: byte): (s: string)
    ensures |s| == 4
  {
    [SextetChar(b0 / 4), SextetChar(b0 % 4 * 16 + b1 / 16), SextetChar(b1 % 16 * 4), '=']
  }

  function Encode1(b0: byte): (s: string)
    ensures |s| == 4
  {
    [SextetChar(b0 / 4), SextetChar(b0 % 4 * 16), '=', '=']
  }

  /** Decodes one 4-character quantum; `last` says whether padding may appear in it. */
  function DecodeQuantum(q: string, last: bool): (r: Option<seq<byte>>)
    requires |q| == 4
    ensures r.Some? ==> 1 <= |r.value| <= 3 && (!last ==> |r.value| == 3)
  {
    var s0 := CharSextet(q[0]);
    var s1 := CharSextet(q[1]);
    var s2 := CharSextet(q[2]);
    var s3 := CharSextet(q[3]);
    if s0.None? || s1.None? then None
    else
      var c0 := s0.value;
      var c1 := s1.value;
      var b0 := c0 * 4 + c1 / 16;
      if s2.Some? && s3.Some? then
        var c2 := s2.value;
        Some([b0, c1 % 16 * 16 + c2 / 4, c2 % 4 * 64 + s3.value])
      else if last && s2.Some? && q[3] == '=' && s2.value % 4 == 0 then
        Some([b0, c1 % 16 * 16 + s2.value / 4])
      else if last && q[2] == '=' && q[3] == '=' && c1 % 16 == 0 then
        Some([b0])
      else None
  }

  // ---------------------------------------------------------------------------
  // Whole texts

  function Encode(b: seq<byte>): (s: string)
    ensures |s| == 4 * ((|b| + 2) / 3)
    decreases |b|
  {
    if |b| == 0 then ""
    else if |b| == 1 then Encode1(b[0])
    else if |b| == 2 then Encode2(b[0], b[1])
    else Encode3(b[0], b[1], b[2]) + Encode(b[3..])
  }

  function Decode(s: string): (r: Option<seq<byte>>)
    decreases |s|
  {
    if |s| == 0 then Some([])
    else if |s| < 4 then None
    else
      match DecodeQuantum(s[..4], |s| == 4)
      case None => None
      case Some(head) =>
        match Decode(s[4..])
        case None => None
        case Some(tail) => Some(head + tail)
  }

  /** Everything `Encode` emits is alphabet characters and final padding. */
  lemma {:induction false} EncodeAlphabet(b: seq<byte>)
    ensures forall i :: 0 <= i < |Encode(b)| ==> IsAlphabet(Encode(b)[i]) || Encode(b)[i] == '='
    decreases |b|
  {
    if |b| >= 3 {
      EncodeAlphabet(b[3..]);
      var e := Encode(b);
      assert e == Encode3(b[0], b[1], b[2]) + Encode(b[3..]);
      forall i | 0 <= i < |e| ensures IsAlphabet(e[i]) || e[i] == '=' {
        if i >= 4 {
          assert e[i] == Encode(b[3..])[i - 4];
        }
      }
    }
  }

  /** A comma is never part of base64 text, so a data URL's payload is its second
      comma-separated piece. */
  lemma EncodeHasNoComma(b: seq<byte>)
    ensures ',' !in Encode(b)
  {
    EncodeAlphabet(b);
  }

  // ---------------------------------------------------------------------------
  // Round trips

  lemma Quantum3RoundTrip(b0: byte, b1: byte, b2: byte, last: bool)
    ensures DecodeQuantum(Encode3(b0, b1, b2), last) == Some([b0, b1, b2])
  {
    SextetRoundTrip(b0 / 4);
    SextetRoundTrip(b0 % 4 * 16 + b1 / 16);
    SextetRoundTrip(b1 % 16 * 4 + b2 / 64);
    SextetRoundTrip(b2 % 64);
    var c1 := b0 % 4 * 16 + b1 / 16;
    var c2 := b1 % 16 * 4 + b2 / 64;
    assert c1 / 16 == b0 % 4 && c1 % 16 == b1 / 16;
    assert c2 / 4 == b1 % 16 && c2 % 4 == b2 / 64;
  }

  lemma Quantum2RoundTrip(b0: byte, b1: byte)
    ensures DecodeQuantum(Encode2(b0, b1), true) == Some([b0, b1])
  {
    SextetRoundTrip(b0 / 4);
    SextetRoundTrip(b0 % 4 * 16 + b1 / 16);
    SextetRoundTrip(b1 % 16 * 4);
  }

  lemma Quantum1RoundTrip(b0: byte)
    ensures DecodeQuantum(Encode1(b0), true) == Some([b0])
  {
    SextetRoundTrip(b0 / 4);
    SextetRoundTrip(b0 % 4 * 16);
  }

  /** A last quantum decodes on its own. */
  lemma DecodeSingleQuantum(q: string, d: seq<byte>)
    requires |q| == 4 && DecodeQuantum(q, true) == Some(d)
    ensures Decode(q) == Some(d)
  {
    assert q[..4] == q && q[4..] == "";
    assert d + [] == d;
  }

  /** A full quantum followed by more text decodes quantum by quantum. */
  lemma DecodeLeadingQuantum(q: string, rest: string, d: seq<byte>)
    requires |q| == 4 && |rest| > 0
    requires DecodeQuantum(q, false) == Some(d)
    ensures Decode(q + rest) == if Decode(rest).Some? then Some(d + Decode(rest).value) else None
  {
    var s := q + rest;
    assert s[..4] == q && s[4..] == rest;
  }

  /** Decoding what was encoded gives the bytes back. */
  lemma {:induction false} DecodeEncode(b: seq<byte>)
    ensures Decode(Encode(b)) == Some(b)
    decreases |b|
  {
    if 1 <= |b| <= 3 {
      DecodeEncodeShort(b);
    } else if |b| > 3 {
      DecodeEncode(b[3..]);
      DecodeEncodeStep(b);
    }
  }

  /** One to three bytes make one final quantum. */
  lemma {:induction false} DecodeEncodeShort(b: seq<byte>)
    requires 1 <= |b| <= 3
    ensures Decode(Encode(b)) == Some(b)
  {
    if |b| == 1 {
      Quantum1RoundTrip(b[0]);
      assert b == [b[0]];
    } else if |b| == 2 {
      Quantum2RoundTrip(b[0], b[1]);
      assert b == [b[0], b[1]];
    } else {
      Quantum3RoundTrip(b[0], b[1], b[2], true);
      assert Encode(b) == Encode3(b[0], b[1], b[2]) + "";
      assert b == [b[0], b[1], b[2]];
    }
    DecodeSingleQuantum(Encode(b), b);
  }

  /** Three leading bytes make one full quantum ahead of the rest. */
  lemma {:induction false} DecodeEncodeStep(b: seq<byte>)
    requires |b| > 3 && Decode(Encode(b[3..])) == Some(b[3..])
    ensures Decode(Encode(b)) == Some(b)
  {
    Quantum3RoundTrip(b[0], b[1], b[2], false);
    assert b[..3] == [b[0], b[1], b[2]];
    assert Encode(b) == Encode3(b[0], b[1], b[2]) + Encode(b[3..]);
    DecodeLeadingQuantum(Encode3(b[0], b[1], b[2]), Encode(b[3..]), b[..3]);
    assert b == b[..3] + b[3..];
  }

  /** A quantum that decodes is the encoding of what it decodes to. */
  lemma QuantumCanonical(q: string, last: bool)
    requires |q| == 4 && DecodeQuantum(q, last).Some?
    ensures var d := DecodeQuantum(q, last).value;
      if |d| == 3 then Encode3(d[0], d[1], d[2]) == q
      else if |d| == 2 then Encode2(d[0], d[1]) == q
      else Encode1(d[0]) == q
  {
    var c0 := CharSextet(q[0]).value;
    var c1 := CharSextet(q[1]).value;
    var d := DecodeQuantum(q, last).value;
    assert d[0] / 4 == c0;
    if |d| == 3 {
      var c2 := CharSextet(q[2]).value;
      assert d[0] % 4 * 16 + d[1] / 16 == c1;
      assert d[1] % 16 * 4 + d[2] / 64 == c2;
    } else if |d| == 2 {
      assert d[0] % 4 * 16 + d[1] / 16 == c1;
    }
  }

  /** Only the encoding of the result decodes to it: every accepted text is canonical. */
  lemma {:induction false} EncodeDecode(s: string)
    requires Decode(s).Some?
    ensures Encode(Decode(s).value) == s
    decreases |s|
  {
    if |s| > 0 {
      var head := DecodeQuantum(s[..4], |s| == 4).value;
      var tail := Decode(s[4..]).value;
      QuantumCanonical(s[..4], |s| == 4);
      EncodeDecode(s[4..]);
      var b := head + tail;
      if |s| == 4 {
        assert tail == [];
        assert b == head;
        assert s == s[..4];
      } else {
        assert |head| == 3;
        assert b[3..] == tail;
        assert s == s[..4] + s[4..];
      }
    }
  }

  /** The canonical texts and the byte strings correspond one to one. */
  lemma DecodeIffEncode(s: string, b: seq<byte>)
    ensures Decode(s) == Some(b) <==> Encode(b) == s
  {
    if Decode(s) == Some(b) {
      EncodeDecode(s);
    }
    if Encode(b) == s {
      DecodeEncode(b);
    }
  }
}
