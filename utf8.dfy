/**
 * UTF-8 as RFC 3629 defines it (section 3 for the encoding, section 4 for the
 * well-formed byte sequences). The share encoder turns a string of
 * scalar values into its UTF-8 bytes, one Latin-1 character per byte, before base64;
 * the decoder turns bytes back into a string and fails unless they are well-formed UTF-8.
 */
module Utf8 {
  import opened Wrappers

  type Byte = b: int | 0 <= b < 256

  predicate IsTail(b: Byte) { 0x80 <= b <= 0xBF }

  /** The one to four bytes of one scalar value. */
  function EncodeChar(c: char): (r: seq<Byte>)
    ensures 1 <= |r| <= 4
  {
    var v := c as int;
    if v < 0x80 then [v]
    else if v < 0x800 then [0xC0 + v / 64, 0x80 + v % 64]
    else if v < 0x10000 then [0xE0 + v / 4096, 0x80 + (v / 64) % 64, 0x80 + v % 64]
    else [0xF0 + v / 262144, 0x80 + (v / 4096) % 64, 0x80 + (v / 64) % 64, 0x80 + v % 64]
  }

  function Encode(s: string): (r: seq<Byte>)
    ensures |s| <= |r| <= 4 * |s|
  {
    if s == [] then [] else EncodeChar(s[0]) + Encode(s[1..])
  }

  /**
   * The scalar value at the start of `b` and the number of bytes it takes, following
   * the table of well-formed sequences (no overlong forms, no surrogates, nothing above
   * U+10FFFF); `None` when `b` does not start with a well-formed sequence.
   */
  function DecodeFirst(b: seq<Byte>): (r: Option<(char, nat)>)
    ensures r.Some? ==> 1 <= r.value.1 <= |b|
  {
    if b == [] then None
    else
      var b0: int := b[0];
      var t1: int := if |b| >= 2 then b[1] as int - 0x80 else -1;
      var t2: int := if |b| >= 3 then b[2] as int - 0x80 else -1;
      var t3: int := if |b| >= 4 then b[3] as int - 0x80 else -1;
      if b0 < 0x80 then Some((b0 as char, 1))
      else if 0xC2 <= b0 <= 0xDF then
        if 0 <= t1 < 64 then Some((((b0 - 0xC0) * 64 + t1) as char, 2))
        else None
      else if 0xE0 <= b0 <= 0xEF then
        var lo := if b0 == 0xE0 then 0x20 else 0;
        var hi := if b0 == 0xED then 0x20 else 64;
        if lo <= t1 < hi && 0 <= t2 < 64 then
          Some((((b0 - 0xE0) * 4096 + t1 * 64 + t2) as char, 3))
        else None
      else if 0xF0 <= b0 <= 0xF4 then
        var lo := if b0 == 0xF0 then 0x10 else 0;
        var hi := if b0 == 0xF4 then 0x10 else 64;
        if lo <= t1 < hi && 0 <= t2 < 64 && 0 <= t3 < 64 then
          Some((((b0 - 0xF0) * 262144 + t1 * 4096 + t2 * 64 + t3) as char, 4))
        else None
      else None
  }

  /** The string the bytes spell, or `None` (the source's `URIError`) unless all of `b` is well-formed. */
  function Decode(b: seq<Byte>): (r: Option<string>)
    ensures r.Some? ==> |r.value| <= |b|
    ensures b == [] ==> r == Some([])
    decreases |b|
  {
    if b == [] then Some([])
    else
      match DecodeFirst(b)
      case None => None
      case Some((c, n)) =>
        match Decode(b[n..])
        case None => None
        case Some(rest) => Some([c] + rest)
  }

  lemma Split2(v: int)
    requires 0x80 <= v < 0x800
    ensures 2 <= v / 64 < 32 && 0 <= v % 64 < 64 && v == v / 64 * 64 + v % 64
  {
  }

  lemma Split3(v: int)
    requires 0x800 <= v < 0x10000 && !(0xD800 <= v < 0xE000)
    ensures 0 <= v / 4096 < 16 && 0 <= (v / 64) % 64 < 64 && 0 <= v % 64 < 64
    ensures v == v / 4096 * 4096 + (v / 64) % 64 * 64 + v % 64
    ensures v / 4096 == 0 ==> (v / 64) % 64 >= 0x20
    ensures v / 4096 == 0xD ==> (v / 64) % 64 < 0x20
  {
    var q, m := v / 4096, v / 64;
    assert m == q * 64 + m % 64;
  }

  lemma Split4(v: int)
    requires 0x10000 <= v < 0x110000
    ensures 0 <= v / 262144 <= 4 && 0 <= (v / 4096) % 64 < 64
    ensures 0 <= (v / 64) % 64 < 64 && 0 <= v % 64 < 64
    ensures v == v / 262144 * 262144 + (v / 4096) % 64 * 4096 + (v / 64) % 64 * 64 + v % 64
    ensures v / 262144 == 0 ==> (v / 4096) % 64 >= 0x10
    ensures v / 262144 == 4 ==> (v / 4096) % 64 < 0x10
  {
    var q, k, m := v / 262144, v / 4096, v / 64;
    assert k == q * 64 + k % 64;
    assert m == k * 64 + m % 64;
  }

  lemma Join3(q: int, m: int, r: int)
    requires 0 <= q && 0 <= m < 64 && 0 <= r < 64
    ensures var v := q * 4096 + m * 64 + r; v / 4096 == q && (v / 64) % 64 == m && v % 64 == r
  {
    var v := q * 4096 + m * 64 + r;
    assert v / 64 == q * 64 + m;
  }

  lemma Join4(q: int, k: int, m: int, r: int)
    requires 0 <= q && 0 <= k < 64 && 0 <= m < 64 && 0 <= r < 64
    ensures var v := q * 262144 + k * 4096 + m * 64 + r;
      v / 262144 == q && (v / 4096) % 64 == k && (v / 64) % 64 == m && v % 64 == r
  {
    var v := q * 262144 + k * 4096 + m * 64 + r;
    assert v / 64 == (q * 64 + k) * 64 + m;
    assert v / 4096 == q * 64 + k;
  }

  /** The encoding of one scalar value is read back as that value, whatever follows it. */
  lemma DecodeFirstEncodeChar(c: char, rest: seq<Byte>)
    ensures DecodeFirst(EncodeChar(c) + rest) == Some((c, |EncodeChar(c)|))
  {
    var v := c as int;
    var e := EncodeChar(c);
    var b := e + rest;
    assert b[..|e|] == e;
    if v < 0x80 {
    } else if v < 0x800 {
      DecodeFirstOfTwo(c, b);
    } else if v < 0x10000 {
      DecodeFirstOfThree(c, b);
    } else {
      DecodeFirstOfFour(c, b);
    }
  }

  /** A two-byte encoding reads back as its value. */
  lemma DecodeFirstOfTwo(c: char, b: seq<Byte>)
    requires 0x80 <= c as int < 0x800 && |b| >= 2 && b[..2] == EncodeChar(c)
    ensures DecodeFirst(b) == Some((c, 2))
  {
    var v := c as int;
    Split2(v);
    assert b[0] as int == 0xC0 + v / 64 && b[1] as int - 0x80 == v % 64;
  }

  /** A three-byte encoding reads back as its value. */
  lemma DecodeFirstOfThree(c: char, b: seq<Byte>)
    requires 0x800 <= c as int < 0x10000 && |b| >= 3 && b[..3] == EncodeChar(c)
    ensures DecodeFirst(b) == Some((c, 3))
  {
    var v := c as int;
    Split3(v);
    assert b[0] as int == 0xE0 + v / 4096;
    assert b[1] as int - 0x80 == (v / 64) % 64 && b[2] as int - 0x80 == v % 64;
  }

  /** A four-byte encoding reads back as its value. */
  lemma DecodeFirstOfFour(c: char, b: seq<Byte>)
    requires 0x10000 <= c as int && |b| >= 4 && b[..4] == EncodeChar(c)
    ensures DecodeFirst(b) == Some((c, 4))
  {
    var v := c as int;
    Split4(v);
    assert b[0] as int == 0xF0 + v / 262144;
    assert b[1] as int - 0x80 == (v / 4096) % 64 && b[2] as int - 0x80 == (v / 64) % 64;
    assert b[3] as int - 0x80 == v % 64;
  }

  /** A well-formed leading sequence is exactly the encoding of the value it decodes to. */
  lemma EncodeCharDecodeFirst(b: seq<Byte>)
    requires DecodeFirst(b).Some?
    ensures EncodeChar(DecodeFirst(b).value.0) == b[..DecodeFirst(b).value.1]
  {
    var b0: int := b[0];
    if b0 < 0x80 {
    } else if b0 <= 0xDF {
      EncodeOfTwo(b);
    } else if b0 <= 0xEF {
      EncodeOfThree(b);
    } else {
      EncodeOfFour(b);
    }
  }

  /** A well-formed two-byte sequence is the encoding of what it decodes to. */
  lemma EncodeOfTwo(b: seq<Byte>)
    requires DecodeFirst(b).Some? && 0x80 <= b[0] <= 0xDF
    ensures EncodeChar(DecodeFirst(b).value.0) == b[..2]
  {
    var v := DecodeFirst(b).value.0 as int;
    var b0: int, t1: int := b[0], b[1] as int - 0x80;
    assert v == (b0 - 0xC0) * 64 + t1;
    assert v / 64 == b0 - 0xC0 && v % 64 == t1;
  }

  /** A well-formed three-byte sequence is the encoding of what it decodes to. */
  lemma EncodeOfThree(b: seq<Byte>)
    requires DecodeFirst(b).Some? && 0xE0 <= b[0] <= 0xEF
    ensures EncodeChar(DecodeFirst(b).value.0) == b[..3]
  {
    var v := DecodeFirst(b).value.0 as int;
    var b0: int, t1: int, t2: int := b[0], b[1] as int - 0x80, b[2] as int - 0x80;
    assert v == (b0 - 0xE0) * 4096 + t1 * 64 + t2;
    Join3(b0 - 0xE0, t1, t2);
  }

  /** A well-formed four-byte sequence is the encoding of what it decodes to. */
  lemma EncodeOfFour(b: seq<Byte>)
    requires DecodeFirst(b).Some? && 0xF0 <= b[0]
    ensures EncodeChar(DecodeFirst(b).value.0) == b[..4]
  {
    var v := DecodeFirst(b).value.0 as int;
    var b0: int, t1: int, t2: int, t3: int := b[0], b[1] as int - 0x80, b[2] as int - 0x80, b[3] as int - 0x80;
    assert v == (b0 - 0xF0) * 262144 + t1 * 4096 + t2 * 64 + t3;
    Join4(b0 - 0xF0, t1, t2, t3);
  }

  /** Round trip over scalar values: decoding the encoding of `s` gives `s` back. */
  lemma {:induction false} DecodeEncode(s: string)
    ensures Decode(Encode(s)) == Some(s)
  {
    if s != [] {
      var e := EncodeChar(s[0]);
      DecodeFirstEncodeChar(s[0], Encode(s[1..]));
      assert (e + Encode(s[1..]))[|e|..] == Encode(s[1..]);
      DecodeEncode(s[1..]);
      assert [s[0]] + s[1..] == s;
    }
  }

  /** One step of `Decode`: a decodable non-empty input starts with a decodable value. */
  lemma DecodeStep(b: seq<Byte>)
    requires b != [] && Decode(b).Some?
    ensures DecodeFirst(b).Some?
    ensures var n := DecodeFirst(b).value.1;
      && Decode(b[n..]).Some?
      && Decode(b).value == [DecodeFirst(b).value.0] + Decode(b[n..]).value
  {
  }

  /** A decodable non-empty input splits into the encoding of its first value and a decodable rest. */
  lemma DecodeHead(b: seq<Byte>)
    requires b != [] && Decode(b).Some?
    ensures exists n :: && 1 <= n <= |b| && Decode(b[n..]).Some?
                        && Decode(b).value == [Decode(b).value[0]] + Decode(b[n..]).value
                        && EncodeChar(Decode(b).value[0]) == b[..n]
  {
    DecodeStep(b);
    EncodeCharDecodeFirst(b);
    var n := DecodeFirst(b).value.1;
    assert Decode(b).value[0] == DecodeFirst(b).value.0;
  }

  /** A string is encoded by the bytes whose prefix encodes its first value and whose rest encodes the rest. */
  lemma EncodeCons(s: string, b: seq<Byte>, n: nat)
    requires s != [] && n <= |b|
    requires EncodeChar(s[0]) == b[..n] && Encode(s[1..]) == b[n..]
    ensures Encode(s) == b
  {
    assert b == b[..n] + b[n..];
  }

  /** The converse: bytes that decode at all are the encoding of what they decode to. */
  lemma {:induction false} EncodeDecode(b: seq<Byte>)
    requires Decode(b).Some?
    ensures Encode(Decode(b).value) == b
    decreases |b|
  {
    if b != [] {
      DecodeHead(b);
      var s := Decode(b).value;
      var n :| && 1 <= n <= |b| && Decode(b[n..]).Some? && s == [s[0]] + Decode(b[n..]).value
                && EncodeChar(s[0]) == b[..n];
      EncodeDecode(b[n..]);
      assert s[1..] == Decode(b[n..]).value;
      EncodeCons(s, b, n);
    }
  }
}
