/**
 * Base64 as section 4 of RFC 4648 defines it (`btoa`), and the lenient decoder
 * `atob` follows: the "forgiving-base64 decode" of section 7 of the WHATWG Infra
 * Standard, which skips ASCII whitespace, lets the padding be left out, refuses a
 * length of 1 modulo 4 and ignores the unused low bits of the last character.
 */
module Base64 {
  import opened Wrappers
  import Seqs
  import Utf8

  type Byte = Utf8.Byte

  /** The 64 characters of the alphabet: `A-Z`, `a-z`, `0-9`, `+`, `/`. */
  predicate IsAlphabet(c: char) {
    ('A' <= c <= 'Z') || ('a' <= c <= 'z') || ('0' <= c <= '9') || c == '+' || c == '/'
  }

  function CharOf(v: int): (c: char)
    requires 0 <= v < 64
    ensures IsAlphabet(c)
  {
    if v < 26 then ('A' as int + v) as char
    else if v < 52 then ('a' as int + v - 26) as char
    else if v < 62 then ('0' as int + v - 52) as char
    else if v == 62 then '+'
    else '/'
  }

  function ValueOf(c: char): (v: int)
    requires IsAlphabet(c)
    ensures 0 <= v < 64 && CharOf(v) == c
  {
    if 'A' <= c <= 'Z' then c as int - 'A' as int
    else if 'a' <= c <= 'z' then c as int - 'a' as int + 26
    else if '0' <= c <= '9' then c as int - '0' as int + 52
    else if c == '+' then 62
    else 63
  }

  lemma ValueOfCharOf(v: int)
    requires 0 <= v < 64
    ensures ValueOf(CharOf(v)) == v
  {
  }

  predicate AreSextets(vs: seq<int>) {
    forall k :: 0 <= k < |vs| ==> 0 <= vs[k] < 64
  }

  /** The 6-bit groups of the bytes, most significant first; a tail is padded with zero bits. */
  function Sextets(b: seq<Byte>): (vs: seq<int>)
    ensures AreSextets(vs)
  {
    if |b| == 0 then []
    else if |b| == 1 then [b[0] / 4, b[0] % 4 * 16]
    else if |b| == 2 then [b[0] / 4, b[0] % 4 * 16 + b[1] / 16, b[1] % 16 * 4]
    else [b[0] / 4, b[0] % 4 * 16 + b[1] / 16, b[1] % 16 * 4 + b[2] / 64, b[2] % 64] + Sextets(b[3..])
  }

  function Chars(vs: seq<int>): (r: string)
    requires AreSextets(vs)
    ensures |r| == |vs| && forall k :: 0 <= k < |r| ==> IsAlphabet(r[k])
  {
    seq(|vs|, i requires 0 <= i < |vs| => CharOf(vs[i]))
  }

  /** The encoding without its padding: four characters per three bytes, two or three for a tail. */
  function EncodeBody(b: seq<Byte>): (r: string)
    ensures forall k :: 0 <= k < |r| ==> IsAlphabet(r[k])
  {
    Chars(Sextets(b))
  }

  /** The `=` characters that round the encoding up to a multiple of four. */
  function Padding(n: nat): string {
    if n % 3 == 1 then "==" else if n % 3 == 2 then "=" else ""
  }

  /** `btoa`: the padded base64 encoding of the bytes. */
  function Encode(b: seq<Byte>): (r: string)
    ensures |r| % 4 == 0
    ensures forall k :: 0 <= k < |r| ==> IsAlphabet(r[k]) || r[k] == '='
  {
    BodyLength(b);
    PaddedLength(|b|);
    EncodeBody(b) + Padding(|b|)
  }

  /** The unpadded length of `n` bytes plus the padding is a multiple of four. */
  lemma PaddedLength(n: nat)
    ensures ((4 * n + 2) / 3 + |Padding(n)|) % 4 == 0
  {
    var q := n / 3;
    assert n == 3 * q + n % 3;
    if n % 3 == 0 {
      assert (4 * n + 2) / 3 == 4 * q;
    } else if n % 3 == 1 {
      assert (4 * n + 2) / 3 == 4 * q + 2;
    } else {
      assert (4 * n + 2) / 3 == 4 * q + 3;
    }
  }

  predicate IsAsciiWhitespace(c: char) {
    c == '\t' || c == '\n' || c as int == 0x0C || c == '\r' || c == ' '
  }

  predicate AllAlphabet(s: string) {
    forall k :: 0 <= k < |s| ==> IsAlphabet(s[k])
  }

  function Values(d: string): (vs: seq<int>)
    requires AllAlphabet(d)
    ensures |vs| == |d| && AreSextets(vs)
  {
    seq(|d|, i requires 0 <= i < |d| => ValueOf(d[i]))
  }

  /** Three bytes per four sextets; a tail of two or three sextets gives one or two bytes. */
  function DecodeSextets(vs: seq<int>): (r: seq<Byte>)
    requires AreSextets(vs) && |vs| % 4 != 1
  {
    if |vs| == 0 then []
    else if |vs| == 2 then [vs[0] * 4 + vs[1] / 16]
    else if |vs| == 3 then [vs[0] * 4 + vs[1] / 16, vs[1] % 16 * 16 + vs[2] / 4]
    else
      [vs[0] * 4 + vs[1] / 16, vs[1] % 16 * 16 + vs[2] / 4, vs[2] % 4 * 64 + vs[3]]
        + DecodeSextets(vs[4..])
  }

  /** Decodes the characters' values, dropping the unused low bits of the last one. */
  function DecodeGroups(d: string): (r: seq<Byte>)
    requires AllAlphabet(d) && |d| % 4 != 1
  {
    DecodeSextets(Values(d))
  }

  /** Drops one or two trailing `=` when the length is a multiple of four. */
  function StripPadding(d: string): (r: string)
    ensures |r| <= |d| && r == d[..|r|]
  {
    if |d| % 4 == 0 && |d| >= 2 && d[|d| - 2] == '=' && d[|d| - 1] == '=' then d[..|d| - 2]
    else if |d| % 4 == 0 && |d| >= 1 && d[|d| - 1] == '=' then d[..|d| - 1]
    else d
  }

  /** `atob`: `None` stands for the `InvalidCharacterError` it throws. */
  function ForgivingDecode(s: string): (r: Option<seq<Byte>>)
    ensures r.Some? <==> var d := StripPadding(Seqs.Filter(c => !IsAsciiWhitespace(c), s));
      |d| % 4 != 1 && AllAlphabet(d)
  {
    var d := StripPadding(Seqs.Filter(c => !IsAsciiWhitespace(c), s));
    if |d| % 4 == 1 || !AllAlphabet(d) then None
    else Some(DecodeGroups(d))
  }

  lemma Group1(b0: Byte)
    ensures (b0 / 4) * 4 + (b0 % 4 * 16) / 16 == b0
  {
  }

  lemma Group2(b0: Byte, b1: Byte)
    ensures var v1 := b0 % 4 * 16 + b1 / 16;
      (b0 / 4) * 4 + v1 / 16 == b0 && v1 % 16 * 16 + (b1 % 16 * 4) / 4 == b1
  {
  }

  lemma Group3(b0: Byte, b1: Byte, b2: Byte)
    ensures var v1, v2 := b0 % 4 * 16 + b1 / 16, b1 % 16 * 4 + b2 / 64;
      && (b0 / 4) * 4 + v1 / 16 == b0
      && v1 % 16 * 16 + v2 / 4 == b1
      && v2 % 4 * 64 + b2 % 64 == b2
  {
  }

  /** The unpadded encoding has `ceil(4n/3)` characters, hence never 1 modulo 4. */
  lemma {:induction false} BodyLength(b: seq<Byte>)
    ensures |EncodeBody(b)| == |Sextets(b)| == (4 * |b| + 2) / 3
    ensures |EncodeBody(b)| % 4 != 1
  {
    if |b| >= 3 {
      BodyLength(b[3..]);
    }
  }

  lemma ValuesChars(vs: seq<int>)
    requires AreSextets(vs)
    ensures Values(Chars(vs)) == vs
  {
    forall k | 0 <= k < |vs| ensures Values(Chars(vs))[k] == vs[k] {
      ValueOfCharOf(vs[k]);
    }
  }

  /** The sextets of the bytes decode back to the bytes. */
  lemma {:induction false} DecodeSextetsOfSextets(b: seq<Byte>)
    ensures |Sextets(b)| % 4 != 1
    ensures DecodeSextets(Sextets(b)) == b
  {
    BodyLength(b);
    if |b| == 1 || |b| == 2 {
      ShortTail(b);
    } else if |b| >= 3 {
      var rest := b[3..];
      DecodeSextetsOfSextets(rest);
      Regroup(b[0], b[1], b[2], Sextets(rest));
      assert Sextets(b) == [b[0] / 4, b[0] % 4 * 16 + b[1] / 16, b[1] % 16 * 4 + b[2] / 64, b[2] % 64] + Sextets(rest);
      assert b == [b[0], b[1], b[2]] + rest;
    }
  }

  /** A tail of one or two bytes comes back from its two or three sextets. */
  lemma ShortTail(b: seq<Byte>)
    requires |b| == 1 || |b| == 2
    ensures |Sextets(b)| % 4 != 1 && DecodeSextets(Sextets(b)) == b
  {
    if |b| == 1 {
      Group1(b[0]);
    } else {
      Group2(b[0], b[1]);
    }
  }

  /** Four sextets made from three bytes decode to those bytes, ahead of whatever follows. */
  lemma Regroup(b0: Byte, b1: Byte, b2: Byte, vrest: seq<int>)
    requires AreSextets(vrest) && |vrest| % 4 != 1
    ensures var vs := [b0 / 4, b0 % 4 * 16 + b1 / 16, b1 % 16 * 4 + b2 / 64, b2 % 64] + vrest;
      && AreSextets(vs) && |vs| % 4 != 1
      && DecodeSextets(vs) == [b0, b1, b2] + DecodeSextets(vrest)
  {
    var vs := [b0 / 4, b0 % 4 * 16 + b1 / 16, b1 % 16 * 4 + b2 / 64, b2 % 64] + vrest;
    Group3(b0, b1, b2);
    assert vs[4..] == vrest;
  }

  /** Decoding the unpadded encoding returns the bytes. */
  lemma DecodeGroupsEncodeBody(b: seq<Byte>)
    ensures |EncodeBody(b)| % 4 != 1
    ensures DecodeGroups(EncodeBody(b)) == b
  {
    BodyLength(b);
    ValuesChars(Sextets(b));
    DecodeSextetsOfSextets(b);
  }

  lemma NoWhitespace(s: string)
    requires forall k :: 0 <= k < |s| ==> IsAlphabet(s[k]) || s[k] == '='
    ensures Seqs.Filter(c => !IsAsciiWhitespace(c), s) == s
  {
    Seqs.FilterKeepsAll(c => !IsAsciiWhitespace(c), s);
  }

  /** The padding `btoa` adds is exactly what `atob` strips again. */
  lemma StripPaddingOfEncode(b: seq<Byte>)
    ensures StripPadding(Encode(b)) == EncodeBody(b)
  {
    var body := EncodeBody(b);
    var e := Encode(b);
    BodyLength(b);
    assert e[..|body|] == body;
    assert |e| % 4 == 0;
    if |b| % 3 == 1 {
      assert e[|e| - 2] == '=' && e[|e| - 1] == '=';
    } else if |b| % 3 == 2 {
      assert e == body + "=";
      assert e[|e| - 1] == '=';
      assert |body| >= 1 && body[|body| - 1] != '=';
    } else {
      assert e == body;
      assert body == [] || body[|body| - 1] != '=';
    }
  }

  /** Round trip: decoding the encoding of `b` gives back `b`. */
  lemma DecodeEncode(b: seq<Byte>)
    ensures ForgivingDecode(Encode(b)) == Some(b)
  {
    NoWhitespace(Encode(b));
    StripPaddingOfEncode(b);
    DecodeGroupsEncodeBody(b);
  }

  /** Leaving the padding out, as a code lifted out of pasted text does, decodes to the same bytes. */
  lemma DecodeEncodeBody(b: seq<Byte>)
    ensures ForgivingDecode(EncodeBody(b)) == Some(b)
  {
    var body := EncodeBody(b);
    NoWhitespace(body);
    DecodeGroupsEncodeBody(b);
    assert StripPadding(body) == body;
  }

  /** A string whose length is 1 modulo 4 once whitespace is dropped is always refused. */
  lemma DecodeRejectsLengthOneModFour(s: string)
    requires |Seqs.Filter(c => !IsAsciiWhitespace(c), s)| % 4 == 1
    ensures ForgivingDecode(s) == None
  {
  }
}
