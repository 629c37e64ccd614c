/**
 * The JavaScript string operations the app relies on: `String.prototype.trim`,
 * the decimal printing of integral numbers and `parseInt` with no radix.
 */
module Text {
  import opened Wrappers

  /**
   * The ECMAScript WhiteSpace and LineTerminator code points, the ones `trim` and
   * `parseInt` skip: tab, line feed, vertical tab, form feed, carriage return, space,
   * no-break space, the other space separators, line and paragraph separator, and the
   * byte-order mark.
   */
  const Whitespace: set<char> := {
    '\U{0009}', '\U{000A}', '\U{000B}', '\U{000C}', '\U{000D}', '\U{0020}', '\U{00A0}', '\U{1680}',
    '\U{2000}', '\U{2001}', '\U{2002}', '\U{2003}', '\U{2004}', '\U{2005}', '\U{2006}', '\U{2007}',
    '\U{2008}', '\U{2009}', '\U{200A}', '\U{2028}', '\U{2029}', '\U{202F}', '\U{205F}', '\U{3000}',
    '\U{FEFF}'
  }

  predicate IsWhitespace(c: char) {
    c in Whitespace
  }

  /** `trimStart`: the suffix left once the leading whitespace is dropped. */
  function TrimStart(s: string): (r: string)
    ensures |r| <= |s| && r == s[|s| - |r|..]
    ensures forall k :: 0 <= k < |s| - |r| ==> IsWhitespace(s[k])
    ensures r == [] || !IsWhitespace(r[0])
  {
    if s != [] && IsWhitespace(s[0]) then
      var r := TrimStart(s[1..]);
      assert s[1..][|s| - 1 - |r|..] == s[|s| - |r|..];
      r
    else s
  }

  /** `trimEnd`: the prefix left once the trailing whitespace is dropped. */
  function TrimEnd(s: string): (r: string)
    ensures |r| <= |s| && r == s[..|r|]
    ensures forall k :: |r| <= k < |s| ==> IsWhitespace(s[k])
    ensures r == [] || !IsWhitespace(r[|r| - 1])
  {
    if s != [] && IsWhitespace(s[|s| - 1]) then TrimEnd(s[..|s| - 1]) else s
  }

  /** `r` is `s[i..i + |r|]` and everything of `s` outside that window is whitespace. */
  predicate IsTrimmedWindow(s: string, r: string, i: int) {
    && 0 <= i <= |s| - |r|
    && r == s[i..i + |r|]
    && (forall k :: 0 <= k < i ==> IsWhitespace(s[k]))
    && (forall k :: i + |r| <= k < |s| ==> IsWhitespace(s[k]))
  }

  /**
   * `trim`: the longest infix of `s` that neither starts nor ends with whitespace,
   * everything cut off on either side being whitespace.
   */
  function Trim(s: string): (r: string)
    ensures r == [] || (!IsWhitespace(r[0]) && !IsWhitespace(r[|r| - 1]))
    ensures exists i :: IsTrimmedWindow(s, r, i)
  {
    TrimWindow(s);
    TrimEnd(TrimStart(s))
  }

  /** Trimming the end of the trimmed start cuts whitespace only, on both sides. */
  lemma TrimWindow(s: string)
    ensures var t := TrimStart(s); var r := TrimEnd(t);
      && IsTrimmedWindow(s, r, |s| - |t|)
      && (r != [] ==> r[0] == t[0])
  {
    var t := TrimStart(s);
    var r := TrimEnd(t);
    assert |t| <= |s| && t == s[|s| - |t|..];
    assert |r| <= |t| && r == t[..|r|];
    WindowOf(s, t, r);
  }

  /** A prefix `r` of a suffix `t` of `s`, with whitespace cut on both sides, is a trimmed window of `s`. */
  lemma WindowOf(s: string, t: string, r: string)
    requires |t| <= |s| && t == s[|s| - |t|..]
    requires forall k :: 0 <= k < |s| - |t| ==> IsWhitespace(s[k])
    requires |r| <= |t| && r == t[..|r|]
    requires forall k :: |r| <= k < |t| ==> IsWhitespace(t[k])
    ensures IsTrimmedWindow(s, r, |s| - |t|)
    ensures r != [] ==> r[0] == t[0]
  {
    var i := |s| - |t|;
    assert r == s[i..i + |r|];
    forall k | i + |r| <= k < |s|
      ensures IsWhitespace(s[k])
    {
      assert s[k] == t[k - i];
    }
  }

  /** A string is blank after trimming exactly when all its characters are whitespace. */
  lemma TrimEmptyIff(s: string)
    ensures Trim(s) == [] <==> forall k :: 0 <= k < |s| ==> IsWhitespace(s[k])
  {
    if Trim(s) != [] {
      var i :| IsTrimmedWindow(s, Trim(s), i);
      assert s[i] == Trim(s)[0];
    }
  }

  /** Blanks before a string that starts with a non-blank character are all that `trimStart` removes. */
  lemma {:induction false} TrimStartSkips(ws: string, rest: string)
    requires forall k :: 0 <= k < |ws| ==> IsWhitespace(ws[k])
    requires rest == [] || !IsWhitespace(rest[0])
    ensures TrimStart(ws + rest) == rest
  {
    if ws == [] {
      assert ws + rest == rest;
    } else {
      assert (ws + rest)[1..] == ws[1..] + rest;
      TrimStartSkips(ws[1..], rest);
    }
  }

  /** Blanks after a string that ends with a non-blank character are all that `trimEnd` removes. */
  lemma {:induction false} TrimEndSkips(rest: string, ws: string)
    requires forall k :: 0 <= k < |ws| ==> IsWhitespace(ws[k])
    requires rest == [] || !IsWhitespace(rest[|rest| - 1])
    ensures TrimEnd(rest + ws) == rest
  {
    if ws == [] {
      assert rest + ws == rest;
    } else {
      var w := ws[..|ws| - 1];
      assert (rest + ws)[..|rest + ws| - 1] == rest + w;
      TrimEndSkips(rest, w);
    }
  }

  /** Trimming a string padded with blanks on both sides gives the string back. */
  lemma TrimAround(before: string, t: string, after: string)
    requires forall k :: 0 <= k < |before| ==> IsWhitespace(before[k])
    requires forall k :: 0 <= k < |after| ==> IsWhitespace(after[k])
    requires t != [] && !IsWhitespace(t[0]) && !IsWhitespace(t[|t| - 1])
    ensures Trim(before + t + after) == t
  {
    assert before + t + after == before + (t + after);
    TrimStartSkips(before, t + after);
    TrimEndSkips(t, after);
  }

  predicate IsDigit(c: char) { '0' <= c <= '9' }

  lemma DigitIsNotBlank(c: char)
    requires IsDigit(c)
    ensures !IsWhitespace(c)
  {
  }

  function DigitChar(d: int): (c: char)
    requires 0 <= d < 10
    ensures IsDigit(c)
  {
    ('0' as int + d) as char
  }

  /** The decimal numeral of `n`, without leading zeros, as `String(n)` prints it. */
  function NatToString(n: nat): (r: string)
    ensures 1 <= |r|
    ensures forall k :: 0 <= k < |r| ==> IsDigit(r[k])
    ensures |r| > 1 ==> r[0] != '0'
  {
    if n < 10 then [DigitChar(n)] else NatToString(n / 10) + [DigitChar(n % 10)]
  }

  /** `String(n)` for an integral number: a minus sign before the numeral of `|n|` when negative. */
  function IntToString(n: int): (r: string)
    ensures 1 <= |r|
    ensures r[0] == '-' <==> n < 0
  {
    if n < 0 then "-" + NatToString(-n) else NatToString(n)
  }

  /** The value of a digit in the given radix (10 or 16), or -1 when it is not one. */
  function DigitValue(c: char, radix: int): (v: int)
    ensures v == -1 || 0 <= v < radix
    ensures radix == 10 ==> (v >= 0 <==> IsDigit(c))
  {
    var d :=
      if '0' <= c <= '9' then c as int - '0' as int
      else if 'a' <= c <= 'z' then c as int - 'a' as int + 10
      else if 'A' <= c <= 'Z' then c as int - 'A' as int + 10
      else 36;
    if d < radix then d else -1
  }

  /** Length of the longest prefix of `s` made of digits of `radix`. */
  function DigitRun(s: string, radix: int): (n: nat)
    ensures n <= |s|
    ensures forall k :: 0 <= k < n ==> DigitValue(s[k], radix) >= 0
    ensures n < |s| ==> DigitValue(s[n], radix) < 0
  {
    if s == [] || DigitValue(s[0], radix) < 0 then 0 else 1 + DigitRun(s[1..], radix)
  }

  /** Positional value of a digit string, most significant digit first. */
  function DigitsValue(s: string, radix: int): (v: nat)
    requires radix > 0
    requires forall k :: 0 <= k < |s| ==> DigitValue(s[k], radix) >= 0
  {
    if s == [] then 0
    else DigitsValue(s[..|s| - 1], radix) * radix + DigitValue(s[|s| - 1], radix)
  }

  /**
   * `parseInt(s)` without a radix: leading whitespace is skipped, one sign is read,
   * a `0x`/`0X` prefix switches to radix 16, and the longest digit prefix is read;
   * `None` stands for `NaN` (no digit at all).
   */
  function ParseInt(s: string): (r: Option<int>)
    ensures r == LeadingNumber(s)
    ensures r.None? <==> !HasLeadingNumber(s)
  {
    ParseAtPositions(s);
    LeadingNumberNone(s);
    ParseSigned(TrimStart(s))
  }

  /**
   * What `parseInt` reads, by position in `s`: the longest run of digits of `Radix(s)`
   * from `DigitsStart(s)` on, negated after a minus sign; NaN (`None`) when that run is
   * empty.
   */
  function LeadingNumber(s: string): Option<int> {
    WithSign(Negative(s), DigitPrefixValue(s[DigitsStart(s)..], Radix(s)))
  }

  /** The value of the longest digit prefix of `x`, `None` when `x` does not start with a digit. */
  function DigitPrefixValue(x: string, radix: int): Option<nat>
    requires radix > 0
  {
    if x == [] || DigitValue(x[0], radix) < 0 then None
    else
      var n := DigitRun(x, radix);
      assert forall k :: 0 <= k < n ==> x[..n][k] == x[k];
      Some(DigitsValue(x[..n], radix))
  }

  /** A magnitude with a sign applied; `None` stays `None`. */
  function WithSign(negative: bool, m: Option<nat>): Option<int> {
    match m
    case None => None
    case Some(v) => var x: int := v; Some(if negative then -x else x)
  }

  /** `parseInt` once the leading whitespace is gone: one optional sign, then the magnitude. */
  function ParseSigned(t: string): Option<int> {
    var negative := t != [] && t[0] == '-';
    var u := if t != [] && (t[0] == '-' || t[0] == '+') then t[1..] else t;
    match ParseMagnitude(u)
    case None => None
    case Some(m) => var x: int := m; Some(if negative then -x else x)
  }

  /** The magnitude: hexadecimal after `0x` or `0X`, decimal otherwise. */
  function ParseMagnitude(u: string): Option<nat> {
    if |u| >= 2 && u[0] == '0' && (u[1] == 'x' || u[1] == 'X') then ParseDigits(u[2..], 16)
    else ParseDigits(u, 10)
  }

  /** The value of the longest digit prefix of `s`, `None` when `s` does not start with a digit. */
  function ParseDigits(s: string, radix: int): (r: Option<nat>)
    requires radix > 0
  {
    var n := DigitRun(s, radix);
    if n == 0 then None
    else
      var d := s[..n];
      assert forall k :: 0 <= k < |d| ==> d[k] == s[k];
      Some(DigitsValue(d, radix))
  }

  /** The number of whitespace characters `s` starts with. */
  function LeadingBlanks(s: string): (n: nat)
    ensures n <= |s|
    ensures forall k :: 0 <= k < n ==> IsWhitespace(s[k])
    ensures n < |s| ==> !IsWhitespace(s[n])
  {
    if s == [] || !IsWhitespace(s[0]) then 0 else 1 + LeadingBlanks(s[1..])
  }

  /** The first non-blank character of `s` is a minus sign. */
  predicate Negative(s: string) {
    var b := LeadingBlanks(s);
    b < |s| && s[b] == '-'
  }

  /** Where the number proper starts: after the leading blanks and at most one sign. */
  function SignEnd(s: string): (p: nat)
    ensures p <= |s|
  {
    var b := LeadingBlanks(s);
    if b < |s| && (s[b] == '-' || s[b] == '+') then b + 1 else b
  }

  /** A `0x` or `0X` prefix at position `p`. */
  predicate HexAt(s: string, p: nat) {
    p + 1 < |s| && s[p] == '0' && (s[p + 1] == 'x' || s[p + 1] == 'X')
  }

  /** Where the digits start: past a hexadecimal prefix when there is one. */
  function DigitsStart(s: string): (p: nat)
    ensures p <= |s|
  {
    if HexAt(s, SignEnd(s)) then SignEnd(s) + 2 else SignEnd(s)
  }

  /** The radix the digits are read in: 16 after a hexadecimal prefix, 10 otherwise. */
  function Radix(s: string): (r: int)
    ensures r == 10 || r == 16
  {
    if HexAt(s, SignEnd(s)) then 16 else 10
  }

  /** At least one digit of that radix follows the blanks, the sign and the prefix. */
  predicate HasLeadingNumber(s: string) {
    DigitsStart(s) < |s| && DigitValue(s[DigitsStart(s)], Radix(s)) >= 0
  }

  /** `trimStart` cuts exactly the leading blanks. */
  lemma {:induction false} TrimStartCutsBlanks(s: string)
    ensures TrimStart(s) == s[LeadingBlanks(s)..]
  {
    if s != [] && IsWhitespace(s[0]) {
      TrimStartCutsBlanks(s[1..]);
      assert s[1..][LeadingBlanks(s[1..])..] == s[1 + LeadingBlanks(s[1..])..];
    }
  }

  /** The source's digit reading and the reference one agree. */
  lemma ParseDigitsPrefix(x: string, radix: int)
    requires radix > 0
    ensures ParseDigits(x, radix) == DigitPrefixValue(x, radix)
  {
    if x == [] || DigitValue(x[0], radix) < 0 {
      assert DigitRun(x, radix) == 0;
    }
  }

  /** The parse of the trimmed string, in terms of positions in `s`. */
  lemma ParseAtPositions(s: string)
    ensures ParseSigned(TrimStart(s)) == LeadingNumber(s)
  {
    TrimStartCutsBlanks(s);
    SignedAt(s, TrimStart(s));
    MagnitudeAt(s);
    ParseDigitsPrefix(s[DigitsStart(s)..], Radix(s));
  }

  /** The reference reading is NaN exactly when no digit stands at `DigitsStart`. */
  lemma LeadingNumberNone(s: string)
    ensures LeadingNumber(s).None? <==> !HasLeadingNumber(s)
  {
    var x := s[DigitsStart(s)..];
    assert x != [] ==> x[0] == s[DigitsStart(s)];
  }

  /** After the blanks, the sign of `s` is applied to the magnitude that follows it. */
  lemma SignedAt(s: string, t: string)
    requires t == s[LeadingBlanks(s)..]
    ensures ParseSigned(t) == WithSign(Negative(s), ParseMagnitude(s[SignEnd(s)..]))
  {
    var u := if t != [] && (t[0] == '-' || t[0] == '+') then t[1..] else t;
    assert u == s[SignEnd(s)..];
  }

  /** The magnitude after the sign is the digits from `DigitsStart` in `Radix`. */
  lemma MagnitudeAt(s: string)
    ensures ParseMagnitude(s[SignEnd(s)..]) == ParseDigits(s[DigitsStart(s)..], Radix(s))
  {
    var u := s[SignEnd(s)..];
    if HexAt(s, SignEnd(s)) {
      assert u[2..] == s[DigitsStart(s)..];
    }
  }

  lemma {:induction false} DigitsOfNatToString(n: nat)
    ensures DigitsValue(NatToString(n), 10) == n
  {
    var r := NatToString(n);
    if n >= 10 {
      DigitsOfNatToString(n / 10);
      assert r[..|r| - 1] == NatToString(n / 10);
    }
  }

  lemma ParseDigitsOfNatToString(n: nat)
    ensures ParseDigits(NatToString(n), 10) == Some(n)
  {
    var d := NatToString(n);
    assert DigitRun(d, 10) == |d|;
    assert d[..|d|] == d;
    DigitsOfNatToString(n);
  }

  /** `parseInt` reads back what `String(n)` prints. */
  lemma ParseIntToString(n: int)
    ensures ParseInt(IntToString(n)) == Some(n)
  {
    if n < 0 {
      NegativeNumeral(n);
      ParseIntSigned('-', -n, IntToString(n));
    } else {
      ParseIntUnsigned(n);
    }
  }

  /** A negative number prints as a minus sign before the numeral of its magnitude. */
  lemma NegativeNumeral(n: int)
    requires n < 0
    ensures IntToString(n) == ['-'] + NatToString(-n)
  {
  }

  /** A decimal numeral is read as decimal, and back as its value. */
  lemma MagnitudeOfNumeral(n: nat)
    ensures ParseMagnitude(NatToString(n)) == Some(n)
  {
    var d := NatToString(n);
    ParseDigitsOfNatToString(n);
    assert !(|d| >= 2 && d[0] == '0');
  }

  /** Nothing is skipped before a string that starts with a non-blank character. */
  lemma TrimStartKeeps(s: string)
    requires s != [] && !IsWhitespace(s[0])
    ensures TrimStart(s) == s
  {
  }

  /** An unsigned numeral reads back as its value. */
  lemma ParseIntUnsigned(n: nat)
    ensures ParseInt(NatToString(n)) == Some(n)
  {
    var s := NatToString(n);
    MagnitudeOfNumeral(n);
    DigitIsNotBlank(s[0]);
    TrimStartKeeps(s);
  }

  /** One sign before a magnitude gives that magnitude with that sign. */
  lemma SignedMagnitude(t: string, u: string, m: nat)
    requires t != [] && (t[0] == '-' || t[0] == '+') && t[1..] == u
    requires ParseMagnitude(u) == Some(m)
    ensures ParseSigned(t) == Some(if t[0] == '-' then -(m as int) else m as int)
  {
  }

  /** A numeral after one sign reads back as its value with that sign. */
  lemma ParseIntSigned(sign: char, n: nat, s: string)
    requires sign == '-' || sign == '+'
    requires s == [sign] + NatToString(n)
    ensures ParseInt(s) == Some(if sign == '-' then -(n as int) else n as int)
  {
    var digits := NatToString(n);
    MagnitudeOfNumeral(n);
    assert s[0] == sign && s[1..] == digits;
    TrimStartKeeps(s);
    SignedMagnitude(s, digits, n);
  }

  /** `parseInt` also reads an explicit plus sign. */
  lemma ParseIntPlus(n: nat)
    ensures ParseInt("+" + NatToString(n)) == Some(n)
  {
    assert "+" + NatToString(n) == ['+'] + NatToString(n);
    ParseIntSigned('+', n, "+" + NatToString(n));
  }
}
