/**
 * The friend-code codec of the social screen (components/Social.tsx): a profile is
 * printed as JSON, encoded as UTF-8 and then base64; a pasted code is cleaned of
 * noise, the longest base64-looking run is extracted, and the decoded profile is
 * turned into a friend record. JSON printing and parsing are parameters.
 */
module ShareCode {
  import opened Wrappers
  import opened Types
  import Seqs
  import Text
  import Utf8
  import Base64
  import GameReducer

  // ----- utf8_to_b64 / b64_to_utf8 -----

  /** The share encoding: base64 of the UTF-8 bytes of the string. */
  function Utf8ToB64(str: string): (r: string)
    ensures |r| % 4 == 0
    ensures forall k :: 0 <= k < |r| ==> IsCodeChar(r[k])
  {
    Base64.Encode(Utf8.Encode(str))
  }

  /** The characters the decoder keeps: `[A-Za-z0-9+/=]`. */
  predicate IsCodeChar(c: char) {
    Base64.IsAlphabet(c) || c == '='
  }

  /** The input with every character outside the base64 alphabet and `=` removed. */
  function Clean(str: string): (r: string)
    ensures forall k :: 0 <= k < |r| ==> IsCodeChar(r[k])
  {
    var r := Seqs.Filter(IsCodeChar, str);
    assert forall k :: 0 <= k < |r| ==> r[k] in r;
    r
  }

  const DecodeFailed := "Base64 decoding failed"

  /**
   * Base64 decoding of the cleaned input, then UTF-8 decoding: any failure of the base64 step (bad length,
   * misplaced `=`) or of the UTF-8 decoding ends in the one error message.
   */
  function B64ToUtf8(str: string): (r: Result<string, string>)
    ensures r.Err? ==> r.error == DecodeFailed
    ensures r.Ok? <==>
      Base64.ForgivingDecode(Clean(str)).Some? && Utf8.Decode(Base64.ForgivingDecode(Clean(str)).value).Some?
    ensures r.Ok? ==> Base64.ForgivingDecode(Clean(str)) == Some(Utf8.Encode(r.value))
  {
    match Base64.ForgivingDecode(Clean(str))
    case None => Err(DecodeFailed)
    case Some(bytes) =>
      match Utf8.Decode(bytes)
      case None => Err(DecodeFailed)
      case Some(s) =>
        Utf8.EncodeDecode(bytes);
        Ok(s)
  }

  lemma CleanKeepsCode(str: string)
    ensures Clean(Utf8ToB64(str)) == Utf8ToB64(str)
  {
    Seqs.FilterKeepsAll(IsCodeChar, Utf8ToB64(str));
  }

  /** Decoding the encoding of any string gives that string back. */
  lemma B64RoundTrip(str: string)
    ensures B64ToUtf8(Utf8ToB64(str)) == Ok(str)
  {
    CleanKeepsCode(str);
    Base64.DecodeEncode(Utf8.Encode(str));
    Utf8.DecodeEncode(str);
  }

  lemma {:induction false} NoCodeChars(noise: string)
    requires forall k :: 0 <= k < |noise| ==> !IsCodeChar(noise[k])
    ensures Seqs.Filter(IsCodeChar, noise) == []
  {
    if noise != [] {
      NoCodeChars(noise[1..]);
    }
  }

  lemma CleanDropsNoise(a: string, noise: string, b: string)
    requires forall k :: 0 <= k < |noise| ==> !IsCodeChar(noise[k])
    ensures Clean(a + noise + b) == Clean(a + b)
  {
    NoCodeChars(noise);
    Seqs.FilterConcat(IsCodeChar, a + noise, b);
    Seqs.FilterConcat(IsCodeChar, a, noise);
    Seqs.FilterConcat(IsCodeChar, a, b);
  }

  /** Characters outside `[A-Za-z0-9+/=]` anywhere in the input do not change what it decodes to. */
  lemma NoiseIsIgnored(a: string, noise: string, b: string)
    requires forall k :: 0 <= k < |noise| ==> !IsCodeChar(noise[k])
    ensures B64ToUtf8(a + noise + b) == B64ToUtf8(a + b)
  {
    CleanDropsNoise(a, noise, b);
  }

  /** Decoding an already cleaned input gives the same answer. */
  lemma CleanIsIdempotent(str: string)
    ensures B64ToUtf8(Clean(str)) == B64ToUtf8(str)
  {
    Seqs.FilterIdempotent(IsCodeChar, str);
  }

  // ----- Extracting the code from pasted text -----

  /** The characters of the extraction pattern `[A-Za-z0-9+/]`: the alphabet without `=`. */
  predicate IsRunChar(c: char) {
    Base64.IsAlphabet(c)
  }

  const MinCodeLength := 30

  /** The length of the longest prefix of run characters. */
  function LeadingRun(s: string): (n: nat)
    ensures n <= |s|
    ensures forall k :: 0 <= k < n ==> IsRunChar(s[k])
    ensures n == |s| || !IsRunChar(s[n])
  {
    if s == [] || !IsRunChar(s[0]) then 0 else 1 + LeadingRun(s[1..])
  }

  /** The maximal runs of run characters, left to right. */
  function Runs(s: string): (r: seq<string>)
    ensures forall k :: 0 <= k < |r| ==> |r[k]| > 0 && Base64.AllAlphabet(r[k])
    decreases |s|
  {
    if s == [] then []
    else if !IsRunChar(s[0]) then Runs(s[1..])
    else
      var n := LeadingRun(s);
      [s[..n]] + Runs(s[n..])
  }

  /** The maximal runs of run characters that are at least 30 long, in order. */
  function Matches(s: string): (r: seq<string>)
    ensures forall w :: w in r <==> w in Runs(s) && |w| >= MinCodeLength
  {
    LongEnough(Runs(s))
  }

  function LongEnough(ws: seq<string>): seq<string> {
    Seqs.Filter((w: string) => |w| >= MinCodeLength, ws)
  }

  /** `r` is `ms[k]`, no element is longer and every later element is strictly shorter. */
  predicate IsLastLongest(ms: seq<string>, r: string, k: int) {
    && 0 <= k < |ms| && ms[k] == r
    && (forall j :: 0 <= j < |ms| ==> |ms[j]| <= |r|)
    && (forall j :: k < j < |ms| ==> |ms[j]| < |r|)
  }

  /** The longest of the runs, folded left to right: on equal length the later one wins. */
  function Longest(ms: seq<string>): (r: string)
    requires |ms| > 0
    ensures exists k :: IsLastLongest(ms, r, k)
  {
    if |ms| == 1 then
      assert IsLastLongest(ms, ms[0], 0);
      ms[0]
    else
      var front := ms[..|ms| - 1];
      var acc := Longest(front);
      var b := ms[|ms| - 1];
      var k :| IsLastLongest(front, acc, k);
      if |acc| > |b| then
        assert IsLastLongest(ms, acc, k);
        acc
      else
        assert IsLastLongest(ms, b, |ms| - 1);
        b
  }

  /** `codeToDecode`: the longest match, or the whole input when nothing matches. */
  function CodeToDecode(raw: string): (r: string)
    ensures Matches(raw) == [] ==> r == raw
    ensures Matches(raw) != [] ==> r in Runs(raw) && |r| >= MinCodeLength
  {
    var ms := Matches(raw);
    if ms == [] then raw
    else
      var r := Longest(ms);
      assert r in ms;
      r
  }

  /** A non-run character in front of a text adds no run. */
  predicate EndsClear(s: string) {
    s == [] || !IsRunChar(s[|s| - 1])
  }

  predicate StartsClear(s: string) {
    s == [] || !IsRunChar(s[0])
  }

  lemma {:induction false} LeadingRunConcat(a: string, b: string)
    requires a != [] && !IsRunChar(a[|a| - 1])
    ensures LeadingRun(a + b) == LeadingRun(a)
  {
    if IsRunChar(a[0]) {
      assert (a + b)[1..] == a[1..] + b;
      LeadingRunConcat(a[1..], b);
    }
  }

  lemma {:induction false} LeadingRunWhole(a: string, b: string)
    requires Base64.AllAlphabet(a) && StartsClear(b)
    ensures LeadingRun(a + b) == |a|
  {
    if a == [] {
      assert a + b == b;
    } else {
      assert (a + b)[1..] == a[1..] + b;
      LeadingRunWhole(a[1..], b);
    }
  }

  /** A text that ends on a non-run character splits the runs cleanly. */
  lemma {:induction false} RunsConcat(a: string, b: string)
    requires EndsClear(a)
    ensures Runs(a + b) == Runs(a) + Runs(b)
    decreases |a|
  {
    if a == [] {
      assert a + b == b;
    } else if !IsRunChar(a[0]) {
      assert (a + b)[1..] == a[1..] + b;
      RunsConcat(a[1..], b);
    } else {
      LeadingRunConcat(a, b);
      var n := LeadingRun(a);
      var rest := a[n..];
      assert (a + b)[..n] == a[..n];
      assert (a + b)[n..] == rest + b;
      assert n < |a| && rest[|rest| - 1] == a[|a| - 1];
      RunsConcat(rest, b);
      assert [a[..n]] + (Runs(rest) + Runs(b)) == ([a[..n]] + Runs(rest)) + Runs(b);
    }
  }

  /** A run followed by a boundary is one whole run. */
  lemma RunsOfBody(body: string, post: string)
    requires |body| > 0 && Base64.AllAlphabet(body) && StartsClear(post)
    ensures Runs(body + post) == [body] + Runs(post)
  {
    LeadingRunWhole(body, post);
    assert (body + post)[..|body|] == body;
    assert (body + post)[|body|..] == post;
  }

  /** Padding `=` characters start no run. */
  lemma {:induction false} RunsSkipPadding(pad: string, post: string)
    requires forall k :: 0 <= k < |pad| ==> pad[k] == '='
    ensures Runs(pad + post) == Runs(post)
  {
    if pad != [] {
      var s := pad + post;
      assert s[0] == '=';
      assert Runs(s) == Runs(s[1..]);
      assert s[1..] == pad[1..] + post;
      RunsSkipPadding(pad[1..], post);
    } else {
      assert pad + post == post;
    }
  }

  /** The last-longest element of `a + [x] + b`, when `a` has none longer and `b` only shorter, is `x`. */
  lemma LongestOfMiddle(a: seq<string>, x: string, b: seq<string>)
    requires forall w :: w in a ==> |w| <= |x|
    requires forall w :: w in b ==> |w| < |x|
    ensures Longest(a + [x] + b) == x
  {
    var ms := a + [x] + b;
    var r := Longest(ms);
    var k :| IsLastLongest(ms, r, k);
    assert ms[|a|] == x;
    assert forall j :: 0 <= j < |a| ==> ms[j] in a;
    assert forall j :: |a| < j < |ms| ==> ms[j] == b[j - |a| - 1];
    assert forall j :: |a| < j < |ms| ==> ms[j] in b;
    assert k == |a|;
  }

  lemma RunsAround(pre: string, body: string, post: string)
    requires |body| > 0 && Base64.AllAlphabet(body)
    requires EndsClear(pre) && StartsClear(post)
    ensures Runs(pre + body + post) == Runs(pre) + [body] + Runs(post)
  {
    assert pre + body + post == pre + (body + post);
    RunsConcat(pre, body + post);
    RunsOfBody(body, post);
  }

  lemma MatchesAround(xs: seq<string>, body: string, ys: seq<string>)
    requires |body| >= MinCodeLength
    ensures LongEnough(xs + [body] + ys) == LongEnough(xs) + [body] + LongEnough(ys)
  {
    var p := (w: string) => |w| >= MinCodeLength;
    Seqs.FilterConcat(p, xs + [body], ys);
    Seqs.FilterConcat(p, xs, [body]);
    assert Seqs.Filter(p, [body]) == [body] by {
      assert [body][1..] == [];
    }
  }

  /**
   * A code of at least 30 run characters embedded in text is what gets extracted, as
   * long as it is delimited on both sides, no run in front of it is longer and no run
   * after it is as long.
   */
  lemma ExtractEmbedded(pre: string, body: string, post: string)
    requires |body| >= MinCodeLength && Base64.AllAlphabet(body)
    requires EndsClear(pre) && StartsClear(post)
    requires forall w :: w in Runs(pre) ==> |w| <= |body|
    requires forall w :: w in Runs(post) ==> |w| < |body|
    ensures CodeToDecode(pre + body + post) == body
  {
    RunsAround(pre, body, post);
    MatchesAround(Runs(pre), body, Runs(post));
    assert Matches(pre + body + post) == LongEnough(Runs(pre)) + [body] + LongEnough(Runs(post));
    LongestOfMiddle(LongEnough(Runs(pre)), body, LongEnough(Runs(post)));
  }

  /** The unpadded code, as extraction leaves it, still decodes to the encoded string. */
  lemma BodyDecodes(str: string)
    ensures B64ToUtf8(Base64.EncodeBody(Utf8.Encode(str))) == Ok(str)
  {
    var body := Base64.EncodeBody(Utf8.Encode(str));
    assert forall k :: 0 <= k < |body| ==> IsCodeChar(body[k]);
    Seqs.FilterKeepsAll(IsCodeChar, body);
    Base64.DecodeEncodeBody(Utf8.Encode(str));
    Utf8.DecodeEncode(str);
  }

  /** The share code is the unpadded code followed by `=` padding. */
  lemma CodeSplits(str: string)
    ensures var bytes := Utf8.Encode(str);
      && Utf8ToB64(str) == Base64.EncodeBody(bytes) + Base64.Padding(|bytes|)
      && forall k :: 0 <= k < |Base64.Padding(|bytes|)| ==> Base64.Padding(|bytes|)[k] == '='
  {
  }

  /**
   * A deep-link or pasted share code surrounded by text decodes to the encoded
   * string: extraction drops the `=` padding and the decoder does not need it. The
   * code must be long enough to match, and the surrounding text must not hold a longer
   * run (before it) or one as long (after it).
   */
  lemma PastedCodeDecodes(pre: string, str: string, post: string)
    requires |Base64.EncodeBody(Utf8.Encode(str))| >= MinCodeLength
    requires EndsClear(pre) && StartsClear(post)
    requires forall w :: w in Runs(pre) ==> |w| <= |Base64.EncodeBody(Utf8.Encode(str))|
    requires forall w :: w in Runs(post) ==> |w| < |Base64.EncodeBody(Utf8.Encode(str))|
    ensures B64ToUtf8(CodeToDecode(pre + Utf8ToB64(str) + post)) == Ok(str)
  {
    var bytes := Utf8.Encode(str);
    var body := Base64.EncodeBody(bytes);
    var pad := Base64.Padding(|bytes|);
    CodeSplits(str);
    RunsSkipPadding(pad, post);
    assert StartsClear(pad + post);
    JoinAround(pre, Utf8ToB64(str), body, pad, post);
    ExtractEmbedded(pre, body, pad + post);
    BodyDecodes(str);
  }

  /** Regrouping a text around a code made of a body and its padding. */
  lemma JoinAround(pre: string, code: string, body: string, pad: string, post: string)
    requires code == body + pad
    ensures pre + code + post == pre + body + (pad + post)
  {
  }

  /** A bare code, short or long, decodes to the encoded string. */
  lemma BareCodeDecodes(str: string)
    ensures B64ToUtf8(CodeToDecode(Utf8ToB64(str))) == Ok(str)
  {
    if |Base64.EncodeBody(Utf8.Encode(str))| >= MinCodeLength {
      assert Runs([]) == [];
      assert [] + Utf8ToB64(str) + [] == Utf8ToB64(str);
      PastedCodeDecodes([], str, []);
    } else {
      ShortCodeDecodes(str);
    }
  }

  /** A code too short to match is decoded whole, padding included. */
  lemma ShortCodeDecodes(str: string)
    requires |Base64.EncodeBody(Utf8.Encode(str))| < MinCodeLength
    ensures B64ToUtf8(CodeToDecode(Utf8ToB64(str))) == Ok(str)
  {
    var bytes := Utf8.Encode(str);
    CodeSplits(str);
    NoMatchInShortCode(Utf8ToB64(str), Base64.EncodeBody(bytes), Base64.Padding(|bytes|));
    B64RoundTrip(str);
  }

  /** A body shorter than the minimum, then padding: no run is long enough to match. */
  lemma NoMatchInShortCode(code: string, body: string, pad: string)
    requires code == body + pad && Base64.AllAlphabet(body) && |body| < MinCodeLength
    requires forall k :: 0 <= k < |pad| ==> pad[k] == '='
    ensures Matches(code) == []
  {
    RunsSkipPadding(pad, []);
    assert pad + [] == pad;
    if body != [] {
      RunsOfBody(body, pad);
      assert Runs(code) == [body];
    } else {
      assert code == pad;
      assert Runs(code) == [];
    }
  }

  // ----- Adding a friend from a code -----

  /** The fields `JSON.parse` gave back; a field is truthy when present and non-empty. */
  datatype Decoded = Decoded(id: Option<string>, name: Option<string>, rounds: Option<seq<FinishedRound>>)

  predicate Truthy(o: Option<string>) {
    o.Some? && o.value != ""
  }

  /** What `handleAddFriend` does: nothing, the invalid-code toast, or dispatching a friend. */
  datatype AddOutcome = NoInput | InvalidCode | Added(friend: Friend, isUpdate: bool)

  /** The text to search: a non-empty deep-link code untrimmed, else the typed text trimmed. */
  function RawInput(manualCode: Option<string>, typed: string): (r: string)
    ensures manualCode.Some? && manualCode.value != "" ==> r == manualCode.value
    ensures !(manualCode.Some? && manualCode.value != "") ==> r == Text.Trim(typed)
  {
    if manualCode.Some? && manualCode.value != "" then manualCode.value else Text.Trim(typed)
  }

  /** `handleAddFriend`, with `JSON.parse` as `parse` and `Date.now()` as `now`. */
  function HandleAddFriend(manualCode: Option<string>, typed: string, friends: seq<Friend>, now: int,
                           parse: string -> Option<Decoded>): (r: AddOutcome)
    ensures r.NoInput? <==> RawInput(manualCode, typed) == ""
    ensures r.Added? <==>
      var raw := RawInput(manualCode, typed);
      && raw != ""
      && B64ToUtf8(CodeToDecode(raw)).Ok?
      && parse(B64ToUtf8(CodeToDecode(raw)).value).Some?
      && var d := parse(B64ToUtf8(CodeToDecode(raw)).value).value;
      && Truthy(d.id) && Truthy(d.name)
    ensures r.Added? ==>
      var d := parse(B64ToUtf8(CodeToDecode(RawInput(manualCode, typed))).value).value;
      && r.friend == Friend(d.id.value, d.name.value, Some(now), if d.rounds.Some? then d.rounds.value else [])
      && (r.isUpdate <==> GameReducer.HasFriend(friends, d.id.value))
  {
    var raw := RawInput(manualCode, typed);
    if raw == "" then NoInput
    else AddDecoded(B64ToUtf8(CodeToDecode(raw)), friends, now, parse)
  }

  /** The part of `handleAddFriend` after decoding: parse, check id and name, build the entry. */
  function AddDecoded(decoded: Result<string, string>, friends: seq<Friend>, now: int,
                      parse: string -> Option<Decoded>): (r: AddOutcome)
    ensures r.Added? <==>
      decoded.Ok? && parse(decoded.value).Some? && Truthy(parse(decoded.value).value.id) && Truthy(parse(decoded.value).value.name)
    ensures !r.Added? ==> r == InvalidCode
    ensures r.Added? ==>
      var d := parse(decoded.value).value;
      && r.friend == Friend(d.id.value, d.name.value, Some(now), if d.rounds.Some? then d.rounds.value else [])
      && (r.isUpdate <==> GameReducer.HasFriend(friends, d.id.value))
  {
    match decoded
    case Err(_) => InvalidCode
    case Ok(text) =>
      match parse(text)
      case None => InvalidCode
      case Some(d) =>
        if Truthy(d.id) && Truthy(d.name) then
          Added(Friend(d.id.value, d.name.value, Some(now), if d.rounds.Some? then d.rounds.value else []),
                GameReducer.HasFriend(friends, d.id.value))
        else InvalidCode
  }

  /** A code that does not decode, or whose JSON lacks an id or a name, is reported as invalid. */
  lemma InvalidCodesRejected(manualCode: Option<string>, typed: string, friends: seq<Friend>, now: int,
                             parse: string -> Option<Decoded>)
    requires RawInput(manualCode, typed) != ""
    requires var t := B64ToUtf8(CodeToDecode(RawInput(manualCode, typed)));
      t.Err? || parse(t.value).None? || !Truthy(parse(t.value).value.id) || !Truthy(parse(t.value).value.name)
    ensures HandleAddFriend(manualCode, typed, friends, now, parse) == InvalidCode
  {
  }

  // ----- generateMyCode and the journey of a profile -----

  /** `generateMyCode`: the snapshot, printed by `stringify` (`JSON.stringify`), then encoded. */
  function GenerateMyCode(s: GameState, stringify: GameReducer.Profile -> string): (r: string)
    ensures B64ToUtf8(r) == Ok(stringify(GameReducer.Snapshot(s)))
  {
    B64RoundTrip(stringify(GameReducer.Snapshot(s)));
    Utf8ToB64(stringify(GameReducer.Snapshot(s)))
  }

  /**
   * A friend who receives a device's code verbatim as the link's code gets that device's
   * id, name and newest rounds, provided the id and the name are not empty and JSON
   * parsing inverts printing.
   */
  lemma FriendCodeRoundTrip(sender: GameState, stringify: GameReducer.Profile -> string,
                            parse: string -> Option<Decoded>, typed: string, friends: seq<Friend>, now: int)
    requires sender.golferId != "" && sender.userName != ""
    requires var p := GameReducer.Snapshot(sender);
      && stringify(p) != ""
      && parse(stringify(p)) == Some(Decoded(Some(p.id), Some(p.name), Some(p.rounds)))
    ensures var code := GenerateMyCode(sender, stringify);
      HandleAddFriend(Some(code), typed, friends, now, parse)
      == Added(Friend(sender.golferId, sender.userName, Some(now), GameReducer.Snapshot(sender).rounds),
               GameReducer.HasFriend(friends, sender.golferId))
  {
    var p := GameReducer.Snapshot(sender);
    var code := GenerateMyCode(sender, stringify);
    CodeNonEmpty(stringify(p));
    BareCodeDecodes(stringify(p));
    assert RawInput(Some(code), typed) == code;
    AddedWhenDecodes(Some(code), typed, code, friends, now, parse, stringify(p));
  }

  /**
   * The same code typed into the field, with any blanks around it, is trimmed back to
   * the code and adds the same friend.
   */
  lemma TypedCodeRoundTrip(sender: GameState, stringify: GameReducer.Profile -> string,
                           parse: string -> Option<Decoded>, before: string, after: string,
                           friends: seq<Friend>, now: int)
    requires sender.golferId != "" && sender.userName != ""
    requires var p := GameReducer.Snapshot(sender);
      && stringify(p) != ""
      && parse(stringify(p)) == Some(Decoded(Some(p.id), Some(p.name), Some(p.rounds)))
    requires forall k :: 0 <= k < |before| ==> Text.IsWhitespace(before[k])
    requires forall k :: 0 <= k < |after| ==> Text.IsWhitespace(after[k])
    ensures var code := GenerateMyCode(sender, stringify);
      HandleAddFriend(None, before + code + after, friends, now, parse)
      == Added(Friend(sender.golferId, sender.userName, Some(now), GameReducer.Snapshot(sender).rounds),
               GameReducer.HasFriend(friends, sender.golferId))
  {
    var p := GameReducer.Snapshot(sender);
    var code := GenerateMyCode(sender, stringify);
    CodeNonEmpty(stringify(p));
    BareCodeDecodes(stringify(p));
    CodeHasNoBlankEnds(code);
    Text.TrimAround(before, code, after);
    AddedWhenDecodes(None, before + code + after, code, friends, now, parse, stringify(p));
  }

  /** A code character is never whitespace, so a code has none at either end. */
  lemma CodeHasNoBlankEnds(code: string)
    requires code != ""
    requires forall k :: 0 <= k < |code| ==> IsCodeChar(code[k])
    ensures !Text.IsWhitespace(code[0]) && !Text.IsWhitespace(code[|code| - 1])
  {
    assert IsCodeChar(code[0]) && IsCodeChar(code[|code| - 1]);
  }

  lemma AddedWhenDecodes(manualCode: Option<string>, typed: string, code: string, friends: seq<Friend>, now: int,
                         parse: string -> Option<Decoded>, text: string)
    requires RawInput(manualCode, typed) == code
    requires code != "" && B64ToUtf8(CodeToDecode(code)) == Ok(text)
    requires parse(text).Some? && Truthy(parse(text).value.id) && Truthy(parse(text).value.name)
    ensures var d := parse(text).value;
      HandleAddFriend(manualCode, typed, friends, now, parse)
      == Added(Friend(d.id.value, d.name.value, Some(now), if d.rounds.Some? then d.rounds.value else []),
               GameReducer.HasFriend(friends, d.id.value))
  {
  }

  /** A non-empty string never encodes to the empty code, so a shared code is never ignored as empty. */
  lemma CodeNonEmpty(str: string)
    requires str != ""
    ensures Utf8ToB64(str) != ""
  {
    Base64.BodyLength(Utf8.Encode(str));
    CodeSplits(str);
  }

  // ----- getRelativeTime -----

  /** What the roster shows for the time of the last update. */
  datatype RelativeTime = JustNow | MinutesAgo(minutes: int) | LocaleDate(timestamp: int) | InvalidDate

  /** `getRelativeTime`; a friend added over a peer connection has no time, shown as an invalid date. */
  function GetRelativeTime(now: int, timestamp: Option<int>): (r: RelativeTime)
    ensures timestamp.None? <==> r.InvalidDate?
    ensures timestamp.Some? ==>
      && (r.JustNow? <==> now - timestamp.value < 60000)
      && (r.MinutesAgo? <==> 60000 <= now - timestamp.value < 3600000)
      && (r.MinutesAgo? ==> 1 <= r.minutes <= 59 && r.minutes * 60000 <= now - timestamp.value < (r.minutes + 1) * 60000)
      && (r.LocaleDate? ==> r.timestamp == timestamp.value)
  {
    match timestamp
    case None => InvalidDate
    case Some(ts) =>
      var diff := now - ts;
      if diff < 60000 then JustNow
      else if diff < 3600000 then MinutesAgo(diff / 60000)
      else LocaleDate(ts)
  }
}
