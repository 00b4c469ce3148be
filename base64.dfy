/** Base 64 encoding of RFC 4648 section 4 (standard alphabet, `=` padding),
    with the decoder behaviour of Go's `base64.StdEncoding`: carriage returns
    and line feeds are skipped, padding is required, and unused bits of the
    last character are not checked. */
module Base64 {
  import opened Wrappers

  /** The character for a 6-bit value: A-Z, a-z, 0-9, '+', '/'. */
  function Char(v: nat): (c: char)
    requires v < 64
    ensures c != '=' && c != '\r' && c != '\n'
  {
    if v < 26 then ('A' as int + v) as char
    else if v < 52 then ('a' as int + (v - 26)) as char
    else if v < 62 then ('0' as int + (v - 52)) as char
    else if v == 62 then '+'
    else '/'
  }

  /** The 6-bit value of an alphabet character, None for any other character. */
  function Value(c: char): (r: Option<nat>)
    ensures r.Some? ==> r.value < 64
  {
    if 'A' <= c <= 'Z' then Some(c as int - 'A' as int)
    else if 'a' <= c <= 'z' then Some(c as int - 'a' as int + 26)
    else if '0' <= c <= '9' then Some(c as int - '0' as int + 52)
    else if c == '+' then Some(62)
    else if c == '/' then Some(63)
    else None
  }

  lemma ValueOfChar(v: nat)
    requires v < 64
    ensures Value(Char(v)) == Some(v)
  {
  }

  /** Four characters for three bytes. */
  function EncodeGroup(b0: byte, b1: byte, b2: byte): string {
    [Char(b0 / 4), Char((b0 % 4) * 16 + b1 / 16), Char((b1 % 16) * 4 + b2 / 64), Char(b2 % 64)]
  }

  /** base64.StdEncoding.EncodeToString. */
  function Encode(b: seq<byte>): (s: string)
    ensures |s| == 4 * ((|b| + 2) / 3)
    ensures '\r' !in s && '\n' !in s
    decreases |b|
  {
    if |b| == 0 then ""
    else if |b| == 1 then [Char(b[0] / 4), Char((b[0] % 4) * 16), '=', '=']
    else if |b| == 2 then [Char(b[0] / 4), Char((b[0] % 4) * 16 + b[1] / 16), Char((b[1] % 16) * 4), '=']
    else EncodeGroup(b[0], b[1], b[2]) + Encode(b[3..])
  }

  /** The input with every carriage return and line feed removed. */
  function SkipNewlines(s: string): (r: string)
    ensures '\r' !in r && '\n' !in r
    ensures '\r' !in s && '\n' !in s ==> r == s
  {
    if s == [] then []
    else if s[0] == '\r' || s[0] == '\n' then SkipNewlines(s[1..])
    else [s[0]] + SkipNewlines(s[1..])
  }

  const Illegal := "illegal base64 data"

  /** Decodes groups of four characters; only the last may hold padding. */
  function DecodeGroups(s: string): (r: Result<seq<byte>>)
    ensures r.Ok? ==> |s| == 4 * ((|r.value| + 2) / 3)
    decreases |s|
  {
    if s == [] then Ok([])
    else if |s| < 4 then Err(Illegal)
    else
      var v0, v1, v2, v3 := Value(s[0]), Value(s[1]), Value(s[2]), Value(s[3]);
      if v0.None? || v1.None? then Err(Illegal)
      else if v2.Some? && v3.Some? then
        var head := [v0.value * 4 + v1.value / 16,
                     (v1.value % 16) * 16 + v2.value / 4,
                     (v2.value % 4) * 64 + v3.value];
        match DecodeGroups(s[4..])
        case Ok(tail) => Ok(head + tail)
        case Err(e) => Err(e)
      else if |s| == 4 && s[2] == '=' && s[3] == '=' then
        Ok([v0.value * 4 + v1.value / 16])
      else if |s| == 4 && v2.Some? && s[3] == '=' then
        Ok([v0.value * 4 + v1.value / 16, (v1.value % 16) * 16 + v2.value / 4])
      else Err(Illegal)
  }

  /** base64.StdEncoding.DecodeString. */
  function Decode(s: string): (r: Result<seq<byte>>)
    ensures r.Ok? ==> |SkipNewlines(s)| == 4 * ((|r.value| + 2) / 3)
    ensures |SkipNewlines(s)| % 4 != 0 ==> r.Err?
  {
    var r := DecodeGroups(SkipNewlines(s));
    if r.Ok? then TimesFour((|r.value| + 2) / 3); r else r
  }

  lemma TimesFour(n: nat)
    ensures (4 * n) % 4 == 0
  {
  }

  lemma GroupRoundTrip(b0: byte, b1: byte, b2: byte)
    ensures var v0, v1, v2, v3 := b0 / 4, (b0 % 4) * 16 + b1 / 16, (b1 % 16) * 4 + b2 / 64, b2 % 64;
      v0 * 4 + v1 / 16 == b0 &&
      (v1 % 16) * 16 + v2 / 4 == b1 &&
      (v2 % 4) * 64 + v3 == b2
  {
    var v1, v2 := (b0 % 4) * 16 + b1 / 16, (b1 % 16) * 4 + b2 / 64;
    assert v1 / 16 == b0 % 4 && v1 % 16 == b1 / 16;
    assert v2 / 4 == b1 % 16 && v2 % 4 == b2 / 64;
  }

  lemma DecodeOne(b0: byte)
    ensures DecodeGroups([Char(b0 / 4), Char((b0 % 4) * 16), '=', '=']) == Ok([b0])
  {
    ValueOfChar(b0 / 4);
    ValueOfChar((b0 % 4) * 16);
    GroupRoundTrip(b0, 0, 0);
  }

  lemma DecodeTwo(b0: byte, b1: byte)
    ensures DecodeGroups([Char(b0 / 4), Char((b0 % 4) * 16 + b1 / 16), Char((b1 % 16) * 4), '=']) == Ok([b0, b1])
  {
    ValueOfChar(b0 / 4);
    ValueOfChar((b0 % 4) * 16 + b1 / 16);
    ValueOfChar((b1 % 16) * 4);
    GroupRoundTrip(b0, b1, 0);
  }

  lemma DecodeStep(b0: byte, b1: byte, b2: byte, t: string, tail: seq<byte>)
    requires DecodeGroups(t) == Ok(tail)
    ensures DecodeGroups(EncodeGroup(b0, b1, b2) + t) == Ok([b0, b1, b2] + tail)
  {
    var s := EncodeGroup(b0, b1, b2) + t;
    ValueOfChar(b0 / 4);
    ValueOfChar((b0 % 4) * 16 + b1 / 16);
    ValueOfChar((b1 % 16) * 4 + b2 / 64);
    ValueOfChar(b2 % 64);
    GroupRoundTrip(b0, b1, b2);
    assert s[4..] == t;
  }

  /** Decoding an encoding gives back exactly the input bytes. */
  lemma {:induction false} DecodeEncode(b: seq<byte>)
    ensures Decode(Encode(b)) == Ok(b)
  {
    assert SkipNewlines(Encode(b)) == Encode(b);
    EncodedGroups(b);
  }

  lemma {:induction false} EncodedGroups(b: seq<byte>)
    ensures DecodeGroups(Encode(b)) == Ok(b)
    decreases |b|
  {
    if |b| == 1 {
      EncodedOne(b);
    } else if |b| == 2 {
      EncodedTwo(b);
    } else if |b| > 2 {
      EncodedGroups(b[3..]);
      EncodedMore(b);
    }
  }

  lemma EncodedOne(b: seq<byte>)
    requires |b| == 1
    ensures DecodeGroups(Encode(b)) == Ok(b)
  {
    DecodeOne(b[0]);
    assert b == [b[0]];
  }

  lemma EncodedTwo(b: seq<byte>)
    requires |b| == 2
    ensures DecodeGroups(Encode(b)) == Ok(b)
  {
    DecodeTwo(b[0], b[1]);
    assert b == [b[0], b[1]];
  }

  lemma EncodedMore(b: seq<byte>)
    requires |b| > 2 && DecodeGroups(Encode(b[3..])) == Ok(b[3..])
    ensures DecodeGroups(Encode(b)) == Ok(b)
  {
    HeadThree(b);
    EncodeUnfold(b);
    DecodeStep(b[0], b[1], b[2], Encode(b[3..]), b[3..]);
  }

  lemma HeadThree(b: seq<byte>)
    requires |b| > 2
    ensures b == [b[0], b[1], b[2]] + b[3..]
  {
  }

  lemma EncodeUnfold(b: seq<byte>)
    requires |b| > 2
    ensures Encode(b) == EncodeGroup(b[0], b[1], b[2]) + Encode(b[3..])
  {
  }
}
