/**
 * Form encoding as done by Django's `urlencode` (and by `requests` for a
 * POST body given as a dict): each key and value goes through Python's
 * `quote_plus` with no extra safe characters, pairs are written `k=v` and
 * joined with `&` in insertion order.
 *
 * `quote_plus` keeps the always-safe characters `A-Z a-z 0-9 _ . - ~`,
 * writes a space as `+`, and writes every other character as the `%XX`
 * escapes (upper-case hex) of its UTF-8 bytes.
 *
 * `UnquotePlus` and `ParseQuery` are reference decoders: they are the
 * partners the round-trip lemmas relate the encoder to.
 */
module UrlEncode {
  import opened Wrappers
  import opened PyStr

  type Byte = b: int | 0 <= b < 256

  const HexDigits: string := "0123456789ABCDEF"

  predicate AlwaysSafe(c: char) {
    ('A' <= c <= 'Z') || ('a' <= c <= 'z') || ('0' <= c <= '9') || c == '_' || c == '.' || c == '-' || c == '~'
  }

  /** The characters `quote_plus` can produce. */
  predicate EncodedChar(c: char) {
    AlwaysSafe(c) || c == '+' || c == '%'
  }

  /** The UTF-8 encoding of one Unicode scalar value. */
  function Utf8Encode(c: char): (bs: seq<Byte>)
    ensures 1 <= |bs| <= 4
  {
    var cp := c as int;
    if cp < 0x80 then [cp]
    else if cp < 0x800 then [0xC0 + cp / 64, 0x80 + cp % 64]
    else if cp < 0x10000 then
      var a := cp / 64;
      [0xE0 + a / 64, 0x80 + a % 64, 0x80 + cp % 64]
    else
      var a := cp / 64;
      var b := a / 64;
      [0xF0 + b / 64, 0x80 + b % 64, 0x80 + a % 64, 0x80 + cp % 64]
  }

  function PercentByte(b: Byte): (r: string)
    ensures |r| == 3 && r[0] == '%'
  {
    ['%', HexDigits[b / 16], HexDigits[b % 16]]
  }

  function PercentBytes(bs: seq<Byte>): (r: string)
    ensures |r| == 3 * |bs|
  {
    if bs == [] then "" else PercentByte(bs[0]) + PercentBytes(bs[1..])
  }

  function QuotePlusChar(c: char): string {
    if AlwaysSafe(c) then [c]
    else if c == ' ' then "+"
    else PercentBytes(Utf8Encode(c))
  }

  /** Python `quote_plus(s, safe='')`. */
  function QuotePlus(s: string): (r: string)
    ensures forall i :: 0 <= i < |r| ==> EncodedChar(r[i])
    decreases |s|
  {
    if s == [] then ""
    else
      QuotePlusCharEncoded(s[0]);
      QuotePlusChar(s[0]) + QuotePlus(s[1..])
  }

  lemma {:induction false} PercentBytesEncoded(bs: seq<Byte>)
    ensures forall i :: 0 <= i < |PercentBytes(bs)| ==> EncodedChar(PercentBytes(bs)[i])
    decreases |bs|
  {
    if bs != [] {
      PercentBytesEncoded(bs[1..]);
      var p := PercentByte(bs[0]);
      assert EncodedChar(p[1]) && EncodedChar(p[2]);
    }
  }

  lemma QuotePlusCharEncoded(c: char)
    ensures forall i :: 0 <= i < |QuotePlusChar(c)| ==> EncodedChar(QuotePlusChar(c)[i])
  {
    if !AlwaysSafe(c) && c != ' ' {
      PercentBytesEncoded(Utf8Encode(c));
    }
  }

  /** Django `urlencode` of an ordered list of pairs. */
  function Urlencode(pairs: seq<(string, string)>): string {
    Join(EncodePairs(pairs), '&')
  }

  function EncodePair(p: (string, string)): string {
    QuotePlus(p.0) + "=" + QuotePlus(p.1)
  }

  function EncodePairs(pairs: seq<(string, string)>): (r: seq<string>)
    ensures |r| == |pairs|
    ensures forall i :: 0 <= i < |r| ==> r[i] == EncodePair(pairs[i])
  {
    seq(|pairs|, i requires 0 <= i < |pairs| => EncodePair(pairs[i]))
  }

  // ---------------------------------------------------------------------
  // Reference decoder

  function HexValue(c: char): Option<int> {
    if '0' <= c <= '9' then Some(c as int - '0' as int)
    else if 'A' <= c <= 'F' then Some(c as int - 'A' as int + 10)
    else if 'a' <= c <= 'f' then Some(c as int - 'a' as int + 10)
    else None
  }

  /** Reads one `%XX` escape at the start of `s`. */
  function ReadByte(s: string): Option<Byte> {
    if |s| < 3 || s[0] != '%' then None
    else match (HexValue(s[1]), HexValue(s[2]))
      case (Some(h), Some(l)) =>
        if 0 <= h < 16 && 0 <= l < 16 then Some(h * 16 + l) else None
      case _ => None
  }

  /** Reads `n` consecutive `%XX` escapes at the start of `s`. */
  function ReadBytes(s: string, n: nat): Option<seq<Byte>>
    decreases n
  {
    if n == 0 then Some([])
    else match ReadByte(s)
      case None => None
      case Some(b) =>
        match ReadBytes(s[3..], n - 1)
        case None => None
        case Some(bs) => Some([b] + bs)
  }

  /** The length of the UTF-8 sequence a lead byte announces. */
  function Utf8Length(b0: Byte): Option<nat> {
    if b0 < 0x80 then Some(1)
    else if 0xC0 <= b0 < 0xE0 then Some(2)
    else if 0xE0 <= b0 < 0xF0 then Some(3)
    else if 0xF0 <= b0 < 0xF8 then Some(4)
    else None
  }

  predicate Continuation(b: Byte) {
    0x80 <= b < 0xC0
  }

  function ScalarOf(cp: int): Option<char> {
    if (0 <= cp < 0xD800) || (0xE000 <= cp < 0x11_0000) then Some(cp as char) else None
  }

  /** Decodes a whole UTF-8 sequence of one character. */
  function Utf8Decode(bs: seq<Byte>): Option<char> {
    if |bs| == 1 && bs[0] < 0x80 then ScalarOf(bs[0])
    else if |bs| == 2 && 0xC0 <= bs[0] < 0xE0 && Continuation(bs[1]) then
      ScalarOf((bs[0] as int - 0xC0) * 64 + (bs[1] as int - 0x80))
    else if |bs| == 3 && 0xE0 <= bs[0] < 0xF0 && Continuation(bs[1]) && Continuation(bs[2]) then
      ScalarOf(((bs[0] as int - 0xE0) * 64 + (bs[1] as int - 0x80)) * 64 + (bs[2] as int - 0x80))
    else if |bs| == 4 && 0xF0 <= bs[0] < 0xF8 && Continuation(bs[1]) && Continuation(bs[2]) && Continuation(bs[3]) then
      ScalarOf((((bs[0] as int - 0xF0) * 64 + (bs[1] as int - 0x80)) * 64 + (bs[2] as int - 0x80)) * 64 + (bs[3] as int - 0x80))
    else None
  }

  /** Decodes the first character of `s` and says how many characters it took. */
  function UnquoteChar(s: string): (r: Option<(char, nat)>)
    requires |s| > 0
    ensures r.Some? ==> 1 <= r.value.1 <= |s|
  {
    if s[0] == '+' then Some((' ', 1))
    else if s[0] == '%' then UnquotePercent(s)
    else if AlwaysSafe(s[0]) then Some((s[0], 1))
    else None
  }

  /** Decodes the `%XX` escapes of one UTF-8 encoded character at the start of `s`. */
  function UnquotePercent(s: string): (r: Option<(char, nat)>)
    ensures r.Some? ==> 1 <= r.value.1 <= |s|
  {
    match ReadByte(s)
    case None => None
    case Some(b0) =>
      match Utf8Length(b0)
      case None => None
      case Some(n) =>
        if |s| < 3 * n then None
        else match ReadBytes(s, n)
          case None => None
          case Some(bs) =>
            match Utf8Decode(bs)
            case None => None
            case Some(c) => Some((c, 3 * n))
  }

  /** Decodes a whole `quote_plus` output. */
  function UnquotePlus(s: string): Option<string>
    decreases |s|
  {
    if s == [] then Some("")
    else match UnquoteChar(s)
      case None => None
      case Some((c, n)) =>
        match UnquotePlus(s[n..])
        case None => None
        case Some(t) => Some([c] + t)
  }

  function ParsePair(piece: string): Option<(string, string)> {
    var kv := Split(piece, '=');
    if |kv| != 2 then None
    else match (UnquotePlus(kv[0]), UnquotePlus(kv[1]))
      case (Some(k), Some(v)) => Some((k, v))
      case _ => None
  }

  function ParsePairs(pieces: seq<string>): Option<seq<(string, string)>>
    decreases |pieces|
  {
    if pieces == [] then Some([])
    else match ParsePair(pieces[0])
      case None => None
      case Some(p) =>
        match ParsePairs(pieces[1..])
        case None => None
        case Some(ps) => Some([p] + ps)
  }

  /** Decodes a form-encoded query string into its ordered pairs. */
  function ParseQuery(q: string): Option<seq<(string, string)>> {
    if q == "" then Some([]) else ParsePairs(Split(q, '&'))
  }

  // ---------------------------------------------------------------------
  // Round trips

  lemma HexRoundTrip(d: int)
    requires 0 <= d < 16
    ensures HexValue(HexDigits[d]) == Some(d)
  {
  }

  lemma ReadPercentByte(b: Byte, rest: string)
    ensures ReadByte(PercentByte(b) + rest) == Some(b)
  {
    HexRoundTrip(b / 16);
    HexRoundTrip(b % 16);
  }

  lemma {:induction false} ReadPercentBytes(bs: seq<Byte>, rest: string)
    ensures ReadBytes(PercentBytes(bs) + rest, |bs|) == Some(bs)
    decreases |bs|
  {
    if bs != [] {
      var s := PercentBytes(bs) + rest;
      var t := PercentBytes(bs[1..]) + rest;
      assert s == PercentByte(bs[0]) + t;
      assert ReadByte(s) == Some(bs[0]) by {
        ReadPercentByte(bs[0], t);
      }
      assert s[3..] == t;
      ReadPercentBytes(bs[1..], rest);
      assert bs == [bs[0]] + bs[1..];
    }
  }

  lemma DivMod64(x: int)
    requires x >= 0
    ensures x == (x / 64) * 64 + x % 64 && 0 <= x % 64 < 64
  {
  }

  /** UTF-8 decoding undoes UTF-8 encoding of every scalar value. */
  lemma Utf8RoundTrip(c: char)
    ensures Utf8Decode(Utf8Encode(c)) == Some(c)
    ensures Utf8Length(Utf8Encode(c)[0]) == Some(|Utf8Encode(c)|)
  {
    var cp := c as int;
    var bs := Utf8Encode(c);
    DivMod64(cp);
    if cp < 0x80 {
    } else if cp < 0x800 {
      assert bs[0] == 0xC0 + cp / 64;
      assert (bs[0] as int - 0xC0) * 64 + (bs[1] as int - 0x80) == cp;
    } else if cp < 0x10000 {
      var a := cp / 64;
      DivMod64(a);
      assert a / 64 < 16;
      assert ((bs[0] as int - 0xE0) * 64 + (bs[1] as int - 0x80)) == a;
      assert (a * 64 + (bs[2] as int - 0x80)) == cp;
    } else {
      var a := cp / 64;
      var b := a / 64;
      DivMod64(a);
      DivMod64(b);
      assert b / 64 < 8;
      assert (bs[0] as int - 0xF0) * 64 + (bs[1] as int - 0x80) == b;
      assert b * 64 + (bs[2] as int - 0x80) == a;
      assert a * 64 + (bs[3] as int - 0x80) == cp;
    }
  }

  /** A character's percent escapes decode back to it and take all their length. */
  lemma UnquotePercentBytes(c: char, rest: string)
    ensures UnquotePercent(PercentBytes(Utf8Encode(c)) + rest) == Some((c, 3 * |Utf8Encode(c)|))
  {
    var bs := Utf8Encode(c);
    var s := PercentBytes(bs) + rest;
    assert ReadByte(s) == Some(bs[0]) by {
      assert bs == [bs[0]] + bs[1..];
      assert s == PercentByte(bs[0]) + (PercentBytes(bs[1..]) + rest);
      ReadPercentByte(bs[0], PercentBytes(bs[1..]) + rest);
    }
    Utf8RoundTrip(c);
    ReadPercentBytes(bs, rest);
  }

  lemma UnquoteQuoteChar(c: char, rest: string)
    ensures UnquoteChar(QuotePlusChar(c) + rest) == Some((c, |QuotePlusChar(c)|))
  {
    if !AlwaysSafe(c) && c != ' ' {
      UnquotePercentBytes(c, rest);
      assert (QuotePlusChar(c) + rest)[0] == '%';
    }
  }

  /** Decoding undoes `quote_plus`. */
  lemma {:induction false} QuotePlusRoundTrip(s: string)
    ensures UnquotePlus(QuotePlus(s)) == Some(s)
    decreases |s|
  {
    if s != [] {
      var e := QuotePlus(s);
      assert e == QuotePlusChar(s[0]) + QuotePlus(s[1..]);
      UnquoteQuoteChar(s[0], QuotePlus(s[1..]));
      assert e[|QuotePlusChar(s[0])|..] == QuotePlus(s[1..]);
      QuotePlusRoundTrip(s[1..]);
      assert s == [s[0]] + s[1..];
    }
  }

  lemma EncodedBars(s: string, c: char)
    requires !EncodedChar(c)
    ensures c !in QuotePlus(s)
  {
  }

  lemma ParseEncodedPair(p: (string, string))
    ensures '&' !in EncodePair(p)
    ensures ParsePair(EncodePair(p)) == Some(p)
  {
    var k, v := QuotePlus(p.0), QuotePlus(p.1);
    EncodedBars(p.0, '&');
    EncodedBars(p.1, '&');
    EncodedBars(p.0, '=');
    EncodedBars(p.1, '=');
    assert Join([k, v], '=') == EncodePair(p);
    SplitJoin([k, v], '=');
    QuotePlusRoundTrip(p.0);
    QuotePlusRoundTrip(p.1);
  }

  lemma {:induction false} ParseEncodedPairs(pairs: seq<(string, string)>)
    ensures ParsePairs(EncodePairs(pairs)) == Some(pairs)
    decreases |pairs|
  {
    if pairs != [] {
      ParseEncodedPair(pairs[0]);
      assert EncodePairs(pairs)[1..] == EncodePairs(pairs[1..]);
      ParseEncodedPairs(pairs[1..]);
      assert pairs == [pairs[0]] + pairs[1..];
    }
  }

  /** A form-encoded query string contains no `?`, so it can follow one in a URL. */
  lemma UrlencodeBars(pairs: seq<(string, string)>, c: char)
    requires !EncodedChar(c) && c != '=' && c != '&'
    ensures c !in Urlencode(pairs)
  {
    var e := EncodePairs(pairs);
    forall i | 0 <= i < |e| ensures c !in e[i] {
      EncodedBars(pairs[i].0, c);
      EncodedBars(pairs[i].1, c);
    }
    JoinFree(e, '&', c);
  }

  /** Parsing a form-encoded query string gives back the pairs, in order. */
  lemma UrlencodeRoundTrip(pairs: seq<(string, string)>)
    ensures ParseQuery(Urlencode(pairs)) == Some(pairs)
  {
    var e := EncodePairs(pairs);
    if pairs != [] {
      forall i | 0 <= i < |e| ensures '&' !in e[i] {
        ParseEncodedPair(pairs[i]);
      }
      SplitJoin(e, '&');
      ParseEncodedPairs(pairs);
      assert e[0] == EncodePair(pairs[0]);
      assert Urlencode(pairs) != "" by {
        if |e| == 1 {
          assert Urlencode(pairs) == e[0];
        }
        assert |Urlencode(pairs)| >= |e[0]|;
      }
    }
  }
}
