/**
 * The escapers a webhook passes to the template engine: each one is applied
 * to every resolved token value in the final substitution pass. JSON hooks
 * use the body of `json_encode`; Telegram hooks escape for the message's
 * parse mode (Markdown, HTML, or none).
 */
module Escaping {
  import opened Wrappers
  import opened Utf8
  import opened PhpStrings
  import TokenHandlers

  // ---------------------------------------------------------------------------
  // JSON: the string escaping of section 7 of RFC 8259 as PHP writes it
  // ---------------------------------------------------------------------------

  function HexDigitLower(d: nat): (c: char)
    requires d < 16
    ensures IsHexDigit(c) && HexValue(c) == d
  {
    if d < 10 then ('0' as int + d) as char else ('a' as int + d - 10) as char
  }

  /** Four lower-case hexadecimal digits of a 16-bit unit. */
  function Hex4(u: nat): (r: string)
    requires u < 0x10000
    ensures |r| == 4
  {
    var q1 := u / 16;
    var q2 := q1 / 16;
    [HexDigitLower(q2 / 16), HexDigitLower(q2 % 16), HexDigitLower(q1 % 16), HexDigitLower(u % 16)]
  }

  predicate IsHex4(h: string)
  {
    |h| == 4 && IsHexDigit(h[0]) && IsHexDigit(h[1]) && IsHexDigit(h[2]) && IsHexDigit(h[3])
  }

  function Hex4Value(h: string): nat
    requires IsHex4(h)
  {
    ((HexValue(h[0]) * 16 + HexValue(h[1])) * 16 + HexValue(h[2])) * 16 + HexValue(h[3])
  }

  /** Reading back four hexadecimal digits gives the unit they were written for. */
  lemma Hex4RoundTrip(u: nat)
    requires u < 0x10000
    ensures IsHex4(Hex4(u)) && Hex4Value(Hex4(u)) == u
  {
    var h := Hex4(u);
    var q1 := u / 16;
    var q2 := q1 / 16;
    assert HexValue(h[0]) == q2 / 16 && HexValue(h[1]) == q2 % 16;
    assert HexValue(h[2]) == q1 % 16 && HexValue(h[3]) == u % 16;
    assert u == q1 * 16 + u % 16 && q1 == q2 * 16 + q1 % 16 && q2 == (q2 / 16) * 16 + q2 % 16;
  }

  /** `\uXXXX` for one UTF-16 unit. */
  function UnitEscape(u: nat): (r: string)
    requires u < 0x10000
    ensures |r| == 6
  {
    "\\u" + Hex4(u)
  }

  /** The high and low surrogates of a supplementary code point. */
  function HighSurrogate(c: int): nat
    requires 0x10000 <= c <= 0x10FFFF
  {
    0xD800 + (c - 0x10000) / 0x400
  }

  function LowSurrogate(c: int): nat
    requires 0x10000 <= c <= 0x10FFFF
  {
    0xDC00 + (c - 0x10000) % 0x400
  }

  /**
   * How `json_encode` with its default options writes one code point: the
   * quote, the backslash and (by default) the slash behind a backslash, the
   * five short control escapes, other control characters and everything
   * outside ASCII as `\u` with lower-case digits (a surrogate pair above
   * U+FFFF), and the remaining ASCII as it is.
   */
  function EscapeCodePoint(c: int): (r: string)
    requires IsScalar(c)
  {
    if c == '"' as int then "\\\""
    else if c == '\\' as int then "\\\\"
    else if c == '/' as int then "\\/"
    else if c == 8 then "\\b"
    else if c == 12 then "\\f"
    else if c == 10 then "\\n"
    else if c == 13 then "\\r"
    else if c == 9 then "\\t"
    else if c < 0x20 then UnitEscape(c)
    else if c < 0x80 then [c as char]
    else if c < 0x10000 then UnitEscape(c)
    else UnitEscape(HighSurrogate(c)) + UnitEscape(LowSurrogate(c))
  }

  function EscapeCodePoints(cs: seq<int>): string
    requires forall i :: 0 <= i < |cs| ==> IsScalar(cs[i])
  {
    if cs == [] then "" else EscapeCodePoint(cs[0]) + EscapeCodePoints(cs[1..])
  }

  /** `json_encode($s)` for a string: `None` stands for the FALSE PHP returns on malformed UTF-8. */
  function JsonEncode(s: string): (r: Option<string>)
    ensures r.Some? <==> Valid(s)
    ensures r.Some? ==> |r.value| >= 2 && r.value[0] == '"' && r.value[|r.value| - 1] == '"'
  {
    match Decode(s)
    case None => None
    case Some(cs) => Some("\"" + EscapeCodePoints(cs) + "\"")
  }

  /**
   * The JSON hook's escaper, `substr(json_encode($s), 1, -1)`: the encoded
   * string without its quotes. FALSE from either call reaches the body as "".
   */
  function JsonEscape(s: string): string
  {
    TokenHandlers.Substr(match JsonEncode(s) case Some(j) => j case None => "", 1, Some(-1))
  }

  /** The value of the one-character escapes `\" \\ \/ \b \f \n \r \t`. */
  function ShortEscapeValue(c: char): Option<int>
  {
    if c == '"' then Some(34) else if c == '\\' then Some(92) else if c == '/' then Some(47)
    else if c == 'b' then Some(8) else if c == 'f' then Some(12) else if c == 'n' then Some(10)
    else if c == 'r' then Some(13) else if c == 't' then Some(9) else None
  }

  function Prepend(c: int, rest: Option<seq<int>>): Option<seq<int>>
  {
    match rest
    case None => None
    case Some(cs) => Some([c] + cs)
  }

  /**
   * The code points a JSON string body stands for (section 7 of RFC 8259),
   * over ASCII text: unescaped characters other than `"`, `\` and control
   * characters, the short escapes, `\uXXXX`, and surrogate pairs written as
   * two `\u` escapes. A lone surrogate is refused.
   */
  function JsonUnescape(t: string): Option<seq<int>>
    decreases |t|
  {
    if t == [] then Some([])
    else if t[0] == '\\' then
      if |t| >= 2 && ShortEscapeValue(t[1]).Some? then
        Prepend(ShortEscapeValue(t[1]).value, JsonUnescape(t[2..]))
      else if |t| >= 6 && t[1] == 'u' && IsHex4(t[2..6]) then
        var u := Hex4Value(t[2..6]);
        if 0xDC00 <= u <= 0xDFFF then None
        else if u < 0xD800 || 0xDBFF < u then Prepend(u, JsonUnescape(t[6..]))
        else if |t| >= 12 && t[6] == '\\' && t[7] == 'u' && IsHex4(t[8..12]) &&
                0xDC00 <= Hex4Value(t[8..12]) <= 0xDFFF then
          Prepend(0x10000 + (u - 0xD800) * 0x400 + (Hex4Value(t[8..12]) - 0xDC00), JsonUnescape(t[12..]))
        else None
      else None
    else if t[0] == '"' || t[0] as int < 0x20 || 0x80 <= t[0] as int then None
    else Prepend(t[0] as int, JsonUnescape(t[1..]))
  }

  lemma ReadUnitEscape(u: nat, rest: string)
    requires u < 0x10000 && !(0xD800 <= u <= 0xDFFF)
    ensures JsonUnescape(UnitEscape(u) + rest) == Prepend(u, JsonUnescape(rest))
  {
    var t := UnitEscape(u) + rest;
    assert t[0] == '\\' && t[1] == 'u';
    assert t[2..6] == Hex4(u);
    Hex4RoundTrip(u);
    assert t[6..] == rest;
  }

  lemma ReadSurrogatePair(c: int, rest: string)
    requires 0x10000 <= c <= 0x10FFFF
    ensures JsonUnescape(EscapeCodePoint(c) + rest) == Prepend(c, JsonUnescape(rest))
  {
    var hi, lo := HighSurrogate(c), LowSurrogate(c);
    SurrogatesJoin(c);
    assert EscapeCodePoint(c) + rest == UnitEscape(hi) + UnitEscape(lo) + rest;
    ReadEscapedPair(hi, lo, rest);
  }

  /** The two surrogates of a code point are in their ranges and give it back. */
  lemma SurrogatesJoin(c: int)
    requires 0x10000 <= c <= 0x10FFFF
    ensures 0xD800 <= HighSurrogate(c) <= 0xDBFF && 0xDC00 <= LowSurrogate(c) <= 0xDFFF
    ensures 0x10000 + (HighSurrogate(c) - 0xD800) * 0x400 + (LowSurrogate(c) - 0xDC00) == c
  {
  }

  /** Two `\u` escapes holding a high and a low surrogate read back as one code point. */
  lemma ReadEscapedPair(hi: nat, lo: nat, rest: string)
    requires 0xD800 <= hi <= 0xDBFF && 0xDC00 <= lo <= 0xDFFF
    ensures JsonUnescape(UnitEscape(hi) + UnitEscape(lo) + rest) ==
            Prepend(0x10000 + (hi - 0xD800) * 0x400 + (lo - 0xDC00), JsonUnescape(rest))
  {
    PairLayout(hi, lo, rest);
    Hex4RoundTrip(hi);
    Hex4RoundTrip(lo);
  }

  lemma PairLayout(hi: nat, lo: nat, rest: string)
    requires hi < 0x10000 && lo < 0x10000
    ensures var t := UnitEscape(hi) + UnitEscape(lo) + rest;
      |t| >= 12 && t[0] == '\\' && t[1] == 'u' && t[6] == '\\' && t[7] == 'u' &&
      t[2..6] == Hex4(hi) && t[8..12] == Hex4(lo) && t[12..] == rest
  {
    var t := UnitEscape(hi) + UnitEscape(lo) + rest;
    assert t[2..6] == Hex4(hi);
    assert t[8..12] == Hex4(lo);
    assert t[12..] == rest;
  }

  /** Reading back the escape of one code point gives the code point. */
  lemma ReadEscapeCodePoint(c: int, rest: string)
    requires IsScalar(c)
    ensures JsonUnescape(EscapeCodePoint(c) + rest) == Prepend(c, JsonUnescape(rest))
  {
    if c == 34 || c == 92 || c == 47 || c == 8 || c == 12 || c == 10 || c == 13 || c == 9 {
      var x := ShortEscapeOf(c);
      ReadShortEscape(x, c, rest);
    } else if c < 0x20 || 0x80 <= c < 0x10000 {
      assert EscapeCodePoint(c) == UnitEscape(c);
      ReadUnitEscape(c, rest);
    } else if c < 0x80 {
      assert EscapeCodePoint(c) == [c as char];
      ReadPlainChar(c as char, rest);
    } else {
      ReadSurrogatePair(c, rest);
    }
  }

  /** The eight code points with a one-character escape. */
  lemma ShortEscapeOf(c: int) returns (x: char)
    requires c == 34 || c == 92 || c == 47 || c == 8 || c == 12 || c == 10 || c == 13 || c == 9
    ensures IsScalar(c) && EscapeCodePoint(c) == ['\\', x] && ShortEscapeValue(x) == Some(c)
  {
    x := EscapeCodePoint(c)[1];
  }

  lemma ReadShortEscape(x: char, v: int, rest: string)
    requires ShortEscapeValue(x) == Some(v)
    ensures JsonUnescape(['\\', x] + rest) == Prepend(v, JsonUnescape(rest))
  {
    assert (['\\', x] + rest)[2..] == rest;
  }

  lemma ReadPlainChar(x: char, rest: string)
    requires 0x20 <= x as int < 0x80 && x != '"' && x != '\\'
    ensures JsonUnescape([x] + rest) == Prepend(x as int, JsonUnescape(rest))
  {
    assert ([x] + rest)[1..] == rest;
  }

  /** Every string body the encoder writes reads back as the code points it was written for. */
  lemma {:induction false} JsonUnescapeEscape(cs: seq<int>)
    requires forall i :: 0 <= i < |cs| ==> IsScalar(cs[i])
    ensures JsonUnescape(EscapeCodePoints(cs)) == Some(cs)
  {
    if cs != [] {
      ReadEscapeCodePoint(cs[0], EscapeCodePoints(cs[1..]));
      JsonUnescapeEscape(cs[1..]);
      assert [cs[0]] + cs[1..] == cs;
    }
  }

  /** Without its quotes, `json_encode` of well-formed text is the escaped code points; otherwise "". */
  lemma JsonEscapeBody(s: string)
    ensures JsonEscape(s) == match Decode(s) case None => "" case Some(cs) => EscapeCodePoints(cs)
  {
    match JsonEncode(s)
    case None =>
    case Some(j) =>
      var cs := Decode(s).value;
      assert j == "\"" + EscapeCodePoints(cs) + "\"";
      assert TokenHandlers.SubstrRange(|j|, 1, Some(-1)) == Some((1, |j| - 1));
      assert j[1..|j| - 1] == EscapeCodePoints(cs);
  }

  /**
   * What the JSON escaper puts into a hook body, read back as a JSON string
   * and written out as UTF-8, is the original value byte for byte; the value
   * of a malformed token becomes "".
   */
  lemma JsonEscapeRoundTrip(s: string)
    ensures Valid(s) ==> JsonUnescape(JsonEscape(s)) == Decode(s)
    ensures Valid(s) ==> Encode(JsonUnescape(JsonEscape(s)).value) == s
    ensures !Valid(s) ==> JsonEscape(s) == ""
  {
    JsonEscapeBody(s);
    if Valid(s) {
      JsonUnescapeEscape(Decode(s).value);
      EncodeDecode(s);
    }
  }

  /** Text whose every byte is printable ASCII other than `"`, `\` and `/`. */
  predicate PlainJsonText(s: string)
  {
    forall i :: 0 <= i < |s| ==> 0x20 <= s[i] as int < 0x80 && s[i] != '"' && s[i] != '\\' && s[i] != '/'
  }

  lemma PlainJsonTail(s: string)
    requires s != [] && PlainJsonText(s)
    ensures PlainJsonText(s[1..])
  {
    forall i | 0 <= i < |s[1..]| ensures 0x20 <= s[1..][i] as int < 0x80 {
      assert s[1..][i] == s[i + 1];
    }
  }

  /** A byte below 0x80 is a code point of its own. */
  lemma AsciiFirst(s: string)
    requires s != [] && s[0] as int < 0x80
    ensures DecodeFirst(s) == Some((s[0] as int, 1))
  {
  }

  lemma EscapePlainChar(x: char)
    requires 0x20 <= x as int < 0x80 && x != '"' && x != '\\' && x != '/'
    ensures EscapeCodePoint(x as int) == [x]
  {
  }

  lemma EscapeCodePointsCons(c: int, cs: seq<int>)
    requires IsScalar(c) && forall i :: 0 <= i < |cs| ==> IsScalar(cs[i])
    ensures EscapeCodePoints([c] + cs) == EscapeCodePoint(c) + EscapeCodePoints(cs)
  {
    assert ([c] + cs)[0] == c && ([c] + cs)[1..] == cs;
  }

  lemma {:induction false} PlainJsonDecode(s: string)
    requires PlainJsonText(s)
    ensures Decode(s).Some? && EscapeCodePoints(Decode(s).value) == s
    decreases |s|
  {
    if s != [] {
      var rest := s[1..];
      PlainJsonTail(s);
      PlainJsonDecode(rest);
      var cs := Decode(rest).value;
      AsciiFirst(s);
      DecodeUnfold(s, s[0] as int, 1);
      EscapePlainChar(s[0]);
      EscapeCodePointsCons(s[0] as int, cs);
      assert [s[0]] + rest == s;
    }
  }

  /** The JSON escaper leaves plain printable ASCII as it is. */
  lemma JsonEscapePlain(s: string)
    requires PlainJsonText(s)
    ensures JsonEscape(s) == s
  {
    PlainJsonDecode(s);
    JsonEscapeBody(s);
  }

  lemma DecodeFirstOfConcat(a: string, b: string)
    requires a != [] && DecodeFirst(a).Some?
    ensures DecodeFirst(a + b) == DecodeFirst(a)
  {
    var s := a + b;
    var n := DecodeFirst(a).value.1;
    assert s[0] == a[0];
    if n >= 2 { assert s[1] == a[1]; }
    if n >= 3 { assert s[2] == a[2]; }
    if n >= 4 { assert s[3] == a[3]; }
  }

  /** Decoding works piece by piece on well-formed text. */
  lemma {:induction false} DecodeConcat(a: string, b: string)
    requires Valid(a) && Valid(b)
    ensures Decode(a + b) == Some(Decode(a).value + Decode(b).value)
    decreases |a|
  {
    if a == [] {
      assert a + b == b;
      assert Decode(a).value + Decode(b).value == Decode(b).value;
    } else {
      var c, n := FirstCodePoint(a);
      var tail := a[n..];
      DecodeConcat(tail, b);
      DecodeConcatStep(a, b, c, n, Decode(tail).value, Decode(b).value);
    }
  }

  /** One step of `DecodeConcat`: the first code point of `a` is the first of `a + b`. */
  lemma DecodeConcatStep(a: string, b: string, c: int, n: nat, x: seq<int>, y: seq<int>)
    requires a != [] && DecodeFirst(a) == Some((c, n)) && n <= |a|
    requires Decode(a) == Some([c] + x)
    requires Decode(a[n..] + b) == Some(x + y)
    ensures Decode(a + b) == Some(Decode(a).value + y)
  {
    DecodeFirstOfConcat(a, b);
    DecodeUnfold(a + b, c, n);
    assert (a + b)[n..] == a[n..] + b;
    assert [c] + (x + y) == ([c] + x) + y;
  }

  lemma {:induction false} EscapeCodePointsConcat(x: seq<int>, y: seq<int>)
    requires forall i :: 0 <= i < |x| ==> IsScalar(x[i])
    requires forall i :: 0 <= i < |y| ==> IsScalar(y[i])
    ensures EscapeCodePoints(x + y) == EscapeCodePoints(x) + EscapeCodePoints(y)
  {
    if x == [] {
      assert x + y == y;
    } else {
      assert (x + y)[0] == x[0];
      assert (x + y)[1..] == x[1..] + y;
      EscapeCodePointsConcat(x[1..], y);
    }
  }

  lemma ValidConcat(a: string, b: string)
    requires Valid(a) && Valid(b)
    ensures Valid(a + b)
  {
    DecodeConcat(a, b);
  }

  /** The JSON escaper works piece by piece on well-formed text. */
  lemma JsonEscapeConcat(a: string, b: string)
    requires Valid(a) && Valid(b)
    ensures JsonEscape(a + b) == JsonEscape(a) + JsonEscape(b)
  {
    DecodeConcat(a, b);
    EscapeCodePointsConcat(Decode(a).value, Decode(b).value);
    JsonEscapeBody(a);
    JsonEscapeBody(b);
    JsonEscapeBody(a + b);
  }

  lemma JsonEscapeQuoteChar()
    ensures Valid("\"") && JsonEscape("\"") == "\\\""
  {
    var q := "\"";
    assert q[0] == '"' && q[1..] == [];
    assert DecodeFirst(q) == Some((34, 1));
    assert Decode(q[1..]) == Some([]);
    assert [34] + [] == [34];
    assert Decode(q) == Some([34]);
    assert EscapeCodePoints([34]) == "\\\"";
    JsonEscapeBody(q);
  }

  /** Quotes inside plain text get a backslash each; the text around them is kept. */
  lemma JsonEscapeQuoted(a: string, b: string)
    requires PlainJsonText(a) && PlainJsonText(b)
    ensures JsonEscape(a + "\"" + b + "\"") == a + "\\\"" + b + "\\\""
  {
    var q, eq := "\"", "\\\"";
    JsonEscapeQuoteChar();
    JsonEscapePlain(a);
    JsonEscapePlain(b);
    PlainJsonDecode(a);
    PlainJsonDecode(b);
    var aq := a + q;
    JsonEscapeConcat(a, q);
    ValidConcat(a, q);
    var aqb := aq + b;
    JsonEscapeConcat(aq, b);
    ValidConcat(aq, b);
    JsonEscapeConcat(aqb, q);
  }

  lemma QuoteSample()
    ensures PlainJsonText("He said ") && PlainJsonText("hi")
    ensures "He said " + "\"" + "hi" + "\"" == "He said \"hi\""
    ensures "He said " + "\\\"" + "hi" + "\\\"" == "He said \\\"hi\\\""
  {
  }

  /** `He said "hi"` goes into a JSON body as `He said \"hi\"`, with no quotes around it. */
  lemma JsonEscapeQuotes()
    ensures JsonEscape("He said \"hi\"") == "He said \\\"hi\\\""
  {
    QuoteSample();
    JsonEscapeQuoted("He said ", "hi");
  }

  // ---------------------------------------------------------------------------
  // Telegram Markdown: a backslash before each of \ [ * _ and the backtick
  // ---------------------------------------------------------------------------

  predicate IsMarkdownSpecial(c: char)
  {
    c == '\\' || c == '[' || c == '*' || c == '_' || c == '`'
  }

  /** The `preg_replace` that puts a backslash in front of every Markdown special character. */
  function MarkdownEscape(s: string): string
  {
    if s == [] then ""
    else (if IsMarkdownSpecial(s[0]) then ['\\', s[0]] else [s[0]]) + MarkdownEscape(s[1..])
  }

  /** Drops the backslash of every backslash pair. */
  function MarkdownUnescape(t: string): string
  {
    if t == [] then ""
    else if t[0] == '\\' && |t| >= 2 then [t[1]] + MarkdownUnescape(t[2..])
    else [t[0]] + MarkdownUnescape(t[1..])
  }

  function CountMarkdownSpecial(s: string): nat
  {
    if s == [] then 0 else (if IsMarkdownSpecial(s[0]) then 1 else 0) + CountMarkdownSpecial(s[1..])
  }

  /** Removing the escapes gives back the original text. */
  lemma {:induction false} MarkdownRoundTrip(s: string)
    ensures MarkdownUnescape(MarkdownEscape(s)) == s
  {
    if s != [] {
      var rest := MarkdownEscape(s[1..]);
      if IsMarkdownSpecial(s[0]) {
        assert (['\\', s[0]] + rest)[2..] == rest;
      } else {
        assert ([s[0]] + rest)[1..] == rest;
      }
      MarkdownRoundTrip(s[1..]);
      assert [s[0]] + s[1..] == s;
    }
  }

  /** One backslash is added per special character and nothing else grows. */
  lemma {:induction false} MarkdownLength(s: string)
    ensures |MarkdownEscape(s)| == |s| + CountMarkdownSpecial(s)
  {
    if s != [] {
      MarkdownLength(s[1..]);
    }
  }

  /** Text without special characters is left as it is. */
  lemma {:induction false} MarkdownPlain(s: string)
    requires forall i :: 0 <= i < |s| ==> !IsMarkdownSpecial(s[i])
    ensures MarkdownEscape(s) == s
  {
    if s != [] {
      assert !IsMarkdownSpecial(s[0]);
      MarkdownPlain(s[1..]);
      assert [s[0]] + s[1..] == s;
    }
  }

  // ---------------------------------------------------------------------------
  // Telegram HTML: htmlspecialchars($s, ENT_QUOTES)
  // ---------------------------------------------------------------------------

  function HtmlEscapeChar(c: char): string
  {
    if c == '&' then "&amp;" else if c == '"' then "&quot;" else if c == '\'' then "&#039;"
    else if c == '<' then "&lt;" else if c == '>' then "&gt;" else [c]
  }

  function HtmlEscapeBytes(s: string): string
  {
    if s == [] then "" else HtmlEscapeChar(s[0]) + HtmlEscapeBytes(s[1..])
  }

  /** `htmlspecialchars($s, ENT_QUOTES)`: "" for malformed UTF-8, else the five characters as entities. */
  function HtmlEscape(s: string): string
  {
    if Valid(s) then HtmlEscapeBytes(s) else ""
  }

  /** `htmlspecialchars_decode($t, ENT_QUOTES)`: the five entities back to their characters. */
  function HtmlDecode(t: string): string
  {
    if t == [] then ""
    else if OccursAt(t, "&amp;", 0) then "&" + HtmlDecode(t[5..])
    else if OccursAt(t, "&quot;", 0) then "\"" + HtmlDecode(t[6..])
    else if OccursAt(t, "&#039;", 0) then "'" + HtmlDecode(t[6..])
    else if OccursAt(t, "&lt;", 0) then "<" + HtmlDecode(t[4..])
    else if OccursAt(t, "&gt;", 0) then ">" + HtmlDecode(t[4..])
    else [t[0]] + HtmlDecode(t[1..])
  }

  /** A pattern that differs from `t` at position `k` does not occur at the front of `t`. */
  lemma DiffersAt(t: string, p: string, k: nat)
    requires k < |p| && (k >= |t| || t[k] != p[k])
    ensures !OccursAt(t, p, 0)
  {
    if k < |t| && |p| <= |t| {
      assert t[0..|p|][k] == t[k];
    }
  }

  lemma HtmlDecodeChar(c: char, rest: string)
    ensures HtmlDecode(HtmlEscapeChar(c) + rest) == [c] + HtmlDecode(rest)
  {
    var e := HtmlEscapeChar(c);
    var t := e + rest;
    assert t[..|e|] == e && t[|e|..] == rest;
    assert OccursAt(t, e, 0);
    assert t[0] == e[0];
    if c == '&' {
    } else if c == '"' {
      assert t[1] == 'q';
      DiffersAt(t, "&amp;", 1);
    } else if c == '\'' {
      assert t[1] == '#';
      DiffersAt(t, "&amp;", 1);
      DiffersAt(t, "&quot;", 1);
    } else if c == '<' {
      assert t[1] == 'l';
      DiffersAt(t, "&amp;", 1);
      DiffersAt(t, "&quot;", 1);
      DiffersAt(t, "&#039;", 1);
    } else if c == '>' {
      assert t[1] == 'g';
      DiffersAt(t, "&amp;", 1);
      DiffersAt(t, "&quot;", 1);
      DiffersAt(t, "&#039;", 1);
      DiffersAt(t, "&lt;", 1);
    } else {
      DiffersAt(t, "&amp;", 0);
      DiffersAt(t, "&quot;", 0);
      DiffersAt(t, "&#039;", 0);
      DiffersAt(t, "&lt;", 0);
      DiffersAt(t, "&gt;", 0);
      assert t[1..] == rest;
    }
  }

  lemma {:induction false} HtmlDecodeEscape(s: string)
    ensures HtmlDecode(HtmlEscapeBytes(s)) == s
  {
    if s != [] {
      HtmlDecodeChar(s[0], HtmlEscapeBytes(s[1..]));
      HtmlDecodeEscape(s[1..]);
      assert [s[0]] + s[1..] == s;
    }
  }

  predicate IsMarkup(c: char)
  {
    c == '<' || c == '>' || c == '"' || c == '\''
  }

  lemma {:induction false} HtmlEscapeNoMarkup(s: string)
    ensures forall i :: 0 <= i < |HtmlEscapeBytes(s)| ==> !IsMarkup(HtmlEscapeBytes(s)[i])
  {
    if s != [] {
      HtmlEscapeNoMarkup(s[1..]);
      var e, rest := HtmlEscapeChar(s[0]), HtmlEscapeBytes(s[1..]);
      forall i | 0 <= i < |e + rest| ensures !IsMarkup((e + rest)[i]) {
        if i >= |e| {
          assert (e + rest)[i] == rest[i - |e|];
        }
      }
    }
  }

  /**
   * The HTML escaper leaves no `<`, `>` or quote in a resolved value, decoding
   * the entities gives the value back, and a malformed value becomes "".
   */
  lemma HtmlEscapeSafe(s: string)
    ensures forall i :: 0 <= i < |HtmlEscape(s)| ==> !IsMarkup(HtmlEscape(s)[i])
    ensures Valid(s) ==> HtmlDecode(HtmlEscape(s)) == s
    ensures !Valid(s) ==> HtmlEscape(s) == ""
  {
    HtmlEscapeNoMarkup(s);
    HtmlDecodeEscape(s);
  }
}
