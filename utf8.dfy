/**
 * UTF-8 as section 3 of RFC 3629 defines it, read from a PHP byte string.
 * Both `json_encode` and `htmlspecialchars` (with its default UTF-8 charset)
 * accept only well-formed UTF-8: no overlong forms, no surrogates, nothing
 * above U+10FFFF.
 */
module Utf8 {
  import opened Wrappers

  /** A Unicode scalar value: a code point that is not a surrogate. */
  predicate IsScalar(c: int)
  {
    0 <= c < 0xD800 || 0xE000 <= c <= 0x10FFFF
  }

  predicate InRange(c: char, lo: int, hi: int)
  {
    lo <= c as int <= hi
  }

  /** A continuation byte, 10xxxxxx. */
  predicate Cont(c: char)
  {
    InRange(c, 0x80, 0xBF)
  }

  /** Number of bytes the encoding of a scalar value takes. */
  function EncodedLength(c: int): nat
  {
    if c < 0x80 then 1 else if c < 0x800 then 2 else if c < 0x10000 then 3 else 4
  }

  /**
   * The code point at the front of `s` and the number of bytes it takes, or
   * `None` when `s` does not start with a well-formed sequence (the table in
   * section 4 of RFC 3629).
   */
  function DecodeFirst(s: string): (r: Option<(int, nat)>)
    requires s != []
    ensures r.Some? ==> IsScalar(r.value.0) && r.value.1 == EncodedLength(r.value.0) <= |s|
  {
    var b0 := s[0] as int;
    if b0 < 0x80 then Some((b0, 1))
    else if 0xC2 <= b0 <= 0xDF && |s| >= 2 && Cont(s[1]) then
      Some(((b0 - 0xC0) * 64 + (s[1] as int - 0x80), 2))
    else if 0xE0 <= b0 <= 0xEF && |s| >= 3 && Cont(s[2]) &&
            (if b0 == 0xE0 then InRange(s[1], 0xA0, 0xBF)
             else if b0 == 0xED then InRange(s[1], 0x80, 0x9F)
             else Cont(s[1])) then
      Some(((b0 - 0xE0) * 4096 + (s[1] as int - 0x80) * 64 + (s[2] as int - 0x80), 3))
    else if 0xF0 <= b0 <= 0xF4 && |s| >= 4 && Cont(s[2]) && Cont(s[3]) &&
            (if b0 == 0xF0 then InRange(s[1], 0x90, 0xBF)
             else if b0 == 0xF4 then InRange(s[1], 0x80, 0x8F)
             else Cont(s[1])) then
      Some(((b0 - 0xF0) * 262144 + (s[1] as int - 0x80) * 4096 +
            (s[2] as int - 0x80) * 64 + (s[3] as int - 0x80), 4))
    else None
  }

  /** The code points of `s`, or `None` when `s` is not well-formed UTF-8. */
  function Decode(s: string): (r: Option<seq<int>>)
    ensures r.Some? ==> forall i :: 0 <= i < |r.value| ==> IsScalar(r.value[i])
    decreases |s|
  {
    if s == [] then Some([])
    else match DecodeFirst(s)
      case None => None
      case Some(first) =>
        match Decode(s[first.1..])
        case None => None
        case Some(rest) => Some([first.0] + rest)
  }

  predicate Valid(s: string)
  {
    Decode(s).Some?
  }

  /** The UTF-8 bytes of one scalar value. */
  function EncodeOne(c: int): (r: string)
    requires IsScalar(c)
    ensures |r| == EncodedLength(c)
  {
    if c < 0x80 then [c as char]
    else if c < 0x800 then [(0xC0 + c / 64) as char, (0x80 + c % 64) as char]
    else if c < 0x10000 then
      [(0xE0 + c / 4096) as char, (0x80 + (c / 64) % 64) as char, (0x80 + c % 64) as char]
    else
      [(0xF0 + c / 262144) as char, (0x80 + (c / 4096) % 64) as char,
       (0x80 + (c / 64) % 64) as char, (0x80 + c % 64) as char]
  }

  /** The UTF-8 bytes of a sequence of scalar values. */
  function Encode(cs: seq<int>): string
    requires forall i :: 0 <= i < |cs| ==> IsScalar(cs[i])
  {
    if cs == [] then "" else EncodeOne(cs[0]) + Encode(cs[1..])
  }

  // ---------------------------------------------------------------------------
  // Encoding and decoding are inverse
  // ---------------------------------------------------------------------------

  lemma SplitSix(q: int, r: int)
    requires 0 <= r < 64
    ensures (q * 64 + r) / 64 == q && (q * 64 + r) % 64 == r
  {
  }

  lemma DecodeTwoBytes(c: int, rest: string)
    requires 0x80 <= c < 0x800
    ensures DecodeFirst(EncodeOne(c) + rest) == Some((c, 2))
  {
    var s := EncodeOne(c) + rest;
    var b0, b1 := c / 64, c % 64;
    assert 2 <= b0 < 32;
    assert s[0] as int == 0xC0 + b0 && s[1] as int == 0x80 + b1;
  }

  lemma DecodeThreeBytes(c: int, rest: string)
    requires 0x800 <= c < 0x10000 && IsScalar(c)
    ensures DecodeFirst(EncodeOne(c) + rest) == Some((c, 3))
  {
    var s := EncodeOne(c) + rest;
    var b0, b1, b2 := c / 4096, (c / 64) % 64, c % 64;
    assert c / 64 == b0 * 64 + b1;
    assert c == (b0 * 64 + b1) * 64 + b2;
    assert s[0] as int == 0xE0 + b0 && s[1] as int == 0x80 + b1 && s[2] as int == 0x80 + b2;
  }

  lemma DecodeFourBytes(c: int, rest: string)
    requires 0x10000 <= c <= 0x10FFFF
    ensures DecodeFirst(EncodeOne(c) + rest) == Some((c, 4))
  {
    var s := EncodeOne(c) + rest;
    var b0, b1, b2, b3 := c / 262144, (c / 4096) % 64, (c / 64) % 64, c % 64;
    assert c / 4096 == b0 * 64 + b1;
    assert c / 64 == (b0 * 64 + b1) * 64 + b2;
    assert c == ((b0 * 64 + b1) * 64 + b2) * 64 + b3;
    assert s[0] as int == 0xF0 + b0 && s[1] as int == 0x80 + b1;
    assert s[2] as int == 0x80 + b2 && s[3] as int == 0x80 + b3;
  }

  /** The decoder reads back what the encoder wrote for one value. */
  lemma DecodeFirstEncodeOne(c: int, rest: string)
    requires IsScalar(c)
    ensures DecodeFirst(EncodeOne(c) + rest) == Some((c, EncodedLength(c)))
  {
    if c < 0x80 {
      assert (EncodeOne(c) + rest)[0] == c as char;
    } else if c < 0x800 {
      DecodeTwoBytes(c, rest);
    } else if c < 0x10000 {
      DecodeThreeBytes(c, rest);
    } else {
      DecodeFourBytes(c, rest);
    }
  }

  /** Decoding the encoding of scalar values gives them back. */
  lemma {:induction false} DecodeEncode(cs: seq<int>)
    requires forall i :: 0 <= i < |cs| ==> IsScalar(cs[i])
    ensures Decode(Encode(cs)) == Some(cs)
  {
    if cs != [] {
      var e := EncodeOne(cs[0]);
      var rest := Encode(cs[1..]);
      DecodeFirstEncodeOne(cs[0], rest);
      assert (e + rest)[|e|..] == rest;
      DecodeEncode(cs[1..]);
      assert [cs[0]] + cs[1..] == cs;
    }
  }

  lemma EncodeTwoBytes(s: string)
    requires |s| >= 2 && 0xC2 <= s[0] as int <= 0xDF && Cont(s[1])
    ensures EncodeOne((s[0] as int - 0xC0) * 64 + (s[1] as int - 0x80)) == s[..2]
  {
    SplitSix(s[0] as int - 0xC0, s[1] as int - 0x80);
  }

  lemma EncodeThreeBytes(s: string, b0: int, b1: int, b2: int)
    requires |s| >= 3 && b0 == s[0] as int - 0xE0 && b1 == s[1] as int - 0x80 && b2 == s[2] as int - 0x80
    requires 0 <= b0 < 16 && 0 <= b1 < 64 && 0 <= b2 < 64
    requires IsScalar((b0 * 64 + b1) * 64 + b2) && (b0 * 64 + b1) * 64 + b2 >= 0x800
    ensures EncodeOne((b0 * 64 + b1) * 64 + b2) == s[..3]
  {
    var c := (b0 * 64 + b1) * 64 + b2;
    SplitSix(b0 * 64 + b1, b2);
    SplitSix(b0, b1);
    assert c / 4096 == (c / 64) / 64;
  }

  lemma EncodeFourBytes(s: string, b0: int, b1: int, b2: int, b3: int)
    requires |s| >= 4 && b0 == s[0] as int - 0xF0 && b1 == s[1] as int - 0x80
    requires b2 == s[2] as int - 0x80 && b3 == s[3] as int - 0x80
    requires 0 <= b0 < 5 && 0 <= b1 < 64 && 0 <= b2 < 64 && 0 <= b3 < 64
    requires 0x10000 <= ((b0 * 64 + b1) * 64 + b2) * 64 + b3 <= 0x10FFFF
    ensures EncodeOne(((b0 * 64 + b1) * 64 + b2) * 64 + b3) == s[..4]
  {
    var c := ((b0 * 64 + b1) * 64 + b2) * 64 + b3;
    SplitSix((b0 * 64 + b1) * 64 + b2, b3);
    SplitSix(b0 * 64 + b1, b2);
    SplitSix(b0, b1);
    assert c / 4096 == (c / 64) / 64;
    assert c / 262144 == ((c / 64) / 64) / 64;
  }

  /** The bytes the decoder consumed are the encoding of the value it read. */
  lemma EncodeOneDecodeFirst(s: string)
    requires s != [] && DecodeFirst(s).Some?
    ensures EncodeOne(DecodeFirst(s).value.0) == s[..DecodeFirst(s).value.1]
  {
    var b0 := s[0] as int;
    if b0 < 0x80 {
    } else if b0 <= 0xDF {
      EncodeTwoBytes(s);
    } else if b0 <= 0xEF {
      EncodeThreeBytes(s, b0 - 0xE0, s[1] as int - 0x80, s[2] as int - 0x80);
    } else {
      EncodeFourBytes(s, b0 - 0xF0, s[1] as int - 0x80, s[2] as int - 0x80, s[3] as int - 0x80);
    }
  }

  /** Well-formed UTF-8 is exactly the encoding of the code points read from it. */
  lemma {:induction false} EncodeDecode(s: string)
    requires Valid(s)
    ensures Encode(Decode(s).value) == s
    decreases |s|
  {
    if s != [] {
      var c, n := DecodeStep(s);
      EncodeDecode(s[n..]);
      EncodeCons(c, Decode(s[n..]).value);
      assert s[..n] + s[n..] == s;
    }
  }

  /**
   * Decoding a non-empty text reads one code point from its first `n`
   * bytes, whose encoding they are, and then decodes the rest.
   */
  lemma DecodeStep(s: string) returns (c: int, n: nat)
    requires Valid(s) && s != []
    ensures 0 < n <= |s| && IsScalar(c) && Valid(s[n..])
    ensures Decode(s).value == [c] + Decode(s[n..]).value
    ensures EncodeOne(c) == s[..n]
  {
    c, n := DecodeFirst(s).value.0, DecodeFirst(s).value.1;
    EncodeOneDecodeFirst(s);
  }

  /** The first code point of well-formed text, and the length of its encoding. */
  lemma FirstCodePoint(s: string) returns (c: int, n: nat)
    requires Valid(s) && s != []
    ensures 0 < n <= |s| && DecodeFirst(s) == Some((c, n)) && Valid(s[n..])
    ensures Decode(s) == Some([c] + Decode(s[n..]).value)
  {
    c, n := DecodeFirst(s).value.0, DecodeFirst(s).value.1;
  }

  /** Decoding once the first code point and its length are known. */
  lemma DecodeUnfold(s: string, c: int, n: nat)
    requires s != [] && DecodeFirst(s) == Some((c, n))
    ensures n <= |s|
    ensures Decode(s) == match Decode(s[n..]) case None => None case Some(r) => Some([c] + r)
  {
  }

  lemma EncodeCons(c: int, cs: seq<int>)
    requires IsScalar(c) && forall i :: 0 <= i < |cs| ==> IsScalar(cs[i])
    ensures Encode([c] + cs) == EncodeOne(c) + Encode(cs)
  {
    assert ([c] + cs)[0] == c && ([c] + cs)[1..] == cs;
  }
}
