/**
 * The PHP string built-ins the webhook code relies on. A PHP string is a
 * sequence of bytes; here it is a Dafny `string` whose characters are those
 * bytes (codes 0 to 255).
 */
module PhpStrings {

  /** True when `pat` occurs in `s` starting at index `i`. */
  predicate OccursAt(s: string, pat: string, i: int)
  {
    0 <= i && i + |pat| <= |s| && s[i..i + |pat|] == pat
  }

  /** Characters of a string that are bytes. */
  predicate IsByteString(s: string)
  {
    forall i :: 0 <= i < |s| ==> s[i] as int < 256
  }

  // ---------------------------------------------------------------------------
  // str_replace
  // ---------------------------------------------------------------------------

  /**
   * `str_replace($pat, $rep, $s)` with one search string: occurrences are
   * found from left to right and never overlap; an empty search string leaves
   * the subject as it is.
   */
  function Replace(s: string, pat: string, rep: string): string
  {
    if pat == [] then s else ReplaceFrom(s, pat, rep)
  }

  function ReplaceFrom(s: string, pat: string, rep: string): string
    requires pat != []
    decreases |s|
  {
    if |s| < |pat| then s
    else if s[..|pat|] == pat then rep + ReplaceFrom(s[|pat|..], pat, rep)
    else [s[0]] + ReplaceFrom(s[1..], pat, rep)
  }

  /** A subject in which the search string does not occur is left unchanged. */
  lemma {:induction false} ReplaceAbsent(s: string, pat: string, rep: string)
    requires forall i :: !OccursAt(s, pat, i)
    ensures Replace(s, pat, rep) == s
  {
    if pat != [] && |s| >= |pat| {
      assert !OccursAt(s, pat, 0);
      forall i ensures !OccursAt(s[1..], pat, i) {
        if OccursAt(s[1..], pat, i) {
          assert s[1..][i..i + |pat|] == s[i + 1..i + 1 + |pat|];
          assert OccursAt(s, pat, i + 1);
        }
      }
      ReplaceAbsent(s[1..], pat, rep);
    }
  }

  /** Replacing a whole non-empty subject by itself gives the replacement. */
  lemma ReplaceWhole(pat: string, rep: string)
    requires pat != []
    ensures Replace(pat, pat, rep) == rep
  {
    assert pat[..|pat|] == pat;
    assert pat[|pat|..] == [];
    assert ReplaceFrom([], pat, rep) == [];
    assert ReplaceFrom(pat, pat, rep) == rep + ReplaceFrom([], pat, rep);
    assert rep + [] == rep;
  }

  /** A subject of the search string's length that differs from it is kept. */
  lemma ReplaceSameLength(s: string, pat: string, rep: string)
    requires pat != [] && |s| == |pat| && s != pat
    ensures Replace(s, pat, rep) == s
  {
    assert s[..|pat|] == s;
    assert ReplaceFrom(s[1..], pat, rep) == s[1..];
    assert ReplaceFrom(s, pat, rep) == [s[0]] + ReplaceFrom(s[1..], pat, rep);
    assert [s[0]] + s[1..] == s;
  }

  /**
   * When the first occurrence of `pat` is at `i`, everything before it is
   * kept, the occurrence becomes `rep`, and the search resumes after it.
   */
  lemma {:induction false} ReplaceFirstAt(s: string, pat: string, rep: string, i: nat)
    requires pat != []
    requires OccursAt(s, pat, i)
    requires forall q :: 0 <= q < i ==> !OccursAt(s, pat, q)
    ensures Replace(s, pat, rep) == s[..i] + rep + Replace(s[i + |pat|..], pat, rep)
  {
    if i == 0 {
      ReplaceAtFront(s, pat, rep);
    } else {
      ShiftOccurrences(s, pat, i);
      ReplaceFirstAt(s[1..], pat, rep, i - 1);
      ReplaceKeepsFirst(s, pat, rep, i);
    }
  }

  /** A text occurs in any concatenation at the place where it was put. */
  lemma OccursInMiddle(a: string, m: string, b: string)
    ensures OccursAt(a + m + b, m, |a|)
  {
    assert (a + m + b)[|a|..|a| + |m|] == m;
  }

  /**
   * When `pat` occurs in `a + pat + b` first at the seam and not at all in
   * `b`, replacing it gives `a + rep + b`.
   */
  lemma ReplaceOnly(a: string, pat: string, b: string, rep: string)
    requires pat != []
    requires forall q :: 0 <= q < |a| ==> !OccursAt(a + pat + b, pat, q)
    requires forall q :: !OccursAt(b, pat, q)
    ensures Replace(a + pat + b, pat, rep) == a + rep + b
  {
    var s := a + pat + b;
    OccursInMiddle(a, pat, b);
    ReplaceFirstAt(s, pat, rep, |a|);
    assert s[..|a|] == a;
    assert s[|a| + |pat|..] == b;
    ReplaceAbsent(b, pat, rep);
  }

  /**
   * A search string whose first byte appears neither in `a` nor in `b` is
   * replaced exactly where it was put.
   */
  lemma ReplaceBetween(a: string, pat: string, b: string, rep: string)
    requires pat != []
    requires forall i :: 0 <= i < |a| ==> a[i] != pat[0]
    requires forall i :: 0 <= i < |b| ==> b[i] != pat[0]
    ensures Replace(a + pat + b, pat, rep) == a + rep + b
  {
    var s := a + pat + b;
    forall q | 0 <= q < |a|
      ensures !OccursAt(s, pat, q)
    {
      assert s[q] == a[q];
    }
    FirstByteMissing(b, pat);
    ReplaceOnly(a, pat, b, rep);
  }

  /** A search string does not occur where its first byte never appears. */
  lemma FirstByteMissing(s: string, pat: string)
    requires pat != []
    requires forall i :: 0 <= i < |s| ==> s[i] != pat[0]
    ensures forall q :: !OccursAt(s, pat, q)
  {
    forall q | 0 <= q && q + |pat| <= |s|
      ensures !OccursAt(s, pat, q)
    {
      assert s[q..q + |pat|][0] == s[q];
    }
  }

  lemma ReplaceKeepsFirst(s: string, pat: string, rep: string, i: nat)
    requires pat != [] && 0 < i && i + |pat| <= |s| && !OccursAt(s, pat, 0)
    requires Replace(s[1..], pat, rep) == s[1..][..i - 1] + rep + Replace(s[1..][i - 1 + |pat|..], pat, rep)
    ensures Replace(s, pat, rep) == s[..i] + rep + Replace(s[i + |pat|..], pat, rep)
  {
    var t := s[1..];
    var tail := Replace(s[i + |pat|..], pat, rep);
    calc {
      Replace(s, pat, rep);
      { ReplaceSkipsFirst(s, pat, rep); }
      [s[0]] + Replace(t, pat, rep);
      { assert t[i - 1 + |pat|..] == s[i + |pat|..]; }
      [s[0]] + (t[..i - 1] + rep + tail);
      ([s[0]] + t[..i - 1]) + rep + tail;
      { assert [s[0]] + t[..i - 1] == s[..i]; }
      s[..i] + rep + tail;
    }
  }

  /** An occurrence at the front is replaced first. */
  lemma ReplaceAtFront(s: string, pat: string, rep: string)
    requires pat != [] && OccursAt(s, pat, 0)
    ensures Replace(s, pat, rep) == s[..0] + rep + Replace(s[|pat|..], pat, rep)
  {
    assert s[..|pat|] == pat;
    assert s[..0] + rep == rep;
  }

  /** Without an occurrence at the front, the first byte is kept. */
  lemma ReplaceSkipsFirst(s: string, pat: string, rep: string)
    requires pat != [] && |s| >= |pat| && !OccursAt(s, pat, 0)
    ensures Replace(s, pat, rep) == [s[0]] + Replace(s[1..], pat, rep)
  {
  }

  /** Occurrences in `s` at positions `1..i` are occurrences in `s[1..]`, shifted. */
  lemma ShiftOccurrences(s: string, pat: string, i: nat)
    requires 0 < i && OccursAt(s, pat, i)
    requires forall q :: 0 <= q < i ==> !OccursAt(s, pat, q)
    ensures OccursAt(s[1..], pat, i - 1)
    ensures forall q :: 0 <= q < i - 1 ==> !OccursAt(s[1..], pat, q)
  {
    var t := s[1..];
    SliceOfTail(s, i - 1, |pat|);
    forall q | 0 <= q < i - 1 ensures !OccursAt(t, pat, q) {
      SliceOfTail(s, q, |pat|);
      assert !OccursAt(s, pat, q + 1);
    }
  }

  /** A slice of the tail is the slice of the whole one place further. */
  lemma SliceOfTail(s: string, q: nat, m: nat)
    requires q + m + 1 <= |s|
    ensures s[1..][q..q + m] == s[q + 1..q + 1 + m]
  {
    var t, u := s[1..][q..q + m], s[q + 1..q + 1 + m];
    forall k | 0 <= k < m
      ensures t[k] == u[k]
    {
    }
  }

  // ---------------------------------------------------------------------------
  // explode / implode with a comma
  // ---------------------------------------------------------------------------

  /** Number of occurrences of character `c` in `s`. */
  function CountChar(s: string, c: char): nat
  {
    if s == [] then 0 else (if s[0] == c then 1 else 0) + CountChar(s[1..], c)
  }

  /** `explode(",", $s)`: the pieces between commas, in order. */
  function Explode(s: string): (parts: seq<string>)
    ensures |parts| >= 1
  {
    if s == [] then [""]
    else
      var rest := Explode(s[1..]);
      if s[0] == ',' then [""] + rest
      else [[s[0]] + rest[0]] + rest[1..]
  }

  /** `implode(",", $parts)`. */
  function Implode(parts: seq<string>): string
  {
    if |parts| == 0 then ""
    else if |parts| == 1 then parts[0]
    else parts[0] + "," + Implode(parts[1..])
  }

  /** Joining the pieces with commas gives back the exploded text. */
  lemma {:induction false} ImplodeExplode(s: string)
    ensures Implode(Explode(s)) == s
  {
    if s != [] {
      var rest := Explode(s[1..]);
      ImplodeExplode(s[1..]);
      if s[0] == ',' {
        assert Implode([""] + rest) == "" + "," + Implode(rest) by {
          assert ([""] + rest)[1..] == rest;
        }
        assert s == [','] + s[1..];
      } else {
        var first := [[s[0]] + rest[0]] + rest[1..];
        if |rest| == 1 {
          assert Implode(first) == [s[0]] + rest[0];
        } else {
          assert first[1..] == rest[1..];
          assert Implode(rest) == rest[0] + "," + Implode(rest[1..]);
          assert Implode(first) == ([s[0]] + rest[0]) + "," + Implode(rest[1..]);
        }
        assert s == [s[0]] + s[1..];
      }
    }
  }

  /** `k` commas give `k + 1` pieces, and no piece contains a comma. */
  lemma {:induction false} ExplodeShape(s: string)
    ensures |Explode(s)| == CountChar(s, ',') + 1
    ensures forall k :: 0 <= k < |Explode(s)| ==> ',' !in Explode(s)[k]
  {
    if s != [] {
      ExplodeShape(s[1..]);
      var rest := Explode(s[1..]);
      if s[0] != ',' {
        assert ',' !in [s[0]] + rest[0];
        var parts := [[s[0]] + rest[0]] + rest[1..];
        forall k | 1 <= k < |parts| ensures ',' !in parts[k] {
          assert parts[k] == rest[k];
        }
      }
    }
  }

  /** Pieces without commas survive a join followed by a split. */
  lemma {:induction false} ExplodeImplode(parts: seq<string>)
    requires |parts| >= 1
    requires forall k :: 0 <= k < |parts| ==> ',' !in parts[k]
    ensures Explode(Implode(parts)) == parts
  {
    if |parts| == 1 {
      ExplodeNoComma(parts[0]);
    } else {
      ExplodeImplode(parts[1..]);
      ExplodeConcat(parts[0], Implode(parts[1..]));
    }
  }

  lemma {:induction false} ExplodeNoComma(s: string)
    requires ',' !in s
    ensures Explode(s) == [s]
  {
    if s != [] {
      ExplodeNoComma(s[1..]);
      assert [s[0]] + s[1..] == s;
    }
  }

  /** A comma-free prefix joined by a comma to `t` becomes the first piece. */
  lemma {:induction false} ExplodeConcat(a: string, t: string)
    requires ',' !in a
    ensures Explode(a + "," + t) == [a] + Explode(t)
  {
    if a == [] {
      assert a + "," + t == [','] + t;
      assert ([','] + t)[1..] == t;
    } else {
      var s := a + "," + t;
      assert s[0] == a[0];
      assert s[1..] == a[1..] + "," + t;
      ExplodeConcat(a[1..], t);
      assert [a[0]] + a[1..] == a;
    }
  }

  // ---------------------------------------------------------------------------
  // strtoupper / strtolower (ASCII, the "C" locale)
  // ---------------------------------------------------------------------------

  function UpperChar(c: char): char
  {
    if 'a' <= c <= 'z' then (c as int - 32) as char else c
  }

  function LowerChar(c: char): char
  {
    if 'A' <= c <= 'Z' then (c as int + 32) as char else c
  }

  /** `strtoupper`: ASCII letters are upper-cased, every other byte is kept. */
  function Upper(s: string): (r: string)
    ensures |r| == |s|
    ensures forall i :: 0 <= i < |s| ==> r[i] == UpperChar(s[i])
  {
    if s == [] then [] else [UpperChar(s[0])] + Upper(s[1..])
  }

  /** `strtolower`: ASCII letters are lower-cased, every other byte is kept. */
  function Lower(s: string): (r: string)
    ensures |r| == |s|
    ensures forall i :: 0 <= i < |s| ==> r[i] == LowerChar(s[i])
  {
    if s == [] then [] else [LowerChar(s[0])] + Lower(s[1..])
  }

  /** `Upper` computed character by character. */
  lemma UpperOf(s: string, t: string)
    requires |s| == |t| && forall i :: 0 <= i < |s| ==> UpperChar(s[i]) == t[i]
    ensures Upper(s) == t
  {
  }

  /** Upper-casing twice is upper-casing once. */
  lemma UpperIdempotent(s: string)
    ensures Upper(Upper(s)) == Upper(s)
  {
  }

  /** Upper-cased text has no lower-case ASCII letter left. */
  lemma UpperHasNoLowerCase(s: string)
    ensures forall i :: 0 <= i < |Upper(s)| ==> !('a' <= Upper(s)[i] <= 'z')
  {
  }

  /** Lower-casing forgets the case a string was upper-cased to, and back. */
  lemma CaseFoldsAgree(s: string)
    ensures Lower(Upper(s)) == Lower(s)
    ensures Upper(Lower(s)) == Upper(s)
  {
  }

  // ---------------------------------------------------------------------------
  // trim
  // ---------------------------------------------------------------------------

  /** The bytes `trim` strips by default: space, tab, LF, CR, NUL, vertical tab. */
  predicate IsTrimChar(c: char)
  {
    c == ' ' || c == '\t' || c == '\n' || c == '\r' || c == '\0' || c == '\U{B}'
  }

  function TrimLeft(s: string): string
  {
    if s != [] && IsTrimChar(s[0]) then TrimLeft(s[1..]) else s
  }

  function TrimRight(s: string): string
  {
    if s != [] && IsTrimChar(s[|s| - 1]) then TrimRight(s[..|s| - 1]) else s
  }

  /** `trim($s)`. */
  function Trim(s: string): string
  {
    TrimRight(TrimLeft(s))
  }

  // ---------------------------------------------------------------------------
  // strval of an integer
  // ---------------------------------------------------------------------------

  function DigitChar(d: nat): (c: char)
    requires d < 10
    ensures '0' <= c <= '9'
  {
    ('0' as int + d) as char
  }

  /** Decimal text of a natural number, as `strval` writes it. */
  function NatToString(n: nat): (r: string)
    ensures |r| >= 1
    ensures forall i :: 0 <= i < |r| ==> '0' <= r[i] <= '9'
  {
    if n < 10 then [DigitChar(n)] else NatToString(n / 10) + [DigitChar(n % 10)]
  }

  /** Decimal text of an integer, with a leading `-` when it is negative. */
  function IntToString(i: int): string
  {
    if i < 0 then "-" + NatToString(-i) else NatToString(i)
  }

  // ---------------------------------------------------------------------------
  // urlencode
  // ---------------------------------------------------------------------------

  function HexDigitUpper(d: nat): (c: char)
    requires d < 16
  {
    if d < 10 then ('0' as int + d) as char else ('A' as int + d - 10) as char
  }

  predicate IsHexDigit(c: char)
  {
    '0' <= c <= '9' || 'a' <= c <= 'f' || 'A' <= c <= 'F'
  }

  function HexValue(c: char): (v: nat)
    requires IsHexDigit(c)
    ensures v < 16
  {
    if '0' <= c <= '9' then c as int - '0' as int
    else if 'a' <= c <= 'f' then c as int - 'a' as int + 10
    else c as int - 'A' as int + 10
  }

  /** Bytes `urlencode` keeps as they are. */
  predicate IsUrlSafe(c: char)
  {
    'a' <= c <= 'z' || 'A' <= c <= 'Z' || '0' <= c <= '9' || c == '-' || c == '_' || c == '.'
  }

  function UrlEncodeChar(c: char): string
  {
    if IsUrlSafe(c) then [c]
    else if c == ' ' then "+"
    else ['%', HexDigitUpper((c as int % 256) / 16), HexDigitUpper(c as int % 16)]
  }

  /**
   * `urlencode($s)`: letters, digits and `-_.` are kept, a space becomes `+`,
   * every other byte becomes `%` and two upper-case hexadecimal digits.
   */
  function UrlEncode(s: string): (r: string)
    ensures forall i :: 0 <= i < |r| ==> IsUrlSafe(r[i]) || r[i] == '+' || r[i] == '%'
  {
    if s == [] then [] else UrlEncodeChar(s[0]) + UrlEncode(s[1..])
  }

  /** `urldecode($t)`, the inverse PHP provides. */
  function UrlDecode(t: string): string
  {
    if t == [] then []
    else if t[0] == '%' && |t| >= 3 && IsHexDigit(t[1]) && IsHexDigit(t[2]) then
      [(HexValue(t[1]) * 16 + HexValue(t[2])) as char] + UrlDecode(t[3..])
    else if t[0] == '+' then [' '] + UrlDecode(t[1..])
    else [t[0]] + UrlDecode(t[1..])
  }

  /** An upper-case hexadecimal digit reads back as its value. */
  lemma HexDigitUpperValue(d: nat)
    requires d < 16
    ensures IsHexDigit(HexDigitUpper(d)) && HexValue(HexDigitUpper(d)) == d
  {
  }

  /** Decoding one encoded byte, then the rest. */
  lemma UrlDecodeEncodeChar(c: char, rest: string)
    requires c as int < 256
    ensures UrlDecode(UrlEncodeChar(c) + rest) == [c] + UrlDecode(rest)
  {
    if IsUrlSafe(c) {
      UrlDecodeKept(c, rest);
    } else if c == ' ' {
      UrlDecodePlus(rest);
    } else {
      var hi, lo := HexDigitUpper(c as int / 16), HexDigitUpper(c as int % 16);
      HexDigitUpperValue(c as int / 16);
      HexDigitUpperValue(c as int % 16);
      assert UrlEncodeChar(c) == ['%', hi, lo];
      UrlDecodeEscape(hi, lo, rest);
    }
  }

  lemma UrlDecodeKept(c: char, rest: string)
    requires IsUrlSafe(c)
    ensures UrlDecode([c] + rest) == [c] + UrlDecode(rest)
  {
    assert ([c] + rest)[1..] == rest;
  }

  lemma UrlDecodePlus(rest: string)
    ensures UrlDecode("+" + rest) == " " + UrlDecode(rest)
  {
    assert ("+" + rest)[1..] == rest;
  }

  lemma UrlDecodeEscape(hi: char, lo: char, rest: string)
    requires IsHexDigit(hi) && IsHexDigit(lo)
    ensures UrlDecode(['%', hi, lo] + rest) == [(HexValue(hi) * 16 + HexValue(lo)) as char] + UrlDecode(rest)
  {
    assert (['%', hi, lo] + rest)[3..] == rest;
  }

  /** Decoding what `urlencode` wrote gives back the original bytes. */
  lemma {:induction false} UrlDecodeEncode(s: string)
    requires IsByteString(s)
    ensures UrlDecode(UrlEncode(s)) == s
  {
    if s != [] {
      UrlDecodeEncodeChar(s[0], UrlEncode(s[1..]));
      UrlDecodeEncode(s[1..]);
      assert [s[0]] + s[1..] == s;
    }
  }
}
