/**
 * The tag scanner of the webhook template engine. A substitution token is
 * written `<%NAME%>` or `<%NAME(args)%>`; the engine finds all of them with
 * one regular expression, leftmost first and without overlap. That
 * expression is written out here as a deterministic scanner (the name and the
 * argument runs are forced to be maximal, so backtracking never changes a
 * match), and the scanner is proved to find exactly the well-formed tags.
 */
module TokenScanner {
  import opened Wrappers
  import opened PhpStrings

  /** One match: where it starts, the name group and the optional argument group. */
  datatype Token = Token(start: nat, name: string, argText: Option<string>)

  /** The text of a tag with the given name and argument text. */
  function TagText(name: string, argText: Option<string>): string
  {
    "<%" + name + (match argText case Some(a) => "(" + a + ")" case None => "") + "%>"
  }

  function Tag(t: Token): string
  {
    TagText(t.name, t.argText)
  }

  /** Index just after the matched text. */
  function End(t: Token): nat
  {
    t.start + |Tag(t)|
  }

  /** A name may hold any byte except `(`, and no `%` directly followed by `>`. */
  predicate NameOk(name: string)
  {
    forall k :: 0 <= k < |name| ==>
      name[k] != '(' && !(name[k] == '%' && k + 1 < |name| && name[k + 1] == '>')
  }

  /** Argument text may hold neither `<%` nor `)%>`. */
  predicate ArgsOk(a: string)
  {
    forall k :: 0 <= k < |a| ==>
      !(a[k] == '<' && k + 1 < |a| && a[k + 1] == '%') &&
      !(a[k] == ')' && k + 2 < |a| && a[k + 1] == '%' && a[k + 2] == '>')
  }

  predicate ArgOk(argText: Option<string>)
  {
    argText.Some? ==> ArgsOk(argText.value)
  }

  /** A well-formed tag with this name and argument text starts at `i` in `s`. */
  predicate TagAt(s: string, i: nat, name: string, argText: Option<string>)
  {
    NameOk(name) && ArgOk(argText) && OccursAt(s, TagText(name, argText), i)
  }

  /** The characters of a tag, one by one. */
  predicate TagChars(s: string, i: nat, name: string, argText: Option<string>)
  {
    var p := i + 2 + |name|;
    i + |TagText(name, argText)| <= |s| &&
    s[i] == '<' && s[i + 1] == '%' &&
    (forall k :: 0 <= k < |name| ==> s[i + 2 + k] == name[k]) &&
    match argText
    case None => s[p] == '%' && s[p + 1] == '>'
    case Some(a) =>
      s[p] == '(' && (forall k :: 0 <= k < |a| ==> s[p + 1 + k] == a[k]) &&
      s[p + 1 + |a|] == ')' && s[p + 2 + |a|] == '%' && s[p + 3 + |a|] == '>'
  }

  lemma TagCharsOfTag(s: string, i: nat, name: string, argText: Option<string>)
    requires OccursAt(s, TagText(name, argText), i)
    ensures TagChars(s, i, name, argText)
  {
    var tag := TagText(name, argText);
    assert forall x :: 0 <= x < |tag| ==> s[i + x] == tag[x];
    var p := 2 + |name|;
    forall k | 0 <= k < |name|
      ensures s[i + 2 + k] == name[k]
    {
      assert tag[2 + k] == name[k];
    }
    match argText {
      case None =>
        assert tag[p] == '%' && tag[p + 1] == '>';
      case Some(a) =>
        assert tag[p] == '(';
        forall k | 0 <= k < |a|
          ensures s[i + p + 1 + k] == a[k]
        {
          assert tag[p + 1 + k] == a[k];
        }
        assert tag[p + 1 + |a|] == ')' && tag[p + 2 + |a|] == '%' && tag[p + 3 + |a|] == '>';
    }
  }

  lemma TagOfTagChars(s: string, i: nat, name: string, argText: Option<string>)
    requires TagChars(s, i, name, argText)
    ensures OccursAt(s, TagText(name, argText), i)
  {
    var tag := TagText(name, argText);
    var p := 2 + |name|;
    forall x | 0 <= x < |tag|
      ensures s[i + x] == tag[x]
    {
      if 2 <= x < p {
        assert tag[x] == name[x - 2];
      } else if x >= p {
        match argText {
          case None =>
          case Some(a) =>
            if p + 1 <= x < p + 1 + |a| {
              assert tag[x] == a[x - p - 1];
            }
        }
      }
    }
    assert s[i..i + |tag|] == tag;
  }

  // ---------------------------------------------------------------------------
  // The scanner
  // ---------------------------------------------------------------------------

  /** Where the name run stops: at `(`, at `%>`, or at the end of the text. */
  predicate NameStop(s: string, j: nat)
  {
    j >= |s| || s[j] == '(' || (s[j] == '%' && j + 1 < |s| && s[j + 1] == '>')
  }

  /** Where the argument run stops: at `<%`, at `)%>`, or at the end of the text. */
  predicate ArgsStop(s: string, j: nat)
  {
    j >= |s| || (s[j] == '<' && j + 1 < |s| && s[j + 1] == '%') || CloseAt(s, j)
  }

  /** The closing `)%>` of an argument list starts at `j`. */
  predicate CloseAt(s: string, j: nat)
  {
    j + 2 < |s| && s[j] == ')' && s[j + 1] == '%' && s[j + 2] == '>'
  }

  function NameEnd(s: string, i: nat): (r: nat)
    requires i <= |s|
    ensures i <= r <= |s| && NameStop(s, r)
    ensures forall j :: i <= j < r ==> !NameStop(s, j)
    decreases |s| - i
  {
    if NameStop(s, i) then i else NameEnd(s, i + 1)
  }

  function ArgsEnd(s: string, i: nat): (r: nat)
    requires i <= |s|
    ensures i <= r <= |s| && ArgsStop(s, r)
    ensures forall j :: i <= j < r ==> !ArgsStop(s, j)
    decreases |s| - i
  {
    if ArgsStop(s, i) then i else ArgsEnd(s, i + 1)
  }

  /** The match the regular expression makes when it is tried at `i`. */
  function MatchAt(s: string, i: nat): (r: Option<Token>)
    requires i <= |s|
    ensures r.Some? ==> r.value.start == i && End(r.value) <= |s|
  {
    if !(i + 1 < |s| && s[i] == '<' && s[i + 1] == '%') then None
    else
      var p := NameEnd(s, i + 2);
      if p < |s| && s[p] == '(' then
        var q := ArgsEnd(s, p + 1);
        if CloseAt(s, q) then Some(Token(i, s[i + 2..p], Some(s[p + 1..q]))) else None
      else if p + 1 < |s| && s[p] == '%' && s[p + 1] == '>' then Some(Token(i, s[i + 2..p], None))
      else None
  }

  /** All matches from index `i` on, leftmost first and without overlap. */
  function Scan(s: string, i: nat): (r: seq<Token>)
    requires i <= |s|
    ensures forall k :: 0 <= k < |r| ==> i <= r[k].start && End(r[k]) <= |s|
    ensures forall k :: 0 <= k < |r| - 1 ==> End(r[k]) <= r[k + 1].start
    decreases |s| - i
  {
    if i == |s| then []
    else match MatchAt(s, i)
      case None => Scan(s, i + 1)
      case Some(t) =>
        assert |Tag(t)| >= 4;
        [t] + Scan(s, End(t))
  }

  /** `preg_match_all` over the whole body. */
  function Matches(s: string): seq<Token>
  {
    Scan(s, 0)
  }

  // ---------------------------------------------------------------------------
  // Soundness and completeness
  // ---------------------------------------------------------------------------

  /** Every match the scanner makes is a well-formed tag at its start. */
  lemma MatchAtSound(s: string, i: nat)
    requires i <= |s|
    requires MatchAt(s, i).Some?
    ensures var t := MatchAt(s, i).value; TagAt(s, i, t.name, t.argText)
  {
    var t := MatchAt(s, i).value;
    var p := NameEnd(s, i + 2);
    NameRunOk(s, i + 2, p);
    if p < |s| && s[p] == '(' {
      var q := ArgsEnd(s, p + 1);
      ArgsRunOk(s, p + 1, q);
      assert t == Token(i, s[i + 2..p], Some(s[p + 1..q]));
      TagWithArgsAt(s, i, p, q);
    } else {
      assert t == Token(i, s[i + 2..p], None);
      TagWithoutArgsAt(s, i, p);
    }
  }

  /** A run of bytes where the name does not stop is a valid name. */
  lemma NameRunOk(s: string, lo: nat, hi: nat)
    requires lo <= hi <= |s|
    requires forall j :: lo <= j < hi ==> !NameStop(s, j)
    ensures NameOk(s[lo..hi])
  {
    var name := s[lo..hi];
    forall k | 0 <= k < |name|
      ensures name[k] != '(' && !(name[k] == '%' && k + 1 < |name| && name[k + 1] == '>')
    {
      assert !NameStop(s, lo + k);
    }
  }

  /** A run of bytes where the arguments do not stop is valid argument text. */
  lemma ArgsRunOk(s: string, lo: nat, hi: nat)
    requires lo <= hi <= |s|
    requires forall j :: lo <= j < hi ==> !ArgsStop(s, j)
    ensures ArgsOk(s[lo..hi])
  {
    var a := s[lo..hi];
    forall k | 0 <= k < |a|
      ensures !(a[k] == '<' && k + 1 < |a| && a[k + 1] == '%')
      ensures !(a[k] == ')' && k + 2 < |a| && a[k + 1] == '%' && a[k + 2] == '>')
    {
      assert !ArgsStop(s, lo + k);
    }
  }

  lemma TagWithArgsAt(s: string, i: nat, p: nat, q: nat)
    requires i + 2 <= p < q <= |s| && CloseAt(s, q)
    requires s[i] == '<' && s[i + 1] == '%' && s[p] == '('
    ensures OccursAt(s, TagText(s[i + 2..p], Some(s[p + 1..q])), i)
  {
    assert TagChars(s, i, s[i + 2..p], Some(s[p + 1..q]));
    TagOfTagChars(s, i, s[i + 2..p], Some(s[p + 1..q]));
  }

  lemma TagWithoutArgsAt(s: string, i: nat, p: nat)
    requires i + 2 <= p && p + 1 < |s|
    requires s[i] == '<' && s[i + 1] == '%' && s[p] == '%' && s[p + 1] == '>'
    ensures OccursAt(s, TagText(s[i + 2..p], None), i)
  {
    assert TagChars(s, i, s[i + 2..p], None);
    TagOfTagChars(s, i, s[i + 2..p], None);
  }

  lemma {:induction false} NameEndIsFirstStop(s: string, i: nat, p: nat)
    requires i <= p <= |s|
    requires NameStop(s, p)
    requires forall j :: i <= j < p ==> !NameStop(s, j)
    ensures NameEnd(s, i) == p
    decreases p - i
  {
    if i < p {
      NameEndIsFirstStop(s, i + 1, p);
    }
  }

  lemma {:induction false} ArgsEndIsFirstStop(s: string, i: nat, q: nat)
    requires i <= q <= |s|
    requires ArgsStop(s, q)
    requires forall j :: i <= j < q ==> !ArgsStop(s, j)
    ensures ArgsEnd(s, i) == q
    decreases q - i
  {
    if i < q {
      ArgsEndIsFirstStop(s, i + 1, q);
    }
  }

  /** Every well-formed tag at `i` is the match the scanner makes at `i`. */
  lemma MatchAtComplete(s: string, i: nat, name: string, argText: Option<string>)
    requires TagAt(s, i, name, argText)
    ensures i <= |s| && MatchAt(s, i) == Some(Token(i, name, argText))
  {
    TagCharsOfTag(s, i, name, argText);
    var p := i + 2 + |name|;
    NameRunEnds(s, i, name, argText);
    match argText {
      case None =>
        MatchAtWithoutArgs(s, i, p);
      case Some(a) =>
        ArgsRunEnds(s, p, a);
        MatchAtWithArgs(s, i, p, p + 1 + |a|);
    }
  }

  lemma MatchAtWithArgs(s: string, i: nat, p: nat, q: nat)
    requires i + 2 <= p < q <= |s| && s[i] == '<' && s[i + 1] == '%'
    requires NameEnd(s, i + 2) == p && s[p] == '('
    requires ArgsEnd(s, p + 1) == q && CloseAt(s, q)
    ensures MatchAt(s, i) == Some(Token(i, s[i + 2..p], Some(s[p + 1..q])))
  {
  }

  lemma MatchAtWithoutArgs(s: string, i: nat, p: nat)
    requires i + 2 <= p && p + 1 < |s| && s[i] == '<' && s[i + 1] == '%'
    requires NameEnd(s, i + 2) == p && s[p] == '%' && s[p + 1] == '>'
    ensures MatchAt(s, i) == Some(Token(i, s[i + 2..p], None))
  {
  }

  /** The name run of a tag ends right after its name. */
  lemma NameRunEnds(s: string, i: nat, name: string, argText: Option<string>)
    requires TagChars(s, i, name, argText) && NameOk(name)
    ensures NameEnd(s, i + 2) == i + 2 + |name| && s[i + 2..i + 2 + |name|] == name
  {
    var p := i + 2 + |name|;
    forall j | i + 2 <= j < p
      ensures !NameStop(s, j)
    {
      assert s[j] == name[j - i - 2];
      if j + 1 < p {
        assert s[j + 1] == name[j - i - 1];
      }
    }
    NameEndIsFirstStop(s, i + 2, p);
    assert s[i + 2..p] == name;
  }

  /** The argument run of a tag ends at its closing `)%>`. */
  lemma ArgsRunEnds(s: string, p: nat, a: string)
    requires p + 4 + |a| <= |s| && ArgsOk(a)
    requires forall k :: 0 <= k < |a| ==> s[p + 1 + k] == a[k]
    requires s[p + 1 + |a|] == ')' && s[p + 2 + |a|] == '%' && s[p + 3 + |a|] == '>'
    ensures ArgsEnd(s, p + 1) == p + 1 + |a| && s[p + 1..p + 1 + |a|] == a
  {
    var q := p + 1 + |a|;
    forall j | p + 1 <= j < q
      ensures !ArgsStop(s, j)
    {
      assert s[j] == a[j - p - 1];
      if j + 1 < q {
        assert s[j + 1] == a[j - p];
      }
      if j + 2 < q {
        assert s[j + 2] == a[j - p + 1];
      }
    }
    ArgsEndIsFirstStop(s, p + 1, q);
    assert s[p + 1..q] == a;
  }

  /** A well-formed tag at a position is unique: its name and arguments are determined. */
  lemma TagAtUnique(s: string, i: nat, n1: string, a1: Option<string>, n2: string, a2: Option<string>)
    requires TagAt(s, i, n1, a1) && TagAt(s, i, n2, a2)
    ensures n1 == n2 && a1 == a2
  {
    MatchAtComplete(s, i, n1, a1);
    MatchAtComplete(s, i, n2, a2);
  }

  /** The scanner finds a token from `i` on exactly when a well-formed tag starts there. */
  lemma {:induction false} ScanFindsTag(s: string, i: nat)
    requires i <= |s|
    ensures Scan(s, i) != [] <==>
      exists j, name, argText :: i <= j < |s| && TagAt(s, j, name, argText)
    decreases |s| - i
  {
    if i < |s| {
      match MatchAt(s, i) {
        case Some(t) =>
          MatchAtSound(s, i);
          assert TagAt(s, i, t.name, t.argText);
        case None =>
          ScanFindsTag(s, i + 1);
          if exists j, name, argText :: i <= j < |s| && TagAt(s, j, name, argText) {
            var j, name, argText :| i <= j < |s| && TagAt(s, j, name, argText);
            if j == i {
              MatchAtComplete(s, i, name, argText);
              assert false;
            }
            assert i + 1 <= j;
          }
      }
    }
  }

  /** Every token in a scan is a well-formed tag at its own start. */
  lemma {:induction false} ScanSound(s: string, i: nat)
    requires i <= |s|
    ensures forall t :: t in Scan(s, i) ==> TagAt(s, t.start, t.name, t.argText)
    decreases |s| - i
  {
    if i < |s| {
      match MatchAt(s, i) {
        case None =>
          ScanSound(s, i + 1);
        case Some(t) =>
          MatchAtSound(s, i);
          ScanSound(s, End(t));
      }
    }
  }

  /** A text without `<` holds no token. */
  lemma NoLessThanNoToken(s: string)
    requires forall k :: 0 <= k < |s| ==> s[k] != '<'
    ensures Matches(s) == []
  {
    ScanFindsTag(s, 0);
    if Matches(s) != [] {
      var j, name, argText :| 0 <= j < |s| && TagAt(s, j, name, argText);
      TagCharsOfTag(s, j, name, argText);
    }
  }

  /**
   * Argument text never contains `<%`, so a tag found by the scanner has no
   * tag inside its arguments: each pass sees only the innermost tokens.
   */
  lemma ArgsHoldNoTag(s: string, t: Token)
    requires t in Matches(s)
    requires t.argText.Some?
    ensures Matches(t.argText.value) == []
  {
    ScanSound(s, 0);
    var a := t.argText.value;
    ScanFindsTag(a, 0);
    if Matches(a) != [] {
      var j, name, argText :| 0 <= j < |a| && TagAt(a, j, name, argText);
      assert ArgsOk(a);
      TagCharsOfTag(a, j, name, argText);
    }
  }

  // ---------------------------------------------------------------------------
  // Scans of particular texts
  // ---------------------------------------------------------------------------

  /** Positions without `<` are skipped. */
  lemma {:induction false} ScanSkipsNoLess(s: string, i: nat, k: nat)
    requires i <= k <= |s|
    requires forall j :: i <= j < k ==> s[j] != '<'
    ensures Scan(s, i) == Scan(s, k)
    decreases k - i
  {
    if i < k {
      SkipOne(s, i);
      ScanSkipsNoLess(s, i + 1, k);
    }
  }

  /** No match starts at a byte other than `<`, and the scan moves on by one. */
  lemma SkipOne(s: string, i: nat)
    requires i < |s| && s[i] != '<'
    ensures MatchAt(s, i).None? && Scan(s, i) == Scan(s, i + 1)
  {
  }

  /** A well-formed tag at `i` is the next match from `i`. */
  lemma ScanAtTag(s: string, i: nat, name: string, argText: Option<string>)
    requires TagAt(s, i, name, argText)
    ensures i + |TagText(name, argText)| <= |s|
    ensures Scan(s, i) == [Token(i, name, argText)] + Scan(s, i + |TagText(name, argText)|)
  {
    MatchAtComplete(s, i, name, argText);
  }

  /** Letters, digits and `_`: the names the documented tokens use. */
  predicate PlainName(n: string)
  {
    forall i :: 0 <= i < |n| ==>
      'A' <= n[i] <= 'Z' || 'a' <= n[i] <= 'z' || '0' <= n[i] <= '9' || n[i] == '_'
  }

  /** Argument text without `<` and `)`, so that it cannot end or open a tag. */
  predicate PlainArgs(argText: Option<string>)
  {
    argText.Some? ==> forall i :: 0 <= i < |argText.value| ==>
      argText.value[i] != '<' && argText.value[i] != ')'
  }

  predicate NoLess(s: string)
  {
    forall i :: 0 <= i < |s| ==> s[i] != '<'
  }

  lemma PlainNameOk(n: string)
    requires PlainName(n)
    ensures NameOk(n)
  {
  }

  lemma PlainArgsOk(argText: Option<string>)
    requires PlainArgs(argText)
    ensures ArgOk(argText)
  {
  }

  /**
   * One well-formed tag at `i` and no other `<` anywhere: the tag is the only
   * match.
   */
  lemma OnlyTag(s: string, i: nat, name: string, argText: Option<string>)
    requires TagAt(s, i, name, argText)
    requires forall j :: 0 <= j < i ==> s[j] != '<'
    requires forall j :: i + |TagText(name, argText)| <= j < |s| ==> s[j] != '<'
    ensures Matches(s) == [Token(i, name, argText)]
  {
    ScanSkipsNoLess(s, 0, i);
    ScanAtLastTag(s, i, name, argText);
  }

  /** A well-formed tag with no `<` after it is the last match. */
  lemma ScanAtLastTag(s: string, i: nat, name: string, argText: Option<string>)
    requires TagAt(s, i, name, argText)
    requires forall j :: i + |TagText(name, argText)| <= j < |s| ==> s[j] != '<'
    ensures Scan(s, i) == [Token(i, name, argText)]
  {
    var e := i + |TagText(name, argText)|;
    ScanAtTag(s, i, name, argText);
    ScanSkipsNoLess(s, e, |s|);
    assert Scan(s, e) == [];
  }

  /** A text with one tag and no other `<` has exactly that one match. */
  lemma SingleTagMatches(a: string, name: string, argText: Option<string>, b: string)
    requires NoLess(a) && NoLess(b) && PlainName(name) && PlainArgs(argText)
    ensures Matches(a + TagText(name, argText) + b) == [Token(|a|, name, argText)]
  {
    var tag := TagText(name, argText);
    var s := a + tag + b;
    var e := |a| + |tag|;
    PlainNameOk(name);
    PlainArgsOk(argText);
    OccursInMiddle(a, tag, b);
    assert forall j :: 0 <= j < |a| ==> s[j] == a[j];
    assert forall j :: e <= j < |s| ==> s[j] == b[j - e];
    OnlyTag(s, |a|, name, argText);
  }

  /**
   * A `<%` whose name run `outer` ends at `(` directly followed by `<%` is not
   * the start of a match, and the scan resumes at that inner `<%`.
   */
  lemma OuterAttemptFails(s: string, i: nat, outer: string)
    requires PlainName(outer)
    requires i + 5 + |outer| <= |s|
    requires s[i] == '<' && s[i + 1] == '%'
    requires forall k :: 0 <= k < |outer| ==> s[i + 2 + k] == outer[k]
    requires s[i + 2 + |outer|] == '(' && s[i + 3 + |outer|] == '<' && s[i + 4 + |outer|] == '%'
    ensures Scan(s, i) == Scan(s, i + 3 + |outer|)
  {
    var p := i + 2 + |outer|;
    PlainNameRun(s, i, outer);
    OpenArgumentFails(s, i, p);
    assert Scan(s, i) == Scan(s, i + 1);
    ScanSkipsNoLess(s, i + 1, p + 1);
  }

  /** The name run over a plain name stops at the `(` after it, and holds no `<`. */
  lemma PlainNameRun(s: string, i: nat, outer: string)
    requires PlainName(outer)
    requires i + 3 + |outer| <= |s|
    requires s[i + 1] == '%'
    requires forall k :: 0 <= k < |outer| ==> s[i + 2 + k] == outer[k]
    requires s[i + 2 + |outer|] == '('
    ensures NameEnd(s, i + 2) == i + 2 + |outer|
    ensures forall j :: i + 1 <= j <= i + 2 + |outer| ==> s[j] != '<'
  {
    var p := i + 2 + |outer|;
    forall j | i + 2 <= j < p
      ensures !NameStop(s, j) && s[j] != '<'
    {
      assert s[j] == outer[j - i - 2];
    }
    NameEndIsFirstStop(s, i + 2, p);
  }

  /** A `<%` right after the `(` ends the argument run where no `)%>` stands: no match. */
  lemma OpenArgumentFails(s: string, i: nat, p: nat)
    requires i + 2 <= p && p + 2 < |s|
    requires NameEnd(s, i + 2) == p
    requires s[p] == '(' && s[p + 1] == '<' && s[p + 2] == '%'
    ensures MatchAt(s, i).None?
  {
    ArgsEndIsFirstStop(s, p + 1, p + 1);
  }

  /**
   * `<%OUTER(` at `i` followed by a well-formed inner tag, and no other `<`:
   * only the inner tag matches.
   */
  lemma OnlyInnerTag(s: string, i: nat, outer: string, inner: string)
    requires PlainName(outer)
    requires i + 3 + |outer| <= |s|
    requires forall j :: 0 <= j < i ==> s[j] != '<'
    requires s[i] == '<' && s[i + 1] == '%'
    requires forall k :: 0 <= k < |outer| ==> s[i + 2 + k] == outer[k]
    requires s[i + 2 + |outer|] == '('
    requires TagAt(s, i + 3 + |outer|, inner, None)
    requires forall j :: i + 3 + |outer| + |TagText(inner, None)| <= j < |s| ==> s[j] != '<'
    ensures Matches(s) == [Token(i + 3 + |outer|, inner, None)]
  {
    var n := i + 3 + |outer|;
    var e := n + |TagText(inner, None)|;
    assert n + 2 <= e <= |s| && s[n] == '<' && s[n + 1] == '%' by {
      TagCharsOfTag(s, n, inner, None);
    }
    assert Scan(s, 0) == Scan(s, i) by { ScanSkipsNoLess(s, 0, i); }
    assert Scan(s, i) == Scan(s, n) by { OuterAttemptFails(s, i, outer); }
    assert Scan(s, n) == [Token(n, inner, None)] by { ScanAtLastTag(s, n, inner, None); }
  }

  /** The text in front of the inner tag of a nested pair: `a<%OUTER(`. */
  function OuterHead(a: string, outer: string): string
  {
    a + "<%" + outer + "("
  }

  /** The text `a<%OUTER(<%INNER%>)%>b`. */
  function Nested(a: string, outer: string, inner: string, b: string): string
  {
    OuterHead(a, outer) + TagText(inner, None) + (")%>" + b)
  }

  /** Where the pieces of `a<%OUTER(<%INNER%>)%>b` sit. */
  lemma NestedLayout(a: string, outer: string, inner: string, b: string)
    requires NoLess(a) && NoLess(b)
    ensures var s := Nested(a, outer, inner, b);
      var n := |a| + 3 + |outer|;
      n + |TagText(inner, None)| <= |s| &&
      (forall j :: 0 <= j < |a| ==> s[j] != '<') &&
      s[|a|] == '<' && s[|a| + 1] == '%' &&
      (forall k :: 0 <= k < |outer| ==> s[|a| + 2 + k] == outer[k]) &&
      s[n - 1] == '(' &&
      OccursAt(s, TagText(inner, None), n) &&
      (forall j :: n + |TagText(inner, None)| <= j < |s| ==> s[j] != '<')
  {
    var h := OuterHead(a, outer);
    var innerTag := TagText(inner, None);
    var tail := ")%>" + b;
    HeadLayout(a, outer);
    PieceChars(h, innerTag, tail);
    OccursInMiddle(h, innerTag, tail);
    assert forall j :: 0 <= j < |tail| ==> tail[j] != '<';
  }

  /** Where the pieces of `a<%OUTER(` sit. */
  lemma HeadLayout(a: string, outer: string)
    requires NoLess(a)
    ensures var h := OuterHead(a, outer);
      |h| == |a| + 3 + |outer| &&
      (forall j :: 0 <= j < |a| ==> h[j] != '<') &&
      h[|a|] == '<' && h[|a| + 1] == '%' &&
      (forall k :: 0 <= k < |outer| ==> h[|a| + 2 + k] == outer[k]) &&
      h[|h| - 1] == '('
  {
  }

  /** The bytes of a text made of three pieces. */
  lemma PieceChars(x: string, y: string, z: string)
    ensures forall j :: 0 <= j < |x| ==> (x + y + z)[j] == x[j]
    ensures forall j :: |x| + |y| <= j < |x| + |y| + |z| ==> (x + y + z)[j] == z[j - |x| - |y|]
  {
  }

  /**
   * In `a<%OUTER(<%INNER%>)%>b` only the inner tag matches: the outer tag's
   * argument run stops at `<%`, where no `)%>` follows.
   */
  lemma NestedTagMatches(a: string, outer: string, inner: string, b: string)
    requires NoLess(a) && NoLess(b) && PlainName(outer) && PlainName(inner)
    ensures Matches(Nested(a, outer, inner, b)) == [Token(|a| + 3 + |outer|, inner, None)]
  {
    NestedLayout(a, outer, inner, b);
    PlainNameOk(inner);
    OnlyInnerTag(Nested(a, outer, inner, b), |a|, outer, inner);
  }
}
