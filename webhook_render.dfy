/**
 * The webhook template engine (`replaceWebhookFields`). Each pass scans the
 * body for tokens, resolves every match (earlier results inside its
 * arguments are put back raw), stores the result under a fresh random id and
 * replaces the tag text by that id; passes repeat until no token is left.
 * A final pass replaces each id by the escaped result. Ids hold neither `<`
 * nor `%`, so results are never scanned again and every pass removes at
 * least one `<%`.
 */
module WebhookRender {
  import opened Wrappers
  import opened PhpStrings
  import opened TokenScanner
  import opened TokenHandlers

  // ---------------------------------------------------------------------------
  // Placeholder ids and the vault
  // ---------------------------------------------------------------------------

  predicate IsBase64Char(c: char)
  {
    'A' <= c <= 'Z' || 'a' <= c <= 'z' || '0' <= c <= '9' || c == '+' || c == '/'
  }

  /** `base64_encode` of 16 random bytes: 22 alphabet characters and `==`. */
  type PlaceholderId = s: string | |s| == 24 && s[22] == '=' && s[23] == '=' &&
    forall i :: 0 <= i < 22 ==> IsBase64Char(s[i])
    witness "AAAAAAAAAAAAAAAAAAAAAA=="

  /** The random source: the id minted for the n-th token resolved in one render. */
  type IdSource = nat -> PlaceholderId

  /** One stored result: the id that stands for it in the body, and the raw text. */
  datatype Entry = Entry(id: string, value: string)

  /**
   * `$replArray[$id] = $value` on a PHP array: a new key goes to the end, an
   * existing key keeps its place and takes the new value.
   */
  function Store(vault: seq<Entry>, id: string, value: string): (r: seq<Entry>)
    ensures |r| == |vault| || |r| == |vault| + 1
    ensures (forall k :: 0 <= k < |vault| ==> vault[k].id != id) ==> r == vault + [Entry(id, value)]
  {
    if vault == [] then [Entry(id, value)]
    else if vault[0].id == id then [Entry(id, value)] + vault[1..]
    else [vault[0]] + Store(vault[1..], id, value)
  }

  /** Replace every stored id in `s` by `f` of its value, in the order the ids were stored. */
  function SubstituteAll(s: string, vault: seq<Entry>, f: string -> string): string
    decreases |vault|
  {
    if vault == [] then s else SubstituteAll(Replace(s, vault[0].id, f(vault[0].value)), vault[1..], f)
  }

  /** Values go into arguments unescaped. */
  function Raw(s: string): string
  {
    s
  }

  // ---------------------------------------------------------------------------
  // One pass, all passes, the render
  // ---------------------------------------------------------------------------

  /** The state carried between tokens: the body, the vault, the ids minted so far. */
  datatype PassState = PassState(body: string, vault: seq<Entry>, minted: nat)

  /** A non-empty argument text split at every comma; no text, no arguments. */
  function ArgList(argText: Option<string>): (r: seq<string>)
    ensures argText.None? || argText.value == "" ==> r == []
    ensures argText.Some? && argText.value != "" ==> |r| == CountChar(argText.value, ',') + 1
  {
    match argText
    case None => []
    case Some(a) => if a == "" then [] else (ExplodeShape(a); Explode(a))
  }

  /** The arguments of a token with the earlier results put back, raw. */
  function ResolvedArgs(argText: Option<string>, vault: seq<Entry>): (r: seq<string>)
    ensures |r| == |ArgList(argText)|
  {
    var args := ArgList(argText);
    seq(|args|, i requires 0 <= i < |args| => SubstituteAll(args[i], vault, Raw))
  }

  /** Resolve one match: store its value under a fresh id, put the id in place of its tag. */
  function ApplyMatch(ctx: Context, st: PassState, t: Token, ids: IdSource): (r: PassState)
    ensures r.minted == st.minted + 1
  {
    var value := Resolve(ctx, t.name, ResolvedArgs(t.argText, st.vault));
    var id := ids(st.minted);
    PassState(Replace(st.body, Tag(t), id), Store(st.vault, id, value), st.minted + 1)
  }

  /** Resolve the matches of one scan, in order. */
  function ApplyMatches(ctx: Context, st: PassState, ts: seq<Token>, ids: IdSource): (r: PassState)
    ensures r.minted == st.minted + |ts|
    decreases |ts|
  {
    if ts == [] then st else ApplyMatches(ctx, ApplyMatch(ctx, st, ts[0], ids), ts[1..], ids)
  }

  /** Scan and resolve until a scan finds nothing. */
  function RunPasses(ctx: Context, st: PassState, ids: IdSource): (r: PassState)
    ensures Matches(r.body) == []
    decreases CountOpen(st.body)
  {
    var ms := Matches(st.body);
    if ms == [] then st
    else
      PassDecreases(ctx, st, ids);
      RunPasses(ctx, ApplyMatches(ctx, st, ms, ids), ids)
  }

  /** The whole engine: all passes, then every id replaced by its escaped value. */
  function Render(ctx: Context, body: string, escape: string -> string, ids: IdSource): string
  {
    var st := RunPasses(ctx, PassState(body, [], 0), ids);
    SubstituteAll(st.body, st.vault, escape)
  }

  // ---------------------------------------------------------------------------
  // The engine as written: `$eval` carried from token to token
  // ---------------------------------------------------------------------------

  /** The loop state of the engine as written: the pass state and the `$eval` left so far. */
  datatype WrittenState = WrittenState(st: PassState, eval: bool)

  /**
   * Resolve one match as the source does: the handler sees the `$eval` the
   * tokens before it left, and leaves its own for the next one. The body
   * changes exactly as under `ApplyMatch`.
   */
  function ApplyMatchAsWritten(ctx: Context, w: WrittenState, t: Token, ids: IdSource): (r: WrittenState)
    ensures r.st.body == ApplyMatch(ctx, w.st, t, ids).body
    ensures r.st.minted == w.st.minted + 1
  {
    var args := ResolvedArgs(t.argText, w.st.vault);
    var value := TokenValueAsWritten(ctx, t.name, args, w.eval);
    var id := ids(w.st.minted);
    WrittenState(PassState(Replace(w.st.body, Tag(t), id), Store(w.st.vault, id, value), w.st.minted + 1),
                 EvalAfter(t.name, args, w.eval))
  }

  function ApplyMatchesAsWritten(ctx: Context, w: WrittenState, ts: seq<Token>, ids: IdSource): (r: WrittenState)
    ensures r.st.minted == w.st.minted + |ts|
    decreases |ts|
  {
    if ts == [] then w else ApplyMatchesAsWritten(ctx, ApplyMatchAsWritten(ctx, w, ts[0], ids), ts[1..], ids)
  }

  /** All passes as written; the body goes through the same texts as under `RunPasses`. */
  function RunPassesAsWritten(ctx: Context, w: WrittenState, ids: IdSource): (r: WrittenState)
    ensures Matches(r.st.body) == []
    decreases CountOpen(w.st.body)
  {
    var ms := Matches(w.st.body);
    if ms == [] then w
    else
      PassDecreases(ctx, w.st, ids);
      ApplyMatchesSameText(ctx, w, w.st, ms, ids);
      RunPassesAsWritten(ctx, ApplyMatchesAsWritten(ctx, w, ms, ids), ids)
  }

  /** The whole engine as written; `$eval` starts unset, which reads as false. */
  function RenderAsWritten(ctx: Context, body: string, escape: string -> string, ids: IdSource): string
  {
    var w := RunPassesAsWritten(ctx, WrittenState(PassState(body, [], 0), false), ids);
    SubstituteAll(w.st.body, w.st.vault, escape)
  }

  /** Both engines rewrite the body alike: only the stored values differ. */
  lemma {:induction false} ApplyMatchesSameText(ctx: Context, w: WrittenState, p: PassState, ts: seq<Token>, ids: IdSource)
    requires w.st.body == p.body && w.st.minted == p.minted
    ensures ApplyMatchesAsWritten(ctx, w, ts, ids).st.body == ApplyMatches(ctx, p, ts, ids).body
    decreases |ts|
  {
    if ts != [] {
      ApplyMatchesSameText(ctx, ApplyMatchAsWritten(ctx, w, ts[0], ids), ApplyMatch(ctx, p, ts[0], ids), ts[1..], ids);
    }
  }

  /**
   * Every token the passes resolve from `st` on has a name on which the
   * engine as written agrees with the intended handler.
   */
  predicate AllNamesAgree(ctx: Context, st: PassState, ids: IdSource)
    decreases CountOpen(st.body)
  {
    var ms := Matches(st.body);
    if ms == [] then true
    else
      (forall k :: 0 <= k < |ms| ==> AgreesAsWritten(ctx, ms[k].name)) &&
      (PassDecreases(ctx, st, ids);
       AllNamesAgree(ctx, ApplyMatches(ctx, st, ms, ids), ids))
  }

  lemma {:induction false} ApplyMatchesAgree(ctx: Context, w: WrittenState, ts: seq<Token>, ids: IdSource)
    requires forall k :: 0 <= k < |ts| ==> AgreesAsWritten(ctx, ts[k].name)
    ensures ApplyMatchesAsWritten(ctx, w, ts, ids).st == ApplyMatches(ctx, w.st, ts, ids)
    decreases |ts|
  {
    if ts != [] {
      var t := ts[0];
      AsWrittenAgrees(ctx, t.name, ResolvedArgs(t.argText, w.st.vault), w.eval);
      var next := ApplyMatchAsWritten(ctx, w, t, ids);
      assert next.st == ApplyMatch(ctx, w.st, t, ids);
      ApplyMatchesAgree(ctx, next, ts[1..], ids);
    }
  }

  lemma {:induction false} RunPassesAgree(ctx: Context, w: WrittenState, ids: IdSource)
    requires AllNamesAgree(ctx, w.st, ids)
    ensures RunPassesAsWritten(ctx, w, ids).st == RunPasses(ctx, w.st, ids)
    decreases CountOpen(w.st.body)
  {
    var ms := Matches(w.st.body);
    if ms != [] {
      PassDecreases(ctx, w.st, ids);
      ApplyMatchesAgree(ctx, w, ms, ids);
      RunPassesAgree(ctx, ApplyMatchesAsWritten(ctx, w, ms, ids), ids);
    }
  }

  /**
   * When every token of the render is named in upper case and no REWARD_ICON
   * meets a species list of other than one entry, the engine as written
   * renders what the intended engine does.
   */
  lemma RenderAgreesAsWritten(ctx: Context, body: string, escape: string -> string, ids: IdSource)
    requires AllNamesAgree(ctx, PassState(body, [], 0), ids)
    ensures RenderAsWritten(ctx, body, escape, ids) == Render(ctx, body, escape, ids)
  {
    RunPassesAgree(ctx, WrittenState(PassState(body, [], 0), false), ids);
  }

  // ---------------------------------------------------------------------------
  // Termination: the number of `<%` goes down with every pass
  // ---------------------------------------------------------------------------

  /** Number of places where `<%` starts. */
  function CountOpen(s: string): nat
  {
    if |s| < 2 then 0 else (if s[0] == '<' && s[1] == '%' then 1 else 0) + CountOpen(s[1..])
  }

  /** Whether `a` ends in `<` and `b` starts with `%`. */
  function Junction(a: string, b: string): nat
  {
    if |a| > 0 && |b| > 0 && a[|a| - 1] == '<' && b[0] == '%' then 1 else 0
  }

  lemma {:induction false} CountOpenConcat(a: string, b: string)
    ensures CountOpen(a + b) == CountOpen(a) + CountOpen(b) + Junction(a, b)
    decreases |a|
  {
    if |a| == 0 {
      assert a + b == b;
    } else if |a| == 1 {
      if |b| >= 1 {
        assert (a + b)[1..] == b;
      }
    } else {
      CountOpenConcat(a[1..], b);
      assert (a + b)[1..] == a[1..] + b;
    }
  }

  /** A text without `<` holds no `<%`. */
  lemma {:induction false} CountOpenNoLess(s: string)
    requires forall i :: 0 <= i < |s| ==> s[i] != '<'
    ensures CountOpen(s) == 0
    decreases |s|
  {
    if |s| >= 2 {
      CountOpenNoLess(s[1..]);
    }
  }

  /** What a tag may be replaced by: non-empty, with no `<` and no `%`. */
  predicate SafeReplacement(rep: string)
  {
    rep != [] && forall i :: 0 <= i < |rep| ==> rep[i] != '<' && rep[i] != '%'
  }

  /** Something that starts like a tag: `<%`. */
  predicate OpensTag(pat: string)
  {
    |pat| >= 2 && pat[0] == '<' && pat[1] == '%'
  }

  /** After replacing, a `%` in front is still a `%` in front. */
  lemma HeadOfReplaceFrom(s: string, pat: string, rep: string)
    requires OpensTag(pat) && SafeReplacement(rep)
    requires |ReplaceFrom(s, pat, rep)| > 0 && ReplaceFrom(s, pat, rep)[0] == '%'
    ensures |s| > 0 && s[0] == '%'
  {
  }

  /**
   * Replacing a tag-like text by a safe replacement never adds a `<%`, and
   * removes at least one when the text occurs.
   */
  lemma {:induction false} ReplaceFromCountOpen(s: string, pat: string, rep: string)
    requires OpensTag(pat) && SafeReplacement(rep)
    ensures CountOpen(ReplaceFrom(s, pat, rep)) <= CountOpen(s)
    ensures (exists i :: OccursAt(s, pat, i)) ==> CountOpen(ReplaceFrom(s, pat, rep)) < CountOpen(s)
    decreases |s|
  {
    if |s| < |pat| {
      assert forall i :: !OccursAt(s, pat, i);
    } else if s[..|pat|] == pat {
      var rest := s[|pat|..];
      ReplaceFromCountOpen(rest, pat, rep);
      assert s == pat + rest;
      CountOpenAfterMatch(pat, rest, rep, ReplaceFrom(rest, pat, rep));
    } else {
      var rest := s[1..];
      ReplaceFromCountOpen(rest, pat, rep);
      assert s == [s[0]] + rest;
      CountOpenAfterSkip(s[0], rest, pat, rep);
      if exists i :: OccursAt(s, pat, i) {
        var i :| OccursAt(s, pat, i);
        assert i != 0;
        OccursShift(s, pat, i);
      }
    }
  }

  /** A tag-like text replaced by a safe replacement takes its `<%` with it. */
  lemma CountOpenAfterMatch(pat: string, rest: string, rep: string, r: string)
    requires OpensTag(pat) && SafeReplacement(rep)
    requires CountOpen(r) <= CountOpen(rest)
    ensures CountOpen(rep + r) < CountOpen(pat + rest)
  {
    CountOpenConcat(rep, r);
    CountOpenNoLess(rep);
    assert Junction(rep, r) == 0;
    CountOpenConcat(pat, rest);
    assert CountOpen(pat) >= 1;
  }

  /** A byte kept in front adds no more `<%` to the result than to the subject. */
  lemma CountOpenAfterSkip(c: char, rest: string, pat: string, rep: string)
    requires OpensTag(pat) && SafeReplacement(rep)
    ensures var r := ReplaceFrom(rest, pat, rep);
            CountOpen([c] + r) + CountOpen(rest) <= CountOpen([c] + rest) + CountOpen(r)
  {
    var r := ReplaceFrom(rest, pat, rep);
    CountOpenConcat([c], rest);
    CountOpenConcat([c], r);
    if Junction([c], r) == 1 {
      HeadOfReplaceFrom(rest, pat, rep);
    }
  }

  /** An occurrence past the first byte is an occurrence in the tail. */
  lemma OccursShift(s: string, pat: string, i: int)
    requires OccursAt(s, pat, i) && i > 0
    ensures OccursAt(s[1..], pat, i - 1)
  {
    assert s[1..][i - 1..i - 1 + |pat|] == s[i..i + |pat|];
  }

  lemma ReplaceCountOpen(s: string, pat: string, rep: string)
    requires OpensTag(pat) && SafeReplacement(rep)
    ensures CountOpen(Replace(s, pat, rep)) <= CountOpen(s)
    ensures (exists i :: OccursAt(s, pat, i)) ==> CountOpen(Replace(s, pat, rep)) < CountOpen(s)
  {
    ReplaceFromCountOpen(s, pat, rep);
  }

  /** An id is a safe replacement. */
  lemma IdIsSafe(id: PlaceholderId)
    ensures SafeReplacement(id)
  {
    forall i | 0 <= i < |id|
      ensures id[i] != '<' && id[i] != '%'
    {
      if i < 22 {
        assert IsBase64Char(id[i]);
      }
    }
  }

  lemma TagOpens(t: Token)
    ensures OpensTag(Tag(t))
  {
  }

  /** Resolving the matches of a scan never adds a `<%`. */
  lemma {:induction false} ApplyMatchesNonIncreasing(ctx: Context, st: PassState, ts: seq<Token>, ids: IdSource)
    ensures CountOpen(ApplyMatches(ctx, st, ts, ids).body) <= CountOpen(st.body)
    decreases |ts|
  {
    if ts != [] {
      var next := ApplyMatch(ctx, st, ts[0], ids);
      TagOpens(ts[0]);
      IdIsSafe(ids(st.minted));
      ReplaceCountOpen(st.body, Tag(ts[0]), ids(st.minted));
      ApplyMatchesNonIncreasing(ctx, next, ts[1..], ids);
    }
  }

  /**
   * A pass that finds a token removes at least one `<%`: the first match is
   * still in the body when it is replaced, and nothing adds a `<%` back. So
   * the loop over passes ends after at most `CountOpen(body)` passes.
   */
  lemma PassDecreases(ctx: Context, st: PassState, ids: IdSource)
    requires Matches(st.body) != []
    ensures CountOpen(ApplyMatches(ctx, st, Matches(st.body), ids).body) < CountOpen(st.body)
  {
    var ms := Matches(st.body);
    var t := ms[0];
    ScanSound(st.body, 0);
    assert t in ms;
    assert OccursAt(st.body, Tag(t), t.start);
    var next := ApplyMatch(ctx, st, t, ids);
    TagOpens(t);
    IdIsSafe(ids(st.minted));
    ReplaceCountOpen(st.body, Tag(t), ids(st.minted));
    ApplyMatchesNonIncreasing(ctx, next, ms[1..], ids);
  }

  // ---------------------------------------------------------------------------
  // The engine as a loop
  // ---------------------------------------------------------------------------

  /** Fold-left steps of the specification functions, used by the loop invariants. */
  lemma SubstituteAllStep(s: string, vault: seq<Entry>, j: nat, f: string -> string)
    requires j < |vault|
    ensures SubstituteAll(Replace(s, vault[j].id, f(vault[j].value)), vault[j + 1..], f) ==
            SubstituteAll(s, vault[j..], f)
  {
    assert vault[j..][1..] == vault[j + 1..];
  }

  /** The `foreach ($replArray as $id => $repl)` loop: every stored id replaced in turn. */
  method SubstituteIds(text: string, vault: seq<Entry>, f: string -> string) returns (r: string)
    ensures r == SubstituteAll(text, vault, f)
  {
    r := text;
    var j := 0;
    while j < |vault|
      invariant 0 <= j <= |vault|
      invariant SubstituteAll(r, vault[j..], f) == SubstituteAll(text, vault, f)
    {
      SubstituteAllStep(r, vault, j, f);
      r := Replace(r, vault[j].id, f(vault[j].value));
      j := j + 1;
    }
  }

  /** Split the argument text and put earlier results back into each argument, raw. */
  method ResolveArguments(argText: Option<string>, vault: seq<Entry>) returns (args: seq<string>)
    ensures args == ResolvedArgs(argText, vault)
  {
    args := ArgList(argText);
    ghost var original := args;
    var i := 0;
    while i < |args|
      invariant 0 <= i <= |args| == |original|
      invariant forall m :: 0 <= m < i ==> args[m] == SubstituteAll(original[m], vault, Raw)
      invariant forall m :: i <= m < |args| ==> args[m] == original[m]
    {
      var a := SubstituteIds(args[i], vault, Raw);
      args := args[i := a];
      i := i + 1;
    }
  }

  lemma ApplyMatchesAsWrittenStep(ctx: Context, w: WrittenState, ts: seq<Token>, k: nat, ids: IdSource)
    requires k < |ts|
    ensures ApplyMatchesAsWritten(ctx, ApplyMatchAsWritten(ctx, w, ts[k], ids), ts[k + 1..], ids) ==
            ApplyMatchesAsWritten(ctx, w, ts[k..], ids)
  {
    assert ts[k..][1..] == ts[k + 1..];
  }

  /**
   * The body of the loop over matches: resolve one token with the `$eval`
   * left so far, mint its id, replace its tag.
   */
  method ResolveToken(ctx: Context, text: string, vault: seq<Entry>, minted: nat, eval: bool, t: Token, ids: IdSource)
    returns (text': string, vault': seq<Entry>, minted': nat, eval': bool)
    ensures WrittenState(PassState(text', vault', minted'), eval') ==
            ApplyMatchAsWritten(ctx, WrittenState(PassState(text, vault, minted), eval), t, ids)
  {
    var args := ResolveArguments(t.argText, vault);
    var value := TokenValueAsWritten(ctx, t.name, args, eval);
    eval' := EvalAfter(t.name, args, eval);
    var id := ids(minted);
    vault' := Store(vault, id, value);
    minted' := minted + 1;
    text' := Replace(text, Tag(t), id);
  }

  /** The `foreach ($matches as $match)` loop of one pass. */
  method ResolveMatches(ctx: Context, w: WrittenState, matches: seq<Token>, ids: IdSource)
    returns (text: string, vault: seq<Entry>, minted: nat, eval: bool)
    ensures WrittenState(PassState(text, vault, minted), eval) == ApplyMatchesAsWritten(ctx, w, matches, ids)
  {
    text, vault, minted, eval := w.st.body, w.st.vault, w.st.minted, w.eval;
    var k := 0;
    while k < |matches|
      invariant 0 <= k <= |matches|
      invariant ApplyMatchesAsWritten(ctx, WrittenState(PassState(text, vault, minted), eval), matches[k..], ids) ==
                ApplyMatchesAsWritten(ctx, w, matches, ids)
    {
      ApplyMatchesAsWrittenStep(ctx, WrittenState(PassState(text, vault, minted), eval), matches, k, ids);
      text, vault, minted, eval := ResolveToken(ctx, text, vault, minted, eval, matches[k], ids);
      k := k + 1;
    }
    assert matches[k..] == [];
  }

  /**
   * `replaceWebhookFields`: scan, resolve the matches, scan again until
   * nothing is found; then replace every id by its escaped value. `$eval`
   * lives across all tokens of the call.
   */
  method ReplaceWebhookFields(ctx: Context, body: string, escape: string -> string, ids: IdSource)
    returns (r: string)
    ensures r == RenderAsWritten(ctx, body, escape, ids)
    ensures AllNamesAgree(ctx, PassState(body, [], 0), ids) ==> r == Render(ctx, body, escape, ids)
  {
    var text := body;
    var vault: seq<Entry> := [];
    var minted: nat := 0;
    var eval := false;
    var matches := Matches(text);
    while |matches| > 0
      invariant matches == Matches(text)
      invariant RunPassesAsWritten(ctx, WrittenState(PassState(text, vault, minted), eval), ids) ==
                RunPassesAsWritten(ctx, WrittenState(PassState(body, [], 0), false), ids)
      decreases CountOpen(text)
    {
      var w := WrittenState(PassState(text, vault, minted), eval);
      PassDecreases(ctx, w.st, ids);
      ApplyMatchesSameText(ctx, w, w.st, matches, ids);
      text, vault, minted, eval := ResolveMatches(ctx, w, matches, ids);
      matches := Matches(text);
    }
    r := SubstituteIds(text, vault, escape);
    if AllNamesAgree(ctx, PassState(body, [], 0), ids) {
      RenderAgreesAsWritten(ctx, body, escape, ids);
    }
  }

  // ---------------------------------------------------------------------------
  // What the render does with particular bodies
  // ---------------------------------------------------------------------------

  predicate NoEquals(s: string)
  {
    forall i :: 0 <= i < |s| ==> s[i] != '='
  }

  /** An id holds no `<`, `)`, `%` or `,`: it never opens or closes a tag. */
  lemma IdChars(id: PlaceholderId)
    ensures NoLess(id) && PlainArgs(Some(id)) && ',' !in id
  {
    forall i | 0 <= i < |id|
      ensures id[i] != '<' && id[i] != ')' && id[i] != ','
    {
      if i < 22 {
        assert IsBase64Char(id[i]);
      }
    }
  }

  /**
   * The only `=` in `a + x + b` are the two that end `x`, so an id occurs
   * there only as `x` itself.
   */
  lemma IdOnlyAt(a: string, x: PlaceholderId, b: string, id: PlaceholderId, q: int)
    requires NoEquals(a) && NoEquals(b)
    requires OccursAt(a + x + b, id, q)
    ensures q == |a| && id == x
  {
    var s := a + x + b;
    assert s[q + 22] == id[22];
    assert s[q + 21] == id[21] && IsBase64Char(id[21]);
    assert s[|a| + 22] == x[22];
    assert q == |a|;
    assert s[|a|..|a| + 24] == x;
  }

  /** An id occurs nowhere in a text without `=`. */
  lemma NoEqualsNoId(s: string, id: PlaceholderId)
    requires NoEquals(s)
    ensures forall q :: !OccursAt(s, id, q)
  {
    forall q | 0 <= q && q + 24 <= |s|
      ensures !OccursAt(s, id, q)
    {
      assert s[q..q + 24][22] != id[22];
    }
  }

  /** Replacing an id placed between two texts without `=`. */
  lemma ReplaceId(a: string, x: PlaceholderId, b: string, rep: string)
    requires NoEquals(a) && NoEquals(b)
    ensures Replace(a + x + b, x, rep) == a + rep + b
  {
    forall q | 0 <= q < |a|
      ensures !OccursAt(a + x + b, x, q)
    {
      if OccursAt(a + x + b, x, q) {
        IdOnlyAt(a, x, b, x, q);
      }
    }
    NoEqualsNoId(b, x);
    ReplaceOnly(a, x, b, rep);
  }

  /** Replacing a different id leaves such a text alone. */
  lemma ReplaceOtherId(a: string, x: PlaceholderId, b: string, id: PlaceholderId, rep: string)
    requires NoEquals(a) && NoEquals(b) && id != x
    ensures Replace(a + x + b, id, rep) == a + x + b
  {
    forall q
      ensures !OccursAt(a + x + b, id, q)
    {
      if OccursAt(a + x + b, id, q) {
        IdOnlyAt(a, x, b, id, q);
      }
    }
    ReplaceAbsent(a + x + b, id, rep);
  }

  /** Replacing a tag placed between two texts without `<`. */
  lemma ReplaceTag(a: string, tag: string, b: string, rep: string)
    requires NoLess(a) && NoLess(b) && |tag| > 0 && tag[0] == '<'
    ensures Replace(a + tag + b, tag, rep) == a + rep + b
  {
    var s := a + tag + b;
    forall q | 0 <= q < |a|
      ensures !OccursAt(s, tag, q)
    {
      assert s[q] == a[q];
    }
    ReplaceOnly(a, tag, b, rep);
  }

  /** With nothing stored yet, the arguments are the split argument text. */
  lemma ResolvedArgsEmptyVault(argText: Option<string>)
    ensures ResolvedArgs(argText, []) == ArgList(argText)
  {
  }

  /** An argument that is an id comes back as the value stored under it. */
  lemma ResolvedArgsOfId(id: PlaceholderId, v: string)
    ensures ResolvedArgs(Some(id), [Entry(id, v)]) == [v]
  {
    IdChars(id);
    ExplodeNoComma(id);
    assert ArgList(Some(id)) == [id];
    ReplaceWhole(id, v);
    assert SubstituteAll(id, [Entry(id, v)], Raw) == SubstituteAll(v, [], Raw);
  }

  /** A body without tokens ends the passes. */
  lemma PassesDone(ctx: Context, st: PassState, ids: IdSource)
    requires Matches(st.body) == []
    ensures RunPasses(ctx, st, ids) == st
  {
  }

  /** A body with one token takes one pass for it. */
  lemma PassOfOne(ctx: Context, st: PassState, t: Token, ids: IdSource)
    requires Matches(st.body) == [t]
    ensures RunPasses(ctx, st, ids) == RunPasses(ctx, ApplyMatch(ctx, st, t, ids), ids)
  {
    assert ApplyMatches(ctx, st, [t], ids) == ApplyMatches(ctx, ApplyMatch(ctx, st, t, ids), [], ids);
  }

  /** A body without tokens comes out of the engine unchanged. */
  lemma NoTokenUnchanged(ctx: Context, body: string, escape: string -> string, ids: IdSource)
    requires Matches(body) == []
    ensures Render(ctx, body, escape, ids) == body
  {
    PassesDone(ctx, PassState(body, [], 0), ids);
  }

  /** The render is the final substitution over the state the passes end in. */
  lemma RenderOfPasses(ctx: Context, body: string, escape: string -> string, ids: IdSource, st: PassState)
    requires RunPasses(ctx, PassState(body, [], 0), ids) == st
    ensures Render(ctx, body, escape, ids) == SubstituteAll(st.body, st.vault, escape)
  {
  }

  lemma SubstituteOne(s: string, e: Entry, f: string -> string)
    ensures SubstituteAll(s, [e], f) == Replace(s, e.id, f(e.value))
  {
    assert [e][1..] == [];
  }

  lemma SubstituteTwo(s: string, e0: Entry, e1: Entry, f: string -> string)
    ensures SubstituteAll(s, [e0, e1], f) == Replace(Replace(s, e0.id, f(e0.value)), e1.id, f(e1.value))
  {
    assert [e0, e1][1..] == [e1];
    SubstituteOne(Replace(s, e0.id, f(e0.value)), e1, f);
  }

  /** Resolving the one match of a body, when that leaves no `<`. */
  lemma OnePassRender(ctx: Context, body: string, t: Token, escape: string -> string, ids: IdSource)
    requires Matches(body) == [t]
    requires NoLess(Replace(body, Tag(t), ids(0)))
    ensures Render(ctx, body, escape, ids) ==
            Replace(Replace(body, Tag(t), ids(0)), ids(0), escape(Resolve(ctx, t.name, ResolvedArgs(t.argText, []))))
  {
    var st0 := PassState(body, [], 0);
    var st1 := ApplyMatch(ctx, st0, t, ids);
    PassOfOne(ctx, st0, t, ids);
    NoLessThanNoToken(st1.body);
    PassesDone(ctx, st1, ids);
    RenderOfPasses(ctx, body, escape, ids, st1);
    SubstituteOne(st1.body, st1.vault[0], escape);
  }

  /** Resolving one match, then the one match the first left, when that leaves no `<`. */
  lemma TwoPassRender(ctx: Context, body: string, t0: Token, t1: Token, escape: string -> string, ids: IdSource)
    requires Matches(body) == [t0]
    requires Matches(Replace(body, Tag(t0), ids(0))) == [t1]
    requires NoLess(Replace(Replace(body, Tag(t0), ids(0)), Tag(t1), ids(1)))
    requires ids(0) != ids(1)
    ensures var v0 := Resolve(ctx, t0.name, ResolvedArgs(t0.argText, []));
      var v1 := Resolve(ctx, t1.name, ResolvedArgs(t1.argText, [Entry(ids(0), v0)]));
      Render(ctx, body, escape, ids) ==
      Replace(Replace(Replace(Replace(body, Tag(t0), ids(0)), Tag(t1), ids(1)), ids(0), escape(v0)), ids(1), escape(v1))
  {
    var st0 := PassState(body, [], 0);
    var st1 := ApplyMatch(ctx, st0, t0, ids);
    var st2 := ApplyMatch(ctx, st1, t1, ids);
    PassOfOne(ctx, st0, t0, ids);
    PassOfOne(ctx, st1, t1, ids);
    NoLessThanNoToken(st2.body);
    PassesDone(ctx, st2, ids);
    RenderOfPasses(ctx, body, escape, ids, st2);
    assert st2.vault == [st1.vault[0], Entry(ids(1), st2.vault[1].value)];
    SubstituteTwo(st2.body, st2.vault[0], st2.vault[1], escape);
  }

  /**
   * One token between two texts without `<` or `=`: the token is replaced by
   * its escaped value and the texts around it are kept as they are.
   */
  lemma SingleTokenRender(ctx: Context, a: string, name: string, argText: Option<string>, b: string,
                          escape: string -> string, ids: IdSource)
    requires NoLess(a) && NoLess(b) && NoEquals(a) && NoEquals(b)
    requires PlainName(name) && PlainArgs(argText)
    ensures Render(ctx, a + TagText(name, argText) + b, escape, ids) ==
            a + escape(Resolve(ctx, name, ArgList(argText))) + b
  {
    var tag := TagText(name, argText);
    var id := ids(0);
    SingleTagMatches(a, name, argText, b);
    ReplaceTag(a, tag, b, id);
    IdChars(id);
    assert NoLess(a + id + b);
    ResolvedArgsEmptyVault(argText);
    OnePassRender(ctx, a + tag + b, Token(|a|, name, argText), escape, ids);
    ReplaceId(a, id, b, escape(Resolve(ctx, name, ArgList(argText))));
  }

  lemma PassOfOneAsWritten(ctx: Context, w: WrittenState, t: Token, ids: IdSource)
    requires Matches(w.st.body) == [t]
    ensures RunPassesAsWritten(ctx, w, ids) == RunPassesAsWritten(ctx, ApplyMatchAsWritten(ctx, w, t, ids), ids)
  {
    assert ApplyMatchesAsWritten(ctx, w, [t], ids) ==
           ApplyMatchesAsWritten(ctx, ApplyMatchAsWritten(ctx, w, t, ids), [], ids);
  }

  /** One token between two texts without `<` or `=`, in the engine as written. */
  lemma SingleTokenRenderAsWritten(ctx: Context, a: string, name: string, argText: Option<string>, b: string,
                                   escape: string -> string, ids: IdSource)
    requires NoLess(a) && NoLess(b) && NoEquals(a) && NoEquals(b)
    requires PlainName(name) && PlainArgs(argText)
    ensures RenderAsWritten(ctx, a + TagText(name, argText) + b, escape, ids) ==
            a + escape(TokenValueAsWritten(ctx, name, ArgList(argText), false)) + b
  {
    var tag := TagText(name, argText);
    var id := ids(0);
    var w0 := WrittenState(PassState(a + tag + b, [], 0), false);
    var t := Token(|a|, name, argText);
    SingleTagMatches(a, name, argText, b);
    ReplaceTag(a, tag, b, id);
    IdChars(id);
    assert NoLess(a + id + b);
    ResolvedArgsEmptyVault(argText);
    var w1 := ApplyMatchAsWritten(ctx, w0, t, ids);
    PassOfOneAsWritten(ctx, w0, t, ids);
    NoLessThanNoToken(w1.st.body);
    var v := TokenValueAsWritten(ctx, name, ArgList(argText), false);
    assert w1.st.vault == [Entry(id, v)];
    SubstituteOne(w1.st.body, w1.st.vault[0], escape);
    ReplaceId(a, id, b, escape(v));
  }

  /**
   * A lower-case `if_empty` as the first token of a body: as written it
   * answers with the `$eval` no token has set yet (false), so it shows its
   * second output whatever it tests; as intended it tests its expression.
   */
  lemma LowerCaseIfEmptyFirst(ctx: Context, a: string, name: string, e: string, x: string, y: string, b: string,
                              escape: string -> string, ids: IdSource)
    requires NoLess(a) && NoLess(b) && NoEquals(a) && NoEquals(b)
    requires PlainName(name) && Upper(name) == "IF_EMPTY" && name != "IF_EMPTY"
    requires ',' !in e && ',' !in x && ',' !in y && PlainArgs(Some(e + "," + x + "," + y))
    ensures RenderAsWritten(ctx, a + TagText(name, Some(e + "," + x + "," + y)) + b, escape, ids) ==
            a + escape(y) + b
    ensures Render(ctx, a + TagText(name, Some(e + "," + x + "," + y)) + b, escape, ids) ==
            a + escape(if e == "" then x else y) + b
  {
    var argText := Some(e + "," + x + "," + y);
    ArgListOfThree(e, x, y);
    LowerCaseIfEmpty(ctx, name, e, x, y, false);
    SingleTokenRenderAsWritten(ctx, a, name, argText, b, escape, ids);
    SingleTokenRender(ctx, a, name, argText, b, escape, ids);
  }

  /**
   * An IF_EMPTY whose test holds leaves `$eval` true, and a lower-case
   * `if_empty` resolved after it in the same render shows its first output
   * whatever its own expression is.
   */
  lemma EvalCarriesToNextToken(ctx: Context, w: WrittenState, t0: Token, t1: Token, ids: IdSource)
    requires t0.name == "IF_EMPTY"
    requires var args0 := ResolvedArgs(t0.argText, w.st.vault); |args0| >= 2 && args0[0] == ""
    requires Upper(t1.name) == "IF_EMPTY" && t1.name != "IF_EMPTY"
    ensures var w1 := ApplyMatchAsWritten(ctx, w, t0, ids);
      var args1 := ResolvedArgs(t1.argText, w1.st.vault);
      w1.eval && (|args1| == 3 ==> TokenValueAsWritten(ctx, t1.name, args1, w1.eval) == args1[1])
  {
    var args0 := ResolvedArgs(t0.argText, w.st.vault);
    var w1 := ApplyMatchAsWritten(ctx, w, t0, ids);
    assert w1.eval == EvalAfter(t0.name, args0, w.eval);
    IfEmptySetsEval(args0, w.eval);
    var args1 := ResolvedArgs(t1.argText, w1.st.vault);
    if |args1| == 3 {
      LowerCaseIfEmptyLeaked(ctx, t1.name, args1);
    }
  }

  lemma IfEmptySetsEval(args: seq<string>, leaked: bool)
    requires |args| >= 2 && args[0] == ""
    ensures EvalAfter("IF_EMPTY", args, leaked)
  {
    IfEmptyName();
    assert Upper("IF_EMPTY") == "IF_EMPTY";
  }

  lemma LowerCaseIfEmptyLeaked(ctx: Context, name: string, args: seq<string>)
    requires Upper(name) == "IF_EMPTY" && name != "IF_EMPTY" && |args| == 3
    ensures TokenValueAsWritten(ctx, name, args, true) == args[1]
  {
    LowerCaseIfEmpty(ctx, name, args[0], args[1], args[2], true);
    assert args == [args[0], args[1], args[2]];
  }

  lemma ArgListOfThree(e: string, x: string, y: string)
    requires ',' !in e && ',' !in x && ',' !in y
    ensures ArgList(Some(e + "," + x + "," + y)) == [e, x, y]
  {
    ExplodeNoComma(y);
    ExplodeConcat(x, y);
    ExplodeConcat(e, x + "," + y);
    assert e + "," + (x + "," + y) == e + "," + x + "," + y;
  }

  /** `<%OUTER(` at `i` is not the start of a plain tag without arguments. */
  lemma NoTagAtOuterHead(s: string, i: nat, outer: string, inner: string)
    requires PlainName(outer) && PlainName(inner)
    requires i + 3 + |outer| <= |s|
    requires forall k :: 0 <= k < |outer| ==> s[i + 2 + k] == outer[k]
    requires s[i + 2 + |outer|] == '('
    ensures !OccursAt(s, TagText(inner, None), i)
  {
    var tag := TagText(inner, None);
    var n := |tag|;
    if i + n <= |s| {
      if n > 2 + |outer| {
        if 2 + |outer| < 2 + |inner| {
          assert tag[2 + |outer|] == inner[|outer|];
        }
        assert s[i..i + n][2 + |outer|] != tag[2 + |outer|];
      } else {
        assert s[i + n - 1] == outer[n - 3];
        assert s[i..i + n][n - 1] != tag[n - 1];
      }
    }
  }

  /** Before the inner tag of a nested pair, the inner tag's text does not occur. */
  lemma NoInnerTagBefore(s: string, i: nat, outer: string, inner: string)
    requires PlainName(outer) && PlainName(inner)
    requires i + 3 + |outer| <= |s|
    requires forall j :: 0 <= j < i ==> s[j] != '<'
    requires s[i + 1] == '%'
    requires forall k :: 0 <= k < |outer| ==> s[i + 2 + k] == outer[k]
    requires s[i + 2 + |outer|] == '('
    ensures forall q :: 0 <= q < i + 3 + |outer| ==> !OccursAt(s, TagText(inner, None), q)
  {
    var tag := TagText(inner, None);
    NoTagAtOuterHead(s, i, outer, inner);
    forall q | 0 <= q < i + 3 + |outer| && q != i
      ensures !OccursAt(s, tag, q)
    {
      if i + 2 <= q < i + 2 + |outer| {
        assert s[q] == outer[q - i - 2];
      }
      assert s[q] != tag[0];
    }
  }

  /** The inner tag of a nested pair is replaced where it stands. */
  lemma ReplaceInnerTag(a: string, outer: string, inner: string, b: string, rep: string)
    requires NoLess(a) && NoLess(b) && PlainName(outer) && PlainName(inner)
    ensures Replace(Nested(a, outer, inner, b), TagText(inner, None), rep) ==
            OuterHead(a, outer) + rep + (")%>" + b)
  {
    var tag := TagText(inner, None);
    var tail := ")%>" + b;
    NestedLayout(a, outer, inner, b);
    NoInnerTagBefore(Nested(a, outer, inner, b), |a|, outer, inner);
    assert |OuterHead(a, outer)| == |a| + 3 + |outer|;
    assert NoLess(tail);
    forall q | 0 <= q < |tail|
      ensures !OccursAt(tail, tag, q)
    {
      assert tail[q] != tag[0];
    }
    ReplaceOnly(OuterHead(a, outer), tag, tail, rep);
  }

  /** Once the inner tag is an id, the outer tag is a tag with that id as argument. */
  lemma OuterTagAround(a: string, outer: string, id: string, b: string)
    ensures OuterHead(a, outer) + id + (")%>" + b) == a + TagText(outer, Some(id)) + b
  {
    calc {
      OuterHead(a, outer) + id + (")%>" + b);
      a + ("<%" + outer + ("(" + id + ")") + "%>") + b;
      a + TagText(outer, Some(id)) + b;
    }
  }

  /**
   * A token inside the arguments of another: the inner one is resolved
   * first, its value is handed raw to the outer one as its argument, and
   * only the outer value is escaped into the output.
   */
  lemma NestedTokenRender(ctx: Context, a: string, outer: string, inner: string, b: string,
                          escape: string -> string, ids: IdSource)
    requires NoLess(a) && NoLess(b) && NoEquals(a) && NoEquals(b)
    requires PlainName(outer) && PlainName(inner)
    requires ids(0) != ids(1)
    ensures Render(ctx, Nested(a, outer, inner, b), escape, ids) ==
            a + escape(Resolve(ctx, outer, [Resolve(ctx, inner, [])])) + b
  {
    var id0, id1 := ids(0), ids(1);
    var v0 := Resolve(ctx, inner, []);
    var v1 := Resolve(ctx, outer, [v0]);
    var body := Nested(a, outer, inner, b);
    var t0 := Token(|a| + 3 + |outer|, inner, None);
    var t1 := Token(|a|, outer, Some(id0));
    // The inner token goes first and leaves its id as the outer argument.
    NestedTagMatches(a, outer, inner, b);
    ReplaceInnerTag(a, outer, inner, b, id0);
    OuterTagAround(a, outer, id0, b);
    var body1 := a + TagText(outer, Some(id0)) + b;
    IdChars(id0);
    SingleTagMatches(a, outer, Some(id0), b);
    // The outer token takes the inner value as its argument.
    ReplaceTag(a, TagText(outer, Some(id0)), b, id1);
    IdChars(id1);
    assert NoLess(a + id1 + b);
    ResolvedArgsEmptyVault(None);
    ResolvedArgsOfId(id0, v0);
    TwoPassRender(ctx, body, t0, t1, escape, ids);
    // The ids go back in vault order; only the outer one is still there.
    ReplaceOtherId(a, id1, b, id0, escape(v0));
    ReplaceId(a, id1, b, escape(v1));
  }
}
