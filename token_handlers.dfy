/**
 * The substitution-token handlers of the webhook template engine: given a
 * token name and its (already resolved) arguments, the text the token stands
 * for. Everything the handlers read from outside the engine (POI data, the
 * reporting user, translations, the clock, themes, configuration) arrives in
 * a `Context`; calls into code that is not part of this model are function
 * fields of it.
 */
module TokenHandlers {
  import opened Wrappers
  import opened PhpStrings
  import opened PhpNumbers

  /** A research parameter: a scalar or a list of values. */
  datatype ParamValue = Scalar(text: string) | List(items: seq<string>)

  /** An objective or reward: its type and its parameters. */
  datatype Descriptor = Descriptor(kind: string, params: map<string, ParamValue>)

  /** What the handlers read about the reported POI. */
  datatype PoiData = PoiData(
    name: string,
    latText: string,            // the latitude as PHP prints it
    lngText: string,            // the longitude as PHP prints it
    objective: Descriptor,
    reward: Descriptor)

  datatype Context = Context(
    poi: PoiData,
    reporter: string,                          // nickname of the reporting user
    objectiveText: string,                     // localized objective sentence
    rewardText: string,                        // localized reward sentence
    locationString: Option<int> -> string,     // coordinates, optionally with a precision
    i18nResolve: string -> string,             // translation of one key
    i18nResolveArgs: seq<string> -> string,    // translation of a key with arguments
    navProviders: map<string, string>,         // navigation provider -> URL template
    defaultNavProvider: string,
    siteUrl: string,
    formatTime: string -> string,              // date(format, time of the report)
    themeIcon: (string, string, string) -> string,   // (format, variant, icon) -> URL
    speciesIcon: (string, string, string) -> string, // (format, variant, species) -> URL
    useSpecies: bool)

  // ---------------------------------------------------------------------------
  // Handler names
  // ---------------------------------------------------------------------------

  /** The cases of the handler switch; names sharing a case share a constructor. */
  datatype Handler =
    | CoordsToken | FallbackToken | EmptyTestToken | CompareToken | I18nToken
    | LatToken | LengthToken | LngToken | LowercaseToken | NavUrlToken
    | ObjectiveToken | PadToken | PoiToken | ReporterToken | RewardToken
    | SiteUrlToken | SubstringToken | TimeToken | UppercaseToken | IconToken
    | ParameterToken | ParameterCountToken | UnknownToken

  /** The case the switch selects for an (upper-cased) token name. */
  function HandlerOf(key: string): Handler
  {
    if key == "COORDS" then CoordsToken
    else if key == "FALLBACK" then FallbackToken
    else if key == "IF_EMPTY" || key == "IF_NOT_EMPTY" then EmptyTestToken
    else if key == "IF_EQUAL" || key == "IF_NOT_EQUAL" || key == "IF_LESS_THAN" ||
            key == "IF_LESS_OR_EQUAL" || key == "IF_GREATER_THAN" ||
            key == "IF_GREATER_OR_EQUAL" then CompareToken
    else if key == "I18N" then I18nToken
    else if key == "LAT" then LatToken
    else if key == "LENGTH" then LengthToken
    else if key == "LNG" then LngToken
    else if key == "LOWERCASE" then LowercaseToken
    else if key == "NAVURL" then NavUrlToken
    else if key == "OBJECTIVE" then ObjectiveToken
    else if key == "PAD_LEFT" || key == "PAD_RIGHT" then PadToken
    else if key == "POI" then PoiToken
    else if key == "REPORTER" then ReporterToken
    else if key == "REWARD" then RewardToken
    else if key == "SITEURL" then SiteUrlToken
    else if key == "SUBSTRING" then SubstringToken
    else if key == "TIME" then TimeToken
    else if key == "UPPERCASE" then UppercaseToken
    else if key == "OBJECTIVE_ICON" || key == "REWARD_ICON" then IconToken
    else if key == "OBJECTIVE_PARAMETER" || key == "REWARD_PARAMETER" then ParameterToken
    else if key == "OBJECTIVE_PARAMETER_COUNT" || key == "REWARD_PARAMETER_COUNT" then ParameterCountToken
    else UnknownToken
  }

  /** The fewest arguments with which a handler produces anything. */
  function MinArgs(h: Handler): nat
  {
    match h
    case CompareToken => 3
    case FallbackToken | EmptyTestToken | PadToken | SubstringToken | IconToken => 2
    case I18nToken | LengthToken | LowercaseToken | UppercaseToken | TimeToken
       | ParameterToken | ParameterCountToken => 1
    case _ => 0
  }

  // ---------------------------------------------------------------------------
  // Individual handlers
  // ---------------------------------------------------------------------------

  /** FALLBACK(expr,fallback): `expr` unless it is empty. */
  function Fallback(args: seq<string>): (r: string)
    ensures |args| < 2 ==> r == ""
    ensures |args| >= 2 ==> (r == args[0] || r == args[1])
    ensures |args| >= 2 && args[0] != "" ==> r == args[0]
    ensures |args| >= 2 ==> (r == "" <==> args[0] == "" && args[1] == "")
  {
    if |args| < 2 then "" else if args[0] != "" then args[0] else args[1]
  }

  /**
   * The output of a conditional token once its test is known: the argument
   * after the operands when the test holds, else the one after that, or ""
   * when it is missing. `operands` is 1 for IF_EMPTY and 2 for IF_EQUAL.
   */
  function Choose(test: bool, args: seq<string>, operands: nat): (r: string)
    requires |args| > operands
    ensures test ==> r == args[operands]
    ensures !test && |args| > operands + 1 ==> r == args[operands + 1]
    ensures !test && |args| == operands + 1 ==> r == ""
  {
    if test then args[operands]
    else if |args| > operands + 1 then args[operands + 1] else ""
  }

  /**
   * The test of IF_EMPTY/IF_NOT_EMPTY, dispatched on `inner`. A name that is
   * neither reuses `leaked`, the value left by an earlier conditional token.
   */
  function EmptyTest(inner: string, expr: string, leaked: bool): bool
  {
    if inner == "IF_EMPTY" then expr == ""
    else if inner == "IF_NOT_EMPTY" then expr != ""
    else leaked
  }

  /** The test of the IF_EQUAL family, dispatched on `inner` the same way. */
  function CompareTest(inner: string, expr: string, value: string, leaked: bool): bool
  {
    var x := FloatVal(expr);
    var y := FloatVal(value);
    if inner == "IF_EQUAL" then LooseEquals(expr, value)
    else if inner == "IF_NOT_EQUAL" then !LooseEquals(expr, value)
    else if inner == "IF_LESS_THAN" then DecLess(x, y)
    else if inner == "IF_LESS_OR_EQUAL" then !DecLess(y, x)
    else if inner == "IF_GREATER_THAN" then DecLess(y, x)
    else if inner == "IF_GREATER_OR_EQUAL" then !DecLess(x, y)
    else leaked
  }

  /** `n` characters taken from `pad` over and over, starting at its first. */
  function PadRun(pad: string, n: nat): (r: string)
    requires pad != []
    ensures |r| == n
    ensures forall i :: 0 <= i < n ==> r[i] == pad[i % |pad|]
  {
    if n == 0 then [] else PadRun(pad, n - 1) + [pad[(n - 1) % |pad|]]
  }

  /** PHP 7's `str_pad` refuses to add `INT_MAX` (2^31 - 1) bytes or more. */
  const PadLimit: int := 0x7FFF_FFFF

  /**
   * `str_pad`: nothing to do when the target length is not above the
   * length of `s`; an empty pad string or a padding of `PadLimit` bytes or
   * more is an error (NULL, printed as ""); otherwise `s` filled up to
   * `length` on the left or on the right.
   */
  function StrPad(s: string, length: int, pad: string, left: bool): (r: string)
    ensures length <= |s| ==> r == s
    ensures length > |s| && pad == [] ==> r == ""
    ensures length - |s| >= PadLimit ==> r == ""
    ensures |s| < length < |s| + PadLimit && pad != [] ==>
      |r| == length &&
      (left ==> r[length - |s|..] == s &&
                forall i :: 0 <= i < length - |s| ==> r[i] == pad[i % |pad|]) &&
      (!left ==> r[..|s|] == s &&
                 forall i :: |s| <= i < length ==> r[i] == pad[(i - |s|) % |pad|])
  {
    if length <= |s| then s
    else if pad == [] then ""
    else if length - |s| >= PadLimit then ""
    else if left then PadRun(pad, length - |s|) + s
    else s + PadRun(pad, length - |s|)
  }

  function MinInt(a: int, b: int): int
  {
    if a <= b then a else b
  }

  /**
   * The byte range `substr($s, $f[, $l])` returns for a string of length
   * `len`, or `None` where it returns FALSE.
   */
  function SubstrRange(len: nat, f: int, l: Option<int>): (r: Option<(nat, nat)>)
    ensures r.Some? ==> r.value.0 <= r.value.1 <= len
    ensures f > len ==> r.None?
    ensures 0 <= f <= len && l.None? ==> r == Some((f as nat, len))
    ensures -(len as int) <= f < 0 && l.None? ==> r == Some(((len + f) as nat, len))
    ensures f < -(len as int) && l.None? ==> r == Some((0, len))
    ensures 0 <= f <= len && l.Some? && l.value >= 0 ==>
      r == Some((f as nat, MinInt(f + l.value, len) as nat))
    ensures 0 <= f <= len && l.Some? && -(len as int) <= l.value < 0 ==>
      r == (if f <= len + l.value then Some((f as nat, (len + l.value) as nat)) else None)
    ensures l.Some? && l.value < -(len as int) ==> r.None?
  {
    var n: int := len;
    if l.Some? && l.value < 0 && -l.value > n then None
    else
      var l1: int := if l.None? then n else if l.value > n then n else l.value;
      if f > n then None
      else
        var f1: int := if f < 0 && -f > n then 0 else f;
        if l1 < 0 && l1 + n - f1 < 0 then None
        else
          var f2: int := if f1 < 0 then n + f1 else f1;
          var l2: int := if l1 < 0 then (if (n - f2) + l1 < 0 then 0 else (n - f2) + l1) else l1;
          var l3: int := if f2 + l2 > n then n - f2 else l2;
          Some((f2 as nat, (f2 + l3) as nat))
  }

  /** `substr`, with FALSE turned into "" as the SUBSTRING token does. */
  function Substr(s: string, f: int, l: Option<int>): (r: string)
    ensures |r| <= |s|
    ensures f > |s| ==> r == ""
    ensures match SubstrRange(|s|, f, l)
            case Some(range) => r == s[range.0..range.1]
            case None => r == ""
  {
    match SubstrRange(|s|, f, l)
    case Some(range) => s[range.0..range.1]
    case None => ""
  }

  /** OBJECTIVE_PARAMETER / REWARD_PARAMETER on the chosen parameter map. */
  function ParameterValue(params: map<string, ParamValue>, args: seq<string>): (r: string)
    ensures |args| < 1 || args[0] !in params ==> r == ""
    ensures |args| >= 1 && args[0] in params && params[args[0]].Scalar? ==>
      r == params[args[0]].text
    ensures |args| == 1 && args[0] in params && params[args[0]].List? ==>
      r == Implode(params[args[0]].items)
    ensures |args| >= 2 && args[0] in params && params[args[0]].List? ==>
      var xs := params[args[0]].items;
      var i := IntVal(args[1]);
      r == (if 1 <= i <= |xs| then xs[i - 1] else "")
  {
    if |args| < 1 || args[0] !in params then ""
    else match params[args[0]]
      case Scalar(v) => v
      case List(xs) =>
        if |args| >= 2 then
          var index := IntVal(args[1]) - 1;
          if 0 <= index < |xs| then xs[index] else ""
        else Implode(xs)
  }

  /** How many values a parameter holds: 0 when missing, 1 for a scalar. */
  function ParamCount(params: map<string, ParamValue>, key: string): nat
  {
    if key !in params then 0
    else match params[key]
      case Scalar(_) => 1
      case List(xs) => |xs|
  }

  /** OBJECTIVE_PARAMETER_COUNT / REWARD_PARAMETER_COUNT, as decimal text. */
  function ParameterCount(params: map<string, ParamValue>, args: seq<string>): (r: string)
    ensures |args| < 1 ==> r == ""
    ensures |args| >= 1 ==> r == NatToString(ParamCount(params, args[0]))
  {
    if |args| < 1 then "" else NatToString(ParamCount(params, args[0]))
  }

  /** LENGTH: the byte count of the first argument, as decimal text. */
  function Length(args: seq<string>): (r: string)
    ensures |args| < 1 ==> r == ""
    ensures |args| >= 1 ==> r == NatToString(|args[0]|)
  {
    if |args| < 1 then "" else NatToString(|args[0]|)
  }

  const NamePlaceholder := "{%NAME%}"
  const LonPlaceholder := "{%LON%}"
  const LatPlaceholder := "{%LAT%}"

  /** A provider's URL template with the POI's name and coordinates filled in. */
  function FillNavTemplate(poi: PoiData, template: string): string
  {
    Replace(Replace(Replace(template, NamePlaceholder, UrlEncode(poi.name)),
                    LonPlaceholder, UrlEncode(poi.lngText)),
            LatPlaceholder, UrlEncode(poi.latText))
  }

  /** NAVURL([provider]): the filled template of the named or default provider. */
  function NavUrl(ctx: Context, args: seq<string>): (r: string)
    ensures var p := if |args| > 0 then args[0] else ctx.defaultNavProvider;
      r == (if p in ctx.navProviders then FillNavTemplate(ctx.poi, ctx.navProviders[p]) else "")
  {
    var provider := if |args| > 0 then args[0] else ctx.defaultNavProvider;
    if provider in ctx.navProviders then FillNavTemplate(ctx.poi, ctx.navProviders[provider]) else ""
  }

  predicate NoBrace(s: string)
  {
    forall i :: 0 <= i < |s| ==> s[i] != '{'
  }

  /** `urlencode` never writes a `{`. */
  lemma UrlEncodeNoBrace(s: string)
    ensures NoBrace(UrlEncode(s))
  {
  }

  /**
   * In `p0{%LAT%}p1{%LON%}p2`, with no other `{`, the only places where a
   * placeholder could start are the two braces, and each holds a different one.
   */
  lemma LatLonTemplateShape(t: string, i: nat, j: nat)
    requires i + 7 <= j && j + 7 <= |t|
    requires t[i..i + 7] == LatPlaceholder && t[j..j + 7] == LonPlaceholder
    requires forall q :: 0 <= q < |t| && q != i && q != j ==> t[q] != '{'
    ensures forall q :: !OccursAt(t, NamePlaceholder, q)
    ensures forall q :: 0 <= q < j ==> !OccursAt(t, LonPlaceholder, q)
  {
    assert t[i + 2] == 'L' && t[j + 2] == 'L' && t[i + 3] == 'A';
    forall q | 0 <= q && q + 8 <= |t|
      ensures !OccursAt(t, NamePlaceholder, q)
    {
      assert t[q..q + 8][0] == t[q] && t[q..q + 8][2] == t[q + 2];
    }
    forall q | 0 <= q < j && q + 7 <= |t|
      ensures !OccursAt(t, LonPlaceholder, q)
    {
      assert t[q..q + 7][0] == t[q] && t[q..q + 7][3] == t[q + 3];
    }
  }

  /** Where the braces of `p0{%LAT%}p1{%LON%}p2` are. */
  lemma LatLonTemplateChars(p0: string, p1: string, p2: string)
    requires NoBrace(p0) && NoBrace(p1) && NoBrace(p2)
    ensures var t := p0 + LatPlaceholder + p1 + LonPlaceholder + p2;
      var i, j := |p0|, |p0| + 7 + |p1|;
      j + 7 <= |t| && t[i..i + 7] == LatPlaceholder && t[j..j + 7] == LonPlaceholder &&
      forall q :: 0 <= q < |t| && q != i && q != j ==> t[q] != '{'
  {
    var a := p0 + LatPlaceholder + p1;
    var t := a + LonPlaceholder + p2;
    var i, j := |p0|, |a|;
    assert t[i..i + 7] == LatPlaceholder;
    assert t[j..j + 7] == LonPlaceholder;
    forall q | 0 <= q < |t| && q != i && q != j
      ensures t[q] != '{'
    {
      if q < i {
        assert t[q] == p0[q];
      } else if q < i + 7 {
        assert t[q] == LatPlaceholder[q - i];
      } else if q < j {
        assert t[q] == p1[q - i - 7];
      } else if q < j + 7 {
        assert t[q] == LonPlaceholder[q - j];
      } else {
        assert t[q] == p2[q - j - 7];
      }
    }
  }

  /** The name placeholder is not in such a template, and the longitude one is where it was put. */
  lemma LatLonTemplateReplaceLon(p0: string, p1: string, p2: string, name: string, lng: string)
    requires NoBrace(p0) && NoBrace(p1) && NoBrace(p2)
    ensures var t := p0 + LatPlaceholder + p1 + LonPlaceholder + p2;
      Replace(Replace(t, NamePlaceholder, name), LonPlaceholder, lng) ==
      p0 + LatPlaceholder + (p1 + lng + p2)
  {
    var a := p0 + LatPlaceholder + p1;
    var t := a + LonPlaceholder + p2;
    LatLonTemplateChars(p0, p1, p2);
    LatLonTemplateShape(t, |p0|, |a|);
    ReplaceAbsent(t, NamePlaceholder, name);
    LonReplaced(a, p2, lng);
    LatLonRegroup(p0, p1, p2, lng);
  }

  /** A `{%LON%}` after the last earlier occurrence, with no `{` after it, is the one replaced. */
  lemma LonReplaced(a: string, p2: string, lng: string)
    requires NoBrace(p2)
    requires forall q :: 0 <= q < |a| ==> !OccursAt(a + LonPlaceholder + p2, LonPlaceholder, q)
    ensures Replace(a + LonPlaceholder + p2, LonPlaceholder, lng) == a + lng + p2
  {
    FirstByteMissing(p2, LonPlaceholder);
    ReplaceOnly(a, LonPlaceholder, p2, lng);
  }

  lemma LatLonRegroup(p0: string, p1: string, p2: string, lng: string)
    ensures p0 + LatPlaceholder + p1 + lng + p2 == p0 + LatPlaceholder + (p1 + lng + p2)
  {
  }

  /**
   * A template holding `{%LAT%}` and then `{%LON%}`, and no other `{`, gets
   * the URL-encoded latitude and longitude in their places.
   */
  lemma FillLatLonTemplate(poi: PoiData, p0: string, p1: string, p2: string)
    requires NoBrace(p0) && NoBrace(p1) && NoBrace(p2)
    ensures FillNavTemplate(poi, p0 + LatPlaceholder + p1 + LonPlaceholder + p2) ==
            p0 + UrlEncode(poi.latText) + p1 + UrlEncode(poi.lngText) + p2
  {
    var lat, lng := UrlEncode(poi.latText), UrlEncode(poi.lngText);
    LatLonTemplateReplaceLon(p0, p1, p2, UrlEncode(poi.name), lng);
    UrlEncodeNoBrace(poi.lngText);
    ReplaceBetween(p0, LatPlaceholder, p1 + lng + p2, lat);
  }

  /** The species shown for an encounter: the first list entry (the first byte of a scalar). */
  function FirstSpecies(v: ParamValue): string
  {
    match v
    case List(xs) => if |xs| > 0 then xs[0] else ""
    case Scalar(t) => if |t| > 0 then [t[0]] else ""
  }

  /**
   * Whether REWARD_ICON shows a species instead of the reward icon. With
   * `exactCount` the species list must hold exactly one entry; without it
   * any species parameter will do.
   */
  predicate ShowsSpecies(ctx: Context, inner: string, exactCount: bool)
  {
    ctx.useSpecies && inner == "REWARD_ICON" && ctx.poi.reward.kind == "encounter" &&
    "species" in ctx.poi.reward.params &&
    (exactCount ==> ParamCount(ctx.poi.reward.params, "species") == 1)
  }

  /**
   * OBJECTIVE_ICON / REWARD_ICON(format,variant) after trimming the
   * arguments: the theme's vector or raster URL for the objective or reward
   * type, or for the species when `ShowsSpecies` holds.
   */
  function IconUrl(ctx: Context, inner: string, args: seq<string>, exactCount: bool): (r: string)
    ensures var t := seq(|args|, i requires 0 <= i < |args| => Trim(args[i]));
      |args| < 2 || (t[1] != "dark" && t[1] != "light") || (t[0] != "vector" && t[0] != "raster")
      ==> r == ""
  {
    var t := seq(|args|, i requires 0 <= i < |args| => Trim(args[i]));
    if |t| < 2 || (t[1] != "dark" && t[1] != "light") then ""
    else
      var variant := t[1];
      var icon := if inner == "OBJECTIVE_ICON" then ctx.poi.objective.kind else ctx.poi.reward.kind;
      if t[0] != "vector" && t[0] != "raster" then ""
      else if ShowsSpecies(ctx, inner, exactCount) then
        ctx.speciesIcon(t[0], variant, FirstSpecies(ctx.poi.reward.params["species"]))
      else ctx.themeIcon(t[0], variant, icon)
  }

  // ---------------------------------------------------------------------------
  // The handler switch
  // ---------------------------------------------------------------------------

  /**
   * The switch: `key` selects the case (the upper-cased name), `inner` is
   * the name the cases test again, `leaked` the value an earlier conditional
   * left behind, `exactCount` the species test of REWARD_ICON.
   */
  function Handle(ctx: Context, key: string, inner: string, args: seq<string>,
                  leaked: bool, exactCount: bool): string
  {
    match HandlerOf(key)
    case CoordsToken => ctx.locationString(if |args| > 0 then Some(IntVal(args[0])) else None)
    case FallbackToken => Fallback(args)
    case EmptyTestToken =>
      if |args| < 2 then "" else Choose(EmptyTest(inner, args[0], leaked), args, 1)
    case CompareToken =>
      if |args| < 3 then "" else Choose(CompareTest(inner, args[0], args[1], leaked), args, 2)
    case I18nToken =>
      if |args| < 1 then "" else if |args| == 1 then ctx.i18nResolve(args[0]) else ctx.i18nResolveArgs(args)
    case LatToken => ctx.poi.latText
    case LengthToken => Length(args)
    case LngToken => ctx.poi.lngText
    case LowercaseToken => if |args| < 1 then "" else Lower(args[0])
    case NavUrlToken => NavUrl(ctx, args)
    case ObjectiveToken => ctx.objectiveText
    case PadToken =>
      if |args| < 2 then ""
      else StrPad(args[0], IntVal(args[1]), if |args| >= 3 then args[2] else " ", inner == "PAD_LEFT")
    case PoiToken => ctx.poi.name
    case ReporterToken => ctx.reporter
    case RewardToken => ctx.rewardText
    case SiteUrlToken => ctx.siteUrl
    case SubstringToken =>
      if |args| < 2 then ""
      else Substr(args[0], IntVal(args[1]), if |args| >= 3 then Some(IntVal(args[2])) else None)
    case TimeToken => if |args| < 1 then "" else ctx.formatTime(args[0])
    case UppercaseToken => if |args| < 1 then "" else Upper(args[0])
    case IconToken => IconUrl(ctx, inner, args, exactCount)
    case ParameterToken =>
      ParameterValue(if inner == "OBJECTIVE_PARAMETER" then ctx.poi.objective.params
                     else ctx.poi.reward.params, args)
    case ParameterCountToken =>
      ParameterCount(if inner == "OBJECTIVE_PARAMETER_COUNT" then ctx.poi.objective.params
                     else ctx.poi.reward.params, args)
    case UnknownToken => ""
  }

  /**
   * The handler as the engine is written: the case is chosen on the
   * upper-cased name, but the cases test the name as typed, a conditional
   * with a lower-case name reuses `leaked`, and the species test of
   * REWARD_ICON holds for any species parameter.
   */
  function TokenValueAsWritten(ctx: Context, name: string, args: seq<string>, leaked: bool): string
  {
    Handle(ctx, Upper(name), name, args, leaked, false)
  }

  /**
   * The `$eval` the engine as written holds after a token. A conditional
   * with enough arguments assigns it in the inner case its name as typed
   * selects; a conditional whose name selects no inner case, and every other
   * token, leave the earlier value in place.
   */
  function EvalAfter(name: string, args: seq<string>, leaked: bool): (r: bool)
    ensures HandlerOf(Upper(name)) != EmptyTestToken && HandlerOf(Upper(name)) != CompareToken ==> r == leaked
  {
    match HandlerOf(Upper(name))
    case EmptyTestToken => if |args| < 2 then leaked else EmptyTest(name, args[0], leaked)
    case CompareToken => if |args| < 3 then leaked else CompareTest(name, args[0], args[1], leaked)
    case _ => leaked
  }

  /**
   * The handler as intended: token names are case-insensitive throughout
   * and the species icon is shown only for exactly one species.
   */
  function Resolve(ctx: Context, name: string, args: seq<string>): string
  {
    Handle(ctx, Upper(name), Upper(name), args, false, true)
  }

  // ---------------------------------------------------------------------------
  // Properties
  // ---------------------------------------------------------------------------

  /** Token names are case-insensitive. */
  lemma ResolveIgnoresCase(ctx: Context, name: string, args: seq<string>)
    ensures Resolve(ctx, name, args) == Resolve(ctx, Upper(name), args)
  {
    UpperIdempotent(name);
  }

  /** An unknown token stands for the empty string. */
  lemma UnknownTokenIsEmpty(ctx: Context, name: string, args: seq<string>)
    requires HandlerOf(Upper(name)) == UnknownToken
    ensures Resolve(ctx, name, args) == ""
  {
  }

  /** A handler given fewer arguments than it needs yields the empty string. */
  lemma TooFewArgumentsIsEmpty(ctx: Context, name: string, args: seq<string>)
    requires |args| < MinArgs(HandlerOf(Upper(name)))
    ensures Resolve(ctx, name, args) == ""
  {
    var key := Upper(name);
    match HandlerOf(key)
    case IconToken =>
      assert IconUrl(ctx, key, args, true) == "";
    case _ =>
  }

  // Facts about particular spellings, one literal per lemma so that each
  // walk down the switch is done once and on its own.

  lemma IfEmptyName()
    ensures HandlerOf("IF_EMPTY") == EmptyTestToken
  {
  }

  lemma IfNotEmptyName()
    ensures HandlerOf("IF_NOT_EMPTY") == EmptyTestToken
  {
  }

  lemma IfEqualName()
    ensures HandlerOf("IF_EQUAL") == CompareToken
  {
  }

  lemma IfNotEqualName()
    ensures HandlerOf("IF_NOT_EQUAL") == CompareToken
  {
  }

  lemma IfLessThanName()
    ensures HandlerOf("IF_LESS_THAN") == CompareToken
  {
  }

  lemma IfLessOrEqualName()
    ensures HandlerOf("IF_LESS_OR_EQUAL") == CompareToken
  {
  }

  lemma IfGreaterThanName()
    ensures HandlerOf("IF_GREATER_THAN") == CompareToken
  {
  }

  lemma IfGreaterOrEqualName()
    ensures HandlerOf("IF_GREATER_OR_EQUAL") == CompareToken
  {
  }

  lemma PadLeftName()
    ensures HandlerOf("PAD_LEFT") == PadToken
  {
  }

  lemma PadRightName()
    ensures HandlerOf("PAD_RIGHT") == PadToken
  {
  }

  lemma ObjectiveParameterName()
    ensures HandlerOf("OBJECTIVE_PARAMETER") == ParameterToken
  {
  }

  lemma RewardParameterName()
    ensures HandlerOf("REWARD_PARAMETER") == ParameterToken
  {
  }

  lemma ObjectiveParameterCountName()
    ensures HandlerOf("OBJECTIVE_PARAMETER_COUNT") == ParameterCountToken
  {
  }

  lemma RewardParameterCountName()
    ensures HandlerOf("REWARD_PARAMETER_COUNT") == ParameterCountToken
  {
  }

  lemma ObjectiveIconName()
    ensures HandlerOf("OBJECTIVE_ICON") == IconToken
  {
  }

  lemma RewardIconName()
    ensures HandlerOf("REWARD_ICON") == IconToken
  {
  }

  lemma LengthName()
    ensures HandlerOf("LENGTH") == LengthToken
  {
  }

  lemma SubstringName()
    ensures HandlerOf("SUBSTRING") == SubstringToken
  {
  }

  lemma EmptyTestNames()
    ensures HandlerOf("IF_EMPTY") == EmptyTestToken && HandlerOf("IF_NOT_EMPTY") == EmptyTestToken
  {
    IfEmptyName();
    IfNotEmptyName();
  }

  lemma CompareNames()
    ensures HandlerOf("IF_EQUAL") == CompareToken && HandlerOf("IF_NOT_EQUAL") == CompareToken
    ensures HandlerOf("IF_LESS_THAN") == CompareToken && HandlerOf("IF_LESS_OR_EQUAL") == CompareToken
    ensures HandlerOf("IF_GREATER_THAN") == CompareToken && HandlerOf("IF_GREATER_OR_EQUAL") == CompareToken
  {
    IfEqualName();
    IfNotEqualName();
    IfLessThanName();
    IfLessOrEqualName();
    IfGreaterThanName();
    IfGreaterOrEqualName();
  }

  lemma PadNames()
    ensures HandlerOf("PAD_LEFT") == PadToken && HandlerOf("PAD_RIGHT") == PadToken
  {
    PadLeftName();
    PadRightName();
  }

  lemma ParameterNames()
    ensures HandlerOf("OBJECTIVE_PARAMETER") == ParameterToken
    ensures HandlerOf("REWARD_PARAMETER") == ParameterToken
  {
    ObjectiveParameterName();
    RewardParameterName();
  }

  lemma ParameterCountNames()
    ensures HandlerOf("OBJECTIVE_PARAMETER_COUNT") == ParameterCountToken
    ensures HandlerOf("REWARD_PARAMETER_COUNT") == ParameterCountToken
  {
    ObjectiveParameterCountName();
    RewardParameterCountName();
  }

  lemma IconNames()
    ensures HandlerOf("OBJECTIVE_ICON") == IconToken && HandlerOf("REWARD_ICON") == IconToken
  {
    ObjectiveIconName();
    RewardIconName();
  }

  // Each case of the switch on its own, for any key that selects it.

  lemma HandleEmptyTest(ctx: Context, key: string, inner: string, args: seq<string>, leaked: bool, exactCount: bool)
    requires HandlerOf(key) == EmptyTestToken
    ensures Handle(ctx, key, inner, args, leaked, exactCount) ==
            if |args| < 2 then "" else Choose(EmptyTest(inner, args[0], leaked), args, 1)
  {
  }

  lemma HandleCompare(ctx: Context, key: string, inner: string, args: seq<string>, leaked: bool, exactCount: bool)
    requires HandlerOf(key) == CompareToken
    ensures Handle(ctx, key, inner, args, leaked, exactCount) ==
            if |args| < 3 then "" else Choose(CompareTest(inner, args[0], args[1], leaked), args, 2)
  {
  }

  lemma HandlePad(ctx: Context, key: string, inner: string, args: seq<string>, leaked: bool, exactCount: bool)
    requires HandlerOf(key) == PadToken
    ensures Handle(ctx, key, inner, args, leaked, exactCount) ==
            if |args| < 2 then ""
            else StrPad(args[0], IntVal(args[1]), if |args| >= 3 then args[2] else " ", inner == "PAD_LEFT")
  {
  }

  lemma HandleParameter(ctx: Context, key: string, inner: string, args: seq<string>, leaked: bool, exactCount: bool)
    requires HandlerOf(key) == ParameterToken
    ensures Handle(ctx, key, inner, args, leaked, exactCount) ==
            ParameterValue(if inner == "OBJECTIVE_PARAMETER" then ctx.poi.objective.params
                           else ctx.poi.reward.params, args)
  {
  }

  lemma HandleParameterCount(ctx: Context, key: string, inner: string, args: seq<string>, leaked: bool, exactCount: bool)
    requires HandlerOf(key) == ParameterCountToken
    ensures Handle(ctx, key, inner, args, leaked, exactCount) ==
            ParameterCount(if inner == "OBJECTIVE_PARAMETER_COUNT" then ctx.poi.objective.params
                           else ctx.poi.reward.params, args)
  {
  }

  lemma HandleLength(ctx: Context, key: string, inner: string, args: seq<string>, leaked: bool, exactCount: bool)
    requires HandlerOf(key) == LengthToken
    ensures Handle(ctx, key, inner, args, leaked, exactCount) ==
            Length(args)
  {
  }

  /** The names that reach the IF_EMPTY case. */
  lemma EmptyTestCase(key: string)
    requires HandlerOf(key) == EmptyTestToken
    ensures key == "IF_EMPTY" || key == "IF_NOT_EMPTY"
  {
  }

  /** The names that reach the IF_EQUAL case. */
  lemma CompareCase(key: string)
    requires HandlerOf(key) == CompareToken
    ensures key == "IF_EQUAL" || key == "IF_NOT_EQUAL" || key == "IF_LESS_THAN" ||
            key == "IF_LESS_OR_EQUAL" || key == "IF_GREATER_THAN" || key == "IF_GREATER_OR_EQUAL"
  {
  }

  /** IF_EMPTY and IF_NOT_EMPTY are each other with the outputs swapped. */
  lemma EmptyTestsComplement(ctx: Context, ifEmpty: string, ifNotEmpty: string, e: string, t: string, f: string)
    requires Upper(ifEmpty) == "IF_EMPTY" && Upper(ifNotEmpty) == "IF_NOT_EMPTY"
    ensures Resolve(ctx, ifEmpty, [e, t, f]) == Resolve(ctx, ifNotEmpty, [e, f, t])
    ensures Resolve(ctx, ifEmpty, [e, t, f]) == (if e == "" then t else f)
  {
    EmptyTestNames();
    HandleEmptyTest(ctx, Upper(ifEmpty), Upper(ifEmpty), [e, t, f], false, true);
    HandleEmptyTest(ctx, Upper(ifNotEmpty), Upper(ifNotEmpty), [e, f, t], false, true);
  }

  /** An omitted `ifFalse` is the empty string. */
  lemma MissingElseIsEmpty(ctx: Context, ifNotEmpty: string, ifEqual: string, e: string, v: string, t: string)
    requires Upper(ifNotEmpty) == "IF_NOT_EMPTY" && Upper(ifEqual) == "IF_EQUAL"
    ensures Resolve(ctx, ifNotEmpty, ["", t]) == ""
    ensures !LooseEquals(e, v) ==> Resolve(ctx, ifEqual, [e, v, t]) == ""
  {
    EmptyTestNames();
    CompareNames();
    HandleEmptyTest(ctx, Upper(ifNotEmpty), Upper(ifNotEmpty), ["", t], false, true);
    HandleCompare(ctx, Upper(ifEqual), Upper(ifEqual), [e, v, t], false, true);
  }

  /**
   * The six comparisons pair up: each is another one with its outputs
   * swapped or its operands swapped. The parameters are any spellings of
   * IF_EQUAL, IF_NOT_EQUAL, IF_LESS_THAN, IF_LESS_OR_EQUAL, IF_GREATER_THAN
   * and IF_GREATER_OR_EQUAL.
   */
  lemma ComparisonsPairUp(ctx: Context, eq: string, ne: string, lt: string, le: string, gt: string, ge: string,
                          a: string, b: string, t: string, f: string)
    requires Upper(eq) == "IF_EQUAL" && Upper(ne) == "IF_NOT_EQUAL"
    requires Upper(lt) == "IF_LESS_THAN" && Upper(le) == "IF_LESS_OR_EQUAL"
    requires Upper(gt) == "IF_GREATER_THAN" && Upper(ge) == "IF_GREATER_OR_EQUAL"
    ensures Resolve(ctx, eq, [a, b, t, f]) == Resolve(ctx, ne, [a, b, f, t])
    ensures Resolve(ctx, eq, [a, b, t, f]) == Resolve(ctx, eq, [b, a, t, f])
    ensures Resolve(ctx, lt, [a, b, t, f]) == Resolve(ctx, ge, [a, b, f, t])
    ensures Resolve(ctx, gt, [a, b, t, f]) == Resolve(ctx, lt, [b, a, t, f])
    ensures Resolve(ctx, le, [a, b, t, f]) == Resolve(ctx, ge, [b, a, t, f])
  {
    CompareNames();
    CompareTests(a, b);
    CompareTests(b, a);
    LooseEqualsIsEquivalenceLike(a, b);
    ResolveCompare(ctx, eq, [a, b, t, f]);
    ResolveCompare(ctx, eq, [b, a, t, f]);
    ResolveCompare(ctx, ne, [a, b, f, t]);
    ResolveCompare(ctx, lt, [a, b, t, f]);
    ResolveCompare(ctx, lt, [b, a, t, f]);
    ResolveCompare(ctx, ge, [a, b, f, t]);
    ResolveCompare(ctx, ge, [b, a, t, f]);
    ResolveCompare(ctx, gt, [a, b, t, f]);
    ResolveCompare(ctx, le, [a, b, t, f]);
  }

  /** The IF_EQUAL case of the dispatch, on its own. */
  lemma ResolveCompare(ctx: Context, name: string, args: seq<string>)
    requires HandlerOf(Upper(name)) == CompareToken && |args| >= 3
    ensures Resolve(ctx, name, args) == Choose(CompareTest(Upper(name), args[0], args[1], false), args, 2)
  {
    HandleCompare(ctx, Upper(name), Upper(name), args, false, true);
  }

  /** What each of the six comparisons tests. */
  lemma CompareTests(a: string, b: string)
    ensures CompareTest("IF_EQUAL", a, b, false) == LooseEquals(a, b)
    ensures CompareTest("IF_NOT_EQUAL", a, b, false) == !LooseEquals(a, b)
    ensures CompareTest("IF_LESS_THAN", a, b, false) == DecLess(FloatVal(a), FloatVal(b))
    ensures CompareTest("IF_LESS_OR_EQUAL", a, b, false) == !DecLess(FloatVal(b), FloatVal(a))
    ensures CompareTest("IF_GREATER_THAN", a, b, false) == DecLess(FloatVal(b), FloatVal(a))
    ensures CompareTest("IF_GREATER_OR_EQUAL", a, b, false) == !DecLess(FloatVal(a), FloatVal(b))
  {
  }

  /**
   * PAD_LEFT keeps the text as a suffix, PAD_RIGHT as a prefix, at the
   * requested length; a padding of `PadLimit` bytes or more gives "".
   */
  lemma PadKeepsText(ctx: Context, padLeft: string, padRight: string, s: string, n: nat, pad: string)
    requires Upper(padLeft) == "PAD_LEFT" && Upper(padRight) == "PAD_RIGHT"
    requires pad != [] && n <= IntMax
    ensures var r := Resolve(ctx, padLeft, [s, NatToString(n), pad]);
      if n - |s| >= PadLimit then r == ""
      else |r| == (if n > |s| then n else |s|) && r[|r| - |s|..] == s
    ensures var r := Resolve(ctx, padRight, [s, NatToString(n), pad]);
      if n - |s| >= PadLimit then r == ""
      else |r| == (if n > |s| then n else |s|) && r[..|s|] == s
  {
    PadNames();
    IntValOfNatString(n);
    HandlePad(ctx, Upper(padLeft), Upper(padLeft), [s, NatToString(n), pad], false, true);
    HandlePad(ctx, Upper(padRight), Upper(padRight), [s, NatToString(n), pad], false, true);
    StrPadKeeps(s, n, pad, true);
    StrPadKeeps(s, n, pad, false);
  }

  lemma StrPadKeeps(s: string, length: int, pad: string, left: bool)
    requires pad != []
    ensures var r := StrPad(s, length, pad, left);
      if length - |s| >= PadLimit then r == ""
      else |r| == (if length > |s| then length else |s|) &&
           (left ==> r[|r| - |s|..] == s) && (!left ==> r[..|s|] == s)
  {
  }

  /** Without a third argument, PAD_LEFT and PAD_RIGHT pad with spaces. */
  lemma PadDefaultsToSpace(ctx: Context, padLeft: string, padRight: string, s: string, n: nat)
    requires Upper(padLeft) == "PAD_LEFT" && Upper(padRight) == "PAD_RIGHT"
    requires |s| < n < |s| + PadLimit && n <= IntMax
    ensures Resolve(ctx, padLeft, [s, NatToString(n)]) == PadRun(" ", n - |s|) + s
    ensures Resolve(ctx, padRight, [s, NatToString(n)]) == s + PadRun(" ", n - |s|)
  {
    PadNames();
    IntValOfNatString(n);
    PadTwoArguments(ctx, padLeft, s, n);
    PadTwoArguments(ctx, padRight, s, n);
    StrPadSides(s, n, " ");
  }

  lemma StrPadSides(s: string, length: int, pad: string)
    requires pad != [] && |s| < length < |s| + PadLimit
    ensures StrPad(s, length, pad, true) == PadRun(pad, length - |s|) + s
    ensures StrPad(s, length, pad, false) == s + PadRun(pad, length - |s|)
  {
  }

  lemma PadTwoArguments(ctx: Context, name: string, s: string, n: nat)
    requires HandlerOf(Upper(name)) == PadToken && IntVal(NatToString(n)) == n
    requires |s| < n < |s| + PadLimit
    ensures Resolve(ctx, name, [s, NatToString(n)]) == StrPad(s, n, " ", Upper(name) == "PAD_LEFT")
  {
    HandlePad(ctx, Upper(name), Upper(name), [s, NatToString(n)], false, true);
  }

  /** SUBSTRING never yields more than its input, and a start past the end yields "". */
  lemma SubstringBounded(ctx: Context, substring: string, args: seq<string>)
    requires Upper(substring) == "SUBSTRING" && |args| >= 2
    ensures |Resolve(ctx, substring, args)| <= |args[0]|
    ensures IntVal(args[1]) > |args[0]| ==> Resolve(ctx, substring, args) == ""
  {
    SubstringCase(ctx, substring, args);
  }

  /** The SUBSTRING case of the dispatch, on its own. */
  lemma SubstringCase(ctx: Context, substring: string, args: seq<string>)
    requires Upper(substring) == "SUBSTRING" && |args| >= 2
    ensures Resolve(ctx, substring, args) ==
            Substr(args[0], IntVal(args[1]), if |args| >= 3 then Some(IntVal(args[2])) else None)
  {
    SubstringName();
    HandleSubstring(ctx, Upper(substring), Upper(substring), args, false, true);
  }

  lemma HandleSubstring(ctx: Context, key: string, inner: string, args: seq<string>, leaked: bool, exactCount: bool)
    requires HandlerOf(key) == SubstringToken && |args| >= 2
    ensures Handle(ctx, key, inner, args, leaked, exactCount) ==
            Substr(args[0], IntVal(args[1]), if |args| >= 3 then Some(IntVal(args[2])) else None)
  {
  }

  /** What LENGTH prints reads back, with `intval`, as the byte count. */
  lemma LengthReadsBack(ctx: Context, length: string, s: string)
    requires Upper(length) == "LENGTH" && |s| <= IntMax
    ensures IntVal(Resolve(ctx, length, [s])) == |s|
  {
    LengthName();
    HandleLength(ctx, Upper(length), Upper(length), [s], false, true);
    IntValOfNatString(|s|);
  }

  /** REWARD_PARAMETER_COUNT of a list parameter reads back as the length of the list. */
  lemma ParameterCountOfList(ctx: Context, count: string, p: string)
    requires Upper(count) == "REWARD_PARAMETER_COUNT"
    requires p in ctx.poi.reward.params && ctx.poi.reward.params[p].List?
    requires |ctx.poi.reward.params[p].items| <= IntMax
    ensures IntVal(Resolve(ctx, count, [p])) == |ctx.poi.reward.params[p].items|
  {
    ParameterCountNames();
    HandleParameterCount(ctx, Upper(count), Upper(count), [p], false, true);
    IntValOfNatString(|ctx.poi.reward.params[p].items|);
  }

  /**
   * For a list parameter, REWARD_PARAMETER(p,i) for i from 1 to
   * REWARD_PARAMETER_COUNT(p) walks through the list.
   */
  lemma ParameterIndexWalksList(ctx: Context, parameter: string, p: string, i: nat)
    requires Upper(parameter) == "REWARD_PARAMETER"
    requires p in ctx.poi.reward.params && ctx.poi.reward.params[p].List?
    requires 1 <= i <= |ctx.poi.reward.params[p].items| && i <= IntMax
    ensures Resolve(ctx, parameter, [p, NatToString(i)]) == ctx.poi.reward.params[p].items[i - 1]
  {
    ParameterNames();
    HandleParameter(ctx, Upper(parameter), Upper(parameter), [p, NatToString(i)], false, true);
    IntValOfNatString(i);
  }

  /**
   * OBJECTIVE_PARAMETER(p) joins a list with commas, so splitting the join
   * gives the list back when no entry holds a comma.
   */
  lemma ParameterJoinSplits(ctx: Context, parameter: string, p: string)
    requires Upper(parameter) == "OBJECTIVE_PARAMETER"
    requires p in ctx.poi.objective.params && ctx.poi.objective.params[p].List?
    requires |ctx.poi.objective.params[p].items| >= 1
    requires forall k :: 0 <= k < |ctx.poi.objective.params[p].items| ==>
      ',' !in ctx.poi.objective.params[p].items[k]
    ensures Explode(Resolve(ctx, parameter, [p])) == ctx.poi.objective.params[p].items
  {
    ParameterNames();
    HandleParameter(ctx, Upper(parameter), Upper(parameter), [p], false, true);
    ExplodeImplode(ctx.poi.objective.params[p].items);
  }

  /** A missing parameter reads as "" and counts 0; a scalar reads as itself and counts 1. */
  lemma ParameterScalarOrMissing(ctx: Context, parameter: string, count: string, p: string, rest: seq<string>)
    requires Upper(parameter) == "OBJECTIVE_PARAMETER" && Upper(count) == "OBJECTIVE_PARAMETER_COUNT"
    ensures p !in ctx.poi.objective.params ==>
      Resolve(ctx, parameter, [p] + rest) == "" && Resolve(ctx, count, [p]) == "0"
    ensures p in ctx.poi.objective.params && ctx.poi.objective.params[p].Scalar? ==>
      Resolve(ctx, parameter, [p] + rest) == ctx.poi.objective.params[p].text &&
      Resolve(ctx, count, [p]) == "1"
  {
    ParameterNames();
    ParameterCountNames();
    HandleParameter(ctx, Upper(parameter), Upper(parameter), [p] + rest, false, true);
    HandleParameterCount(ctx, Upper(count), Upper(count), [p], false, true);
    assert ([p] + rest)[0] == p;
  }

  // ---------------------------------------------------------------------------
  // Lower-case names: as written against as intended
  // ---------------------------------------------------------------------------

  /**
   * When the case is chosen on the name the cases test, the leaked value
   * and the species test matter to no case but the icons.
   */
  lemma HandleExactName(ctx: Context, key: string, args: seq<string>, leaked: bool)
    requires HandlerOf(key) != IconToken
    ensures Handle(ctx, key, key, args, leaked, false) == Handle(ctx, key, key, args, false, true)
  {
    if HandlerOf(key) == EmptyTestToken {
      EmptyTestCase(key);
      HandleEmptyTest(ctx, key, key, args, leaked, false);
      HandleEmptyTest(ctx, key, key, args, false, true);
    } else if HandlerOf(key) == CompareToken {
      CompareCase(key);
      HandleCompare(ctx, key, key, args, leaked, false);
      HandleCompare(ctx, key, key, args, false, true);
    }
  }

  /** For names typed in upper case, the engine as written agrees with `Resolve` (icons aside). */
  lemma AsWrittenAgreesOnUpperCase(ctx: Context, name: string, args: seq<string>, leaked: bool)
    requires Upper(name) == name
    requires HandlerOf(name) != IconToken
    ensures TokenValueAsWritten(ctx, name, args, leaked) == Resolve(ctx, name, args)
  {
    HandleExactName(ctx, name, args, leaked);
  }

  /**
   * A conditional as written shows its first output exactly when the `$eval`
   * it leaves behind is true.
   */
  lemma ValueFollowsEval(ctx: Context, name: string, args: seq<string>, leaked: bool)
    requires HandlerOf(Upper(name)) == EmptyTestToken || HandlerOf(Upper(name)) == CompareToken
    ensures var operands := if HandlerOf(Upper(name)) == EmptyTestToken then 1 else 2;
      |args| > operands ==>
      TokenValueAsWritten(ctx, name, args, leaked) == Choose(EvalAfter(name, args, leaked), args, operands)
  {
    if HandlerOf(Upper(name)) == EmptyTestToken {
      HandleEmptyTest(ctx, Upper(name), name, args, leaked, false);
    } else {
      HandleCompare(ctx, Upper(name), name, args, leaked, false);
    }
  }

  /**
   * A conditional typed in upper case sets `$eval` to its own test, so the
   * value an earlier token left does not reach past it.
   */
  lemma ExactConditionalResetsEval(name: string, args: seq<string>, leaked: bool)
    requires Upper(name) == name
    requires HandlerOf(name) == EmptyTestToken || HandlerOf(name) == CompareToken
    requires |args| >= 2 && (HandlerOf(name) == CompareToken ==> |args| >= 3)
    ensures EvalAfter(name, args, leaked) == EvalAfter(name, args, !leaked)
  {
    if HandlerOf(name) == EmptyTestToken {
      EmptyTestCase(name);
    } else {
      CompareCase(name);
    }
  }

  /**
   * The names on which the engine as written and the intended handler give
   * the same value whatever `$eval` was left: upper-case names whose REWARD_ICON,
   * if that is what they are, is decided the same way by both species tests.
   */
  predicate AgreesAsWritten(ctx: Context, name: string)
  {
    Upper(name) == name &&
    (HandlerOf(name) == IconToken ==> ShowsSpecies(ctx, name, false) == ShowsSpecies(ctx, name, true))
  }

  lemma AsWrittenAgrees(ctx: Context, name: string, args: seq<string>, leaked: bool)
    requires AgreesAsWritten(ctx, name)
    ensures TokenValueAsWritten(ctx, name, args, leaked) == Resolve(ctx, name, args)
  {
    if HandlerOf(name) == IconToken {
      HandleIcon(ctx, name, name, args, leaked, false);
      HandleIcon(ctx, name, name, args, false, true);
    } else {
      HandleExactName(ctx, name, args, leaked);
    }
  }

  /**
   * A PAD_LEFT spelled with any lower-case letter pads on the right as
   * written, and on the left as intended (`pad_left(7,3,0)`: "700", not "007").
   */
  lemma LowerCasePadLeft(ctx: Context, name: string, s: string, n: nat, pad: string, leaked: bool)
    requires Upper(name) == "PAD_LEFT" && name != "PAD_LEFT"
    requires |s| < n <= IntMax && pad != []
    ensures TokenValueAsWritten(ctx, name, [s, NatToString(n), pad], leaked) ==
      if n - |s| >= PadLimit then "" else s + PadRun(pad, n - |s|)
    ensures Resolve(ctx, name, [s, NatToString(n), pad]) ==
      if n - |s| >= PadLimit then "" else PadRun(pad, n - |s|) + s
  {
    PadNames();
    IntValOfNatString(n);
    HandlePad(ctx, Upper(name), name, [s, NatToString(n), pad], leaked, false);
    HandlePad(ctx, Upper(name), Upper(name), [s, NatToString(n), pad], false, true);
  }

  /**
   * An IF_EMPTY spelled with any lower-case letter ignores its test as
   * written and answers with the leaked value; as intended it tests
   * (`if_empty(,yes,no)` with nothing leaked: "no", not "yes").
   */
  lemma LowerCaseIfEmpty(ctx: Context, name: string, e: string, t: string, f: string, leaked: bool)
    requires Upper(name) == "IF_EMPTY" && name != "IF_EMPTY"
    ensures TokenValueAsWritten(ctx, name, [e, t, f], leaked) == (if leaked then t else f)
    ensures Resolve(ctx, name, [e, t, f]) == (if e == "" then t else f)
  {
    EmptyTestNames();
    HandleEmptyTest(ctx, Upper(name), name, [e, t, f], leaked, false);
    HandleEmptyTest(ctx, Upper(name), Upper(name), [e, t, f], false, true);
  }

  /** An OBJECTIVE_PARAMETER spelled with any lower-case letter reads the reward parameters as written. */
  lemma LowerCaseObjectiveParameter(ctx: Context, name: string, args: seq<string>)
    requires Upper(name) == "OBJECTIVE_PARAMETER" && name != "OBJECTIVE_PARAMETER"
    ensures TokenValueAsWritten(ctx, name, args, false) == ParameterValue(ctx.poi.reward.params, args)
    ensures Resolve(ctx, name, args) == ParameterValue(ctx.poi.objective.params, args)
  {
    ParameterNames();
    HandleParameter(ctx, Upper(name), name, args, false, false);
    HandleParameter(ctx, Upper(name), Upper(name), args, false, true);
  }

  lemma HandleIcon(ctx: Context, key: string, inner: string, args: seq<string>, leaked: bool, exactCount: bool)
    requires HandlerOf(key) == IconToken
    ensures Handle(ctx, key, inner, args, leaked, exactCount) == IconUrl(ctx, inner, args, exactCount)
  {
  }

  /** The REWARD_ICON URL for a reward of two species, with and without the exact species count. */
  lemma TwoSpeciesIconUrl(ctx: Context, args: seq<string>, a: string, b: string)
    requires ctx.useSpecies && ctx.poi.reward.kind == "encounter"
    requires ctx.poi.reward.params == map["species" := List([a, b])]
    requires |args| >= 2
    requires Trim(args[0]) == "vector" || Trim(args[0]) == "raster"
    requires Trim(args[1]) == "dark" || Trim(args[1]) == "light"
    ensures IconUrl(ctx, "REWARD_ICON", args, false) == ctx.speciesIcon(Trim(args[0]), Trim(args[1]), a)
    ensures IconUrl(ctx, "REWARD_ICON", args, true) == ctx.themeIcon(Trim(args[0]), Trim(args[1]), "encounter")
  {
    assert ShowsSpecies(ctx, "REWARD_ICON", false);
    assert ParamCount(ctx.poi.reward.params, "species") == 2;
  }

  /**
   * With two species on an encounter reward, REWARD_ICON shows the first
   * species as written, and the encounter icon as intended.
   */
  lemma TwoSpeciesIcon(ctx: Context, name: string, args: seq<string>, a: string, b: string)
    requires Upper(name) == "REWARD_ICON"
    requires ctx.useSpecies && ctx.poi.reward.kind == "encounter"
    requires ctx.poi.reward.params == map["species" := List([a, b])]
    requires |args| >= 2
    requires Trim(args[0]) == "vector" || Trim(args[0]) == "raster"
    requires Trim(args[1]) == "dark" || Trim(args[1]) == "light"
    ensures name == "REWARD_ICON" ==>
      TokenValueAsWritten(ctx, name, args, false) == ctx.speciesIcon(Trim(args[0]), Trim(args[1]), a)
    ensures Resolve(ctx, name, args) == ctx.themeIcon(Trim(args[0]), Trim(args[1]), "encounter")
  {
    RewardIconName();
    TwoSpeciesIconUrl(ctx, args, a, b);
    HandleIcon(ctx, Upper(name), name, args, false, false);
    HandleIcon(ctx, Upper(name), Upper(name), args, false, true);
  }
  /**
   * As intended, REWARD_ICON shows the species of an encounter exactly
   * when the reward holds one species, and the encounter icon otherwise.
   */
  lemma SpeciesIconOnlyForOne(ctx: Context, name: string, args: seq<string>)
    requires Upper(name) == "REWARD_ICON"
    requires ctx.useSpecies && ctx.poi.reward.kind == "encounter" && "species" in ctx.poi.reward.params
    requires |args| >= 2
    requires Trim(args[0]) == "vector" || Trim(args[0]) == "raster"
    requires Trim(args[1]) == "dark" || Trim(args[1]) == "light"
    ensures ParamCount(ctx.poi.reward.params, "species") == 1 ==>
      Resolve(ctx, name, args) ==
        ctx.speciesIcon(Trim(args[0]), Trim(args[1]), FirstSpecies(ctx.poi.reward.params["species"]))
    ensures ParamCount(ctx.poi.reward.params, "species") != 1 ==>
      Resolve(ctx, name, args) == ctx.themeIcon(Trim(args[0]), Trim(args[1]), "encounter")
  {
    RewardIconName();
    HandleIcon(ctx, Upper(name), Upper(name), args, false, true);
  }
}
