# FreeField field-research reports and webhooks, modelled in Dafny

FreeField is a web application for Pokémon Go communities. Players use it to
report the field research found at a POI (a Pokéstop). When a report comes
in, `includes/api/poi/report.php` does four things:

1. It determines the objective and the reward. A client either sends them
   directly or sends a text for an API-only matcher.
2. It decides which configured webhooks fire. Each hook has an active flag,
   an optional geofence, and objective and reward filters, each of which is
   a whitelist or a blacklist.
3. It renders each hook's body template with the engine
   `replaceWebhookFields`. The engine repeatedly finds `<%NAME(args)%>`
   tokens and resolves them. It stores each result under a random base64 id
   and replaces the tag by that id. At the end, each id is replaced by its
   result, escaped for the hook's format.
4. It packages the body for its target:
   - a JSON hook uses `json_encode` without the outer quotes;
   - a Telegram hook uses Markdown, HTML or plain text as its parse mode,
     with the chat id taken from a `tg://send?to=-<id>` target.

The Dafny modules follow these parts.

| module | file | what it holds |
|---|---|---|
| `Wrappers` | `wrappers.dfy` | `Option` |
| `PhpNumbers` | `php_numbers.dfy` | PHP 7's numeric strings, PHP 7.1's `intval`, `floatval` as an exact decimal, loose `==` |
| `PhpStrings` | `php_strings.dfy` | `str_replace` with one search string, `explode`/`implode` on `,`, `strtoupper`/`strtolower`, `trim`, `urlencode`/`urldecode`, decimal text |
| `TokenScanner` | `token_scanner.dfy` | the token regex as a deterministic scanner, proved to find exactly the well-formed tags |
| `TokenHandlers` | `token_handlers.dfy` | the handler switch: the engine as written (`TokenValueAsWritten`, with the `$eval` it leaves in `EvalAfter`) and as intended (`Resolve`) |
| `WebhookRender` | `webhook_render.dfy` | passes, the id vault and the final escaping pass: the intended engine (`Render`), the engine as written with `$eval` carried between tokens (`RenderAsWritten`), and the imperative engine (`ReplaceWebhookFields`) proved equal to the latter |
| `Utf8` | `utf8.dfy` | well-formed UTF-8 as section 3 of RFC 3629 defines it: decoding and encoding |
| `Escaping` | `escaping.dfy` | the JSON, Telegram Markdown and Telegram HTML escapers, each with the reader that undoes it |
| `Telegram` | `telegram.dfy` | the parse-mode switch, the chat id pattern and the message fields |
| `Delivery` | `delivery.dfy` | the engine combined with each escaper |
| `Eligibility` | `eligibility.dfy` | the webhook filter loop and the specification it is proved against |
| `ResearchMatching` | `research_matching.dfy` | `determineResearchComponent`, the endpoint's checks on its result, and `fuzzyMatchCommonObjective` |

Modelling conventions:

- PHP strings are byte strings, so they become Dafny `string`s whose
  characters are the bytes.
- The model follows PHP 7, the PHP of the repository's time:
  - `substr` returns FALSE out of range;
  - a numeric string may have leading but not trailing whitespace.
- Integers are PHP's 64-bit integers. `intval` of a string follows PHP 7.1
  and later: it saturates at the 64-bit bounds, except that a number too
  large for a double (infinite) gives 0.
- Random ids come from a parameter `ids: nat -> PlaceholderId`. A
  `PlaceholderId` is a 24-character base64 text, which is what
  `base64_encode` gives for 16 bytes.
- Code outside this file appears as a parameter or a function field of
  `TokenHandlers.Context`. This covers the Theme classes, `I18N`, `Geo`,
  `date`, `Research::matches`, geofences and `similar_text`.

## Model

| member | source | states |
|---|---|---|
| `TokenScanner.MatchAt` | includes/api/poi/report.php:87 | a match tried at `i` starts at `i` and lies inside the text |
| `TokenScanner.Scan` | includes/api/poi/report.php:87 | matches are leftmost, in order and without overlap |
| `TokenScanner.MatchAtSound` | includes/api/poi/report.php:87 | every match is a well-formed tag: the name holds no `(` and no `%>`, the arguments hold no `<%` and no `)%>` |
| `TokenScanner.MatchAtComplete` | includes/api/poi/report.php:87 | every well-formed tag at `i` is the match the regex makes at `i` |
| `TokenScanner.TagAtUnique` | includes/api/poi/report.php:87 | a tag's name and arguments are determined by where it starts |
| `TokenScanner.ScanFindsTag` | includes/api/poi/report.php:87-103 | the scan is non-empty exactly when some well-formed tag starts in the text |
| `TokenScanner.ScanSound` | includes/api/poi/report.php:87-103 | every token of a scan is a well-formed tag at its own start |
| `TokenScanner.ScanAtTag` | includes/api/poi/report.php:87-103 | a tag at `i` is the next match, and the scan goes on after it |
| `TokenScanner.NoLessThanNoToken` | includes/api/poi/report.php:87-105 | a text without `<` has no token |
| `TokenScanner.ArgsHoldNoTag` | includes/api/poi/report.php:87 | a match's argument text holds no tag, so a pass sees only innermost tokens |
| `TokenScanner.OnlyTag` | includes/api/poi/report.php:87 | one tag and no other `<`: exactly one match |
| `TokenScanner.SingleTagMatches` | includes/api/poi/report.php:87 | `a<%NAME(args)%>b` with plain `a`, `b` matches only the tag |
| `TokenScanner.OuterAttemptFails` | includes/api/poi/report.php:87 | `<%OUTER(<%` is no match; the scan resumes at the inner `<%` |
| `TokenScanner.OnlyInnerTag` | includes/api/poi/report.php:87 | an outer token around an inner one: only the inner one matches |
| `TokenScanner.NestedTagMatches` | includes/api/poi/report.php:87 | `a<%OUTER(<%INNER%>)%>b` matches only `<%INNER%>` |
| `PhpStrings.Explode` | includes/api/poi/report.php:114-119 | `explode` always gives at least one piece |
| `PhpStrings.ExplodeShape` | includes/api/poi/report.php:116 | `k` commas give `k+1` pieces, none containing a comma |
| `PhpStrings.ImplodeExplode` | includes/api/poi/report.php:116 | joining the pieces with commas gives back the text |
| `PhpStrings.ExplodeImplode` | includes/api/poi/report.php:404 | comma-free pieces survive a join and a split |
| `WebhookRender.ArgList` | includes/api/poi/report.php:114-119 | no or empty argument text gives no arguments; otherwise one more argument than commas |
| `WebhookRender.ResolvedArgs` | includes/api/poi/report.php:124-128 | substitution keeps the number of arguments |
| `WebhookRender.ResolveArguments` | includes/api/poi/report.php:114-128 | the split-and-substitute loops compute `ResolvedArgs` |
| `WebhookRender.ResolvedArgsOfId` | includes/api/poi/report.php:124-128 | an argument that is an id comes back as its stored value, unescaped |
| `WebhookRender.Store` | includes/api/poi/report.php:437 | storing a fresh id appends one entry; the vault grows by at most one |
| `WebhookRender.ApplyMatch` | includes/api/poi/report.php:436-442 | resolving one match mints one id |
| `WebhookRender.ApplyMatchAsWritten` | includes/api/poi/report.php:107-442 | one match as written changes the body exactly as the intended `ApplyMatch` does and mints one id; only the stored value and `$eval` differ |
| `WebhookRender.ApplyMatchesSameText` | includes/api/poi/report.php:106-443 | the engine as written and the intended one rewrite the body through the same texts |
| `WebhookRender.RunPassesAsWritten` | includes/api/poi/report.php:103-446 | the passes as written end with a body the regex no longer matches |
| `WebhookRender.ResolveToken` | includes/api/poi/report.php:107-442 | one iteration of the match loop computes `ApplyMatchAsWritten`, `$eval` included |
| `WebhookRender.ResolveMatches` | includes/api/poi/report.php:106-443 | the loop over one scan's matches computes `ApplyMatchesAsWritten`, threading `$eval` |
| `WebhookRender.SubstituteIds` | includes/api/poi/report.php:451-453 | the final loop computes `SubstituteAll` with the escaper |
| `WebhookRender.RunPasses` | includes/api/poi/report.php:103-446 | passes end with a body the regex no longer matches |
| `WebhookRender.ReplaceWebhookFields` | includes/api/poi/report.php:25-456 | the imperative engine returns `RenderAsWritten`, with `$eval` starting unset; it returns the intended `Render` whenever every resolved name agrees |
| `WebhookRender.ApplyMatchesAgree` | includes/api/poi/report.php:106-443 | on names that agree, one scan as written leaves the same pass state as the intended one |
| `WebhookRender.RunPassesAgree` | includes/api/poi/report.php:103-446 | on names that agree, all passes as written leave the same pass state as the intended ones |
| `WebhookRender.RenderAgreesAsWritten` | includes/api/poi/report.php:25-456 | upper-case names and no REWARD_ICON whose two species tests differ: the engine as written renders what the intended one does |
| `WebhookRender.IdIsSafe` | includes/api/poi/report.php:436 | an id holds neither `<` nor `%` |
| `WebhookRender.IdChars` | includes/api/poi/report.php:436 | an id holds no `<`, `)`, `%` or `,`, so it never opens, closes or splits a tag |
| `WebhookRender.ReplaceCountOpen` | includes/api/poi/report.php:442 | replacing a tag by an id never adds a `<%`, and removes one where the tag occurs |
| `WebhookRender.ApplyMatchesNonIncreasing` | includes/api/poi/report.php:106-443 | resolving a scan's matches never adds a `<%` |
| `WebhookRender.PassDecreases` | includes/api/poi/report.php:105-445 | a pass that finds a token removes at least one `<%`, so the while-loop ends |
| `WebhookRender.NoTokenUnchanged` | includes/api/poi/report.php:103-105 | a body without tokens comes out unchanged |
| `WebhookRender.PassesDone` | includes/api/poi/report.php:105 | a body without tokens ends the passes |
| `WebhookRender.OnePassRender` | includes/api/poi/report.php:105-455 | one token: its tag becomes the escaped value |
| `WebhookRender.TwoPassRender` | includes/api/poi/report.php:105-455 | a second pass sees the first result raw through its id, and each value is escaped once |
| `WebhookRender.SingleTokenRender` | includes/api/poi/report.php:105-455 | a token between plain texts becomes its escaped value; the texts are kept |
| `WebhookRender.SingleTokenRenderAsWritten` | includes/api/poi/report.php:105-455 | as written, a lone token becomes its escaped value computed with `$eval` unset |
| `WebhookRender.LowerCaseIfEmptyFirst` | includes/api/poi/report.php:161-181 | a lower-case `if_empty` as the only token renders its second output as written, but tests its expression in `Render` |
| `WebhookRender.EvalCarriesToNextToken` | includes/api/poi/report.php:161-181 | an IF_EMPTY whose test holds leaves `$eval` true, and a lower-case `if_empty` after it shows its first output whatever it tests |
| `WebhookRender.NestedTokenRender` | includes/api/poi/report.php:105-455 | a nested token's value reaches the outer handler raw, and only the outer value is escaped |
| `TokenHandlers.Fallback` | includes/api/poi/report.php:153-158 | FALLBACK: too few arguments give ""; otherwise `expr` unless it is empty |
| `TokenHandlers.Choose` | includes/api/poi/report.php:166-180 | `ifTrue` when the test holds, else `ifFalse`, or "" when `ifFalse` is omitted |
| `TokenHandlers.StrPad` | includes/api/poi/report.php:283-293 | `str_pad`: a target length not above the text keeps it; an empty pad or a padding of `INT_MAX` bytes or more gives NULL (""); otherwise the text padded on one side to the length, with the pad repeated |
| `TokenHandlers.PadRun` | includes/api/poi/report.php:292 | padding is the pad string repeated, cut to length |
| `TokenHandlers.SubstrRange` | includes/api/poi/report.php:315-327 | PHP 7 `substr`'s byte range for every sign of start and length, FALSE out of range |
| `TokenHandlers.Substr` | includes/api/poi/report.php:315-327 | SUBSTRING never returns more than its input; FALSE becomes "" |
| `TokenHandlers.ParameterValue` | includes/api/poi/report.php:383-412 | missing param: ""; scalar: itself; list: comma join, or the 1-based entry in range, else "" |
| `TokenHandlers.FillLatLonTemplate` | includes/api/poi/report.php:268-274 | `{%LAT%}` and `{%LON%}` get the URL-encoded coordinates |
| `TokenHandlers.IconUrl` | includes/api/poi/report.php:342-381 | an icon needs two arguments, a `dark`/`light` variant and a `vector`/`raster` format |
| `TokenHandlers.ResolveIgnoresCase` | includes/api/poi/report.php:131 | token names are case-insensitive |
| `TokenHandlers.UnknownTokenIsEmpty` | includes/api/poi/report.php:130-131 | an unknown token stands for "" |
| `TokenHandlers.TooFewArgumentsIsEmpty` | includes/api/poi/report.php:153-429 | a handler given fewer than its minimum arguments yields "" |
| `TokenHandlers.EmptyTestsComplement` | includes/api/poi/report.php:161-181 | IF_EMPTY is IF_NOT_EMPTY with the outputs swapped, and tests for "" |
| `TokenHandlers.MissingElseIsEmpty` | includes/api/poi/report.php:166-200 | an omitted `ifFalse` yields "" |
| `TokenHandlers.ComparisonsPairUp` | includes/api/poi/report.php:183-225 | the six comparisons pair up by swapping outputs or operands; loose `==` is symmetric |
| `TokenHandlers.CompareTests` | includes/api/poi/report.php:205-222 | what each comparison tests: loose `==` or the order of `floatval` |
| `TokenHandlers.PadKeepsText` | includes/api/poi/report.php:283-293 | PAD_LEFT keeps the text as suffix and PAD_RIGHT as prefix, at the requested length; a padding of `INT_MAX` bytes or more gives "" |
| `TokenHandlers.PadDefaultsToSpace` | includes/api/poi/report.php:283-292 | with two arguments, PAD_LEFT and PAD_RIGHT pad with spaces |
| `TokenHandlers.SubstringBounded` | includes/api/poi/report.php:315-327 | SUBSTRING's result is no longer than its input; a start past the end gives "" |
| `TokenHandlers.LengthReadsBack` | includes/api/poi/report.php:245-249 | LENGTH's text reads back with `intval` as the byte count |
| `TokenHandlers.ParameterCountOfList` | includes/api/poi/report.php:414-429 | the count of a list parameter reads back as its length |
| `TokenHandlers.ParameterIndexWalksList` | includes/api/poi/report.php:396-402 | indices 1..count walk through a list parameter |
| `TokenHandlers.ParameterJoinSplits` | includes/api/poi/report.php:403-405 | the comma join splits back into the list |
| `TokenHandlers.ParameterScalarOrMissing` | includes/api/poi/report.php:388-428 | a missing parameter gives "" and count 0; a scalar gives itself and count 1 |
| `TokenHandlers.EvalAfter` | includes/api/poi/report.php:161-224 | only the conditionals change `$eval`; every other token leaves it as it was |
| `TokenHandlers.ValueFollowsEval` | includes/api/poi/report.php:161-224 | a conditional as written shows its first output exactly when the `$eval` it leaves is true |
| `TokenHandlers.ExactConditionalResetsEval` | includes/api/poi/report.php:161-224 | an upper-case conditional with enough arguments sets `$eval` regardless of the value it found |
| `TokenHandlers.AsWrittenAgrees` | includes/api/poi/report.php:131-430 | on an upper-case name, and on a REWARD_ICON only when both species tests agree, the code as written gives the intended value whatever `$eval` holds |
| `TokenHandlers.AsWrittenAgreesOnUpperCase` | includes/api/poi/report.php:131-430 | for upper-case names other than the icons, the code as written agrees with `Resolve` |
| `TokenHandlers.HandleExactName` | includes/api/poi/report.php:172-204 | with the exact name, the leaked test value and the species count matter only to the icons |
| `TokenHandlers.LowerCasePadLeft` | includes/api/poi/report.php:291 | as written, a lower-case `pad_left` pads on the right; as intended, on the left; both give "" for a padding of `INT_MAX` bytes or more |
| `TokenHandlers.LowerCaseIfEmpty` | includes/api/poi/report.php:172-180 | as written, a lower-case `if_empty` answers with the leaked value; as intended, it tests |
| `TokenHandlers.LowerCaseObjectiveParameter` | includes/api/poi/report.php:390 | as written, a lower-case `objective_parameter` reads reward parameters; as intended, objective ones |
| `TokenHandlers.TwoSpeciesIcon` | includes/api/poi/report.php:364-379 | two species: as written the first species icon shows, as intended the encounter icon |
| `TokenHandlers.SpeciesIconOnlyForOne` | includes/api/poi/report.php:364-379 | as intended, the species icon shows exactly when the reward holds one species |
| `PhpNumbers.IntVal` | includes/api/poi/report.php:289 | `intval` stays in the 64-bit range |
| `PhpNumbers.ToInt` | includes/api/poi/report.php:289 | a number too large for a double gives 0; otherwise it is rounded toward zero, kept when in range and saturated at `PHP_INT_MAX`/`PHP_INT_MIN` outside |
| `PhpNumbers.IntValOfPowerOfTen` | includes/api/poi/report.php:289 | `1e19` to `1e308`, with or without a minus, saturate; `1e309` and beyond are infinite and give 0 |
| `PhpNumbers.LooseEqualsIsEquivalenceLike` | includes/api/poi/report.php:206-209 | loose `==` is reflexive and symmetric |
| `PhpNumbers.LooseEqualsNonNumeric` | includes/api/poi/report.php:758 | against a non-numeric string, loose `==` is byte equality |
| `PhpNumbers.IntValOfNatString` | includes/api/poi/report.php:397 | the decimal text of a count reads back with `intval` |
| `PhpStrings.ReplaceAbsent` | includes/api/poi/report.php:442 | `str_replace` leaves a text without the search string unchanged |
| `PhpStrings.ReplaceFirstAt` | includes/api/poi/report.php:442 | the first occurrence is replaced and the scan resumes after it |
| `PhpStrings.ReplaceOnly` | includes/api/poi/report.php:442 | a single occurrence is replaced in place |
| `PhpStrings.Upper` | includes/api/poi/report.php:131 | `strtoupper` changes only ASCII letters, byte by byte |
| `PhpStrings.Lower` | includes/api/poi/report.php:259 | `strtolower` changes only ASCII letters, byte by byte |
| `PhpStrings.UpperIdempotent` | includes/api/poi/report.php:131 | upper-casing twice is upper-casing once |
| `PhpStrings.CaseFoldsAgree` | includes/api/poi/report.php:256-340 | lower-casing forgets the upper-casing and back |
| `PhpStrings.UrlEncode` | includes/api/poi/report.php:270-272 | `urlencode` writes only safe bytes, `+` and `%` |
| `PhpStrings.UrlDecodeEncode` | includes/api/poi/report.php:270-272 | `urldecode` undoes `urlencode` |
| `Utf8.Decode` | includes/api/poi/report.php:831 | decoding gives scalar values only |
| `Utf8.DecodeEncode` | includes/api/poi/report.php:831 | decoding the encoding of scalars gives them back |
| `Utf8.EncodeDecode` | includes/api/poi/report.php:831 | encoding the decoded text gives back the bytes |
| `Escaping.Hex4RoundTrip` | includes/api/poi/report.php:831 | a `\u` escape's four digits read back as the unit |
| `Escaping.JsonEncode` | includes/api/poi/report.php:831 | `json_encode` fails exactly on malformed UTF-8, and otherwise writes a quoted string |
| `Escaping.JsonUnescapeEscape` | includes/api/poi/report.php:831 | every body the encoder writes reads back as its code points |
| `Escaping.JsonEscapeRoundTrip` | includes/api/poi/report.php:831 | the JSON escaper's output reads back as the value byte for byte; malformed UTF-8 gives "" |
| `Escaping.JsonEscapePlain` | includes/api/poi/report.php:831 | plain printable ASCII passes through unchanged |
| `Escaping.JsonEscapeConcat` | includes/api/poi/report.php:831 | the escaper works piece by piece on well-formed text |
| `Escaping.DecodeConcat` | includes/api/poi/report.php:831 | decoding works piece by piece on well-formed text |
| `Escaping.JsonEscapeQuotes` | includes/api/poi/report.php:831 | `He said "hi"` becomes `He said \"hi\"` with no surrounding quotes |
| `Escaping.MarkdownRoundTrip` | includes/api/poi/report.php:858-860 | removing the backslashes gives the value back |
| `Escaping.MarkdownLength` | includes/api/poi/report.php:858-860 | the output is longer by the number of special characters |
| `Escaping.MarkdownPlain` | includes/api/poi/report.php:858-860 | text without `\ [ * _` or a backtick is unchanged |
| `Escaping.HtmlDecodeEscape` | includes/api/poi/report.php:861-863 | decoding the entities gives the bytes back |
| `Escaping.HtmlEscapeNoMarkup` | includes/api/poi/report.php:861-863 | the output holds no `<`, `>`, `"` or `'` |
| `Escaping.HtmlEscapeSafe` | includes/api/poi/report.php:861-863 | the HTML escaper's output has no markup and decodes to the value; malformed UTF-8 gives "" |
| `Telegram.ModeOfExact` | includes/api/poi/report.php:857-892 | only `md` selects Markdown and only `html` HTML; anything else is plain text, with no `parse_mode` and the identity escaper |
| `Telegram.ChatIdExact` | includes/api/poi/report.php:874 | a chat id is found exactly for `tg://send?to=-<digits>`, with an optional final newline |
| `Telegram.MessageFor` | includes/api/poi/report.php:874-892 | the message carries the rendered body, a chat id of the required form, and a parse mode only for `md`/`html` |
| `Delivery.JsonValueStaysInString` | includes/api/poi/report.php:823-832 | in a JSON hook, a token's value reads back exactly from the payload; malformed UTF-8 leaves "" |
| `Delivery.HtmlValueCarriesNoMarkup` | includes/api/poi/report.php:851-863 | in an HTML Telegram hook, a token's value carries no markup and decodes back |
| `Delivery.MarkdownValueReadsBack` | includes/api/poi/report.php:851-860 | in a Markdown Telegram hook, a token's value reads back after removing the backslashes |
| `Eligibility.AnyRequirementMatches` | includes/api/poi/report.php:757-766 | the loop with `break` finds a match exactly when some requirement matches |
| `Eligibility.SelectHooks` | includes/api/poi/report.php:741-782 | the hook loop selects exactly `EligibleHooks` |
| `Eligibility.EligibleHooksMembers` | includes/api/poi/report.php:741-782 | a hook fires exactly when it is configured and eligible |
| `Eligibility.EligibleHooksConcat` | includes/api/poi/report.php:741 | hooks are tested one at a time, in configuration order |
| `Eligibility.IsWhitelistExact` | includes/api/poi/report.php:758 | the loose comparison with "whitelist" is exact |
| `Eligibility.AxisModes` | includes/api/poi/report.php:757-781 | a whitelist needs a match; any other mode needs no match |
| `Eligibility.InactiveOrOutsideNeverFires` | includes/api/poi/report.php:742-751 | an inactive hook, or one whose geofence excludes the POI, never fires |
| `Eligibility.UnfilteredHookFires` | includes/api/poi/report.php:742-782 | an active hook without requirements fires inside its geofence |
| `ResearchMatching.CheckResearch` | includes/api/poi/report.php:589-648 | an accepted report has a type and array parameters for both parts; every rejection is 400 or 501 |
| `ResearchMatching.GivenIsKept` | includes/api/poi/report.php:475 | a component given directly is returned unchanged |
| `ResearchMatching.RealUserNeedsComponent` | includes/api/poi/report.php:475-481 | a logged-in user gets a component only by giving it directly; otherwise 400 `missing_fields` |
| `ResearchMatching.NoMatchTextNotDetermined` | includes/api/poi/report.php:486-511 | without a `match` text the result is FALSE |
| `ResearchMatching.MatchAlgoDefault` | includes/api/poi/report.php:488 | an unset `match_algo` behaves as 2 |
| `ResearchMatching.AlgorithmsKnown` | includes/api/poi/report.php:489-507 | objectives know algorithms 1 and 2, rewards only 2; others give NULL |
| `ResearchMatching.StatusOfEachResult` | includes/api/poi/report.php:618-647 | FALSE gives 400 `missing_fields`, NULL 501, a malformed component 400 `invalid_data` |
| `ResearchMatching.DirectReportAccepted` | includes/api/poi/report.php:589-648 | well-formed directly given components are accepted |
| `ResearchMatching.NonArrayRewardMissing` | includes/api/poi/report.php:635-637 | a reward that is not an array is rejected as `missing_fields` |
| `ResearchMatching.BuildStringMap` | includes/api/poi/report.php:538-553 | the loop builds `StringMapOf` the catalogue |
| `ResearchMatching.ChooseClosest` | includes/api/poi/report.php:558-573 | the chosen candidate is the first with the highest score, or none for an empty map |
| `ResearchMatching.FuzzyMatchCommonObjective` | includes/api/poi/report.php:529-574 | the method computes `FuzzyMatch` |
| `ResearchMatching.PutLookup` | includes/api/poi/report.php:540-546 | storing a key makes it read back the new value and leaves other keys alone |
| `ResearchMatching.StringMapShape` | includes/api/poi/report.php:538-553 | the map is empty exactly for an empty catalogue and holds only catalogue objectives |
| `ResearchMatching.LaterDuplicateWins` | includes/api/poi/report.php:538-553 | every display text is a key, holding the objective of the same or a later entry |
| `ResearchMatching.BestIndexIsFirstMax` | includes/api/poi/report.php:570-572 | the chosen index has the highest score and is the first to have it |
| `ResearchMatching.FuzzyMatchBest` | includes/api/poi/report.php:529-574 | the match is a catalogue objective whose text scores highest; none only for an empty catalogue |
| `ResearchMatching.EmptyCatalogueNotImplemented` | includes/api/poi/report.php:570-573 | fuzzy matching against an empty catalogue ends in the 501 answer |

## Left out

- Everything that is I/O:
  - the cURL POSTs to the hooks;
  - the database update;
  - the permission check and the `XHR::exitWith` answers, which the model
    represents as the values `Checked.Rejected(status, reason)`;
  - `determinePOI` and the POI lookup;
  - the check of research validity (`Research::isObjectiveValid`,
    `isRewardValid`).
- COORDS, LAT, LNG, OBJECTIVE, REWARD, I18N, TIME and SITEURL call code that
  is not part of this model (`Geo`, `Research`, `I18N`, `date`, `Config`).
  Their results are fields of `TokenHandlers.Context`. The coordinates
  arrive as the text PHP prints for them, with no floating-point formatting.
- `PhpNumbers.ToInt`: a finite number with a fraction or an exponent is
  truncated as an exact decimal, not first rounded to the nearest double.
  Texts with more than about 15 significant digits can therefore read back
  differently from PHP. Integer texts without a fraction are exact in both.
- `floatval` is an exact decimal. The float rounding of IF_LESS_THAN and
  its siblings is not modelled.
- The Theme classes of the icon tokens are functions of (format, variant,
  icon). The `setVariant` calls on them are not modelled as state.
- `similar_text`, the catalogue of common objectives and their display
  texts are parameters of the fuzzy matcher.
- `ResearchMatching.BestIndex` breaks score ties in favour of the first
  candidate. That is what PHP 8's stable `arsort` does; PHP 7's `arsort`
  does not promise an order among ties.
- `Research::matches` and geofence containment are predicate parameters of
  the hook filter.
- The random ids are a parameter. Lemmas about two tokens assume the two
  ids differ; a collision of two 128-bit random ids is not modelled.
- I18N language selection, icon set choice per hook, and the Telegram bot
  token decryption affect only I/O or external state and are left out.
- The Telegram hook reads its parse mode from a global inside the closure.
  The model passes the mode as an argument.
- `Escaping.JsonUnescape` reads only ASCII JSON text. The JSON escaper
  writes nothing else, so the round trip is complete. A parser that also
  accepts raw UTF-8 inside JSON strings is not modelled.

## Findings

| source | as written | input that shows it | evidently intended | confidence | as-written member | corrected member |
|---|---|---|---|---|---|---|
| includes/api/poi/report.php:291 | the switch upper-cases the name, but the pad side is chosen on the name as typed | `<%pad_left(7,3,0)%>` gives `700` | `007`, the same as `<%PAD_LEFT(7,3,0)%>` | high; not executed | `TokenHandlers.LowerCasePadLeft` | `TokenHandlers.PadKeepsText` |
| includes/api/poi/report.php:172-180 | for a lower-case `if_empty`, the inner switch sets no `$eval`, so the value left by the previous conditional (or null) decides | `<%if_empty(,yes,no)%>` as the first token gives `no` | `yes`, because the expression is empty | high; not executed | `WebhookRender.LowerCaseIfEmptyFirst` | `TokenHandlers.EmptyTestsComplement` |
| includes/api/poi/report.php:390 | a lower-case `objective_parameter` reads the reward parameters | `<%objective_parameter(type)%>` shows the reward's `type` | the objective's `type` | high; not executed | `TokenHandlers.LowerCaseObjectiveParameter` | `TokenHandlers.ParameterScalarOrMissing` |
| includes/api/poi/report.php:370 | `count($rewParams["species"] == 1)` counts a boolean, which PHP 7 counts as 1, so the test always passes | an encounter reward with species `[a, b]` shows `a`'s icon | the encounter icon unless there is exactly one species | high; not executed | `TokenHandlers.TwoSpeciesIcon` | `TokenHandlers.SpeciesIconOnlyForOne` |

`WebhookRender.ReplaceWebhookFields` models the code as written: it calls
`TokenHandlers.TokenValueAsWritten` and carries `$eval` from token to token
through `TokenHandlers.EvalAfter`. `WebhookRender.Render` is the corrected
engine, built on `TokenHandlers.Resolve`; the `Delivery` lemmas use it.
`WebhookRender.RenderAgreesAsWritten` shows the two render the same body
whenever every name is upper case and no REWARD_ICON meets a species list
whose two tests disagree.
