/**
 * The template engine together with the escaper of each hook type: what a
 * resolved token value becomes in a JSON payload and in a Telegram HTML or
 * Markdown message.
 */
module Delivery {
  import opened Wrappers
  import opened TokenScanner
  import opened TokenHandlers
  import opened WebhookRender
  import Utf8
  import Escaping
  import Telegram

  /** The escaper of a Telegram hook, as a function value for the template engine. */
  function TelegramEscaper(option: string): string -> string
  {
    s => Telegram.Escape(option, s)
  }

  /**
   * In a JSON hook, a token standing in a payload is replaced by text that a
   * JSON parser reads back as exactly the token's value (the value's code
   * points), so a value cannot end the surrounding JSON string or add
   * fields; a value that is not well-formed UTF-8 leaves nothing behind.
   */
  lemma JsonValueStaysInString(ctx: Context, a: string, name: string, argText: Option<string>, b: string,
                               ids: IdSource)
    requires NoLess(a) && NoLess(b) && NoEquals(a) && NoEquals(b)
    requires PlainName(name) && PlainArgs(argText)
    ensures var v := Resolve(ctx, name, ArgList(argText));
            var e := Escaping.JsonEscape(v);
            && Render(ctx, a + TagText(name, argText) + b, Escaping.JsonEscape, ids) == a + e + b
            && (Utf8.Valid(v) ==> Escaping.JsonUnescape(e) == Utf8.Decode(v))
            && (!Utf8.Valid(v) ==> e == "")
  {
    SingleTokenRender(ctx, a, name, argText, b, Escaping.JsonEscape, ids);
    Escaping.JsonEscapeRoundTrip(Resolve(ctx, name, ArgList(argText)));
  }

  /**
   * In a Telegram HTML message, a token's value arrives without `<`, `>` or
   * quotes, and decoding the entities gives the value back.
   */
  lemma HtmlValueCarriesNoMarkup(ctx: Context, a: string, name: string, argText: Option<string>, b: string,
                                 ids: IdSource)
    requires NoLess(a) && NoLess(b) && NoEquals(a) && NoEquals(b)
    requires PlainName(name) && PlainArgs(argText)
    ensures var v := Resolve(ctx, name, ArgList(argText));
            var e := Escaping.HtmlEscape(v);
            && Render(ctx, a + TagText(name, argText) + b, TelegramEscaper("html"), ids) == a + e + b
            && (forall i :: 0 <= i < |e| ==> !Escaping.IsMarkup(e[i]))
            && (Utf8.Valid(v) ==> Escaping.HtmlDecode(e) == v)
  {
    var v := Resolve(ctx, name, ArgList(argText));
    SingleTokenRender(ctx, a, name, argText, b, TelegramEscaper("html"), ids);
    Telegram.ModeOfExact("html");
    assert TelegramEscaper("html")(v) == Escaping.HtmlEscape(v);
    Escaping.HtmlEscapeSafe(v);
  }

  /**
   * In a Telegram Markdown message, a token's value arrives with one
   * backslash before each special character, and removing them gives the
   * value back.
   */
  lemma MarkdownValueReadsBack(ctx: Context, a: string, name: string, argText: Option<string>, b: string,
                               ids: IdSource)
    requires NoLess(a) && NoLess(b) && NoEquals(a) && NoEquals(b)
    requires PlainName(name) && PlainArgs(argText)
    ensures var v := Resolve(ctx, name, ArgList(argText));
            var e := Escaping.MarkdownEscape(v);
            && Render(ctx, a + TagText(name, argText) + b, TelegramEscaper("md"), ids) == a + e + b
            && Escaping.MarkdownUnescape(e) == v
            && |e| == |v| + Escaping.CountMarkdownSpecial(v)
  {
    var v := Resolve(ctx, name, ArgList(argText));
    SingleTokenRender(ctx, a, name, argText, b, TelegramEscaper("md"), ids);
    Telegram.ModeOfExact("md");
    assert TelegramEscaper("md")(v) == Escaping.MarkdownEscape(v);
    Escaping.MarkdownRoundTrip(v);
    Escaping.MarkdownLength(v);
  }
}
