/**
 * How a Telegram hook packages its message: the escaper chosen by the
 * hook's parse mode, the chat id read from the `tg://send?to=` target, and
 * the `parse_mode` field sent along with the text.
 */
module Telegram {
  import opened Wrappers
  import opened PhpNumbers
  import Escaping

  /** The three ways a Telegram body is escaped. */
  datatype ParseMode = Markdown | Html | PlainText

  /**
   * The `switch` on the hook's `parse-mode` option. A PHP `switch` compares
   * with the loose `==`.
   */
  function ModeOf(option: string): ParseMode
  {
    if LooseEquals(option, "md") then Markdown
    else if LooseEquals(option, "html") then Html
    else PlainText
  }

  /** The escaper the Telegram hook hands to the template engine. */
  function Escape(option: string, s: string): string
  {
    match ModeOf(option)
    case Markdown => Escaping.MarkdownEscape(s)
    case Html => Escaping.HtmlEscape(s)
    case PlainText => s
  }

  /** The `parse_mode` field of the message: set only for the two named modes. */
  function ParseModeField(option: string): Option<string>
  {
    match ModeOf(option)
    case Markdown => Some("Markdown")
    case Html => Some("HTML")
    case PlainText => None
  }

  lemma LabelsAreNotNumeric()
    ensures !IsNumeric("md") && !IsNumeric("html")
  {
    assert SpaceEnd("md", 0) == 0 && DigitEnd("md", 0) == 0;
    assert SpaceEnd("html", 0) == 0 && DigitEnd("html", 0) == 0;
  }

  /**
   * Since neither label is a numeric string, the loose comparison is exact:
   * only `md` gives Markdown and only `html` gives HTML; every other option
   * sends plain text without a `parse_mode`, and its values pass through the
   * escaper unchanged.
   */
  lemma ModeOfExact(option: string)
    ensures ModeOf(option) == Markdown <==> option == "md"
    ensures ModeOf(option) == Html <==> option == "html"
    ensures ParseModeField(option) == Some("Markdown") <==> option == "md"
    ensures ParseModeField(option) == Some("HTML") <==> option == "html"
    ensures ParseModeField(option).None? <==> option != "md" && option != "html"
    ensures option != "md" && option != "html" ==> forall s :: Escape(option, s) == s
  {
    LabelsAreNotNumeric();
    LooseEqualsNonNumeric(option, "md");
    LooseEqualsNonNumeric(option, "html");
  }

  // ---------------------------------------------------------------------------
  // Chat id: the pattern ^tg://send\?to=(-\d+)$
  // ---------------------------------------------------------------------------

  const TargetPrefix := "tg://send?to="

  predicate IsAsciiDigit(c: char)
  {
    '0' <= c <= '9'
  }

  /** A minus sign followed by at least one decimal digit. */
  predicate IsChatIdText(g: string)
  {
    |g| >= 2 && g[0] == '-' && forall i :: 1 <= i < |g| ==> IsAsciiDigit(g[i])
  }

  /**
   * The group `preg_match` captures for the chat id, or `None` when the
   * target does not match (the message then carries a null chat id). As in
   * PCRE without the D modifier, `$` also matches before one final newline.
   */
  function ChatId(target: string): (r: Option<string>)
  {
    if |target| >= |TargetPrefix| && target[..|TargetPrefix|] == TargetPrefix then
      var rest := target[|TargetPrefix|..];
      var g := if rest != [] && rest[|rest| - 1] == '\n' then rest[..|rest| - 1] else rest;
      if IsChatIdText(g) then Some(g) else None
    else None
  }

  /** The chat id is found exactly for `tg://send?to=-<digits>`, optionally followed by one newline. */
  lemma ChatIdExact(target: string, g: string)
    ensures ChatId(target) == Some(g) <==>
            IsChatIdText(g) && (target == TargetPrefix + g || target == TargetPrefix + g + "\n")
  {
    var n := |TargetPrefix|;
    if IsChatIdText(g) && target == TargetPrefix + g {
      assert target[..n] == TargetPrefix && target[n..] == g;
    }
    if IsChatIdText(g) && target == TargetPrefix + g + "\n" {
      assert target[..n] == TargetPrefix && target[n..] == g + "\n";
      assert (g + "\n")[..|g|] == g;
    }
    if ChatId(target) == Some(g) {
      var rest := target[n..];
      assert target == TargetPrefix + rest;
      if rest != [] && rest[|rest| - 1] == '\n' {
        assert rest == g + "\n";
      } else {
        assert rest == g;
      }
    }
  }

  lemma ChatIdFound(target: string)
    ensures ChatId(target).Some? ==>
              IsChatIdText(ChatId(target).value) &&
              (target == TargetPrefix + ChatId(target).value || target == TargetPrefix + ChatId(target).value + "\n")
  {
    if ChatId(target).Some? {
      ChatIdExact(target, ChatId(target).value);
    }
  }

  /** The JSON object posted to the Bot API, one field per key. */
  datatype Message = Message(chatId: Option<string>, text: string, disableWebPagePreview: bool,
                             disableNotification: bool, parseMode: Option<string>)

  /**
   * The message for a rendered body: the text as rendered, a chat id only
   * when the target has the required form, and a parse mode only for `md`
   * and `html`.
   */
  function MessageFor(target: string, body: string, option: string, noPreview: bool, silent: bool): (m: Message)
    ensures m.text == body
    ensures m.chatId.Some? ==>
              IsChatIdText(m.chatId.value) &&
              (target == TargetPrefix + m.chatId.value || target == TargetPrefix + m.chatId.value + "\n")
    ensures m.parseMode == Some("Markdown") <==> option == "md"
    ensures m.parseMode == Some("HTML") <==> option == "html"
    ensures m.parseMode.None? <==> option != "md" && option != "html"
  {
    ModeOfExact(option);
    ChatIdFound(target);
    Message(ChatId(target), body, noPreview, silent, ParseModeField(option))
  }
}
