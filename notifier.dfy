/** Notification text shaping (src/notifier.ts): the title chosen for an event, whitespace
    normalisation, truncation with an ellipsis, and the text of the editor toast. Message
    localisation (`vscode.l10n.t`) is the identity here. */
module Notifier {
  import opened Wrappers
  import opened Text
  import opened Types

  const TitleMaxChars: int := 120
  const MessageMaxChars: int := 140
  const Ellipsis: char := '\U{2026}'

  /** `truncateWithEllipsis`: text that fits, an empty text or a non-positive limit is
      returned as it is; otherwise the text is cut so that, ellipsis included, it is exactly
      `maxChars` long. */
  function TruncateWithEllipsis(value: string, maxChars: int): (r: string)
    ensures value == [] || maxChars <= 0 || |value| <= maxChars ==> r == value
    ensures maxChars >= 1 ==> |r| <= maxChars
    ensures r != value ==> |r| == maxChars && r == value[..maxChars - 1] + [Ellipsis]
  {
    if value == [] || maxChars <= 0 || |value| <= maxChars then value
    else if maxChars == 1 then [Ellipsis]
    else value[..maxChars - 1] + [Ellipsis]
  }

  /** `replace(/\s+/g, ' ').trim()`. */
  function NormalizeText(value: string): string {
    Trim(Collapse(value))
  }

  /** Normalised text is the words of the input joined by single spaces: it neither starts
      nor ends with whitespace, and its only whitespace is single spaces between words. */
  lemma NormalizeTextSpec(value: string)
    ensures NormalizeText(value) == JoinWords(Words(value))
    ensures Tight(NormalizeText(value)) && SingleSpaced(NormalizeText(value))
    ensures NormalizeText(value) == [] <==> IsBlank(value)
  {
    TrimOfCollapse(value);
    WordsAreProper(value);
    JoinWordsTight(Words(value));
    CollapseOfTrim(value);
    TrimSpec(value);
    WordsBlank(value);
  }

  /** The built-in title of each (source, event) pair. */
  function DefaultTitle(source: Source, event: EventType): string {
    match (source, event)
    case (Codex, TurnComplete) => "Codex Turn Complete"
    case (Codex, ApprovalRequested) => "Codex Approval Requested"
    case (Claude, SubagentStop) => "Claude Subagent Complete"
    case (Claude, Stop) => "Claude Turn Complete"
    case (OpenCode, TurnComplete) => "OpenCode Turn Complete"
    case (OpenCode, ApprovalRequested) => "OpenCode Approval Requested"
    case _ => "Agent Event"
  }

  /** `titleForEvent`: a title that is not blank wins, trimmed; otherwise the built-in title
      of the pair. */
  function TitleForEvent(p: Payload): (r: string)
    ensures p.title.Some? && Trim(p.title.value) != [] ==> r == Trim(p.title.value)
    ensures !(p.title.Some? && Trim(p.title.value) != []) ==> r == DefaultTitle(p.source, p.event)
  {
    if p.title.Some? && Trim(p.title.value) != [] then Trim(p.title.value)
    else DefaultTitle(p.source, p.event)
  }

  /** The title is never empty and has no whitespace at either end. */
  lemma TitleIsTight(p: Payload)
    ensures TitleForEvent(p) != [] && Tight(TitleForEvent(p))
  {
    if p.title.Some? && Trim(p.title.value) != [] {
      TrimSpec(p.title.value);
    } else {
      DefaultTitleShape(p.source, p.event);
    }
  }

  /** Every built-in title starts with a capital letter and ends with a lower-case one. */
  lemma DefaultTitleShape(source: Source, event: EventType)
    ensures var t := DefaultTitle(source, event);
      t != [] && 'A' <= t[0] <= 'Z' && 'a' <= t[|t| - 1] <= 'z'
  {
  }

  datatype Rendered = Rendered(title: string, message: string)

  /** `renderNotificationContent`: the normalised title and message, each truncated to its
      limit. */
  function RenderNotificationContent(p: Payload): (r: Rendered)
    ensures |r.title| <= TitleMaxChars && |r.message| <= MessageMaxChars
  {
    Rendered(
      TruncateWithEllipsis(NormalizeText(TitleForEvent(p)), TitleMaxChars),
      TruncateWithEllipsis(NormalizeText(p.message), MessageMaxChars))
  }

  /** The rendered message is empty exactly when the event's message is blank, and the
      rendered title is never empty. */
  lemma RenderedEmptiness(p: Payload)
    ensures RenderNotificationContent(p).message == [] <==> IsBlank(p.message)
    ensures RenderNotificationContent(p).title != []
  {
    NormalizeTextSpec(p.message);
    TitleIsTight(p);
    var t := TitleForEvent(p);
    NormalizeTextSpec(t);
    assert !IsBlank(t) by {
      assert !IsWhitespace(t[0]);
    }
  }

  /** The toast shows the title alone when there is no message, else `title: message`. */
  function ToastText(r: Rendered): (s: string)
    ensures r.message == [] ==> s == r.title
    ensures r.message != [] ==> |s| == |r.title| + 2 + |r.message|
    ensures r.message != [] ==> s[..|r.title|] == r.title && s[|r.title|..] == ": " + r.message
  {
    if r.message != [] then r.title + ": " + r.message else r.title
  }
}
