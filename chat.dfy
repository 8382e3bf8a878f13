/** The OpenAI chat-completion endpoint as the scripts use it: a prompt goes
    out and the reply's first choice carries the text. The endpoint is not
    modelled; a `Translator` stands for whatever reply it gives. */
module Chat {
  import opened Wrappers
  import opened JsText

  /** The outcome of one request: the request failed (network error, error
      status, malformed body), or it succeeded and the first choice's
      `message.content` is a string (`Some`) or missing/null (`None`). */
  datatype ChatReply = ChatFailed | ChatOk(content: Option<string>)

  /** The reply to a request translating `text` into language `lang`. */
  type Translator = (string, string) -> ChatReply

  /** The translated text a reply yields, or `text` itself when the request
      failed or the reply carries no content: the reply's content, trimmed. */
  function ReplyText(reply: ChatReply, text: string): (r: string)
    ensures reply.ChatFailed? || reply.content.None? ==> r == text
    ensures reply.ChatOk? && reply.content.Some? ==> r == Trim(reply.content.value)
  {
    match reply
    case ChatOk(Some(c)) => Trim(c)
    case _ => text
  }

  /** The fallback is total: a translation is the original text or a reply
      with no white space at either end. */
  lemma ReplyTextShape(reply: ChatReply, text: string)
    ensures var r := ReplyText(reply, text);
      r == text || (r == [] || (!IsSpace(r[0]) && !IsSpace(r[|r| - 1])))
  {
    if reply.ChatOk? && reply.content.Some? {
      TrimShape(reply.content.value);
    }
  }
}
