/** Reading the chat-completion reply: `data.choices?.[0]?.message?.content
    || "No response."` in SendMessage (src/App.tsx). */
module ChatResponse {
  import opened Optional

  /** `choices[i].message`; a missing or null `content` is None. */
  datatype ChoiceMessage = ChoiceMessage(content: Option<string>)

  /** `choices[i]`; a missing or null `message` is None. */
  datatype Choice = Choice(message: Option<ChoiceMessage>)

  /** The parsed body. JNull is a `null` body, on which `data.choices`
      throws; any other value may or may not have a `choices` array, whose
      entries may be null. */
  datatype Json = JNull | JValue(choices: Option<seq<Option<Choice>>>)

  /** What the network call ended with: it threw (fetch or JSON parsing
      failed), or it gave a parsed body. */
  datatype Reply = Threw | Responded(body: Json)

  /** What SendMessage resolves to, or that it threw. */
  datatype SendResult = SendThrew | Sent(message: string)

  const NoResponse: string := "No response."

  /** The optional chain `choices?.[0]?.message?.content`. */
  function Content(body: Json): (c: Option<string>)
    requires body.JValue?
    ensures c.Some? <==>
      body.choices.Some? && |body.choices.value| > 0 && body.choices.value[0].Some? &&
      body.choices.value[0].value.message.Some? && body.choices.value[0].value.message.value.content.Some?
    ensures c.Some? ==> c == body.choices.value[0].value.message.value.content
  {
    match body.choices
    case None => None
    case Some(choices) =>
      if choices == [] then None
      else match choices[0]
        case None => None
        case Some(choice) =>
          match choice.message
          case None => None
          case Some(m) => m.content
  }

  predicate HasText(content: Option<string>)
  {
    content.Some? && content.value != ""
  }

  /** The message SendMessage returns for a reply: the content when it is a
      non-empty string, "No response." when any link of the chain is missing
      or the content is empty; a null body throws. */
  function ReadReply(reply: Reply): (r: SendResult)
    ensures r.SendThrew? <==> reply.Threw? || reply.body.JNull?
    ensures r.Sent? ==> r.message != ""
    ensures r.Sent? ==>
      (HasText(Content(reply.body)) && r.message == Content(reply.body).value) ||
      (!HasText(Content(reply.body)) && r.message == NoResponse)
  {
    match reply
    case Threw => SendThrew
    case Responded(body) =>
      if body.JNull? then SendThrew
      else
        var content := Content(body);
        Sent(if HasText(content) then content.value else NoResponse)
  }

  /** The expected reply shape, `{"choices":[{"message":{"content": text}}, ...]}`,
      yields the first choice's content, whatever the other choices are. */
  lemma WellFormedReply(reply: Reply, text: string, others: seq<Option<Choice>>)
    requires text != ""
    requires reply == Responded(JValue(Some([Some(Choice(Some(ChoiceMessage(Some(text)))))] + others)))
    ensures ReadReply(reply) == Sent(text)
  {
  }

  /** Each broken link of the chain falls back to "No response.". */
  lemma BrokenChainFallsBack(others: seq<Option<Choice>>)
    ensures ReadReply(Responded(JValue(None))) == Sent(NoResponse)
    ensures ReadReply(Responded(JValue(Some([])))) == Sent(NoResponse)
    ensures ReadReply(Responded(JValue(Some([None] + others)))) == Sent(NoResponse)
    ensures ReadReply(Responded(JValue(Some([Some(Choice(None))] + others)))) == Sent(NoResponse)
    ensures ReadReply(Responded(JValue(Some([Some(Choice(Some(ChoiceMessage(None))))] + others)))) == Sent(NoResponse)
    ensures ReadReply(Responded(JValue(Some([Some(Choice(Some(ChoiceMessage(Some("")))))] + others)))) == Sent(NoResponse)
  {
  }
}
