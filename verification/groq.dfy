/**
 The result handling of `getGroqResponse`: the chat-completion request is
 an opaque collaborator; what is modelled is how its answer is read, parsed,
 and turned into either a structured value, the raw text, or a failure.
 */
module Groq {
  import opened Options
  import opened JsonValues

  /** A completion message; `content` is null in the API when absent. */
  datatype Message = Message(content: Option<string>)

  /** One completion choice; its `message` may be missing. */
  datatype Choice = Choice(message: Option<Message>)

  /** The resolved value of the chat-completion request. `choices` is
      `None` when the envelope carries no choices array, so that indexing
      it throws a TypeError. */
  datatype Completion = Completion(choices: Option<seq<Choice>>)

  /** The chat-completion request either resolves with an envelope or
      rejects (network error, API error, missing credential). */
  datatype CallOutcome = Returned(completion: Completion) | CallFailed

  /** The chat-completion collaborator, as a function of the user turn
      (the system prompt and call parameters are fixed). */
  type Llm = string -> CallOutcome

  /** What ends up in `structuredResponse`: the parsed JSON value, or the
      raw content when it did not parse. */
  datatype Structured = Parsed(value: Json) | Raw(text: string)

  /** `getGroqResponse` resolves with a structured value or rejects. */
  datatype GroqResult = Answered(structured: Structured) | GroqFailed

  /** `choices[0]?.message?.content || ''`: the first choice's content, or
      the empty string when the first choice, its message or its content is
      missing, or the content is itself empty (both are falsy). */
  function FirstContent(choices: seq<Choice>): (r: string)
    ensures r == "" <==>
      || |choices| == 0
      || choices[0].message.None?
      || choices[0].message.value.content.None?
      || choices[0].message.value.content.value == ""
    ensures r != "" ==> choices[0].message == Some(Message(Some(r)))
  {
    if |choices| == 0 then ""
    else match choices[0].message
      case None => ""
      case Some(m) => match m.content
        case None => ""
        case Some(text) => text
  }

  /** `try { return JSON.parse(response) } catch { return response }`:
      a parse failure is not an error, it degrades to the raw text. */
  function ParseOrRaw(text: string, parse: Parser): (r: Structured)
    ensures r.Parsed? <==> parse(text).Some?
    ensures r.Parsed? ==> parse(text) == Some(r.value)
    ensures r.Raw? ==> r.text == text
  {
    match parse(text)
    case Some(v) => Parsed(v)
    case None => Raw(text)
  }

  /** `getGroqResponse(content)`. It rejects exactly when the request
      rejects or the envelope has no choices array; parse failures never
      make it reject. */
  function GetGroqResponse(content: string, llm: Llm, parse: Parser): (r: GroqResult)
    ensures r.GroqFailed? <==>
      llm(content).CallFailed? || llm(content).completion.choices.None?
    ensures r.Answered? ==>
      var text := FirstContent(llm(content).completion.choices.value);
      && (r.structured.Raw? <==> parse(text).None?)
      && (r.structured.Raw? ==> r.structured.text == text)
      && (r.structured.Parsed? ==> parse(text) == Some(r.structured.value))
  {
    match llm(content)
    case CallFailed => GroqFailed
    case Returned(completion) =>
      match completion.choices
      case None => GroqFailed
      case Some(choices) => Answered(ParseOrRaw(FirstContent(choices), parse))
  }

  /** A first choice without message or content degrades to the empty raw
      string rather than to a failure, because the empty text never
      parses. */
  lemma MissingContentIsEmptyRaw(content: string, llm: Llm, parse: Parser)
    requires RejectsEmpty(parse)
    requires llm(content).Returned? && llm(content).completion.choices.Some?
    requires var choices := llm(content).completion.choices.value;
      || |choices| == 0
      || choices[0].message.None?
      || choices[0].message.value.content.None?
    ensures GetGroqResponse(content, llm, parse) == Answered(Raw(""))
  {
  }
}
