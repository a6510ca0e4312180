/**
 The `POST /process-image` handler as a pure function. The OCR engine, the
 chat-completion request and `JSON.parse` are parameters; the handler
 returns the HTTP response together with the trace of the collaborator
 calls it made, in order, so that "not consulted" is an empty trace.
 */
module ImageEndpoint {
  import opened Options
  import opened JsonValues
  import opened Groq
  import Whitespace

  /** The multipart upload of field `image`, buffered in memory. */
  datatype UploadedFile = UploadedFile(mimetype: string, buffer: seq<bv8>)

  /** The OCR engine either yields the recognised text or rejects. */
  datatype OcrOutcome = Recognized(text: string) | OcrFailed

  /** The OCR engine as a function of the image bytes and language code. */
  type Ocr = (seq<bv8>, string) -> OcrOutcome

  /** A call to an external collaborator, with its arguments. */
  datatype Call = Recognize(image: seq<bv8>, lang: string) | Complete(content: string)

  /** The JSON body: `{error}` or `{extractedText, structuredResponse}`. */
  datatype Body =
    | ErrorBody(error: string)
    | ResultBody(extractedText: string, structuredResponse: Structured)

  datatype Response = Response(status: int, body: Body)

  /** The response sent and the collaborator calls made to produce it. */
  datatype Exchange = Exchange(response: Response, calls: seq<Call>)

  const NoFileMessage := "No file uploaded"
  const NotImageMessage := "Uploaded file is not an image"
  const ServerErrorMessage := "Server error"
  const ImagePrefix := "image/"
  const OcrLanguage := "eng"

  /** `s.startsWith(prefix)`: exact, case-sensitive comparison; it holds
      exactly when `s` is `prefix` followed by some rest. */
  function StartsWith(s: string, prefix: string): (b: bool)
    ensures b <==> exists rest :: s == prefix + rest
  {
    var b := |prefix| <= |s| && s[..|prefix|] == prefix;
    assert b ==> s == prefix + s[|prefix|..];
    b
  }

  /** The upload passes both checks, made in this order: a file is present,
      and its mimetype is "image/" followed by anything (even nothing). */
  function Accepted(file: Option<UploadedFile>): (b: bool)
    ensures b <==> file.Some? && exists subtype :: file.value.mimetype == ImagePrefix + subtype
  {
    file.Some? && StartsWith(file.value.mimetype, ImagePrefix)
  }

  /** The generic 500 answer; no detail of the failure reaches the caller. */
  const ServerError := Response(500, ErrorBody(ServerErrorMessage))

  /** The handler. Validation failures answer 400 before any collaborator is
      called; a rejection by OCR or by `getGroqResponse` answers the generic
      500; otherwise 200 with the normalised OCR text, which is also exactly
      the text sent to the chat-completion request. */
  function ProcessImage(file: Option<UploadedFile>, ocr: Ocr, llm: Llm, parse: Parser): (x: Exchange)
    ensures x.calls == [] <==> !Accepted(file)
    ensures file.None? ==> x.response == Response(400, ErrorBody(NoFileMessage))
    ensures file.Some? && !Accepted(file) ==>
      x.response == Response(400, ErrorBody(NotImageMessage))
    ensures x.response.status in {200, 400, 500}
    ensures x.response.status != 200 <==> x.response.body.ErrorBody?
    ensures x.response.status == 500 ==> x.response == ServerError
    ensures Accepted(file) && ocr(file.value.buffer, OcrLanguage).OcrFailed? ==>
      x.calls == [Recognize(file.value.buffer, OcrLanguage)]
    ensures Accepted(file) && ocr(file.value.buffer, OcrLanguage).Recognized? ==>
      x.calls == [Recognize(file.value.buffer, OcrLanguage),
                  Complete(Whitespace.Normalize(ocr(file.value.buffer, OcrLanguage).text))]
    ensures x.response.status == 200 ==>
      && Accepted(file)
      && ocr(file.value.buffer, OcrLanguage).Recognized?
      && x.response.body.extractedText
         == Whitespace.Normalize(ocr(file.value.buffer, OcrLanguage).text)
      && x.calls == [Recognize(file.value.buffer, OcrLanguage),
                     Complete(x.response.body.extractedText)]
  {
    match file
    case None => Exchange(Response(400, ErrorBody(NoFileMessage)), [])
    case Some(f) =>
      if !StartsWith(f.mimetype, ImagePrefix) then
        Exchange(Response(400, ErrorBody(NotImageMessage)), [])
      else
        var recognize := Recognize(f.buffer, OcrLanguage);
        match ocr(f.buffer, OcrLanguage)
        case OcrFailed => Exchange(ServerError, [recognize])
        case Recognized(text) =>
          var cleaned := Whitespace.Normalize(text);
          var calls := [recognize, Complete(cleaned)];
          match GetGroqResponse(cleaned, llm, parse)
          case GroqFailed => Exchange(ServerError, calls)
          case Answered(structured) =>
            Exchange(Response(200, ResultBody(cleaned, structured)), calls)
  }

  // ---------------------------------------------------------------------
  // Properties

  /** A rejected upload gets the same answer whatever the collaborators
      would have done: they are never consulted. */
  lemma RejectionIgnoresCollaborators(file: Option<UploadedFile>,
                                      ocr1: Ocr, llm1: Llm, parse1: Parser,
                                      ocr2: Ocr, llm2: Llm, parse2: Parser)
    requires !Accepted(file)
    ensures ProcessImage(file, ocr1, llm1, parse1) == ProcessImage(file, ocr2, llm2, parse2)
    ensures ProcessImage(file, ocr1, llm1, parse1).response.status == 400
  {
  }

  /** The mimetype check is case-sensitive and needs the slash. */
  lemma MimetypeCheckIsExact(buffer: seq<bv8>, ocr: Ocr, llm: Llm, parse: Parser)
    ensures ProcessImage(Some(UploadedFile("Image/png", buffer)), ocr, llm, parse).response
            == Response(400, ErrorBody(NotImageMessage))
    ensures ProcessImage(Some(UploadedFile("image", buffer)), ocr, llm, parse).response
            == Response(400, ErrorBody(NotImageMessage))
    ensures ProcessImage(Some(UploadedFile("image/png", buffer)), ocr, llm, parse).calls
            != []
  {
    assert !StartsWith("Image/png", ImagePrefix) by {
      assert "Image/png"[0] != ImagePrefix[0];
    }
    assert StartsWith("image/png", ImagePrefix) by {
      assert "image/png"[..6] == ImagePrefix;
    }
  }

  /** A 500 arises exactly from a collaborator failure: the OCR engine
      rejects, the chat-completion request rejects, or its envelope has no
      choices array. */
  lemma ServerErrorIffCollaboratorFails(file: Option<UploadedFile>, ocr: Ocr, llm: Llm, parse: Parser)
    ensures ProcessImage(file, ocr, llm, parse).response.status == 500 <==>
      && Accepted(file)
      && var seen := ocr(file.value.buffer, OcrLanguage);
         || seen.OcrFailed?
         || llm(Whitespace.Normalize(seen.text)).CallFailed?
         || llm(Whitespace.Normalize(seen.text)).completion.choices.None?
  {
  }

  /** When the first choice's content parses, `structuredResponse` is the
      parsed value; when it does not, the request still succeeds with the
      raw content. */
  lemma StructuredResponseIsParsedOrRaw(file: Option<UploadedFile>, ocr: Ocr, llm: Llm, parse: Parser,
                                        text: string, choices: seq<Choice>)
    requires Accepted(file)
    requires ocr(file.value.buffer, OcrLanguage) == Recognized(text)
    requires llm(Whitespace.Normalize(text)) == Returned(Completion(Some(choices)))
    ensures var x := ProcessImage(file, ocr, llm, parse);
      && x.response.status == 200
      && x.response.body.extractedText == Whitespace.Normalize(text)
      && (parse(FirstContent(choices)).Some? ==>
            x.response.body.structuredResponse == Parsed(parse(FirstContent(choices)).value))
      && (parse(FirstContent(choices)).None? ==>
            x.response.body.structuredResponse == Raw(FirstContent(choices)))
  {
  }

  /** A missing first choice, message or content yields 200 with the empty
      string as `structuredResponse`, not an error. */
  lemma MissingContentYieldsEmptyString(file: Option<UploadedFile>, ocr: Ocr, llm: Llm, parse: Parser,
                                        text: string, choices: seq<Choice>)
    requires RejectsEmpty(parse)
    requires Accepted(file)
    requires ocr(file.value.buffer, OcrLanguage) == Recognized(text)
    requires llm(Whitespace.Normalize(text)) == Returned(Completion(Some(choices)))
    requires |choices| == 0 || choices[0].message.None? || choices[0].message.value.content.None?
    ensures ProcessImage(file, ocr, llm, parse).response
            == Response(200, ResultBody(Whitespace.Normalize(text), Raw("")))
  {
    MissingContentIsEmptyRaw(Whitespace.Normalize(text), llm, parse);
  }

  /** The `extractedText` of a success is already in normal form: no two
      whitespace characters in a row, only spaces as whitespace, and
      normalising it again changes nothing. */
  lemma ExtractedTextIsNormal(file: Option<UploadedFile>, ocr: Ocr, llm: Llm, parse: Parser)
    requires ProcessImage(file, ocr, llm, parse).response.status == 200
    ensures var t := ProcessImage(file, ocr, llm, parse).response.body.extractedText;
      Whitespace.Collapsed(t) && Whitespace.Normalize(t) == t
  {
    var seen := ocr(file.value.buffer, OcrLanguage);
    Whitespace.NormalizeCollapses(seen.text);
    Whitespace.NormalizeIdempotent(seen.text);
  }
}
