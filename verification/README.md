# dl-ocr-backend: request handling and OCR text clean-up

The service has one endpoint, `POST /process-image`. It accepts an uploaded image of a
driving licence. It runs OCR on the image, collapses the whitespace in the recognised
text, and sends that text to a chat-completion model. It then answers with the text
and the model's answer parsed as JSON, or the raw answer when it does not parse.

This project models the logic of its own that the service has:

- `Whitespace` (`whitespace.dfy`): the clean-up `text.replace(/\s+/g, ' ')`, as
  `Normalize` on `seq<char>`. `IsWs` is the ECMAScript `\s` class. A two-state scan
  (`ScanFrom`) is an independent reference definition, and `NormalizeScan` is the
  one-pass loop form.
- `Groq` (`groq.dfy`): how `getGroqResponse` reads the completion envelope. It takes
  the first choice's content, defaulting to `""`. It then parses that text as JSON and
  falls back to the raw text. It fails when the request rejects or the envelope has no
  `choices` array.
- `ImageEndpoint` (`endpoint.dfy`): the handler `ProcessImage` as a pure function. The
  OCR engine, the chat-completion request and `JSON.parse` are function parameters.
  It returns the HTTP response and the ordered trace of collaborator calls it made, so
  "OCR and the model are not consulted" means an empty trace.
- `Options` and `JsonValues` (`json.dfy`): `Option`, a JSON value type, and `JSON.parse`
  as an oracle `string -> Option<Json>`. `RejectsEmpty` states that the empty text does
  not parse.

## Model

| member | source | states |
|---|---|---|
| Whitespace.IsWs | src/index.js:71 | the `\s` class has only Basic Multilingual Plane members, and within ASCII it is exactly TAB, LF, VT, FF, CR and SP |
| Whitespace.Normalize | src/index.js:71 | the cleaned text is never longer than the OCR text, and is empty exactly when the OCR text is empty |
| Whitespace.NormalizeCollapses | src/index.js:71 | the cleaned text never holds two whitespace characters in a row, and its only whitespace character is the space |
| Whitespace.CollapsedIsFixpoint | src/index.js:71 | a text with single spaces as its only whitespace comes out of the clean-up unchanged |
| Whitespace.FixpointIffCollapsed | src/index.js:71 | the clean-up leaves a text unchanged if and only if it has no adjacent whitespace and no whitespace other than the space |
| Whitespace.NormalizeIdempotent | src/index.js:71 | cleaning the text twice gives the same result as cleaning it once |
| Whitespace.NormalizeKeepsNonWs | src/index.js:71 | the non-whitespace characters of the output are exactly those of the input, in the same order |
| Whitespace.NormalizeKeepsEdges | src/index.js:71 | nothing is trimmed: the output starts (ends) with a space exactly when the input starts (ends) with whitespace |
| Whitespace.NormalizeIsScan | src/index.js:71 | the clean-up equals the left-to-right scan that emits one space for the first whitespace of each run and copies every other character |
| Whitespace.NormalizeScan | src/index.js:71 | a single pass over the text with a "previous character was whitespace" flag computes the cleaned text |
| Whitespace.NormalizeAppend | src/index.js:71 | no run crosses a boundary that is followed by non-whitespace: the two sides are cleaned independently |
| Whitespace.NormalizeAppendAfterNonWs | src/index.js:71 | no run crosses a boundary that is preceded by non-whitespace: the two sides are cleaned independently |
| Whitespace.NormalizeRun | src/index.js:71 | a maximal whitespace run of any length between two other texts becomes exactly one space |
| Groq.FirstContent | src/index.js:39 | the answer text is `""` exactly when the first choice, its message or its content is missing or the content is empty; otherwise it is the first choice's content |
| Groq.ParseOrRaw | src/index.js:41-46 | the result is the parsed value exactly when the text parses, and otherwise the raw text itself |
| Groq.GetGroqResponse | src/index.js:25-51 | the call fails exactly when the request rejects or the envelope has no choices array; a parse failure gives the raw first content, never a failure |
| Groq.MissingContentIsEmptyRaw | src/index.js:39-45 | a missing first choice, message or content gives the raw empty string, because the empty text does not parse |
| ImageEndpoint.StartsWith | src/index.js:65 | `startsWith` holds exactly when the string is the prefix followed by some rest, compared character for character (so case-sensitively) |
| ImageEndpoint.Accepted | src/index.js:58-67 | an upload passes validation exactly when a file is present and its mimetype is "image/" followed by any subtype, the empty one included |
| ImageEndpoint.ProcessImage | src/index.js:56-84 | no file gives 400 "No file uploaded"; a mimetype not starting with "image/" gives 400 "Uploaded file is not an image"; the trace is empty exactly on these rejections; an OCR failure leaves a trace of the one OCR call and the model is never called; once OCR answers, the trace is the OCR call (language "eng") followed by one model call carrying the normalised OCR text; the status is 200, 400 or 500; every 500 is exactly `{error: "Server error"}`; a 200 carries the normalised OCR text as `extractedText` |
| ImageEndpoint.RejectionIgnoresCollaborators | src/index.js:58-67 | on a rejected upload the response and trace do not depend on the OCR engine, the model or the parser, and the status is 400 |
| ImageEndpoint.MimetypeCheckIsExact | src/index.js:64-67 | worked example only: "Image/png" and "image" are rejected as not an image, and "image/png" reaches OCR (the general rule is the contract of `Accepted`) |
| ImageEndpoint.ServerErrorIffCollaboratorFails | src/index.js:69-83 | the status is 500 exactly when the upload is accepted and OCR rejects, the model request rejects, or its envelope has no choices array |
| ImageEndpoint.StructuredResponseIsParsedOrRaw | src/index.js:39-79 | when OCR and the model answer, the status is 200; `structuredResponse` is the parsed value when the first content parses and the raw content when it does not |
| ImageEndpoint.MissingContentYieldsEmptyString | src/index.js:39-45 | with no first choice, message or content, the response is 200 with the normalised text and `structuredResponse` equal to `""` |
| ImageEndpoint.ExtractedTextIsNormal | src/index.js:71-77 | a successful response's `extractedText` has no adjacent whitespace, only spaces as whitespace, and is unchanged by normalising it again |

## Left out

- Express setup, CORS, multer in-memory storage, dotenv and `app.listen` (src/index.js:1-16, 86-88): framework plumbing. Errors multer raises before the handler runs, such as a file under another field name, are not modelled.
- Tesseract recognition (src/index.js:70): an external library. It is the `Ocr` parameter, and its result metadata other than `text` is dropped.
- The Groq client, its call parameters and the system prompt (src/index.js:11, 19, 25-37): a network call and constant data. The request is the `Llm` parameter, a function of the user turn.
- `JSON.parse` internals: it is the `Parser` oracle. JSON numbers are reals, not IEEE-754 doubles.
- `console.error` logging, async/await and concurrency between requests: there is no shared state between requests.
- Strings are sequences of Unicode code points, while JavaScript strings are UTF-16 code units. Every `\s` code point lies in the Basic Multilingual Plane, so matching is unaffected.
- The completion envelope is limited to a present or absent `choices` array of choices, with optional message and content. A `null` array element, or content that is a non-string value, is not modelled.
- Serialisation by `res.json`: a body is a datatype value. On the wire, `Parsed(Str(s))` and `Raw(s)` look the same.
