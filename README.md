# Image-batch analysis handler, modelled in Dafny

This project models the `POST /api/analyze` handler of a small Express server. The
handler takes a batch of uploaded images and sends them, with a fixed analysis prompt,
to a multimodal inference service. It then turns that service's reply into a
plain-text report. The network call is replaced by its outcome, an input value. What
remains is a deterministic map from (configured API key, uploaded files, upstream
outcome) to (HTTP status, JSON body, request sent upstream).

Modules, leaves first:

- `Wrappers` (`wrappers.dfy`): `Option` and `Result`.
- `JsRuntime` (`js_runtime.dfy`): thrown errors, V8's messages for converting an object that has no callable conversion method and for reading a property
  of `null`, and the text the catch-all branch makes of an error.
- `JsonValues` (`json.dfy`): JSON values as `JSON.parse` yields them, each object as
  its own properties in JavaScript property order. Also property access, truthiness,
  the string conversion `+=` applies, and `JSON.stringify`. The conversion throws on
  an object that has its own `toString` member, at any depth of an array.
- `Base64` (`base64.dfy`): the encoding Node's `buffer.toString("base64")` produces
  (section 4 of RFC 4648). A decoder is added as its inverse. It refuses text that
  no buffer encodes to: misplaced padding, or non-zero unused bits in a padded group.
- `DataUri` (`data_uri.dfy`): builds a base64 `data:` URI (section 3 of RFC 2397). A
  parser is added as its inverse.
- `AnalyzeRequest` (`analyze_request.dfy`): the image parts and the two-message request
  body. It also proves that the body carries every uploaded file, in order.
- `TextExtraction` (`text_extraction.dfy`): the reply-to-text decoder. It is stated
  once as functions (`DisplayText`), once as the nested loops the handler runs
  (`ExtractText`), and once without loops (`Joined(AllParts(...))`). Lemmas tie the
  three together.
- `AnalyzeHandler` (`analyze_handler.dfy`): the handler itself, with its early returns.

The handler's rules, as the model states them:

- If the key is absent or empty, the result is 500 `{error: "ARK_API_KEY 未配置"}`.
  This check comes first, and no request is built.
- Otherwise, a batch of fewer than 5 files is refused with 400. A missing file list
  counts as empty.
- Otherwise, the request is built and sent. A non-2xx reply is forwarded with its own
  status and `{error: <raw body>}`.
- A 2xx reply yields 200 `{text}`. The text comes from the extraction rules below.
- Anything thrown on the way gives 500 with the error's text. That covers an
  unparseable body, a rejected `fetch`, reading a property of `null`, and a `text`
  value that does not convert to a string.

The extraction rules:

- A string `output_text` wins.
- Otherwise the text is every `output_text` part with a truthy `text`, joined across
  `output` items and then their `content` parts.
- If that gives the empty string, `JSON.stringify` of the reply is used instead. So a
  `{text}` body is never empty.

## Model

| member | source | states |
|---|---|---|
| `AnalyzeHandler.Analyze` | server.js:15-90 | Missing or empty key gives 500 with the configuration error and sends nothing, whatever the files; with a key, fewer than 5 files (none when the list is missing) gives 400 and sends nothing; otherwise the request sent is `BuildRequest` of the files with `Bearer <key>`; a non-2xx status is forwarded with `{error: raw body}`; a rejected fetch, an unparseable body or a throwing extraction gives 500 with the error's text (the message, or the error's name when the message is empty: `JsRuntime.ErrorText`, server.js:88); a 2xx JSON reply gives 200 with `DisplayText`; every `{text}` body is non-empty and comes from a 2xx reply |
| `AnalyzeRequest.ImageParts` | server.js:34-37 | exactly one image part per uploaded file, in upload order, each the data URI of that file, as `DataUri.Build` (server.js:36) writes it: `data:<mimetype>;base64,<Base64 of the buffer>` |
| `AnalyzeRequest.BuildRequest` | server.js:39-48 | the body names the model and has exactly two messages: the system message holding the system prompt, then the user message whose content is the prompt text followed by exactly `ImageParts(files)`, one part per file (length 1 + number of files) |
| `AnalyzeRequest.ImagePartCarriesFile` | server.js:34-37 | an image part's URL parses and decodes back to the file's media type and every byte of its buffer |
| `AnalyzeRequest.ImagePartsCarryFiles` | server.js:34-37 | reading the files back out of the image parts gives the uploaded batch itself, in order |
| `AnalyzeRequest.RequestCarriesFiles` | server.js:39-48 | the images after the prompt in the user message of the request are exactly the uploaded files, in upload order |
| `DataUri.Parse` | server.js:36 | whatever a base64 `data:` URI parses into rebuilds that very URI, with comma-free data |
| `DataUri.ParseBuild` | server.js:36 | `data:<mimetype>;base64,<data>` with comma-free data parses back to that media type and data, whatever the media type holds |
| `Base64.Encode` | server.js:36 | the text has 4 characters per started group of 3 bytes, all from the Base64 alphabet except `=` padding in the last two positions |
| `Base64.DecodeEncode` | server.js:36 | decoding the Base64 text of a buffer gives back the buffer |
| `JsonValues.Lookup` | server.js:68-74 | property access finds a value exactly when some member has the key, and then it is the value of the last such member (in an object `JSON.parse` built, the only one) |
| `JsonValues.JsToString` | server.js:75 | a conversion fails only with the TypeError "Cannot convert object to primitive value"; an object fails exactly when it has its own `toString` member; an array of primitives always converts |
| `TextExtraction.OwnToStringThrows` | server.js:66-80 | for every reply without a string `output_text`: an `output_text` part anywhere in `output[].content[]` whose `text` is an object with its own `toString` member makes extraction throw; when every item and part before it reads cleanly, the error is the TypeError "Cannot convert object to primitive value" |
| `TextExtraction.FirstFailureDecides` | server.js:70-80 | when the elements before position k read cleanly and element k throws, the loop throws element k's error |
| `TextExtraction.PartsThrowAt` | server.js:73-77 | a part that fails the conversion, after parts that all read cleanly, makes the inner loop throw that TypeError |
| `TextExtraction.ItemsThrowAt` | server.js:70-80 | an item whose parts throw the conversion error, after items that all read cleanly, makes the outer loop throw that TypeError |
| `JsonValues.Stringify` | server.js:83 | the serialisation of any reply is non-empty and starts with `{` for an object, `[` for an array, `"` for a string |
| `TextExtraction.DisplayText` | server.js:66-84 | the text is never empty; a non-empty string `output_text` is the text whatever `output` holds; an empty collected text (an empty `output_text` included) falls back to the serialised reply; it throws exactly when collecting throws. Collecting is `TextExtraction.CollectedText` (server.js:66-80), over `TextExtraction.ItemText` per item (server.js:71-73: a `null` item throws, a non-array `content` adds nothing) and `TextExtraction.PartText` per part (server.js:73-75: a `null` part throws, an `output_text` part adds its truthy `text` converted to a string) |
| `TextExtraction.ExtractText` | server.js:66-84 | the accumulator loops over `output` items and their `content` parts, with early exit on the first throw (a `null` read or a failed conversion) and the final fallback, compute exactly `DisplayText` |
| `TextExtraction.AppendPartsText` | server.js:73-77 | the inner loop appends to the accumulator exactly the gathered text of the parts, or stops with the error of the first part that throws (a `null` part or a `text` that does not convert) |
| `TextExtraction.GatherAppend` | server.js:71-79 | the text over two runs of items (or parts) is the first run's text followed by the second's, with the first error winning |
| `TextExtraction.GatherFails` | server.js:71-79 | the loop throws exactly when some element throws |
| `TextExtraction.OtherPartIgnored` | server.js:74 | inserting a non-null part whose `type` is not `"output_text"` anywhere among the parts leaves the text unchanged |
| `TextExtraction.NonArrayContentIgnored` | server.js:72 | inserting a non-null item whose `content` is not an array anywhere among the items leaves the text unchanged |
| `TextExtraction.CollectedInItemOrder` | server.js:70-80 | without a string `output_text`, the collected text is the text of the first k items followed by that of the rest, for every k |
| `TextExtraction.PartsTextIsJoined` | server.js:73-77 | over readable parts (non-null, with a convertible `text`), the loop's text is the front-to-back join of each part's contribution |
| `TextExtraction.ItemsTextIsJoined` | server.js:70-80 | with every item and part readable, the text is the join of the contributions of all parts, across items and then parts |
| `TextExtraction.ItemsTextThrowsIff` | server.js:70-80 | the loops throw exactly when some item, or some part of an array `content`, is `null`, or such a part is an `output_text` part whose truthy `text` does not convert to a string |
| `TextExtraction.ExtractionFromOutput` | server.js:70-84 | without a string `output_text`, extraction fails exactly when some item or part cannot be read (a `null`, or a `text` that does not convert), and otherwise returns the joined `output_text` texts, or the serialised reply when they are empty |

## Left out

- The HTTP plumbing is not modelled: the `fetch` to the inference service (server.js:50-57), Express routing and `res.status`/`res.json`, static and `index.html` serving, and `app.listen`. Its results enter as inputs. The `Upstream` outcome gives the reply's status, raw text and parsed JSON, or the error of a rejected `fetch`.
- Multer's multipart parsing and its enforcement of the 20-file and 10 MiB limits are not modelled. The handler only ever sees batches within those limits, so `Analyze` requires them.
- Reading the reply body is not modelled. A failure of `response.text()` itself is not modelled either. The parse of a 2xx body by `response.json()` is an input: a JSON value, or the error it throws. The model does not tie it to the raw text.
- JsonValues.Json: numbers are integers. Fractional numbers, and integers of magnitude 10^21 or more (which JavaScript writes in exponent notation), are outside the model of the string conversion and `JSON.stringify`. So is the rounding that `JSON.parse` applies to large integers.
- JsonValues.Json: an object is given as its own properties in JavaScript property order, which is the order `JSON.parse` builds and `JSON.stringify` writes. The model takes that order as given. It does not derive it from the reply text, where integer-like keys such as "0" move first and a repeated key keeps its first position.
- JsonValues.Json: strings are sequences of Unicode scalar values. JavaScript strings are sequences of UTF-16 code units, so strings holding lone surrogates, and the `\uXXXX` escapes `JSON.stringify` writes for them, are outside the model.
- JsRuntime.NullAccess: the message, like that of `NotPrimitive`, is V8's wording as of Node 16.9. Older Node versions word the null-access message differently.
- The browser client (`public/app.js`) is not modelled. Its own `< 5` guard only mirrors the server check.
- The history store and the related operations are not modelled: per-user records, the retention cap, login, identity headers with their 401 responses, the history list/get/delete/export endpoints, and `{text, record}` success bodies. The handler modelled here has none of them. It checks no identity, keeps no record and answers `{text}`; the model follows the code.
- Concurrency is not modelled. The handler keeps no shared state, so there is nothing to interleave.
