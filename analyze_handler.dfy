/** The `POST /api/analyze` handler, with the upstream call replaced by its outcome: from
    the configured API key, the uploaded files and what the upstream service answered,
    it decides the HTTP status and JSON body, and which request (if any) goes upstream. */
module AnalyzeHandler {
  import opened Wrappers
  import opened JsonValues
  import opened JsRuntime
  import opened AnalyzeRequest
  import opened TextExtraction

  /** The smallest batch the handler accepts. */
  const MinFiles: nat := 5

  const MissingKeyMessage: string := "ARK_API_KEY 未配置"
  const TooFewFilesMessage: string := "请上传 5 张及以上照片或截图"

  /** The JSON body of the response: `{error}` or `{text}`. */
  datatype Body = ErrorBody(error: string) | TextBody(text: string)

  datatype Response = Response(status: int, body: Body)

  /** What `response.json()` makes of a 2xx reply: a JSON value, or the error it throws. */
  datatype Payload = Parsed(data: Json) | Unparseable(error: JsError)

  /** The outcome of the upstream call: a reply with its status, its body as text and its
      body as JSON; or the error a rejected `fetch` throws. */
  datatype Upstream = Reply(status: int, text: string, payload: Payload) | Unreachable(error: JsError)

  /** The request that goes upstream: its `Authorization` header and its JSON body. */
  datatype Outbound = Outbound(authorization: string, body: RequestBody)

  /** `response.ok`. */
  predicate IsOk(status: int)
  {
    200 <= status <= 299
  }

  /** `!apiKey` is false: the key is set and non-empty. */
  predicate KeyConfigured(apiKey: Option<string>)
  {
    apiKey.Some? && apiKey.value != ""
  }

  /** `req.files || []`. */
  function FileList(files: Option<seq<UploadedFile>>): seq<UploadedFile>
  {
    if files.Some? then files.value else []
  }

  /** The handler. The key is checked before anything else; a batch under five files is
      refused before any request is built; an upstream failure status is forwarded with
      the raw body; a reply is turned into its text, which is never empty; and anything
      thrown on the way ends in a 500 carrying the error's text. */
  method Analyze(apiKey: Option<string>, files: Option<seq<UploadedFile>>, upstream: Upstream)
    returns (response: Response, sent: Option<Outbound>)
    requires files.Some? ==> WithinUploadLimits(files.value)
    ensures !KeyConfigured(apiKey) ==>
              response == Response(500, ErrorBody(MissingKeyMessage)) && sent == None
    ensures KeyConfigured(apiKey) && |FileList(files)| < MinFiles ==>
              response == Response(400, ErrorBody(TooFewFilesMessage)) && sent == None
    ensures KeyConfigured(apiKey) && |FileList(files)| >= MinFiles ==>
              sent == Some(Outbound("Bearer " + apiKey.value, BuildRequest(FileList(files))))
    ensures sent.Some? && upstream.Unreachable? ==>
              response == Response(500, ErrorBody(ErrorText(upstream.error)))
    ensures sent.Some? && upstream.Reply? && !IsOk(upstream.status) ==>
              response == Response(upstream.status, ErrorBody(upstream.text))
    ensures sent.Some? && upstream.Reply? && IsOk(upstream.status) && upstream.payload.Unparseable? ==>
              response == Response(500, ErrorBody(ErrorText(upstream.payload.error)))
    ensures sent.Some? && upstream.Reply? && IsOk(upstream.status) && upstream.payload.Parsed? ==>
              var extracted := DisplayText(upstream.payload.data);
              response == if extracted.Success? then Response(200, TextBody(extracted.value))
                          else Response(500, ErrorBody(ErrorText(extracted.error)))
    ensures response.body.TextBody? ==>
              response.status == 200 && |response.body.text| > 0 && sent.Some? &&
              upstream.Reply? && IsOk(upstream.status)
  {
    if apiKey.None? || apiKey.value == "" {
      return Response(500, ErrorBody(MissingKeyMessage)), None;
    }
    var batch := if files.Some? then files.value else [];
    if |batch| < MinFiles {
      return Response(400, ErrorBody(TooFewFilesMessage)), None;
    }
    var body := BuildRequest(batch);
    sent := Some(Outbound("Bearer " + apiKey.value, body));
    match upstream {
      case Unreachable(e) =>
        response := Response(500, ErrorBody(ErrorText(e)));
      case Reply(status, text, payload) =>
        if !IsOk(status) {
          response := Response(status, ErrorBody(text));
          return;
        }
        match payload {
          case Unparseable(e) =>
            response := Response(500, ErrorBody(ErrorText(e)));
          case Parsed(data) =>
            var extracted := ExtractText(data);
            match extracted {
              case Success(t) => response := Response(200, TextBody(t));
              case Failure(e) => response := Response(500, ErrorBody(ErrorText(e)));
            }
        }
    }
  }
}
