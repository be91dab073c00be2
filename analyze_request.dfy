/** The request the `/api/analyze` handler sends upstream: one `input_image` part per
    uploaded file, and a two-message payload (system instructions, then the user prompt
    followed by the images). */
module AnalyzeRequest {
  import opened Wrappers
  import Base64
  import DataUri

  /** Multer's limits on the `images` field: at most 20 files of at most 10 MiB each. */
  const MaxFiles: nat := 20
  const MaxFileSize: nat := 10 * 1024 * 1024

  /** One file multer kept in memory: its declared media type and its bytes. */
  datatype UploadedFile = UploadedFile(mimetype: string, buffer: seq<Base64.byte>)

  /** What multer lets through to the handler. */
  predicate WithinUploadLimits(files: seq<UploadedFile>)
  {
    |files| <= MaxFiles && forall i :: 0 <= i < |files| ==> |files[i].buffer| <= MaxFileSize
  }

  const Model: string := "doubao-seed-1.6-thinking"

  const SystemPrompt: string :=
    "你是一个寻找朋友的客户，对于个人的心理和外在表现，有非常强的洞察，也有一套很厉害的识别朋友匹配度的技巧！擅长于输出简短但有效的分析和建议。"

  const UserPrompt: string :=
    "请基于这些朋友圈照片或截图，输出简短但有效的分析与建议，目标是帮助用户与对方成为好朋友。请按以下结构输出：\n1) 性格特征（外向/内向倾向、社交偏好、情绪风格）\n2) 画像总结（兴趣、生活方式、价值观倾向）\n3) 互动策略（聊天切入点、话题建议）\n4) 风险提示（可能的误读与谨慎建议）\n5) 行动清单（3-5 条可执行步骤）\n6) 推荐话术（2-3 条个性化开场白）"

  /** A content part: `{type: "input_text", text}` or `{type: "input_image", image_url}`. */
  datatype ContentPart = InputText(text: string) | InputImage(imageUrl: string)

  datatype Role = System | User

  datatype Message = Message(role: Role, content: seq<ContentPart>)

  /** The JSON body posted upstream: `{model, input}`. */
  datatype RequestBody = RequestBody(model: string, input: seq<Message>)

  /** The `input_image` part for one file: its bytes as a base64 `data:` URI. */
  function ImagePart(file: UploadedFile): ContentPart
  {
    InputImage(DataUri.Build(file.mimetype, Base64.Encode(file.buffer)))
  }

  /** `files.map(...)`: the image parts, in upload order. */
  function ImageParts(files: seq<UploadedFile>): (parts: seq<ContentPart>)
    ensures |parts| == |files|
    ensures forall i :: 0 <= i < |files| ==> parts[i] == ImagePart(files[i])
  {
    seq(|files|, i requires 0 <= i < |files| => ImagePart(files[i]))
  }

  /** The request body for a batch of files. */
  function BuildRequest(files: seq<UploadedFile>): (body: RequestBody)
    ensures body.model == Model
    ensures |body.input| == 2
    ensures body.input[0] == Message(System, [InputText(SystemPrompt)])
    ensures body.input[1].role == User
    ensures |body.input[1].content| == 1 + |files|
    ensures body.input[1].content[0] == InputText(UserPrompt)
    ensures body.input[1].content[1..] == ImageParts(files)
  {
    RequestBody(Model, [
      Message(System, [InputText(SystemPrompt)]),
      Message(User, [InputText(UserPrompt)] + ImageParts(files))
    ])
  }

  /** Reads a file back out of an image part: the media type and the decoded bytes of
      its `data:` URI. */
  function FileOfPart(part: ContentPart): Option<UploadedFile>
  {
    if !part.InputImage? then None
    else match DataUri.Parse(part.imageUrl)
      case None => None
      case Some(p) =>
        match Base64.Decode(p.data)
        case None => None
        case Some(bytes) => Some(UploadedFile(p.mediatype, bytes))
  }

  /** The files a request body carries: the images of its user message, after the prompt. */
  function FilesOfRequest(body: RequestBody): Option<seq<UploadedFile>>
  {
    if |body.input| != 2 || body.input[1].content == [] then None
    else FilesOfParts(body.input[1].content[1..])
  }

  function FilesOfParts(parts: seq<ContentPart>): Option<seq<UploadedFile>>
  {
    if parts == [] then Some([])
    else match (FileOfPart(parts[0]), FilesOfParts(parts[1..]))
      case (Some(f), Some(rest)) => Some([f] + rest)
      case _ => None
  }

  /** Each image part carries its file whole: its media type and every byte. */
  lemma ImagePartCarriesFile(file: UploadedFile)
    ensures FileOfPart(ImagePart(file)) == Some(file)
  {
    var data := Base64.Encode(file.buffer);
    Base64.EncodeHasNoComma(file.buffer);
    DataUri.ParseBuild(file.mimetype, data);
    Base64.DecodeEncode(file.buffer);
  }

  /** The image parts carry the uploaded files exactly, one part per file, in upload order. */
  lemma {:induction false} ImagePartsCarryFiles(files: seq<UploadedFile>)
    ensures FilesOfParts(ImageParts(files)) == Some(files)
  {
    if files != [] {
      var parts := ImageParts(files);
      assert FileOfPart(parts[0]) == Some(files[0]) by { ImagePartCarriesFile(files[0]); }
      assert FilesOfParts(parts[1..]) == Some(files[1..]) by {
        ImagePartsCarryFiles(files[1..]);
        assert parts[1..] == ImageParts(files[1..]);
      }
      assert files == [files[0]] + files[1..];
    }
  }

  /** The request sent upstream holds every uploaded file, in upload order, after the
      prompt: reading the images back out of the body gives the batch itself. */
  lemma RequestCarriesFiles(files: seq<UploadedFile>)
    ensures FilesOfRequest(BuildRequest(files)) == Some(files)
  {
    var body := BuildRequest(files);
    assert body.input[1].content[1..] == ImageParts(files);
    ImagePartsCarryFiles(files);
  }
}
