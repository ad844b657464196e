/**
  The `/upload` and `/preview` request handlers as decisions over their
  inputs. The multipart parser's output, the UTF-8 decoding of the HTML
  upload and the renderer's reply are parameters; the result records the
  HTML posted to the renderer (if any) and the reply sent to the client.
 */
module Handlers {
  import opened Wrappers
  import opened Base64
  import opened ImageIndex
  import opened ImgRewrite

  /** `req.files`: the uploaded files by field name, each field absent when
      the request carried none. */
  datatype Fields = Fields(htmlFile: Option<seq<UploadedFile>>, imageFiles: Option<seq<UploadedFile>>)

  /** A parsed request; `files` is absent when the request had no files. */
  datatype Request = Request(files: Option<Fields>)

  datatype Body = Text(text: string) | Binary(bytes: seq<byte>)

  /** The reply: its status, the headers the handler sets itself, and the body. */
  datatype Response = Response(status: int, contentType: Option<string>,
                               disposition: Option<string>, contentLength: Option<nat>, body: Body)

  /** What handling one request did: the HTML posted to the renderer, if
      any, and the reply. */
  datatype Exchange = Exchange(posted: Option<string>, response: Response)

  /** The renderer's answer to the POST: a rejected `fetch`, or a reply with
      its status and its body as read by `arrayBuffer()` (absent when
      reading it failed). */
  datatype Upstream = Rejected | Replied(status: int, body: Option<seq<byte>>)

  predicate IsOk(status: int) { 200 <= status <= 299 }

  /** The guard both handlers open with. */
  predicate HtmlMissing(req: Request) {
    req.files.None? || req.files.value.htmlFile.None? || |req.files.value.htmlFile.value| == 0
  }

  function TextReply(status: int, text: string): Response {
    Response(status, None, None, None, Text(text))
  }

  const BadRequest: Response := TextReply(400, "No HTML file uploaded.")

  /** `req.files['imageFiles'] || []`. */
  function ImageFiles(req: Request): seq<UploadedFile> {
    if req.files.None? || req.files.value.imageFiles.None? then [] else req.files.value.imageFiles.value
  }

  /** The first HTML upload, decoded, with its image references inlined. */
  function InlinedHtml(req: Request, utf8: seq<byte> -> string): string
    requires !HtmlMissing(req)
  {
    Rewrite(utf8(req.files.value.htmlFile.value[0].buffer), IndexOf(ImageFiles(req)))
  }

  /** How the upload handler answers once the renderer has replied. */
  function Relay(up: Upstream): (r: Response)
    ensures IsOk(r.status) <==> up.Replied? && IsOk(up.status) && up.body.Some?
    ensures up.Replied? && !IsOk(up.status) ==> r.status == up.status && r.body.Text?
    ensures up.Rejected? ==> r.status == 500
    ensures up.Replied? && IsOk(up.status) && up.body.None? ==> r.status == 500
    ensures r.body.Binary? ==> r.status == 200
                               && r.disposition == Some("attachment; filename=\"converted.pdf\"")
    ensures r.body.Binary? <==> IsOk(r.status)
    ensures r.body.Binary? ==> r.body.bytes == up.body.value
                                && r.contentLength == Some(|r.body.bytes|)
                                && r.contentType == Some("application/pdf")
  {
    match up
    case Rejected => TextReply(500, "Internal Server Error")
    case Replied(status, body) =>
      if !IsOk(status) then TextReply(status, "❌ Failed to generate PDF")
      else match body
        case None => TextReply(500, "Internal Server Error")
        case Some(pdf) =>
          Response(200, Some("application/pdf"), Some("attachment; filename=\"converted.pdf\""),
                   Some(|pdf|), Binary(pdf))
  }

  /** `POST /upload`: guard, inline, post to the renderer, relay its reply. */
  function HandleUpload(req: Request, utf8: seq<byte> -> string, render: string -> Upstream): (x: Exchange)
    ensures x.posted.None? <==> HtmlMissing(req)
    ensures HtmlMissing(req) ==> x.response == BadRequest
    ensures !HtmlMissing(req) ==> x.posted == Some(InlinedHtml(req, utf8))
                                  && x.response == Relay(render(x.posted.value))
  {
    if HtmlMissing(req) then Exchange(None, BadRequest)
    else
      var html := InlinedHtml(req, utf8);
      Exchange(Some(html), Relay(render(html)))
  }

  const PreviewPrefix: string :=
    "<!DOCTYPE html><html><head><meta charset='utf-8'><title>Preview</title><style>"
    + "body{background:#f8f9fa;margin:0;padding:0;display:flex;justify-content:center;"
    + "align-items:center;min-height:100vh;} .a4-preview{background:#fff;border:1px solid #e0e0e0;"
    + "border-radius:8px;width:210mm;height:297mm;box-shadow:0 0 8px #e0e0e0;overflow:auto;"
    + "padding:0.5em;} </style></head><body><div class='a4-preview'>"

  const PreviewSuffix: string := "</div></body></html>"

  /** The preview shell around an HTML fragment. */
  function PreviewPage(html: string): (page: string)
    ensures |page| == |PreviewPrefix| + |html| + |PreviewSuffix|
    ensures page[..|PreviewPrefix|] == PreviewPrefix
    ensures page[|PreviewPrefix|..|page| - |PreviewSuffix|] == html
    ensures page[|page| - |PreviewSuffix|..] == PreviewSuffix
  {
    PreviewPrefix + html + PreviewSuffix
  }

  /** Recovers the fragment from a preview page. */
  function PreviewFragment(page: string): Option<string> {
    var p, s := |PreviewPrefix|, |PreviewSuffix|;
    if |page| >= p + s && page[..p] == PreviewPrefix && page[|page| - s..] == PreviewSuffix
    then Some(page[p..|page| - s])
    else None
  }

  /** The shell adds a fixed frame and changes nothing inside it. */
  lemma PreviewFragmentOfPage(html: string)
    ensures PreviewFragment(PreviewPage(html)) == Some(html)
  {
    var page := PreviewPage(html);
    var p, s := |PreviewPrefix|, |PreviewSuffix|;
    assert page[..p] == PreviewPrefix;
    assert page[|page| - s..] == PreviewSuffix;
    assert page[p..|page| - s] == html;
  }

  /** `POST /preview`: guard, inline, wrap; the renderer is never called. */
  function HandlePreview(req: Request, utf8: seq<byte> -> string): (x: Exchange)
    ensures x.posted.None?
    ensures HtmlMissing(req) <==> x.response == BadRequest
    ensures !HtmlMissing(req) ==> x.response.status == 200
                                  && x.response.body == Text(PreviewPage(InlinedHtml(req, utf8)))
  {
    if HtmlMissing(req) then Exchange(None, BadRequest)
    else Exchange(None, TextReply(200, PreviewPage(InlinedHtml(req, utf8))))
  }
}
