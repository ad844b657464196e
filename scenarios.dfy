/**
  One upload followed end to end: the document `<p>hi</p><img src="a.png">`
  with an image `a.png` of type `image/png` whose bytes are the text
  `PNGDATA`, sent to `/upload` against a renderer that answers with a fixed
  PDF, and to `/preview`.
 */
module Scenarios {
  import opened Wrappers
  import opened Text
  import opened Base64
  import opened ImageIndex
  import opened ImgRewrite
  import opened Handlers

  const PngData: seq<byte> := [80, 78, 71, 68, 65, 84, 65]
  const Png: UploadedFile := UploadedFile("a.png", "image/png", PngData)
  const PngUrl: string := "data:image/png;base64,UE5HREFUQQ=="

  lemma LastGroup(b: seq<byte>)
    requires b == [65]
    ensures Encode(b) == "QQ=="
  {
    assert SextetChar(16) == 'Q';
  }

  lemma MiddleGroup(b: seq<byte>)
    requires b == [68, 65, 84, 65]
    ensures Encode(b) == "REFUQQ=="
  {
    assert SextetChar(17) == 'R' && SextetChar(4) == 'E' && SextetChar(5) == 'F' && SextetChar(20) == 'U';
    LastGroup(b[3..]);
  }

  lemma PngDataBase64(b: seq<byte>)
    requires b == [80, 78, 71, 68, 65, 84, 65]
    ensures Encode(b) == "UE5HREFUQQ=="
  {
    assert b[0] / 4 == 20 && (b[0] % 4) * 16 + b[1] / 16 == 4;
    assert (b[1] % 16) * 4 + b[2] / 64 == 57 && b[2] % 64 == 7;
    assert SextetChar(20) == 'U' && SextetChar(4) == 'E' && SextetChar(57) == '5' && SextetChar(7) == 'H';
    MiddleGroup(b[3..]);
  }

  lemma PngUrlText(mime: string, payload: string)
    requires mime == "image/png" && payload == "UE5HREFUQQ=="
    ensures "data:" + mime + ";base64," + payload == PngUrl
  {
  }

  /** The stored value is the PNG bytes as a data URL. */
  lemma PngDataUrl(f: UploadedFile)
    requires f == Png
    ensures DataUrl(f) == PngUrl
  {
    assert MimeOf(f) == "image/png";
    PngDataBase64(f.buffer);
    PngUrlText(MimeOf(f), Encode(f.buffer));
  }

  /** The index holds the one image under its name. */
  lemma PngIndex()
    ensures IndexOf([Png]) == map["a.png" := PngUrl]
  {
    assert [Png][..0] == [];
    assert IndexOf([Png]) == map[Png.originalname := DataUrl(Png)];
    PngDataUrl(Png);
  }

  lemma TagAccepted(s: string)
    requires s == "<img src=\"a.png\">"
    ensures Accepts(s, Span(5, 15, 17))
  {
    assert CiMatchAt(s, 0, "<img") && CiMatchAt(s, 5, "src=");
  }

  lemma TagNoLaterSrc(s: string)
    requires s == "<img src=\"a.png\">"
    ensures forall q :: 5 < q <= |s| - 4 ==> !CiMatchAt(s, q, "src=")
  {
    forall q | 5 < q <= |s| - 4 ensures !CiMatchAt(s, q, "src=") {
      assert "src="[0] == 's' && s[q] in "rc=\"a.png\">";
    }
  }

  lemma TagMatches()
    ensures MatchPrefix("<img src=\"a.png\">") == Some(Span(5, 15, 17))
  {
    var s := "<img src=\"a.png\">";
    TagAccepted(s);
    TagNoLaterSrc(s);
    MatchWhenLastSrc(s, Span(5, 15, 17));
  }

  lemma TagParts(s: string)
    requires s == "<img src=\"a.png\">" && Accepts(s, Span(5, 15, 17))
    ensures var m := MatchOf(s, Span(5, 15, 17)); m.pre == " " && m.src == "a.png" && m.post == ""
  {
  }

  lemma TagText(pre: string, url: string, post: string)
    requires pre == " " && post == ""
    ensures "<img" + pre + "src=\"" + url + "\"" + post + ">" == "<img src=\"" + url + "\">"
  {
    assert "<img" + pre + "src=\"" == "<img src=\"";
    assert "\"" + post + ">" == "\">";
  }

  lemma TagCallback(m: Match)
    requires m.pre == " " && m.src == "a.png" && m.post == ""
    ensures Render(Img(m), ExactLookup(map["a.png" := PngUrl]))
            == "<img src=\"" + PngUrl + "\">"
  {
    assert ExactLookup(map["a.png" := PngUrl])(m.src) == Some(PngUrl);
    assert Render(Img(m), ExactLookup(map["a.png" := PngUrl]))
           == "<img" + m.pre + "src=\"" + PngUrl + "\"" + m.post + ">";
    TagText(m.pre, PngUrl, m.post);
  }

  lemma TagRewritten(s: string)
    requires s == "<img src=\"a.png\">"
    ensures Rewrite(s, map["a.png" := PngUrl]) == "<img src=\"" + PngUrl + "\">"
  {
    TagMatches();
    RewriteWholeMatch(s, Span(5, 15, 17), ExactLookup(map["a.png" := PngUrl]));
    TagParts(s);
    TagCallback(MatchOf(s, Span(5, 15, 17)));
  }

  /** No `<img` starts inside the paragraph. */
  lemma ParagraphHasNoTag(plain: string, tag: string)
    requires plain == "<p>hi</p>" && tag == "<img src=\"a.png\">"
    ensures forall i :: 0 <= i < |plain| ==> !CiMatchAt(plain + tag, i, "<img")
  {
    var html := plain + tag;
    forall i | 0 <= i < |plain| ensures !CiMatchAt(html, i, "<img") {
      assert "<img"[0] == '<' && "<img"[1] == 'i';
      if i == 0 || i == 5 { assert html[i + 1] == plain[i + 1]; }
      else { assert html[i] == plain[i]; }
    }
  }

  /** The paragraph is copied and the image reference is inlined. */
  lemma DocumentRewritten(html: string)
    requires html == "<p>hi</p><img src=\"a.png\">"
    ensures Rewrite(html, IndexOf([Png])) == "<p>hi</p>" + ("<img src=\"" + PngUrl + "\">")
  {
    var plain, tag := "<p>hi</p>", "<img src=\"a.png\">";
    assert html == plain + tag;
    ParagraphHasNoTag(plain, tag);
    PngIndex();
    var images := map["a.png" := PngUrl];
    assert Rewrite(html, IndexOf([Png])) == RewriteWith(plain + tag, ExactLookup(images));
    RewritePlainPrefix(plain, tag, ExactLookup(images));
    TagRewritten(tag);
    assert RewriteWith(tag, ExactLookup(images)) == Rewrite(tag, images);
  }

  /** `/upload`: the renderer receives the inlined document, and the client
      receives exactly the renderer's PDF bytes with their count as
      `Content-Length`. */
  lemma UploadScenario(html: UploadedFile, utf8: seq<byte> -> string, render: string -> Upstream, pdf: seq<byte>)
    requires utf8(html.buffer) == "<p>hi</p><img src=\"a.png\">"
    requires forall h :: render(h) == Replied(200, Some(pdf))
    ensures var x := HandleUpload(Request(Some(Fields(Some([html]), Some([Png])))), utf8, render);
      && x.posted == Some("<p>hi</p>" + ("<img src=\"" + PngUrl + "\">"))
      && x.response.status == 200
      && x.response.body == Binary(pdf)
      && x.response.contentLength == Some(|pdf|)
  {
    DocumentRewritten(utf8(html.buffer));
  }

  /** `/preview`: the same document comes back inlined inside the shell,
      and nothing is posted. */
  lemma PreviewScenario(html: UploadedFile, utf8: seq<byte> -> string)
    requires utf8(html.buffer) == "<p>hi</p><img src=\"a.png\">"
    ensures var x := HandlePreview(Request(Some(Fields(Some([html]), Some([Png])))), utf8);
      && x.posted == None
      && x.response.status == 200
      && x.response.body
         == Text(PreviewPage("<p>hi</p>" + ("<img src=\"" + PngUrl + "\">")))
  {
    DocumentRewritten(utf8(html.buffer));
  }
}
