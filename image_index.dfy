/**
  The image index the upload handlers build before rewriting: each uploaded
  image becomes a `data:` URL (the `dataurl` syntax of section 3 of RFC 2397,
  with the `;base64` marker) stored under the file's original name. The
  handlers build it with a `reduce` that assigns into an accumulator object,
  so a later upload with the same name replaces an earlier one.
 */
module ImageIndex {
  import opened Wrappers
  import opened Text
  import opened Base64
  import opened PathExt

  /** One uploaded file as the multipart parser hands it over. */
  datatype UploadedFile = UploadedFile(originalname: string, mimetype: string, buffer: seq<byte>)

  /** The declared type, or `image/<extension>` when the declared type is empty. */
  function MimeOf(f: UploadedFile): (m: string)
    ensures m != []
    ensures f.mimetype != [] ==> m == f.mimetype
    ensures f.mimetype == [] ==> m == "image/" + Extension(f.originalname)
    ensures f.mimetype == [] ==> |m| >= 6 && m[..6] == "image/"
                                 && forall j :: 6 <= j < |m| ==> m[j] != '.' && m[j] != '/'
  {
    if f.mimetype != [] then f.mimetype else "image/" + Extension(f.originalname)
  }

  function DataUrlOf(mime: string, payload: seq<byte>): string {
    "data:" + mime + ";base64," + Encode(payload)
  }

  /** The index value stored for one file. */
  function DataUrl(f: UploadedFile): (u: string)
    ensures ParseDataUrl(u) == Some((MimeOf(f), f.buffer))
  {
    DataUrlRoundTrip(MimeOf(f), f.buffer);
    DataUrlOf(MimeOf(f), f.buffer)
  }

  /** Reads a `data:<mime>;base64,<payload>` URL back into its media type and
      bytes. The media type ends at the last `;`, since the payload alphabet
      has none. */
  function ParseDataUrl(u: string): Option<(string, seq<byte>)> {
    if |u| < 5 || u[..5] != "data:" then None
    else
      var k := LastIndexOf(u, ';');
      if k < 5 || |u| < k + 8 || u[k..k + 8] != ";base64," then None
      else match Decode(u[k + 8..])
        case None => None
        case Some(bytes) => Some((u[5..k], bytes))
  }

  lemma DataUrlParts(mime: string, e: string)
    ensures var u, k := "data:" + mime + ";base64," + e, 5 + |mime|;
      && u[..5] == "data:" && u[5..k] == mime && u[k..k + 8] == ";base64," && u[k + 8..] == e
  {
  }

  /** The `;` of `;base64,` is the last one when the payload has none. */
  lemma LastSemicolon(u: string, k: nat, e: string)
    requires k + 8 <= |u| && u[k..k + 8] == ";base64," && u[k + 8..] == e
    requires forall i :: 0 <= i < |e| ==> Base64.IsAlphabetChar(e[i]) || e[i] == '='
    ensures LastIndexOf(u, ';') == k
  {
    forall j | k < j < |u| ensures u[j] != ';' {
      if j >= k + 8 { assert u[j] == e[j - k - 8]; } else { assert u[j] == u[k..k + 8][j - k]; }
    }
    assert u[k] == u[k..k + 8][0];
  }

  /** Any media type and payload survive the trip through a data URL. */
  lemma DataUrlRoundTrip(mime: string, payload: seq<byte>)
    ensures ParseDataUrl(DataUrlOf(mime, payload)) == Some((mime, payload))
  {
    var u := DataUrlOf(mime, payload);
    var e := Encode(payload);
    var k := 5 + |mime|;
    DataUrlParts(mime, e);
    EncodeAlphabet(payload);
    LastSemicolon(u, k, e);
    DecodeEncode(payload);
  }

  /** The index the `reduce` produces: a left fold that assigns each file's
      data URL under its original name. */
  function IndexOf(files: seq<UploadedFile>): (images: map<string, string>)
    ensures |images| <= |files|
    ensures forall name :: name in images ==> |images[name]| >= 5 && images[name][..5] == "data:"
  {
    if files == [] then map[]
    else
      var last := files[|files| - 1];
      IndexOf(files[..|files| - 1])[last.originalname := DataUrl(last)]
  }

  /** The keys are exactly the uploaded file names. */
  lemma {:induction false} IndexOfKeys(files: seq<UploadedFile>)
    ensures IndexOf(files).Keys == set f | f in files :: f.originalname
  {
    if files != [] {
      var init, last := files[..|files| - 1], files[|files| - 1];
      var names := set f | f in files :: f.originalname;
      var initNames := set f | f in init :: f.originalname;
      assert names == initNames + {last.originalname} by {
        NamesSnoc(init, last);
        assert init + [last] == files;
      }
      IndexOfKeys(init);
      IndexOfKeysStep(files);
    }
  }

  lemma IndexOfKeysStep(files: seq<UploadedFile>)
    requires files != []
    ensures IndexOf(files).Keys == IndexOf(files[..|files| - 1]).Keys + {files[|files| - 1].originalname}
  {
  }

  lemma NamesSnoc(init: seq<UploadedFile>, last: UploadedFile)
    ensures (set f | f in init + [last] :: f.originalname)
            == (set f | f in init :: f.originalname) + {last.originalname}
  {
    var files := init + [last];
    forall f | f in files ensures f in init || f == last {
      var k :| 0 <= k < |files| && files[k] == f;
      if k < |init| { assert init[k] == f; }
    }
  }

  /** The value under a name is the data URL of the LAST file with that name. */
  lemma {:induction false} IndexOfLastWins(files: seq<UploadedFile>, j: nat)
    requires j < |files|
    requires forall k :: j < k < |files| ==> files[k].originalname != files[j].originalname
    ensures files[j].originalname in IndexOf(files)
    ensures IndexOf(files)[files[j].originalname] == DataUrl(files[j])
  {
    if j < |files| - 1 {
      var init := files[..|files| - 1];
      IndexOfLastWins(init, j);
    }
  }

  lemma DataUrlSpelledOut(f: UploadedFile, ext: string, mime: string)
    requires ext == Extension(f.originalname)
    requires mime == if f.mimetype != [] then f.mimetype else "image/" + ext
    ensures "data:" + mime + ";base64," + Encode(f.buffer) == DataUrl(f)
  {
  }

  lemma IndexOfSnoc(files: seq<UploadedFile>, i: nat)
    requires i < |files|
    ensures IndexOf(files[..i + 1]) == IndexOf(files[..i])[files[i].originalname := DataUrl(files[i])]
  {
    assert files[..i + 1][..i] == files[..i];
  }

  /** The `reduce` over the uploaded images, assigning into an accumulator
      that starts as an empty object. */
  method BuildIndex(files: seq<UploadedFile>) returns (images: map<string, string>)
    ensures images == IndexOf(files)
  {
    images := map[];
    for i := 0 to |files|
      invariant images == IndexOf(files[..i])
    {
      var file := files[i];
      var ext := Extension(file.originalname);
      var mime := if file.mimetype != [] then file.mimetype else "image/" + ext;
      var url := "data:" + mime + ";base64," + Encode(file.buffer);
      DataUrlSpelledOut(file, ext, mime);
      IndexOfSnoc(files, i);
      images := images[file.originalname := url];
    }
    assert files[..|files|] == files;
  }
}
