# HTML-to-PDF upload proxy: a verified model of its request logic

The service accepts an uploaded HTML document and up to ten images. It
replaces the quoted `src` value of each `<img …>` tag that its regular
expression matches with a `data:` URL, when that value is an uploaded file's
name. References the expression does not match (an unquoted `src=a.png`,
spaces around `=`, or an earlier `src` shadowed by a later `data-src`) are
left as they are. Then it either posts the result to an external PDF renderer and relays the
answer (`POST /upload`), or wraps it in a fixed preview page (`POST /preview`).
Before it listens at all, a startup gate probes the renderer up to six times.

This project models that logic in Dafny and proves what it promises:

- `Base64`: Node's `buffer.toString('base64')`, the padded encoding of
  section 4 of RFC 4648, with a strict decoder as its partner.
- `PathExt`: `path.extname(name).slice(1)` (the POSIX flavour) as used to
  guess an image type.
- `ImageIndex`: the `reduce` that maps each upload's `originalname` to
  `data:<mime>;base64,<payload>`, the `dataurl` form of section 3 of RFC 2397.
  It is a left fold (`IndexOf`) and an imperative loop (`BuildIndex`) proved
  equal to it. A parser for data URLs is its partner.
- `ImgRewrite`: `html.replace(/<img([^>]+)src=["']([^"']+)["']([^>]*)>/gi, cb)`
  as a left-to-right scan with the regular expression's exact semantics.
  `Accepts` says when the expression reads a prefix a given way. `MatchPrefix`
  picks the reading a backtracking engine picks: the greedy `pre` reaches the
  rightmost `src=` that still completes a match. `Tokenize` is the global scan
  and `Render` is the callback.
- `RewriteExamples`: concrete documents that pin down each consequence of
  those semantics.
- `Handlers`: the 400 guard, the relay of the renderer's answer, and the
  preview shell, over abstract requests and upstream results.
- `StartupGate`: `checkPdfApiAndStart` as a `while` loop with its attempt
  counter and early return. It is proved equal to the state machine
  `Probing(n) → Ready | Probing(n+1) | Fatal`.
- `Scenarios`: one upload of `<p>hi</p><img src="a.png">` with a PNG whose
  bytes are `PNGDATA`, followed through `/upload` and `/preview`.

Facts about the code that shape the model:

- The callback rebuilds the whole tag. It writes `<img` in lower case,
  keeps `pre` and `post`, and normalises the quotes to `"`.
- The greedy `pre` makes the rightmost `src=` that still completes a match
  win, so a later `data-src=` wins over an earlier `src=`.
- The value runs to the first quote of either kind, so the quotes need not
  pair.
- An empty or missing `mimetype` falls back to `image/<ext>` (the `||` at
  server.js:40).

## Model

| member | source | states |
|---|---|---|
| `Base64.Encode` | server.js:41 | the base64 text has a multiple of four characters and is empty exactly for no bytes |
| `Base64.DecodeEncode` | server.js:41 | decoding the base64 text of any byte sequence gives the bytes back |
| `Base64.EncodeLength` | server.js:41 | the base64 text has four characters per started group of three bytes |
| `Base64.EncodeAlphabet` | server.js:41 | every base64 character is from the RFC 4648 alphabet or the `=` pad |
| `PathExt.Extension` | server.js:39 | the extension holds no `.` and no `/` |
| `PathExt.ExtName` | server.js:39 | `path.extname` is empty or a `.` plus dot-free text, and it is a suffix of the path once trailing slashes are dropped |
| `PathExt.ExtensionAfterLastDot` | server.js:39 | for a name `stem.x` without `/`, where `x` has no `.` and `stem` is non-empty (and the name is not `..`), the extension is exactly `x`, the text after the last dot |
| `PathExt.NoDotNoExtension` | server.js:39 | a name without a dot has an empty extension |
| `PathExt.DotFileNoExtension` | server.js:39 | a name whose only dot is its first character has an empty extension |
| `ImageIndex.MimeOf` | server.js:39-40 | the declared mimetype when non-empty, else exactly `image/` + `Extension(originalname)`, whose value the `PathExt` lemmas fix |
| `ImageIndex.DataUrl` | server.js:41 | the value stored for a file parses back to the file's media type and exactly its bytes |
| `ImageIndex.IndexOf` | server.js:38-43 | the `reduce` as a left fold: at most one entry per upload, and every value is a `data:` URL |
| `ImageIndex.DataUrlRoundTrip` | server.js:41 | `data:<mime>;base64,<payload>` parses back to that media type and those bytes |
| `ImageIndex.IndexOfKeys` | server.js:38-43 | the index keys are exactly the uploaded original names |
| `ImageIndex.IndexOfLastWins` | server.js:38-43 | under each name the index holds the data URL of the last upload with that name |
| `ImageIndex.BuildIndex` | server.js:38-43 | the accumulator loop builds exactly the left fold `IndexOf` |
| `ImgRewrite.RewriteWith` | server.js:45-50 | `html.replace` with the callback resolving through a lookup: a lookup that resolves nothing gives back the input |
| `ImgRewrite.Rewrite` | server.js:45-50 | the rewrite with the image index under an exact key lookup: with no images the output equals the input |
| `ImgRewrite.ObjectLookup` | server.js:46 | the lookup as written: own keys other than `__proto__` resolve to their value, names not on `Object.prototype` and not keys resolve to nothing, and `constructor` and `__proto__` always resolve |
| `ImgRewrite.MatchPrefix` | server.js:45 | a match at the start is a reading the expression accepts, with the longest `pre` of all accepted readings; none means no reading exists |
| `ImgRewrite.MatchWhenLastSrc` | server.js:45 | an accepted reading with no later `src=` inside the tag is the match |
| `ImgRewrite.Tokenize` | server.js:45 | every match the global scan reports has the shape the expression demands |
| `ImgRewrite.TokenizeSource` | server.js:45 | the scan's kept characters and matches spell the input exactly |
| `ImgRewrite.FirstToken` | server.js:45 | the scan copies the first character exactly when no match starts there |
| `ImgRewrite.Render` | server.js:45-50 | the callback returns the match unchanged unless its `src` resolves; then it returns `<img` + pre + `src="` + value + `"` + post + `>` |
| `ImgRewrite.EmitAt` | server.js:45 | the output renders each scanned token in its place, between the renderings of the tokens before and after it |
| `ImgRewrite.EveryResolvedMatchReplaced` | server.js:45-47 | every match whose `src` is a key, at whatever position, becomes the normalised tag with that key's value, with `pre` and `post` kept |
| `ImgRewrite.RewriteUnreferenced` | server.js:45-50 | under the exact key lookup (`ExactLookup`), if no matched `src` is a key, the output equals the input |
| `ImgRewrite.RewriteEmptyIndex` | server.js:38-50 | with no uploaded images the output equals the input |
| `ImgRewrite.RewritePlainPrefix` | server.js:45 | text in which no `<img` starts is copied verbatim, whatever follows it |
| `ImgRewrite.RewriteMatchStep` | server.js:45-50 | a match at the start is replaced by the callback's result, and scanning resumes after it |
| `RewriteExamples.UpperCaseTagNormalised` | server.js:45-47 | `<IMG SRC='a.png'>` matches in any case and comes out as `<img src="U">` |
| `RewriteExamples.EveryOccurrenceRewritten` | server.js:45-47 | two references to the same key, in different cases and quotes, are both rewritten identically |
| `RewriteExamples.LookupIsCaseSensitive` | server.js:46 | `A.PNG` does not resolve the key `a.png`, so the tag is unchanged |
| `RewriteExamples.DataSrcWins` | server.js:45 | with `data-src="b.png"` after `src="a.png"`, the value looked up is `b.png`, so an uploaded `a.png` is not inlined |
| `RewriteExamples.DataSrcReplaced` | server.js:45-47 | an uploaded `b.png` replaces the `data-src` value and leaves the earlier `src` inside `pre` |
| `RewriteExamples.PrototypeNameRewritten` | server.js:46-47 | as written, `<img src="constructor">` with no uploads is rewritten to the string form of `Object`; the exact lookup leaves it alone |
| `Handlers.PreviewPage` | server.js:106 | the page is the fixed shell prefix, then the HTML verbatim, then the fixed suffix |
| `Handlers.Relay` | server.js:59-79 | an ok reply is sent with status 200 as `application/pdf` with `Content-Disposition: attachment; filename="converted.pdf"` and a `Content-Length` equal to its byte count; a non-ok reply relays its status; a rejected fetch or a failed body read gives 500 |
| `Handlers.HandleUpload` | server.js:29-58 | nothing is posted exactly when the guard `HtmlMissing` holds (no `req.files`, no `htmlFile` field, or an empty list), and then the reply is 400; otherwise the inlined HTML is posted and the renderer's answer relayed |
| `Handlers.HandlePreview` | server.js:83-106 | nothing is ever posted; the reply is the 400 exactly when the guard `HtmlMissing` holds; otherwise 200 with the preview shell around the inlined HTML |
| `Handlers.PreviewFragmentOfPage` | server.js:106 | the preview shell is a fixed prefix and suffix around the HTML, which it keeps verbatim |
| `StartupGate.RunFrom` | server.js:125-147 | the state machine from attempt `n` makes between `n` and six probes, counts one wait fewer than probes (counting from attempt 1), and ends in `Listen` or `Exit(1)` |
| `StartupGate.CheckHealthAndStart` | server.js:122-150 | at most six probes; stops at the first 2xx or 404 probe and listens; waits only between attempts; after six unhealthy probes exits with code 1; agrees with the state machine |
| `StartupGate.RunFromStopsAtFirstHealthy` | server.js:125-147 | the state machine started at attempt `n` stops at the first probe from `n` on that `Healthy` accepts (a reply with status 2xx or 404, never a transport error), or after the last attempt; its trace counts waits from attempt 1, so it reports one wait per failed attempt before the last one |
| `StartupGate.FirstProbeHealthy` | server.js:129-136 | a healthy first probe listens at once, with no wait |
| `StartupGate.NeverHealthy` | server.js:143-149 | six unhealthy probes end in exit code 1 after five waits of ten seconds |
| `Scenarios.PngDataUrl` | server.js:38-43 | `PNGDATA` of type `image/png` is stored as `data:image/png;base64,UE5HREFUQQ==` |
| `Scenarios.UploadScenario` | server.js:29-79 | the renderer receives `<p>hi</p><img src="data:image/png;base64,UE5HREFUQQ==">`; the client receives the renderer's PDF bytes with their count as `Content-Length` |
| `Scenarios.PreviewScenario` | server.js:83-106 | the same upload to `/preview` returns the inlined document inside the preview shell and posts nothing |

## Left out

- Express routing, static serving and the favicon route (server.js:11-23) are library plumbing with no logic of their own.
- Multer's multipart parsing and its per-file limits (server.js:15-18, 29-32, 83-86) are not modelled. The parsed `req.files` is an input value.
- The UTF-8 decoding of the HTML upload (server.js:36, 90) is a function parameter. Characters are Dafny `char`s, not JavaScript's UTF-16 code units.
- The `fetch` calls, promise chains and response streaming (server.js:54-79, 129) are not modelled. The renderer's answer and each probe's result are abstract values given as parameters.
- `Handlers.Relay`: the best-effort reading and logging of the error body (server.js:62-64) is left out, because it affects only the log.
- Logging, `logProjectInfo`, `app.listen` and `process.exit` (server.js:110-119, 131-135, 148-149) are not modelled. The gate records only its outcome (`Listen` or `Exit(1)`).
- `StartupGate.CheckHealthAndStart`: the ten-second `setTimeout` (server.js:145) is recorded as a count of waits, not as elapsed time.
- Case-insensitive matching folds ASCII letters only. This is the rule of the `i` flag without `u` for this ASCII pattern; non-ASCII case folding is not modelled further.
- The duplicated handler code (server.js:38-50 and 92-104) is modelled once. Both handlers call the same `ImageIndex.IndexOf` and `ImgRewrite.Rewrite`.

## Findings

| source | as written | input that shows it | evidently intended | confidence | as-written member | corrected member |
|---|---|---|---|---|---|---|
| server.js:46 (and 100) | `images[src]` reads a plain `{}`, so names on `Object.prototype` (`constructor`, `toString`, `__proto__`, …) are found although never uploaded | `<img src="constructor">` with no images becomes `<img src="function Object() { [native code] }">` | only uploaded file names resolve (an own-key lookup) | not executed; high, from JavaScript property lookup rules | `RewriteExamples.PrototypeNameRewritten` (lookup `ImgRewrite.ObjectLookup`) | `ImgRewrite.RewriteEmptyIndex` (lookup `ImgRewrite.ExactLookup`, used by `ImgRewrite.Rewrite`) |
