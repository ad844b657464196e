/**
  The image-reference rewrite both upload handlers run:
  `html.replace(/<img([^>]+)src=["']([^"']+)["']([^>]*)>/gi, callback)`.

  The global search is a left-to-right scan. At each position the expression
  either matches (and the scan resumes after the match) or the character is
  kept and the scan moves one place on. `MatchPrefix` decides the match at the
  start of a string the way a backtracking engine does: `[^>]+` is greedy, so
  of all the ways to read the tag the one with the longest `pre` (the
  rightmost `src=` that leads to a complete match) is chosen; the value runs
  to the first quote of either kind; `post` runs to the first `>` after the
  closing quote. The callback receives `(match, pre, src, post)` and either
  returns a normalised tag holding the looked-up value or the match itself.
 */
module ImgRewrite {
  import opened Wrappers
  import opened Text

  predicate IsQuote(c: char) { c == '"' || c == '\'' }

  /** Where a match at the start of a string ends its parts: `pre` is
      `s[4..preEnd]`, the value is `s[preEnd + 5..srcEnd]`, `post` is
      `s[srcEnd + 1..end - 1]`, and the match is `s[..end]`. */
  datatype Span = Span(preEnd: nat, srcEnd: nat, end: nat)

  /** The regular expression accepts `s[..sp.end]` with these parts. */
  ghost predicate Accepts(s: string, sp: Span) {
    && 5 <= sp.preEnd
    && sp.preEnd + 5 < sp.srcEnd
    && sp.srcEnd + 1 < sp.end <= |s|
    && CiMatchAt(s, 0, "<img")
    && (forall i :: 4 <= i < sp.preEnd ==> s[i] != '>')
    && CiMatchAt(s, sp.preEnd, "src=")
    && IsQuote(s[sp.preEnd + 4])
    && (forall i :: sp.preEnd + 5 <= i < sp.srcEnd ==> !IsQuote(s[i]))
    && IsQuote(s[sp.srcEnd])
    && (forall i :: sp.srcEnd < i < sp.end - 1 ==> s[i] != '>')
    && s[sp.end - 1] == '>'
  }

  /** The value and `post` are fixed once `pre` is: two readings with the
      same `pre` are the same reading. */
  lemma AcceptsDeterminedByPre(s: string, a: Span, b: Span)
    requires Accepts(s, a) && Accepts(s, b) && a.preEnd == b.preEnd
    ensures a == b
  {
  }

  /** The first quote of either kind at or after `i`, or `|s|`. */
  function QuoteFrom(s: string, i: nat): (r: nat)
    requires i <= |s|
    ensures i <= r <= |s|
    ensures r < |s| ==> IsQuote(s[r])
    ensures forall j :: i <= j < r ==> !IsQuote(s[j])
    decreases |s| - i
  {
    if i == |s| then |s|
    else if IsQuote(s[i]) then i
    else QuoteFrom(s, i + 1)
  }

  /** Tries the reading whose `pre` ends at `q`, where the regex tests
      `src=`, the opening quote, the value and `post`. */
  function TryAt(s: string, q: nat): (r: Option<Span>)
    requires 5 <= q && CiMatchAt(s, 0, "<img")
    requires forall i :: 4 <= i < q && i < |s| ==> s[i] != '>'
    ensures r.Some? ==> Accepts(s, r.value) && r.value.preEnd == q
    ensures r.None? ==> forall sp: Span :: sp.preEnd == q ==> !Accepts(s, sp)
  {
    if q + 5 <= |s| && CiMatchAt(s, q, "src=") && IsQuote(s[q + 4]) then
      var v := QuoteFrom(s, q + 5);
      if q + 5 < v < |s| then
        var g := IndexOfFrom(s, v + 1, '>');
        if g < |s| then Some(Span(q, v, g + 1)) else None
      else None
    else None
  }

  /** Backtracking over `pre`: tries `pre` ending at `q`, then shorter ones. */
  function SearchSrc(s: string, q: int): (r: Option<Span>)
    requires CiMatchAt(s, 0, "<img")
    requires forall i :: 4 <= i < q && i < |s| ==> s[i] != '>'
    ensures r.Some? ==> Accepts(s, r.value) && r.value.preEnd <= q
    ensures r.Some? ==> forall sp: Span :: Accepts(s, sp) && sp.preEnd <= q ==> sp.preEnd <= r.value.preEnd
    ensures r.None? ==> forall sp: Span :: Accepts(s, sp) ==> sp.preEnd > q
    decreases q
  {
    if q < 5 then None
    else match TryAt(s, q)
      case Some(sp) => Some(sp)
      case None => SearchSrc(s, q - 1)
  }

  /** The match the regular expression finds at the start of `s`, if any:
      a reading it accepts, with the longest `pre` of all such readings. */
  function MatchPrefix(s: string): (r: Option<Span>)
    ensures r.Some? ==> Accepts(s, r.value)
    ensures r.Some? ==> forall sp: Span :: Accepts(s, sp) ==> sp.preEnd <= r.value.preEnd
    ensures r.None? ==> forall sp: Span :: !Accepts(s, sp)
  {
    if !CiMatchAt(s, 0, "<img") then None
    else
      var k := IndexOfFrom(s, 4, '>');
      assert forall sp: Span :: Accepts(s, sp) ==> sp.preEnd <= k;
      SearchSrc(s, k)
  }

  /** The parts of one match, as written in the input: the callback's
      `pre`, `src` and `post`, and the pieces between them. */
  datatype Match = Match(opener: string, pre: string, attr: string, open: char,
                         src: string, close: char, post: string)
  {
    /** The callback's `match` argument: the whole matched text. */
    function Text(): string {
      opener + pre + attr + [open] + src + [close] + post + ">"
    }

    /** What the expression demands of each part. */
    predicate WellFormed() {
      && |opener| == 4 && CiMatchAt(opener, 0, "<img")
      && |pre| >= 1 && (forall i :: 0 <= i < |pre| ==> pre[i] != '>')
      && |attr| == 4 && CiMatchAt(attr, 0, "src=")
      && IsQuote(open)
      && |src| >= 1 && (forall i :: 0 <= i < |src| ==> !IsQuote(src[i]))
      && IsQuote(close)
      && (forall i :: 0 <= i < |post| ==> post[i] != '>')
    }
  }

  lemma SliceParts(s: string, p: nat, q: nat, e: nat)
    requires 4 <= p && p + 5 <= q && q + 2 <= e <= |s|
    ensures s[..e] == s[..4] + s[4..p] + s[p..p + 4] + [s[p + 4]] + s[p + 5..q] + [s[q]]
                      + s[q + 1..e - 1] + [s[e - 1]]
  {
    assert s[..e] == s[..e - 1] + [s[e - 1]];
    assert s[..e - 1] == s[..q + 1] + s[q + 1..e - 1];
    assert s[..q + 1] == s[..q] + [s[q]];
    assert s[..q] == s[..p + 5] + s[p + 5..q];
    assert s[..p + 5] == s[..p + 4] + [s[p + 4]];
    assert s[..p + 4] == s[..p] + s[p..p + 4];
    assert s[..p] == s[..4] + s[4..p];
  }

  /** The parts of the reading `sp` of `s`. */
  function MatchOf(s: string, sp: Span): (m: Match)
    requires Accepts(s, sp)
    ensures m.WellFormed() && m.Text() == s[..sp.end]
  {
    var m := Match(s[..4], s[4..sp.preEnd], s[sp.preEnd..sp.preEnd + 4], s[sp.preEnd + 4],
                   s[sp.preEnd + 5..sp.srcEnd], s[sp.srcEnd], s[sp.srcEnd + 1..sp.end - 1]);
    SliceParts(s, sp.preEnd, sp.srcEnd, sp.end);
    assert CiMatchAt(m.attr, 0, "src=") by {
      forall j | 0 <= j < 4 ensures AsciiLower(m.attr[j]) == "src="[j] {
        assert m.attr[j] == s[sp.preEnd + j];
      }
    }
    m
  }

  /** One step of the global scan: a kept character or a match. */
  datatype Token = Char(c: char) | Img(m: Match)

  function TokenText(t: Token): string {
    match t
    case Char(c) => [c]
    case Img(m) => m.Text()
  }

  /** The text a token sequence was read from. */
  function Source(toks: seq<Token>): string {
    if toks == [] then [] else TokenText(toks[0]) + Source(toks[1..])
  }

  /** The global scan: the matches of the expression from left to right,
      each starting where the previous one ended, and the characters between
      them. Every match it reports is well formed. */
  function Tokenize(s: string): (toks: seq<Token>)
    ensures forall i :: 0 <= i < |toks| && toks[i].Img? ==> toks[i].m.WellFormed()
    decreases |s|
  {
    if s == [] then []
    else match MatchPrefix(s)
      case Some(sp) => [Img(MatchOf(s, sp))] + Tokenize(s[sp.end..])
      case None => [Char(s[0])] + Tokenize(s[1..])
  }

  lemma SourceCons(t: Token, toks: seq<Token>)
    ensures Source([t] + toks) == TokenText(t) + Source(toks)
  {
    assert ([t] + toks)[1..] == toks;
  }

  lemma TokenizeStep(s: string)
    requires s != []
    ensures MatchPrefix(s).Some? ==>
      Tokenize(s) == [Img(MatchOf(s, MatchPrefix(s).value))] + Tokenize(s[MatchPrefix(s).value.end..])
    ensures MatchPrefix(s).None? ==> Tokenize(s) == [Char(s[0])] + Tokenize(s[1..])
  {
  }

  /** One scan step, a match or a character, spelling the prefix it consumed. */
  lemma {:induction false} SourceStep(s: string, t: Token, e: nat, rest: seq<Token>)
    requires e <= |s| && TokenText(t) == s[..e] && Source(rest) == s[e..]
    ensures Source([t] + rest) == s
  {
    SourceCons(t, rest);
    assert s == s[..e] + s[e..];
  }

  /** The scan loses and adds nothing: its tokens spell the input. */
  lemma {:induction false} TokenizeSource(s: string)
    ensures Source(Tokenize(s)) == s
    decreases |s|
  {
    if s != [] {
      TokenizeStep(s);
      match MatchPrefix(s)
      case Some(sp) =>
        TokenizeSource(s[sp.end..]);
        SourceStep(s, Img(MatchOf(s, sp)), sp.end, Tokenize(s[sp.end..]));
      case None =>
        TokenizeSource(s[1..]);
        assert TokenText(Char(s[0])) == s[..1];
        SourceStep(s, Char(s[0]), 1, Tokenize(s[1..]));
    }
  }

  /** A scan position is never inside a match: the first token is a match
      exactly when the expression matches at the start of the input. */
  lemma FirstToken(s: string)
    requires s != []
    ensures Tokenize(s) != []
    ensures Tokenize(s)[0].Char? <==> forall sp: Span :: !Accepts(s, sp)
    ensures Tokenize(s)[0].Char? ==> Tokenize(s)[0].c == s[0]
  {
    if MatchPrefix(s).Some? {
      assert Accepts(s, MatchPrefix(s).value);
    }
  }

  /** The callback: a match whose `src` the lookup resolves becomes
      `<img` + pre + `src="` + value + `"` + post + `>`; anything else is
      returned as it was read. */
  function Render(t: Token, lookup: string -> Option<string>): (r: string)
    ensures r != TokenText(t) ==> t.Img? && lookup(t.m.src).Some?
    ensures t.Img? && lookup(t.m.src).Some? ==>
      r == "<img" + t.m.pre + "src=\"" + lookup(t.m.src).value + "\"" + t.m.post + ">"
  {
    match t
    case Char(c) => [c]
    case Img(m) =>
      match lookup(m.src)
      case Some(url) => "<img" + m.pre + "src=\"" + url + "\"" + m.post + ">"
      case None => m.Text()
  }

  /** The replacement text: the callback's result for every token, in order. */
  function Emit(toks: seq<Token>, lookup: string -> Option<string>): string {
    if toks == [] then [] else Render(toks[0], lookup) + Emit(toks[1..], lookup)
  }

  /** `html.replace(regex, callback)` with the callback resolving `src`
      through `lookup`. */
  function RewriteWith(html: string, lookup: string -> Option<string>): (r: string)
    ensures (forall src :: lookup(src).None?) ==> r == html
  {
    NothingResolvedKeepsText(html, lookup);
    Emit(Tokenize(html), lookup)
  }

  /** A lookup that resolves nothing leaves every token as it was read. */
  lemma NothingResolvedKeepsText(html: string, lookup: string -> Option<string>)
    ensures (forall src :: lookup(src).None?) ==> Emit(Tokenize(html), lookup) == html
  {
    if forall src :: lookup(src).None? {
      EmitUnresolved(Tokenize(html), lookup);
      TokenizeSource(html);
    }
  }

  /** The lookup the handlers mean: an exact, case-sensitive key lookup. */
  function ExactLookup(images: map<string, string>): string -> Option<string> {
    src => if src in images then Some(images[src]) else None
  }

  /** The rewrite with the image index. */
  function Rewrite(html: string, images: map<string, string>): (r: string)
    ensures images == map[] ==> r == html
  {
    RewriteWith(html, ExactLookup(images))
  }

  /** Emitting a concatenation emits each part in turn. */
  lemma {:induction false} EmitAppend(a: seq<Token>, b: seq<Token>, lookup: string -> Option<string>)
    ensures Emit(a + b, lookup) == Emit(a, lookup) + Emit(b, lookup)
    decreases |a|
  {
    if a == [] {
      assert a + b == b;
    } else {
      assert (a + b)[0] == a[0] && (a + b)[1..] == a[1..] + b;
      EmitAppend(a[1..], b, lookup);
    }
  }

  /** The same for the text the tokens were read from. */
  lemma {:induction false} SourceAppend(a: seq<Token>, b: seq<Token>)
    ensures Source(a + b) == Source(a) + Source(b)
    decreases |a|
  {
    if a == [] {
      assert a + b == b;
    } else {
      assert (a + b)[0] == a[0] && (a + b)[1..] == a[1..] + b;
      SourceAppend(a[1..], b);
    }
  }

  lemma SplitAt(toks: seq<Token>, k: nat)
    requires k < |toks|
    ensures toks == toks[..k] + ([toks[k]] + toks[k + 1..])
  {
  }

  lemma EmitSingle(t: Token, lookup: string -> Option<string>)
    ensures Emit([t], lookup) == Render(t, lookup)
  {
    assert [t][1..] == [];
  }

  /** Emitting renders the token at position `k` in its place, between the
      renderings of the tokens before and after it. */
  lemma EmitAt(toks: seq<Token>, lookup: string -> Option<string>, k: nat)
    requires k < |toks|
    ensures Emit(toks, lookup) == Emit(toks[..k], lookup) + Render(toks[k], lookup) + Emit(toks[k + 1..], lookup)
  {
    SplitAt(toks, k);
    EmitAppend(toks[..k], [toks[k]] + toks[k + 1..], lookup);
    EmitAppend([toks[k]], toks[k + 1..], lookup);
    EmitSingle(toks[k], lookup);
  }

  /** The input is spelled by the tokens before `k`, the text of token `k`,
      and the tokens after it. */
  lemma SourceAt(toks: seq<Token>, k: nat)
    requires k < |toks|
    ensures Source(toks) == Source(toks[..k]) + TokenText(toks[k]) + Source(toks[k + 1..])
  {
    SplitAt(toks, k);
    SourceAppend(toks[..k], [toks[k]] + toks[k + 1..]);
    SourceAppend([toks[k]], toks[k + 1..]);
    assert Source([toks[k]]) == TokenText(toks[k]) by { assert [toks[k]][1..] == []; }
  }

  /** Every match of the scan whose `src` is a key, wherever it occurs, is
      replaced in its place by the normalised tag holding that key's value:
      the input reads `before + match + after` and the output reads
      `rewrite(before) + tag + rewrite(after)`, token for token. */
  lemma EveryResolvedMatchReplaced(html: string, images: map<string, string>, k: nat)
    requires k < |Tokenize(html)| && Tokenize(html)[k].Img?
    requires Tokenize(html)[k].m.src in images
    ensures var toks := Tokenize(html); var m := toks[k].m;
      && html == Source(toks[..k]) + m.Text() + Source(toks[k + 1..])
      && Rewrite(html, images)
         == Emit(toks[..k], ExactLookup(images))
            + ("<img" + m.pre + "src=\"" + images[m.src] + "\"" + m.post + ">")
            + Emit(toks[k + 1..], ExactLookup(images))
  {
    var toks := Tokenize(html);
    TokenizeSource(html);
    SourceAt(toks, k);
    EmitAt(toks, ExactLookup(images), k);
    assert ExactLookup(images)(toks[k].m.src) == Some(images[toks[k].m.src]);
  }

  /** If the lookup resolves none of the matched values, emitting gives back
      the source text. */
  lemma {:induction false} EmitUnresolved(toks: seq<Token>, lookup: string -> Option<string>)
    requires forall i :: 0 <= i < |toks| && toks[i].Img? ==> lookup(toks[i].m.src).None?
    ensures Emit(toks, lookup) == Source(toks)
  {
    if toks != [] {
      EmitUnresolved(toks[1..], lookup);
    }
  }

  /** A document none of whose matched `src` values is a key is unchanged. */
  lemma RewriteUnreferenced(html: string, images: map<string, string>)
    requires forall i :: 0 <= i < |Tokenize(html)| && Tokenize(html)[i].Img? ==>
               Tokenize(html)[i].m.src !in images
    ensures Rewrite(html, images) == html
  {
    EmitUnresolved(Tokenize(html), ExactLookup(images));
    TokenizeSource(html);
  }

  /** With an empty index the rewrite is the identity. */
  lemma RewriteEmptyIndex(html: string)
    ensures Rewrite(html, map[]) == html
  {
    RewriteUnreferenced(html, map[]);
  }

  /** Where the expression cannot match, the character is kept and the
      scan moves one place on. */
  lemma RewriteCharStep(s: string, lookup: string -> Option<string>)
    requires s != [] && !CiMatchAt(s, 0, "<img")
    ensures RewriteWith(s, lookup) == [s[0]] + RewriteWith(s[1..], lookup)
  {
    var toks := Tokenize(s);
    assert toks == [Char(s[0])] + Tokenize(s[1..]);
    assert toks[1..] == Tokenize(s[1..]);
  }

  /** Dropping the first character keeps "no `<img` starts here" for the
      remaining positions of the plain prefix. */
  lemma {:induction false} PlainTail(plain: string, rest: string)
    requires plain != []
    requires forall i :: 0 <= i < |plain| ==> !CiMatchAt(plain + rest, i, "<img")
    ensures forall i :: 0 <= i < |plain[1..]| ==> !CiMatchAt(plain[1..] + rest, i, "<img")
  {
    var s, tail := plain + rest, plain[1..] + rest;
    assert s[1..] == tail;
    forall i | 0 <= i < |plain[1..]| ensures !CiMatchAt(tail, i, "<img") {
      assert !CiMatchAt(s, i + 1, "<img");
      if CiMatchAt(tail, i, "<img") {
        forall j | 0 <= j < 4 ensures AsciiLower(s[i + 1 + j]) == "<img"[j] {
          assert s[i + 1 + j] == tail[i + j];
        }
        assert false;
      }
    }
  }

  lemma ConsAssoc(c: char, p: string, a: string)
    ensures [c] + (p + a) == ([c] + p) + a
  {
  }

  /** Text in which no `<img` starts (in any case) is copied as it is,
      whatever follows it. */
  lemma {:induction false} RewritePlainPrefix(plain: string, rest: string, lookup: string -> Option<string>)
    requires forall i :: 0 <= i < |plain| ==> !CiMatchAt(plain + rest, i, "<img")
    ensures RewriteWith(plain + rest, lookup) == plain + RewriteWith(rest, lookup)
    decreases |plain|
  {
    if plain == [] {
      assert plain + rest == rest;
    } else {
      var s, tail := plain + rest, plain[1..] + rest;
      assert s[0] == plain[0] && s[1..] == tail;
      assert !CiMatchAt(s, 0, "<img");
      RewriteCharStep(s, lookup);
      PlainTail(plain, rest);
      RewritePlainPrefix(plain[1..], rest, lookup);
      ConsAssoc(plain[0], plain[1..], RewriteWith(rest, lookup));
      assert [plain[0]] + plain[1..] == plain;
    }
  }

  /** A match at the start is replaced by the callback's result and the
      scan resumes after it. */
  lemma RewriteMatchStep(s: string, lookup: string -> Option<string>)
    requires MatchPrefix(s).Some?
    ensures var sp := MatchPrefix(s).value;
      RewriteWith(s, lookup) == Render(Img(MatchOf(s, sp)), lookup) + RewriteWith(s[sp.end..], lookup)
  {
    var sp := MatchPrefix(s).value;
    var toks := Tokenize(s);
    assert toks == [Img(MatchOf(s, sp))] + Tokenize(s[sp.end..]);
    assert toks[1..] == Tokenize(s[sp.end..]);
  }

  /** A reading is the match when no `src=` follows its own inside the
      tag: the greedy `pre` cannot reach past the tag's `>`, so it has
      nothing further right to reach for. */
  lemma MatchWhenLastSrc(s: string, sp: Span)
    requires Accepts(s, sp)
    requires forall q :: sp.preEnd < q < sp.end ==> !CiMatchAt(s, q, "src=")
    ensures MatchPrefix(s) == Some(sp)
  {
    var r := MatchPrefix(s).value;
    assert r.preEnd <= sp.end - 1;
    AcceptsDeterminedByPre(s, r, sp);
  }

  /** A document that is one match is replaced by the callback's result. */
  lemma RewriteWholeMatch(s: string, sp: Span, lookup: string -> Option<string>)
    requires MatchPrefix(s) == Some(sp) && sp.end == |s|
    ensures RewriteWith(s, lookup) == Render(Img(MatchOf(s, sp)), lookup)
  {
    RewriteMatchStep(s, lookup);
    assert s[sp.end..] == [];
    assert Tokenize([]) == [];
  }

  /** What the handlers' `images[src]` actually reads: the index is a plain
      object literal, so a name it does not hold may still be found on
      `Object.prototype`, and `__proto__` is never an own key (assigning a
      string to it is ignored). The found value is put into the template
      literal as its string form. */
  function ObjectLookup(images: map<string, string>): (lookup: string -> Option<string>)
    ensures forall src :: src in images && src != "__proto__" ==> lookup(src) == Some(images[src])
    ensures forall src :: src !in images && InheritedMember(src).None? && src != "__proto__" ==>
              lookup(src).None?
    ensures lookup("constructor").Some? && lookup("__proto__").Some?
  {
    src =>
      if src == "__proto__" then Some("[object Object]")
      else if src in images then Some(images[src])
      else InheritedMember(src)
  }

  /** The string form of the function an ordinary object inherits under
      `name`, if any. */
  function InheritedMember(name: string): Option<string> {
    if name == "constructor" then Some("function Object() { [native code] }")
    else if name in {"__defineGetter__", "__defineSetter__", "hasOwnProperty",
                     "__lookupGetter__", "__lookupSetter__", "isPrototypeOf",
                     "propertyIsEnumerable", "toString", "valueOf", "toLocaleString"}
    then Some("function " + name + "() { [native code] }")
    else None
  }
}
