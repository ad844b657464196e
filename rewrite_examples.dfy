/**
  Worked documents for the image-reference rewrite: each fixes one
  consequence of the expression's semantics on a concrete input. Each is
  split into the match the scan finds, the parts the callback receives,
  what the callback makes of them, and the rewrite of the whole document.
 */
module RewriteExamples {
  import opened Wrappers
  import opened Text
  import opened ImgRewrite

  /** `<IMG SRC='a.png'>`: the tag and attribute name match in any case. */
  lemma UpperCaseTagAccepted(s: string)
    requires s == "<IMG SRC='a.png'>"
    ensures Accepts(s, Span(5, 15, 17))
  {
    assert CiMatchAt(s, 0, "<img") && CiMatchAt(s, 5, "src=");
  }

  lemma UpperCaseTagNoLaterSrc(s: string)
    requires s == "<IMG SRC='a.png'>"
    ensures forall q :: 5 < q <= |s| - 4 ==> !CiMatchAt(s, q, "src=")
  {
    forall q | 5 < q <= |s| - 4 ensures !CiMatchAt(s, q, "src=") {
      assert "src="[0] == 's' && s[q] in "RC='a.png'>";
    }
  }

  lemma UpperCaseTagMatches()
    ensures MatchPrefix("<IMG SRC='a.png'>") == Some(Span(5, 15, 17))
  {
    var s := "<IMG SRC='a.png'>";
    UpperCaseTagAccepted(s);
    UpperCaseTagNoLaterSrc(s);
    MatchWhenLastSrc(s, Span(5, 15, 17));
  }

  lemma UpperCaseTagParts(s: string)
    requires s == "<IMG SRC='a.png'>" && Accepts(s, Span(5, 15, 17))
    ensures var m := MatchOf(s, Span(5, 15, 17)); m.pre == " " && m.src == "a.png" && m.post == ""
  {
  }

  lemma ResolvedCallback(m: Match, key: string)
    requires m.src == key && m.pre == " " && m.post == ""
    ensures Render(Img(m), ExactLookup(map[key := "U"])) == "<img src=\"U\">"
  {
    assert ExactLookup(map[key := "U"])(m.src) == Some("U");
  }

  /** A resolved upper-case tag comes out in lower case, with the value in
      double quotes. */
  lemma UpperCaseTagNormalised(s: string)
    requires s == "<IMG SRC='a.png'>"
    ensures Rewrite(s, map["a.png" := "U"]) == "<img src=\"U\">"
  {
    UpperCaseTagMatches();
    RewriteWholeMatch(s, Span(5, 15, 17), ExactLookup(map["a.png" := "U"]));
    UpperCaseTagParts(s);
    ResolvedCallback(MatchOf(s, Span(5, 15, 17)), "a.png");
  }

  lemma TwoTagsAccepted(s: string)
    requires s == "<img src=\"a.png\"><IMG SRC='a.png'>"
    ensures Accepts(s, Span(5, 15, 17))
  {
    assert CiMatchAt(s, 0, "<img") && CiMatchAt(s, 5, "src=");
  }

  lemma TwoTagsNoLaterSrc(s: string)
    requires s == "<img src=\"a.png\"><IMG SRC='a.png'>"
    ensures forall q :: 5 < q < 17 ==> !CiMatchAt(s, q, "src=")
  {
    forall q | 5 < q < 17 ensures !CiMatchAt(s, q, "src=") {
      assert "src="[0] == 's' && s[q] in "rc=\"a.png\">";
    }
  }

  lemma TwoTagsRest(s: string)
    requires s == "<img src=\"a.png\"><IMG SRC='a.png'>"
    ensures s[17..] == "<IMG SRC='a.png'>"
  {
    var t := "<IMG SRC='a.png'>";
    forall i | 0 <= i < 17 ensures s[17..][i] == t[i] { assert s[17..][i] == s[17 + i]; }
  }

  lemma TwoTagsParts(s: string)
    requires s == "<img src=\"a.png\"><IMG SRC='a.png'>" && Accepts(s, Span(5, 15, 17))
    ensures var m := MatchOf(s, Span(5, 15, 17)); m.pre == " " && m.src == "a.png" && m.post == ""
  {
    var v := "a.png";
    forall i | 0 <= i < 5 ensures s[10..15][i] == v[i] { assert s[10..15][i] == s[10 + i]; }
    assert s[4..5] == [s[4]];
  }

  /** The rewrite is global: both references to `a.png`, written in
      different cases and with different quotes, are inlined. */
  lemma EveryOccurrenceRewritten(s: string)
    requires s == "<img src=\"a.png\"><IMG SRC='a.png'>"
    ensures Rewrite(s, map["a.png" := "U"]) == "<img src=\"U\">" + "<img src=\"U\">"
  {
    var sp, lookup := Span(5, 15, 17), ExactLookup(map["a.png" := "U"]);
    TwoTagsAccepted(s);
    TwoTagsNoLaterSrc(s);
    MatchWhenLastSrc(s, sp);
    RewriteMatchStep(s, lookup);
    TwoTagsParts(s);
    ResolvedCallback(MatchOf(s, sp), "a.png");
    TwoTagsRest(s);
    UpperCaseTagNormalised(s[17..]);
  }

  lemma MixedCaseNameAccepted(s: string)
    requires s == "<img src=\"A.PNG\">"
    ensures Accepts(s, Span(5, 15, 17))
  {
    assert CiMatchAt(s, 0, "<img") && CiMatchAt(s, 5, "src=");
  }

  lemma MixedCaseNameNoLaterSrc(s: string)
    requires s == "<img src=\"A.PNG\">"
    ensures forall q :: 5 < q <= |s| - 4 ==> !CiMatchAt(s, q, "src=")
  {
    forall q | 5 < q <= |s| - 4 ensures !CiMatchAt(s, q, "src=") {
      assert "src="[0] == 's' && s[q] in "rc=\"A.PNG\">";
    }
  }

  lemma MixedCaseNameMatches()
    ensures MatchPrefix("<img src=\"A.PNG\">") == Some(Span(5, 15, 17))
  {
    var s := "<img src=\"A.PNG\">";
    MixedCaseNameAccepted(s);
    MixedCaseNameNoLaterSrc(s);
    MatchWhenLastSrc(s, Span(5, 15, 17));
  }

  lemma MixedCaseNameParts(s: string)
    requires s == "<img src=\"A.PNG\">" && Accepts(s, Span(5, 15, 17))
    ensures MatchOf(s, Span(5, 15, 17)).src == "A.PNG"
  {
  }

  lemma UnresolvedCallback(m: Match, key: string)
    requires m.src != key
    ensures Render(Img(m), ExactLookup(map[key := "U"])) == m.Text()
  {
    assert ExactLookup(map[key := "U"])(m.src) == None;
  }

  /** The index lookup is exact: `A.PNG` does not find `a.png`. */
  lemma LookupIsCaseSensitive(s: string)
    requires s == "<img src=\"A.PNG\">"
    ensures Rewrite(s, map["a.png" := "U"]) == s
  {
    MixedCaseNameMatches();
    RewriteWholeMatch(s, Span(5, 15, 17), ExactLookup(map["a.png" := "U"]));
    MixedCaseNameParts(s);
    UnresolvedCallback(MatchOf(s, Span(5, 15, 17)), "a.png");
    assert s[..17] == s;
  }

  lemma DataSrcAccepted(s: string)
    requires s == "<img src=\"a.png\" data-src=\"b.png\">"
    ensures Accepts(s, Span(22, 32, 34))
  {
    assert CiMatchAt(s, 0, "<img") && CiMatchAt(s, 22, "src=");
  }

  lemma DataSrcNoLaterSrc(s: string)
    requires s == "<img src=\"a.png\" data-src=\"b.png\">"
    ensures forall q :: 22 < q <= |s| - 4 ==> !CiMatchAt(s, q, "src=")
  {
    forall q | 22 < q <= |s| - 4 ensures !CiMatchAt(s, q, "src=") {
      assert "src="[0] == 's' && s[q] in "rc=\"b.png\">";
    }
  }

  lemma DataSrcMatches()
    ensures MatchPrefix("<img src=\"a.png\" data-src=\"b.png\">") == Some(Span(22, 32, 34))
  {
    var s := "<img src=\"a.png\" data-src=\"b.png\">";
    DataSrcAccepted(s);
    DataSrcNoLaterSrc(s);
    MatchWhenLastSrc(s, Span(22, 32, 34));
  }

  lemma DataSrcPre(s: string)
    requires s == "<img src=\"a.png\" data-src=\"b.png\">"
    ensures s[4..22] == " src=\"a.png\" data-"
  {
    var p := " src=\"a.png\" data-";
    assert s == "<img" + p + "src=\"b.png\">";
    assert s[4..22] == p;
  }

  lemma DataSrcParts(s: string)
    requires s == "<img src=\"a.png\" data-src=\"b.png\">" && Accepts(s, Span(22, 32, 34))
    ensures var m := MatchOf(s, Span(22, 32, 34));
      m.src == "b.png" && m.pre == " src=\"a.png\" data-" && m.post == ""
  {
    DataSrcPre(s);
  }

  lemma DataSrcUnresolved(m: Match)
    requires m.src == "b.png"
    ensures Render(Img(m), ExactLookup(map["a.png" := "U"])) == m.Text()
  {
    assert ExactLookup(map["a.png" := "U"])(m.src) == None;
  }

  lemma DataSrcText(pre: string, url: string, post: string)
    requires pre == " src=\"a.png\" data-" && post == "" && url == "U"
    ensures "<img" + pre + "src=\"" + url + "\"" + post + ">" == "<img src=\"a.png\" data-src=\"U\">"
  {
  }

  lemma DataSrcResolved(m: Match)
    requires m.src == "b.png" && m.pre == " src=\"a.png\" data-" && m.post == ""
    ensures Render(Img(m), ExactLookup(map["b.png" := "U"])) == "<img src=\"a.png\" data-src=\"U\">"
  {
    assert ExactLookup(map["b.png" := "U"])(m.src) == Some("U");
    assert Render(Img(m), ExactLookup(map["b.png" := "U"]))
           == "<img" + m.pre + "src=\"" + "U" + "\"" + m.post + ">";
    DataSrcText(m.pre, "U", m.post);
  }

  /** The greedy `pre` reaches the rightmost `src=`: with `data-src` after
      `src`, the value looked up is the `data-src` one, so an uploaded
      `a.png` is not inlined here. */
  lemma DataSrcWins(s: string)
    requires s == "<img src=\"a.png\" data-src=\"b.png\">"
    ensures Rewrite(s, map["a.png" := "U"]) == s
  {
    var sp := Span(22, 32, 34);
    DataSrcMatches();
    RewriteWholeMatch(s, sp, ExactLookup(map["a.png" := "U"]));
    DataSrcParts(s);
    DataSrcUnresolved(MatchOf(s, sp));
  }

  /** An uploaded `b.png` replaces the `data-src` value and leaves the
      earlier `src` inside `pre`. */
  lemma DataSrcReplaced(s: string)
    requires s == "<img src=\"a.png\" data-src=\"b.png\">"
    ensures Rewrite(s, map["b.png" := "U"]) == "<img src=\"a.png\" data-src=\"U\">"
  {
    var sp := Span(22, 32, 34);
    DataSrcMatches();
    RewriteWholeMatch(s, sp, ExactLookup(map["b.png" := "U"]));
    DataSrcParts(s);
    DataSrcResolved(MatchOf(s, sp));
  }

  lemma ConstructorTagAccepted(s: string)
    requires s == "<img src=\"constructor\">"
    ensures Accepts(s, Span(5, 21, 23))
  {
    assert CiMatchAt(s, 0, "<img") && CiMatchAt(s, 5, "src=");
  }

  lemma ConstructorTagNoLaterSrc(s: string)
    requires s == "<img src=\"constructor\">"
    ensures forall q :: 5 < q <= |s| - 4 ==> !CiMatchAt(s, q, "src=")
  {
    forall q | 5 < q <= |s| - 4 ensures !CiMatchAt(s, q, "src=") {
      assert "src="[0] == 's' && "src="[1] == 'r';
      if q == 13 { assert AsciiLower(s[q + 1]) != 'r'; }
      else { assert s[q] in "rc=\"constructor\">"; }
    }
  }

  lemma ConstructorTagMatches()
    ensures MatchPrefix("<img src=\"constructor\">") == Some(Span(5, 21, 23))
  {
    var s := "<img src=\"constructor\">";
    ConstructorTagAccepted(s);
    ConstructorTagNoLaterSrc(s);
    MatchWhenLastSrc(s, Span(5, 21, 23));
  }

  lemma ConstructorParts(s: string)
    requires s == "<img src=\"constructor\">" && Accepts(s, Span(5, 21, 23))
    ensures var m := MatchOf(s, Span(5, 21, 23)); m.pre == " " && m.src == "constructor" && m.post == ""
  {
    var c := "constructor";
    forall i | 0 <= i < 11 ensures s[10..21][i] == c[i] { assert s[10..21][i] == s[10 + i]; }
  }

  lemma ConstructorResolves(name: string)
    requires name == "constructor"
    ensures ObjectLookup(map[])(name) == Some("function Object() { [native code] }")
  {
  }

  lemma ConstructorTagText(pre: string, url: string, post: string)
    requires pre == " " && post == "" && url == "function Object() { [native code] }"
    ensures "<img" + pre + "src=\"" + url + "\"" + post + ">"
            == "<img src=\"function Object() { [native code] }\">"
  {
  }

  lemma ConstructorCallback(m: Match)
    requires m.pre == " " && m.src == "constructor" && m.post == ""
    ensures Render(Img(m), ObjectLookup(map[])) == "<img src=\"function Object() { [native code] }\">"
  {
    var url := "function Object() { [native code] }";
    ConstructorResolves(m.src);
    assert Render(Img(m), ObjectLookup(map[])) == "<img" + m.pre + "src=\"" + url + "\"" + m.post + ">";
    ConstructorTagText(m.pre, url, m.post);
  }

  /** As written, `images[src]` on an empty object literal finds
      `Object.prototype.constructor`, so a reference to a file named
      `constructor` is rewritten although nothing of that name was
      uploaded; the exact lookup leaves it alone. */
  lemma PrototypeNameRewritten(s: string)
    requires s == "<img src=\"constructor\">"
    ensures RewriteWith(s, ObjectLookup(map[])) == "<img src=\"function Object() { [native code] }\">"
    ensures Rewrite(s, map[]) == s
  {
    ConstructorTagMatches();
    RewriteWholeMatch(s, Span(5, 21, 23), ObjectLookup(map[]));
    ConstructorParts(s);
    ConstructorCallback(MatchOf(s, Span(5, 21, 23)));
    RewriteEmptyIndex(s);
  }
}
