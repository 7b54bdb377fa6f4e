/**
 * The highlighted-page renderer of `src/utils.rs`: a fixed HTML page with
 * a `{lang}` placeholder in its title and a `{code}` placeholder in its
 * body, filled by two chained replacements. The syntax registry and the
 * highlighter are foreign code and arrive as function parameters.
 */
module Highlight {
  import opened Results
  import opened Text

  const LangTag := "{lang}"
  const CodeTag := "{code}"

  // The template is the source's raw string cut at its two placeholders;
  // each piece is written line by line as the source lays it out.

  /** The template up to the `{lang}` placeholder. */
  const TitleHead := "\n" + "      <html>\n" + "        <head>\n" + "            <title> "
  /** The template between the two placeholders. */
  const TitleTail := " code </title>\n" + "        </head>\n" + "        <body>\n" + "            "
  /** The template after the `{code}` placeholder. */
  const BodyTail := "\n" + "        </body>\n" + "    </html>\n" + "    "

  /** Index of `{lang}` in the template. */
  const LangAt := |TitleHead|
  /** Index of `{code}` in the template. */
  const CodeAt := |TitleHead| + |LangTag| + |TitleTail|

  /** `get_code_template`: the fixed page the two placeholders sit in. */
  function CodeTemplate(): string {
    TitleHead + LangTag + TitleTail + CodeTag + BodyTail
  }

  /**
   * The template holds exactly one `{lang}` and exactly one `{code}`, and
   * the `{lang}` (in the title) comes before the `{code}` (in the body).
   */
  lemma TemplateTags()
    ensures forall i: nat :: OccursAt(CodeTemplate(), LangTag, i) <==> i == LangAt
    ensures forall i: nat :: OccursAt(CodeTemplate(), CodeTag, i) <==> i == CodeAt
    ensures LangAt < CodeAt
    ensures Contains(CodeTemplate(), LangTag) && Contains(CodeTemplate(), CodeTag)
  {
    assert '{' !in TitleHead && '{' !in TitleTail && '{' !in BodyTail;
    TagsBetween(TitleHead, TitleTail, BodyTail);
    TagsPresent(TitleHead, TitleTail, BodyTail);
  }

  /** Any frame around the two placeholders contains both of them. */
  lemma TagsPresent(head: string, mid: string, tail: string)
    ensures var t := head + LangTag + mid + CodeTag + tail;
      Contains(t, LangTag) && Contains(t, CodeTag)
  {
    var t := head + LangTag + mid + CodeTag + tail;
    var q := |head| + |LangTag| + |mid|;
    assert t[|head|..|head| + |LangTag|] == LangTag;
    assert t[q..q + |CodeTag|] == CodeTag;
    assert OccursAt(t, LangTag, |head|) && OccursAt(t, CodeTag, q);
    ContainsIffOccursAt(t, LangTag);
    ContainsIffOccursAt(t, CodeTag);
  }

  /** A `{`-free frame around the two placeholders has them where placed. */
  lemma TagsBetween(head: string, mid: string, tail: string)
    requires '{' !in head && '{' !in mid && '{' !in tail
    ensures var t := head + LangTag + mid + CodeTag + tail;
      && (forall i: nat :: OccursAt(t, LangTag, i) <==> i == |head|)
      && (forall i: nat :: OccursAt(t, CodeTag, i) <==> i == |head| + |LangTag| + |mid|)
  {
    var t := head + LangTag + mid + CodeTag + tail;
    var p, q := |head|, |head| + |LangTag| + |mid|;
    forall i: nat | i < |t| && i != p && i != q
      ensures t[i] != '{'
    {
      if i < p {
        assert t[i] == head[i];
      } else if i < p + |LangTag| {
        assert t[i] == LangTag[i - p];
      } else if i < q {
        assert t[i] == mid[i - p - |LangTag|];
      } else if i < q + |CodeTag| {
        assert t[i] == CodeTag[i - q];
      } else {
        assert t[i] == tail[i - q - |CodeTag|];
      }
    }
    assert t[p..p + |LangTag|] == LangTag;
    assert t[q..q + |CodeTag|] == CodeTag;
    forall i: nat | OccursAt(t, LangTag, i) || OccursAt(t, CodeTag, i)
      ensures t[i] == '{'
    {
      assert t[i..i + 6][0] == t[i];
    }
    assert t[p..p + |CodeTag|][1] == 'l';
    assert t[q..q + |LangTag|][1] == 'c';
  }

  /** Why `SyntaxHighlightCode` produced no page. */
  datatype HighlightError =
    | NoSyntax(lang: string)
    | HighlightFailed(cause: string)

  /** The text of the error the source raises. */
  function ErrorMessage(e: HighlightError): (m: string)
    ensures e.NoSyntax? ==> |e.lang| <= |m| && m[|m| - |e.lang|..] == e.lang
    ensures e.HighlightFailed? ==> |e.cause| <= |m| && m[|m| - |e.cause|..] == e.cause
  {
    match e
    case NoSyntax(lang) => "couldn't find syntax with extension: " + lang
    case HighlightFailed(cause) => "couldn't syntax higlight code: " + cause
  }

  /**
   * `syntax_highlight_code`: look the language up as a file extension, let
   * the highlighter turn the code into HTML, then substitute `{code}` and,
   * in the result, `{lang}`. Because `{lang}` is substituted second, a
   * `{lang}` inside the highlighted HTML is rewritten as well, while the
   * language itself always lands verbatim in the title.
   */
  function SyntaxHighlightCode<Syntax>(
    code: string,
    lang: string,
    findSyntax: string -> Option<Syntax>,
    highlight: (string, Syntax) -> Result<string, string>
  ): (r: Result<string, HighlightError>)
    ensures findSyntax(lang).None? ==> r == Err(NoSyntax(lang))
    ensures findSyntax(lang).Some? && highlight(code, findSyntax(lang).value).Err? ==>
              r == Err(HighlightFailed(highlight(code, findSyntax(lang).value).error))
    ensures r.Ok? <==> findSyntax(lang).Some? && highlight(code, findSyntax(lang).value).Ok?
    ensures r.Ok? ==>
              r.value == TitleHead + lang + TitleTail
                         + Replace(highlight(code, findSyntax(lang).value).value, LangTag, lang)
                         + BodyTail
  {
    match findSyntax(lang)
    case None => Err(NoSyntax(lang))
    case Some(sr) =>
      match highlight(code, sr)
      case Err(err) => Err(HighlightFailed(err))
      case Ok(html) =>
        FillTemplate(html, lang);
        Ok(Replace(Replace(CodeTemplate(), CodeTag, html), LangTag, lang))
  }

  /**
   * When the highlighted HTML holds no `{lang}`, the page is the template
   * with the language in the title and the HTML, verbatim, in the body.
   */
  lemma PageWhenNoTags<Syntax>(
    code: string, lang: string, sx: Syntax, html: string,
    findSyntax: string -> Option<Syntax>,
    highlight: (string, Syntax) -> Result<string, string>)
    requires findSyntax(lang) == Some(sx) && highlight(code, sx) == Ok(html)
    requires !Contains(html, LangTag)
    ensures SyntaxHighlightCode(code, lang, findSyntax, highlight)
            == Ok(TitleHead + lang + TitleTail + html + BodyTail)
  {
    ReplaceAbsent(html, LangTag, lang);
  }

  /**
   * Ordering consequence: `{code}` goes in first, so a `{lang}` inside the
   * highlighted HTML is then rewritten to the language like the title's.
   */
  lemma LangTagInHtmlRewritten<Syntax>(
    code: string, lang: string, sx: Syntax, before: string, after: string,
    findSyntax: string -> Option<Syntax>,
    highlight: (string, Syntax) -> Result<string, string>)
    requires findSyntax(lang) == Some(sx) && highlight(code, sx) == Ok(before + LangTag + after)
    ensures SyntaxHighlightCode(code, lang, findSyntax, highlight)
            == Ok(TitleHead + lang + TitleTail
                  + (Replace(before, LangTag, lang) + (lang + Replace(after, LangTag, lang)))
                  + BodyTail)
  {
    LangTagAround(before, after, lang);
  }

  /** A `{lang}` between any two strings is replaced, and the scan resumes after it. */
  lemma LangTagAround(before: string, after: string, lang: string)
    ensures Replace(before + LangTag + after, LangTag, lang)
            == Replace(before, LangTag, lang) + (lang + Replace(after, LangTag, lang))
  {
    assert LangTag[0] !in LangTag[1..];
    ReplaceAround(before, LangTag, after, lang);
  }

  /**
   * Ordering consequence: `{lang}` goes in second, so the language reaches
   * the title verbatim even when it spells `{code}` itself.
   */
  lemma LangVerbatimInTitle<Syntax>(
    code: string, lang: string,
    findSyntax: string -> Option<Syntax>,
    highlight: (string, Syntax) -> Result<string, string>)
    requires findSyntax(lang).Some? && highlight(code, findSyntax(lang).value).Ok?
    ensures var page := SyntaxHighlightCode(code, lang, findSyntax, highlight).value;
      && page[..LangAt] == TitleHead
      && page[LangAt..LangAt + |lang|] == lang
      && page[LangAt + |lang|..][..|TitleTail|] == TitleTail
  {
  }

  /**
   * The page as evidently intended: both placeholders filled in one pass, so
   * neither the language nor the highlighted HTML is rescanned.
   */
  function SyntaxHighlightCodeOnePass<Syntax>(
    code: string,
    lang: string,
    findSyntax: string -> Option<Syntax>,
    highlight: (string, Syntax) -> Result<string, string>
  ): (r: Result<string, HighlightError>)
    ensures r.Err? <==> SyntaxHighlightCode(code, lang, findSyntax, highlight).Err?
    ensures r.Err? ==> r == SyntaxHighlightCode(code, lang, findSyntax, highlight)
    ensures r.Ok? ==>
              var html := highlight(code, findSyntax(lang).value).value;
              && |r.value| == |TitleHead| + |lang| + |TitleTail| + |html| + |BodyTail|
              && r.value[..LangAt] == TitleHead
              && r.value[LangAt..LangAt + |lang|] == lang
              && r.value[LangAt + |lang| + |TitleTail|..][..|html|] == html
              && r.value[LangAt + |lang| + |TitleTail| + |html|..] == BodyTail
  {
    match findSyntax(lang)
    case None => Err(NoSyntax(lang))
    case Some(sr) =>
      match highlight(code, sr)
      case Err(err) => Err(HighlightFailed(err))
      case Ok(html) => Ok(TitleHead + lang + TitleTail + html + BodyTail)
  }

  /** The two renderings agree when the HTML has no `{lang}` to rewrite. */
  lemma OnePassAgreesWithoutLangTag<Syntax>(
    code: string, lang: string, sx: Syntax, html: string,
    findSyntax: string -> Option<Syntax>,
    highlight: (string, Syntax) -> Result<string, string>)
    requires findSyntax(lang) == Some(sx) && highlight(code, sx) == Ok(html)
    requires !Contains(html, LangTag)
    ensures SyntaxHighlightCode(code, lang, findSyntax, highlight)
            == SyntaxHighlightCodeOnePass(code, lang, findSyntax, highlight)
  {
    PageWhenNoTags(code, lang, sx, html, findSyntax, highlight);
  }

  /**
   * For any language other than `{lang}` itself, the source's page and the
   * corrected one agree exactly when the highlighted HTML holds no `{lang}`:
   * every `{lang}` in highlighted code is replaced by the language on the
   * source's page.
   */
  lemma OnePassAgreesIffNoLangTag<Syntax>(
    code: string, lang: string, sx: Syntax, html: string,
    findSyntax: string -> Option<Syntax>,
    highlight: (string, Syntax) -> Result<string, string>)
    requires findSyntax(lang) == Some(sx) && highlight(code, sx) == Ok(html)
    requires lang != LangTag
    ensures SyntaxHighlightCode(code, lang, findSyntax, highlight)
            == SyntaxHighlightCodeOnePass(code, lang, findSyntax, highlight)
            <==> !Contains(html, LangTag)
  {
    var front := TitleHead + lang + TitleTail;
    var body := Replace(html, LangTag, lang);
    if Contains(html, LangTag) {
      ReplaceChanges(html, LangTag, lang);
      if front + body + BodyTail == front + html + BodyTail {
        CancelFrame(front, body, html, BodyTail);
      }
    } else {
      ReplaceAbsent(html, LangTag, lang);
    }
  }

  /** Equal strings with the same frame have the same middle. */
  lemma CancelFrame(front: string, x: string, y: string, back: string)
    requires front + x + back == front + y + back
    ensures x == y
  {
    assert x == (front + x + back)[|front|..|front| + |x|];
  }

  /** A registry that knows every extension, by one syntax. */
  function AnyExtension(lang: string): Option<()> {
    Some(())
  }

  /** A stand-in highlighter that emits the code unchanged, braces included. */
  function EchoHighlighter(code: string, syntax: ()): Result<string, string> {
    Ok(code)
  }

  /**
   * The discrepancy on a concrete input: a plain-text highlighter that
   * echoes the code `{lang}` makes the page show `txt` where the paste says
   * `{lang}`.
   */
  lemma LangTagInCodeIsLost()
    ensures var find := AnyExtension;
            var echo := EchoHighlighter;
            && SyntaxHighlightCode("{lang}", "txt", find, echo)
               == Ok(TitleHead + "txt" + TitleTail + "txt" + BodyTail)
            && SyntaxHighlightCodeOnePass("{lang}", "txt", find, echo)
               == Ok(TitleHead + "txt" + TitleTail + "{lang}" + BodyTail)
            && SyntaxHighlightCode("{lang}", "txt", find, echo)
               != SyntaxHighlightCodeOnePass("{lang}", "txt", find, echo)
  {
    ReplaceFront(LangTag, [], "txt");
    assert LangTag + [] == LangTag;
    assert Replace(LangTag, LangTag, "txt") == "txt";
    assert SyntaxHighlightCode("{lang}", "txt", AnyExtension, EchoHighlighter)
           == Ok(TitleHead + "txt" + TitleTail + "txt" + BodyTail);
    var asWritten := TitleHead + "txt" + TitleTail + "txt" + BodyTail;
    var onePass := TitleHead + "txt" + TitleTail + "{lang}" + BodyTail;
    assert asWritten[LangAt + 3 + |TitleTail|] == 't';
    assert onePass[LangAt + 3 + |TitleTail|] == '{';
  }

  /**
   * The two chained substitutions on the template: the language lands in the
   * title untouched, the HTML lands in the body with its own `{lang}`
   * occurrences replaced.
   */
  lemma FillTemplate(html: string, lang: string)
    ensures Replace(Replace(CodeTemplate(), CodeTag, html), LangTag, lang)
            == TitleHead + lang + TitleTail + Replace(html, LangTag, lang) + BodyTail
  {
    assert '{' !in TitleHead && '{' !in TitleTail && '{' !in BodyTail;
    assert BodyTail[0] == '\n';
    FillBetween(TitleHead, TitleTail, BodyTail, html, lang);
  }

  /** `FillTemplate` for any `{`-free frame whose tail cannot end a `{lang}`. */
  lemma FillBetween(head: string, mid: string, tail: string, html: string, lang: string)
    requires '{' !in head && '{' !in mid && '{' !in tail
    requires |tail| > 0 ==> tail[0] !in LangTag
    ensures Replace(Replace(head + LangTag + mid + CodeTag + tail, CodeTag, html), LangTag, lang)
            == head + lang + mid + Replace(html, LangTag, lang) + tail
  {
    Regroup(head, LangTag, mid, CodeTag, tail);
    CodePass(head, mid, tail, html);
    Regroup(head, LangTag, mid, html, tail);
    LangPass(head, mid, tail, html, lang);
    Regroup(head, lang, mid, Replace(html, LangTag, lang), tail);
  }

  /** Five-part concatenation, grouped to the right. */
  lemma Regroup(a: string, b: string, c: string, d: string, e: string)
    ensures a + b + c + d + e == a + (b + (c + (d + e)))
  {
  }

  /** First pass: only the frame's own `{code}` matches. */
  lemma CodePass(head: string, mid: string, tail: string, html: string)
    requires '{' !in head && '{' !in mid && '{' !in tail
    ensures Replace(head + (LangTag + (mid + (CodeTag + tail))), CodeTag, html)
            == head + (LangTag + (mid + (html + tail)))
  {
    ReplaceSkipsPrefix(tail, [], CodeTag, html);
    assert tail + [] == tail;
    ReplaceFront(CodeTag, tail, html);
    ReplaceSkipsPrefix(mid, CodeTag + tail, CodeTag, html);
    var rest := mid + (CodeTag + tail);
    ReplaceSkipsPrefix("lang}", rest, CodeTag, html);
    LangTagSurvivesCodePass(rest, html);
    ReplaceSkipsPrefix(head, LangTag + rest, CodeTag, html);
    assert ['{'] + ("lang}" + (mid + (html + tail))) == LangTag + (mid + (html + tail));
  }

  /** The template's `{lang}` is not a `{code}`: the scan steps past its brace. */
  lemma LangTagSurvivesCodePass(rest: string, html: string)
    ensures Replace(LangTag + rest, CodeTag, html) == ['{'] + Replace("lang}" + rest, CodeTag, html)
  {
    assert !StartsWith(LangTag + rest, CodeTag) by {
      assert (LangTag + rest)[..|CodeTag|][1] == 'l';
    }
    assert (LangTag + rest)[1..] == "lang}" + rest;
  }

  /** Second pass: the frame's `{lang}`, then whatever the HTML holds. */
  lemma LangPass(head: string, mid: string, tail: string, html: string, lang: string)
    requires '{' !in head && '{' !in mid && '{' !in tail
    requires |tail| > 0 ==> tail[0] !in LangTag
    ensures Replace(head + (LangTag + (mid + (html + tail))), LangTag, lang)
            == head + (lang + (mid + (Replace(html, LangTag, lang) + tail)))
  {
    ReplaceConcat(html, tail, LangTag, lang);
    ReplaceSkipsPrefix(tail, [], LangTag, lang);
    assert tail + [] == tail;
    ReplaceSkipsPrefix(mid, html + tail, LangTag, lang);
    ReplaceFront(LangTag, mid + (html + tail), lang);
    ReplaceSkipsPrefix(head, LangTag + (mid + (html + tail)), LangTag, lang);
  }
}
