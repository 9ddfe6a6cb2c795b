/**
  `replacer.py`: the rewrite rule for one URL and the pipeline that applies it
  to a response body through the three patterns.
 */
module Replacer {
  import opened Wrappers
  import opened Text
  import opened Utf8
  import opened Patterns

  /**
    `rewrite_url_func`: a root-relative path gets the new target's scheme and
    authority in front; an absolute `http`/`https` URL and anything else are
    returned as they are.
   */
  function RewriteUrl(originalUrl: string, scheme: string, netloc: string): (r: string)
    ensures StartsWith(originalUrl, "/") ==> r == scheme + "://" + netloc + originalUrl
    ensures !StartsWith(originalUrl, "/") ==> r == originalUrl
  {
    if StartsWith(originalUrl, "/") then
      scheme + "://" + netloc + originalUrl
    else if StartsWith(Lower(originalUrl), "http://") || StartsWith(Lower(originalUrl), "https://") then
      originalUrl
    else
      originalUrl
  }

  /** An absolute `http`/`https` URL, in any case, is never rewritten. */
  lemma RewriteKeepsAbsolute(url: string, scheme: string, netloc: string)
    requires StartsWith(Lower(url), "http://") || StartsWith(Lower(url), "https://")
    ensures RewriteUrl(url, scheme, netloc) == url
  {
    assert Lower(url)[0] == 'h';
  }

  /**
    A protocol-relative URL such as `//cdn.example/a.js` starts with `/` too,
    so it is prefixed like a root-relative path: the target's authority is put
    in front of the URL's own, `scheme://netloc//cdn.example/a.js`.
   */
  lemma RewriteProtocolRelative(url: string, scheme: string, netloc: string)
    requires StartsWith(url, "//")
    ensures RewriteUrl(url, scheme, netloc) == scheme + "://" + netloc + url
  {
  }

  /**
    Rewriting a rewritten URL changes nothing, unless the target scheme itself
    starts with `/`.
   */
  lemma RewriteIdempotent(url: string, scheme: string, netloc: string)
    requires !StartsWith(scheme, "/")
    ensures RewriteUrl(RewriteUrl(url, scheme, netloc), scheme, netloc) == RewriteUrl(url, scheme, netloc)
  {
    var r := RewriteUrl(url, scheme, netloc);
    if StartsWith(url, "/") {
      if scheme == [] {
        assert r[0] == ':';
      } else {
        assert r[0] == scheme[0];
      }
    }
  }

  /**
    With an `http` or `https` target, a rewritten root-relative path is an
    absolute URL of the kind the second branch leaves alone.
   */
  lemma RewrittenIsAbsolute(url: string, scheme: string, netloc: string)
    requires StartsWith(url, "/") && (scheme == "http" || scheme == "https")
    ensures var r := RewriteUrl(url, scheme, netloc);
      StartsWith(Lower(r), "http://") || StartsWith(Lower(r), "https://")
  {
    var r := RewriteUrl(url, scheme, netloc);
    var p := scheme + "://";
    assert r[..|p|] == p;
    LowerIsLowered(p);
    assert Lower(r)[..|p|] == Lower(r[..|p|]);
    assert IsLowered(p);
  }

  lemma RewriteExamples()
    ensures RewriteUrl("/api/tasks", "http", "192.168.0.16:3007") == "http://192.168.0.16:3007/api/tasks"
  {
  }

  /** Absolute URLs, relative references that do not start with `/`, and the empty string are kept. */
  lemma KeepExamples()
    ensures RewriteUrl("http://old.cdn.com/style.css", "http", "192.168.0.16:3007") == "http://old.cdn.com/style.css"
    ensures RewriteUrl("./data.json", "http", "192.168.0.16:3007") == "./data.json"
    ensures RewriteUrl("styles.css", "http", "192.168.0.16:3007") == "styles.css"
    ensures RewriteUrl("", "http", "192.168.0.16:3007") == ""
  {
    assert "http://old.cdn.com/style.css"[0] == 'h';
  }

  /** The rewrite rule handed to the pipeline: URL, target scheme, target authority. */
  type Rewriter = (string, string, string) -> string

  /**
    The text a match is replaced with (`js_replacer`, `html_replacer`,
    `css_replacer`): the captured quote on both sides of the rewritten URL; the
    HTML form keeps the attribute name as matched, the CSS form is written
    `url(...)`. Spaces and the backslash the patterns allow around the URL are
    not carried over.
   */
  function Replacement(m: Match, rewriter: Rewriter, scheme: string, netloc: string): string
  {
    match m
    case JsLiteral(q, url, _, _) => [q] + rewriter(url, scheme, netloc) + [q]
    case HtmlAttr(name, q, value, _, _) => name + "=" + [q] + rewriter(value, scheme, netloc) + [q]
    case CssUrl(q, url, _, _) => "url(" + q + rewriter(url, scheme, netloc) + q + ")"
  }

  /**
    With a rule that leaves the URL alone, a JS match is written back exactly as
    it was found if and only if it had no spaces and no backslash around the
    URL: the replacement keeps the quotes and drops everything else between them.
   */
  lemma JsReplacementDropsPadding(s: string, i: nat, m: Match, rewriter: Rewriter, scheme: string, netloc: string)
    requires IsJsMatch(s, i, m) && m.end <= |s|
    requires rewriter(m.url, scheme, netloc) == m.url
    ensures Replacement(m, rewriter, scheme, netloc) == s[i..m.end]
        <==> m.urlStart == i + 1 && m.end == m.urlStart + |m.url| + 1
  {
    assert Replacement(m, rewriter, scheme, netloc) == [m.quote] + m.url + [m.quote];
    assert i < m.urlStart && m.urlStart + |m.url| < m.end <= |s|;
    assert s[i] == m.quote && s[m.end - 1] == m.quote;
    QuotedSliceIsTight(s, i, m.urlStart, m.url, m.end, m.quote);
  }

  /** A slice `s[i..end]` opening and closing with `q` around `url` reads `q url q` exactly when nothing else lies in it. */
  lemma QuotedSliceIsTight(s: string, i: nat, start: nat, url: string, end: nat, q: char)
    requires i < start && start + |url| < end <= |s|
    requires s[i] == q && s[end - 1] == q && url == s[start..start + |url|]
    ensures [q] + url + [q] == s[i..end] <==> start == i + 1 && end == start + |url| + 1
  {
    if start == i + 1 && end == start + |url| + 1 {
      assert s[i..end] == [s[i]] + s[start..start + |url|] + [s[end - 1]];
    }
  }

  /**
    The HTML form: with a rule that leaves the value alone, an attribute match is
    written back exactly as it was found if and only if there was no space
    around its `=`; `href = 'x'` becomes `href='x'`.
   */
  lemma HtmlReplacementDropsPadding(s: string, i: nat, m: Match, rewriter: Rewriter, scheme: string, netloc: string)
    requires m.HtmlAttr? && i + |m.name| <= |s| && m.name == s[i..i + |m.name|]
    requires IsHtmlValue(s, i + |m.name|, m)
    requires rewriter(m.value, scheme, netloc) == m.value
    ensures Replacement(m, rewriter, scheme, netloc) == s[i..m.end] <==> m.valueStart == i + |m.name| + 2
  {
    var n := i + |m.name|;
    var j: nat :| n <= j < m.valueStart && IsSpacedEquals(s, n, m.valueStart, j);
    assert Replacement(m, rewriter, scheme, netloc) == m.name + "=" + [m.quote] + m.value + [m.quote];
    AttrSliceIsTight(s, i, n, j, m.valueStart, m.name, m.value, m.quote);
  }

  /** `name = 'value'` in `s[i..]`, with the `=` at `j` and the value at `v`, reads `name='value'` exactly when `v` is two past the name. */
  lemma AttrSliceIsTight(s: string, i: nat, n: nat, j: nat, v: nat, name: string, value: string, q: char)
    requires n == i + |name| && n <= j < v - 1 && v + |value| < |s| && name == s[i..n]
    requires s[j] == '=' && s[v - 1] == q && value == s[v..v + |value|] && s[v + |value|] == q
    ensures name + "=" + [q] + value + [q] == s[i..v + |value| + 1] <==> v == n + 2
  {
    if v == n + 2 {
      assert s[i..v + |value| + 1] == s[i..n] + [s[n]] + [s[n + 1]] + s[v..v + |value|] + [s[v + |value|]];
    } else {
      assert |name + "=" + [q] + value + [q]| != |s[i..v + |value| + 1]|;
    }
  }

  /**
    The CSS form: with a rule that leaves the URL alone, a `url(...)` match is
    written back exactly as it was found if and only if the function name was
    written `url` in lower case and there was no space inside the parentheses;
    `url( 'x' )` becomes `url('x')`.
   */
  lemma CssReplacementDropsPadding(s: string, i: nat, m: Match, rewriter: Rewriter, scheme: string, netloc: string)
    requires IsCssMatch(s, i, m)
    requires rewriter(m.url, scheme, netloc) == m.url
    ensures Replacement(m, rewriter, scheme, netloc) == s[i..m.end]
        <==> s[i..i + 3] == "url" && m.urlStart == i + 4 + |m.cssQuote|
             && m.end == m.urlStart + |m.url| + |m.cssQuote| + 1
  {
    var paren, p, e := CssPartsBounds(s, i, m);
    CssReplacementAt(s, i, paren, p, e, m, rewriter, scheme, netloc);
  }

  /** The same, from the plain facts about a `url(...)` match. */
  lemma CssReplacementAt(s: string, i: nat, paren: nat, p: nat, e: nat, m: Match,
                         rewriter: Rewriter, scheme: string, netloc: string)
    requires m.CssUrl? && rewriter(m.url, scheme, netloc) == m.url && p + |m.cssQuote| == m.urlStart
    requires i + 3 <= paren < p && p + |m.cssQuote| <= e && e + |m.cssQuote| < m.end <= |s|
    requires s[paren] == '(' && s[p..p + |m.cssQuote|] == m.cssQuote && m.url == s[p + |m.cssQuote|..e]
    requires s[e..e + |m.cssQuote|] == m.cssQuote && s[m.end - 1] == ')'
    ensures Replacement(m, rewriter, scheme, netloc) == s[i..m.end]
        <==> s[i..i + 3] == "url" && m.urlStart == i + 4 + |m.cssQuote|
             && m.end == m.urlStart + |m.url| + |m.cssQuote| + 1
  {
    assert Replacement(m, rewriter, scheme, netloc) == "url(" + m.cssQuote + m.url + m.cssQuote + ")";
    CssSliceIsTight(s, i, paren, p, m.cssQuote, m.url, e, m.end);
  }

  /** The positions and texts of a `url(...)` match, as plain facts: the `(`, the quote and the end of the URL. */
  lemma CssPartsBounds(s: string, i: nat, m: Match) returns (paren: nat, p: nat, e: nat)
    requires IsCssMatch(s, i, m)
    ensures m.CssUrl? && p + |m.cssQuote| == m.urlStart
    ensures i + 3 <= paren < p && p + |m.cssQuote| <= e && e + |m.cssQuote| < m.end <= |s|
    ensures s[paren] == '(' && s[p..p + |m.cssQuote|] == m.cssQuote && m.url == s[p + |m.cssQuote|..e]
    ensures s[e..e + |m.cssQuote|] == m.cssQuote && s[m.end - 1] == ')'
  {
    paren, p, e :| paren == SkipSpaces(s, i + 3) && p + |m.cssQuote| == m.urlStart
      && e == m.urlStart + |m.url| && IsCssMatchParts(s, i, paren, p, e, m);
    CssPartsFacts(s, i, paren, p, e, m);
  }

  /** The plain facts `CssPartsBounds` hands on, for given positions. */
  lemma CssPartsFacts(s: string, i: nat, paren: nat, p: nat, e: nat, m: Match)
    requires IsCssMatchParts(s, i, paren, p, e, m)
    ensures paren < p && p + |m.cssQuote| <= e && e + |m.cssQuote| < m.end <= |s|
    ensures s[paren] == '(' && s[p..p + |m.cssQuote|] == m.cssQuote && m.url == s[p + |m.cssQuote|..e]
    ensures s[e..e + |m.cssQuote|] == m.cssQuote && s[m.end - 1] == ')'
  {
    CssOpenBounds(s, paren, p, m);
    CssQuotedUrlBounds(s, p, m.cssQuote, e, m.end);
  }

  /** The opening part starts with `(` before the quote. */
  lemma CssOpenBounds(s: string, paren: nat, p: nat, m: Match)
    requires IsCssOpen(s, paren, p, m)
    ensures paren < p <= |s| && s[paren] == '('
  {
  }

  /** The quote, the URL and the closing part lie in order inside `s`. */
  lemma CssQuotedUrlBounds(s: string, p: nat, q: string, e: nat, end: nat)
    requires IsCssQuotedUrl(s, p, q, e, end)
    ensures p + |q| < e && e + |q| < end <= |s| && s[p..p + |q|] == q
    ensures s[e..e + |q|] == q && s[end - 1] == ')'
  {
    assert IsCssClose(s, q, e, end);
  }

  /** The slice of a `url(...)` match reads `url(` quote URL quote `)` exactly when nothing else lies in it. */
  lemma CssSliceIsTight(s: string, i: nat, paren: nat, p: nat, q: string, url: string, e: nat, end: nat)
    requires i + 3 <= paren < p && p + |q| <= e && e + |q| < end <= |s|
    requires s[paren] == '(' && s[p..p + |q|] == q && url == s[p + |q|..e] && s[e..e + |q|] == q && s[end - 1] == ')'
    ensures "url(" + q + url + q + ")" == s[i..end] <==> s[i..i + 3] == "url" && p == i + 4 && end == e + |q| + 1
  {
    var r := "url(" + q + url + q + ")";
    if p == i + 4 && end == e + |q| + 1 {
      TightCssSlice(s, i, q, url, e, end);
      if r == s[i..end] {
        assert r[..3] == s[i..end][..3] == s[i..i + 3];
      }
    } else {
      assert |r| != |s[i..end]|;
    }
  }

  /** Without padding, the slice is the function name as written, `(`, the quotes around the URL and `)`. */
  lemma TightCssSlice(s: string, i: nat, q: string, url: string, e: nat, end: nat)
    requires i + 4 + |q| <= e && end == e + |q| + 1 && end <= |s| && s[i + 3] == '(' && s[end - 1] == ')'
    requires s[i + 4..i + 4 + |q|] == q && url == s[i + 4 + |q|..e] && s[e..e + |q|] == q
    ensures s[i..end] == s[i..i + 3] + "(" + q + url + q + ")"
  {
    var p := i + 4;
    assert s[i..end] == s[i..p] + s[p..end];
    assert s[i..p] == s[i..i + 3] + "(";
    assert s[p..end] == s[p..p + |q|] + s[p + |q|..end];
    assert s[p + |q|..end] == s[p + |q|..e] + s[e..end];
    assert s[e..end] == s[e..e + |q|] + ")";
  }

  /** The replacement function handed to `re.sub`. */
  function ReplaceWith(rewriter: Rewriter, scheme: string, netloc: string): Match -> string
  {
    m => Replacement(m, rewriter, scheme, netloc)
  }

  function JsPass(t: string, rewriter: Rewriter, scheme: string, netloc: string): string
  {
    Sub(JsUrlRe, t, ReplaceWith(rewriter, scheme, netloc))
  }

  function HtmlPass(t: string, rewriter: Rewriter, scheme: string, netloc: string): string
  {
    Sub(HtmlAttrRe, t, ReplaceWith(rewriter, scheme, netloc))
  }

  function CssPass(t: string, rewriter: Rewriter, scheme: string, netloc: string): string
  {
    Sub(CssUrlRe, t, ReplaceWith(rewriter, scheme, netloc))
  }

  /** The three passes, each on the previous one's output: JS literals, HTML attributes, CSS `url()`. */
  function RewriteText(t: string, rewriter: Rewriter, scheme: string, netloc: string): string
  {
    CssPass(HtmlPass(JsPass(t, rewriter, scheme, netloc), rewriter, scheme, netloc), rewriter, scheme, netloc)
  }

  /** Python's `a or b` on strings: `a` unless it is empty. */
  function OrElse(a: string, b: string): string
  {
    if a != [] then a else b
  }

  /**
    The content-type test as written: the prefix is the value of
    `'application/javascript' or 'text/javascript'`, which is the first string.
   */
  predicate PassesGate(contentType: Option<string>)
  {
    contentType.Some? && contentType.value != []
    && StartsWith(Lower(contentType.value), OrElse("application/javascript", "text/javascript"))
  }

  /**
    `process_and_rewrite_response`: the body is left as it is unless the content
    type passes the gate and the body is UTF-8; otherwise the decoded text goes
    through the three passes and is encoded again.
   */
  function ProcessAndRewriteResponse(content: seq<Byte>, contentType: Option<string>, netloc: string,
                                     scheme: string, rewriter: Rewriter): (r: seq<Byte>)
    ensures !PassesGate(contentType) ==> r == content
    ensures Decode(content).None? ==> r == content
    ensures PassesGate(contentType) && Decode(content).Some? ==>
      Decode(r) == Some(RewriteText(Decode(content).value, rewriter, scheme, netloc))
  {
    if !PassesGate(contentType) then content
    else match Decode(content)
      case None => content
      case Some(t) =>
        var out := RewriteText(t, rewriter, scheme, netloc);
        DecodeEncode(out);
        Encode(out)
  }

  /** Where no pattern matches anywhere in the decoded text, the bytes come back unchanged. */
  lemma NoMatchKeepsContent(content: seq<Byte>, contentType: Option<string>, netloc: string,
                            scheme: string, rewriter: Rewriter)
    requires Decode(content).Some?
    requires forall j :: 0 <= j < |Decode(content).value| ==>
      MatchAt(JsUrlRe, Decode(content).value, j).None?
      && MatchAt(HtmlAttrRe, Decode(content).value, j).None?
      && MatchAt(CssUrlRe, Decode(content).value, j).None?
    ensures ProcessAndRewriteResponse(content, contentType, netloc, scheme, rewriter) == content
  {
    if PassesGate(contentType) {
      var t := Decode(content).value;
      var f := ReplaceWith(rewriter, scheme, netloc);
      SubNoMatch(JsUrlRe, t, f);
      SubNoMatch(HtmlAttrRe, t, f);
      SubNoMatch(CssUrlRe, t, f);
      assert RewriteText(t, rewriter, scheme, netloc) == t;
      EncodeDecode(content);
    }
  }

  /**
    The gate as written: `'application/javascript' or 'text/javascript'` is the
    first string, so a `text/javascript` body is never rewritten.
   */
  lemma TextJavascriptNotRewritten(content: seq<Byte>, netloc: string, scheme: string, rewriter: Rewriter)
    ensures ProcessAndRewriteResponse(content, Some("text/javascript"), netloc, scheme, rewriter) == content
  {
    assert OrElse("application/javascript", "text/javascript") == "application/javascript";
    assert Lower("text/javascript")[0] == 't';
  }

  /** The gate as evidently intended: either script content type. */
  predicate IsScriptType(contentType: Option<string>)
  {
    contentType.Some? && contentType.value != []
    && (StartsWith(Lower(contentType.value), "application/javascript")
        || StartsWith(Lower(contentType.value), "text/javascript"))
  }

  /** `process_and_rewrite_response` with the intended gate. */
  function ProcessScriptResponse(content: seq<Byte>, contentType: Option<string>, netloc: string,
                                 scheme: string, rewriter: Rewriter): (r: seq<Byte>)
    ensures !IsScriptType(contentType) ==> r == content
    ensures Decode(content).None? ==> r == content
    ensures IsScriptType(contentType) && Decode(content).Some? ==>
      Decode(r) == Some(RewriteText(Decode(content).value, rewriter, scheme, netloc))
  {
    if !IsScriptType(contentType) then content
    else match Decode(content)
      case None => content
      case Some(t) =>
        var out := RewriteText(t, rewriter, scheme, netloc);
        DecodeEncode(out);
        Encode(out)
  }

  /**
    With the intended gate a `text/javascript` body is rewritten, and every body
    the gate as written lets through is treated exactly as before.
   */
  lemma ScriptResponseFixesGate(content: seq<Byte>, contentType: Option<string>, netloc: string,
                                scheme: string, rewriter: Rewriter)
    ensures IsScriptType(Some("text/javascript"))
    ensures PassesGate(contentType) ==>
      ProcessScriptResponse(content, contentType, netloc, scheme, rewriter)
      == ProcessAndRewriteResponse(content, contentType, netloc, scheme, rewriter)
  {
    var t := "text/javascript";
    assert Lower(t)[..|t|] == t by {
      forall k | 0 <= k < |t|
        ensures Lower(t)[k] == t[k]
      {
        assert !IsUpper(t[k]);
      }
    }
  }

  /**
    An escaped literal inside a JS string: the quote, the space and the
    backslash around the URL are consumed by the match and only the quotes are
    written back. The backslash before the opening quote is not part of the
    match and stays.
   */
  lemma EscapedLiteralExample(s: string, rewriter: Rewriter, scheme: string, netloc: string)
    requires s == "\\\" /dev-api\\\""
    ensures JsPass(s, rewriter, scheme, netloc) == "\\\"" + rewriter("/dev-api", scheme, netloc) + "\""
  {
    EscapedLiteralSub(rewriter, scheme, netloc);
    BackslashQuoted(rewriter("/dev-api", scheme, netloc));
  }

  /** The one match of `JS_URL_RE` in the escaped literal starts after the leading backslash and runs to the end. */
  lemma EscapedLiteralSub(rewriter: Rewriter, scheme: string, netloc: string)
    ensures JsPass("\\\" /dev-api\\\"", rewriter, scheme, netloc)
      == "\\" + (['"'] + rewriter("/dev-api", scheme, netloc) + ['"'])
  {
    var s := "\\\" /dev-api\\\"";
    var f := ReplaceWith(rewriter, scheme, netloc);
    EscapedLiteralMatch();
    assert MatchAt(JsUrlRe, s, 0) == None;
    SubLastMatch(JsUrlRe, s, 1, f);
    assert s[..1] == "\\";
    assert f(JsLiteral('"', "/dev-api", 3, 13)) == ['"'] + rewriter("/dev-api", scheme, netloc) + ['"'];
  }

  lemma BackslashQuoted(u: string)
    ensures "\\" + (['"'] + u + ['"']) == "\\\"" + u + "\""
  {
  }

  lemma EscapedLiteralMatch()
    ensures JsMatchAt("\\\" /dev-api\\\"", 1) == Some(JsLiteral('"', "/dev-api", 3, 13))
  {
    var s := "\\\" /dev-api\\\"";
    assert SkipSpaces(s, 2) == 3 by {
      SkipSpacesTo(s, 2, 3);
    }
    assert JsAlternative(s, '"', 3, JsPrefixes[3]) == Some((11, 13)) by {
      EscapedLiteralAlternative();
      EscapedLiteralUrl();
    }
    assert JsFirstAlternative(s, '"', 3, 0) == Some(3) by {
      EscapedLiteralAlternative();
    }
    assert s[3..11] == "/dev-api";
  }

  lemma EscapedLiteralAlternative()
    ensures JsFirstAlternative("\\\" /dev-api\\\"", '"', 3, 0) == Some(3)
  {
    var s := "\\\" /dev-api\\\"";
    assert !CiPrefixAt(s, 3, JsPrefixes[0]) by {
      assert Lower(s[3..11])[0] == '/';
    }
    assert !CiPrefixAt(s, 3, JsPrefixes[1]) by {
      assert Lower(s[3..10])[0] == '/';
    }
    assert !CiPrefixAt(s, 3, JsPrefixes[2]) by {
      assert Lower(s[3..5])[1] == 'd';
    }
    assert CiPrefixAt(s, 3, JsPrefixes[3]) by {
      assert Lower(s[3..4]) == "/";
    }
    EscapedLiteralUrl();
  }

  lemma EscapedLiteralUrl()
    ensures JsLazyUrl("\\\" /dev-api\\\"", '"', 4, 5) == Some((11, 13))
  {
    var s := "\\\" /dev-api\\\"";
    var q := '"';
    assert JsCloseAt(s, q, 11) == Some(13) by {
      SkipSpacesTo(s, 11, 11);
    }
    forall e | 5 <= e <= 10
      ensures JsCloseAt(s, q, e).None?
    {
      SkipSpacesTo(s, e, e);
    }
    assert JsLazyUrl(s, q, 4, 11) == Some((11, 13));
    assert JsLazyUrl(s, q, 4, 10) == Some((11, 13));
    assert JsLazyUrl(s, q, 4, 9) == Some((11, 13));
    assert JsLazyUrl(s, q, 4, 8) == Some((11, 13));
    assert JsLazyUrl(s, q, 4, 7) == Some((11, 13));
    assert JsLazyUrl(s, q, 4, 6) == Some((11, 13));
  }
}
