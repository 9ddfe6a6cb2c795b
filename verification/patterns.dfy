/**
  `rewriter_regex.py`: the three patterns of the content rewriter as explicit
  matchers, and `re.sub` as the scan that uses them.

  `JsMatchAt(s, i)`, `HtmlMatchAt(s, i)` and `CssMatchAt(s, i)` say what Python's
  backtracking engine finds when the pattern is tried at index `i` of `s`: no
  match, or the groups and the index where the match ends. Each follows the
  engine's order of choices: alternatives left to right, greedy repetitions
  longest first, lazy ones shortest first. Letters in the patterns are compared
  without case (`re.IGNORECASE`).
 */
module Patterns {
  import opened Wrappers
  import opened Text

  datatype Match =
    | JsLiteral(quote: char, url: string, urlStart: nat, end: nat)
    | HtmlAttr(name: string, quote: char, value: string, valueStart: nat, end: nat)
    | CssUrl(cssQuote: string, url: string, urlStart: nat, end: nat)

  datatype Pattern = JsUrlRe | HtmlAttrRe | CssUrlRe

  // ---------------------------------------------------------------------------
  // JS_URL_RE:  (["'`])\s*((?:https?://|//|/)[^\s\\]+?)\s*\\?\1
  // ---------------------------------------------------------------------------

  predicate IsJsQuote(c: char) { c == '"' || c == '\'' || c == '`' }

  /** `[^\s\\]`: what the URL of a JS literal may contain. */
  predicate IsJsUrlChar(c: char) { !IsSpace(c) && c != '\\' }

  /** The alternatives that start group 2, in the order the engine tries them. */
  const JsPrefixes: seq<string> := ["https://", "http://", "//", "/"]

  /** The closing part `\s*\\?\1` occupies exactly `s[e..end]`. */
  predicate IsJsClose(s: string, q: char, e: nat, end: nat)
  {
    e < end <= |s| && s[end - 1] == q
    && forall k :: e <= k < end - 1 ==> IsSpace(s[k]) || (k == end - 2 && s[k] == '\\')
  }

  /** `\s*\\?\1` tried at index `e`: where the match ends, if it can end there. */
  function JsCloseAt(s: string, q: char, e: nat): (r: Option<nat>)
    requires e <= |s| && IsJsQuote(q)
    ensures r.Some? ==> IsJsClose(s, q, e, r.value)
  {
    var j := SkipSpaces(s, e);
    if j + 1 < |s| && s[j] == '\\' && s[j + 1] == q then Some(j + 2)
    else if j < |s| && s[j] == q then Some(j + 1)
    else None
  }

  /** The closing part can end in only one place, and `JsCloseAt` finds it. */
  lemma JsCloseAtComplete(s: string, q: char, e: nat, end: nat)
    requires e <= |s| && IsJsQuote(q)
    requires IsJsClose(s, q, e, end)
    ensures JsCloseAt(s, q, e) == Some(end)
  {
    var j := SkipSpaces(s, e);
    assert !IsSpace(s[end - 1]);
    if end - 1 > j {
      assert j == end - 2 && s[j] == '\\';
    }
  }

  /**
    The lazy `[^\s\\]+?` from the payload start `a`: the URL `s[a..e]` is
    extended one character at a time and the first end at which the closing
    part fits is taken. The result is the URL end and the match end.
   */
  function JsLazyUrl(s: string, q: char, a: nat, e: nat): (r: Option<(nat, nat)>)
    requires a < e <= |s| && IsJsQuote(q)
    requires forall k :: a <= k < e ==> IsJsUrlChar(s[k])
    ensures r.Some? ==> e <= r.value.0 <= |s| && JsCloseAt(s, q, r.value.0) == Some(r.value.1)
    ensures r.Some? ==> forall k :: a <= k < r.value.0 ==> IsJsUrlChar(s[k])
    ensures r.Some? ==> forall e' :: e <= e' < r.value.0 ==> JsCloseAt(s, q, e').None?
    decreases |s| - e
  {
    match JsCloseAt(s, q, e)
    case Some(end) => Some((e, end))
    case None =>
      if e < |s| && IsJsUrlChar(s[e]) then JsLazyUrl(s, q, a, e + 1) else None
  }

  /** Whenever some longer URL could be closed, the lazy scan finds a match. */
  lemma {:induction false} JsLazyUrlComplete(s: string, q: char, a: nat, e: nat, pe: nat)
    requires a < e <= pe <= |s| && IsJsQuote(q)
    requires forall k :: a <= k < pe ==> IsJsUrlChar(s[k])
    requires JsCloseAt(s, q, pe).Some?
    ensures JsLazyUrl(s, q, a, e).Some?
    decreases pe - e
  {
    if JsCloseAt(s, q, e).None? {
      JsLazyUrlComplete(s, q, a, e + 1, pe);
    }
  }

  /** One alternative of group 2: the prefix `pre` at `p`, then the lazy URL. */
  function JsAlternative(s: string, q: char, p: nat, pre: string): (r: Option<(nat, nat)>)
    requires p <= |s| && IsJsQuote(q)
    ensures r.Some? ==> CiPrefixAt(s, p, pre) && p + |pre| < r.value.0 <= |s|
    ensures r.Some? ==> JsCloseAt(s, q, r.value.0) == Some(r.value.1)
    ensures r.Some? ==> forall k :: p + |pre| <= k < r.value.0 ==> IsJsUrlChar(s[k])
    ensures r.Some? ==> forall e :: p + |pre| < e < r.value.0 ==> JsCloseAt(s, q, e).None?
  {
    var a := p + |pre|;
    if CiPrefixAt(s, p, pre) && a < |s| && IsJsUrlChar(s[a]) then JsLazyUrl(s, q, a, a + 1)
    else None
  }

  /** The index of the first alternative that leads to a match. */
  function JsFirstAlternative(s: string, q: char, p: nat, k: nat): (r: Option<nat>)
    requires p <= |s| && IsJsQuote(q) && k <= |JsPrefixes|
    ensures r.Some? ==> k <= r.value < |JsPrefixes| && JsAlternative(s, q, p, JsPrefixes[r.value]).Some?
    ensures r.Some? ==> forall j :: k <= j < r.value ==> JsAlternative(s, q, p, JsPrefixes[j]).None?
    ensures r.None? ==> forall j :: k <= j < |JsPrefixes| ==> JsAlternative(s, q, p, JsPrefixes[j]).None?
    decreases |JsPrefixes| - k
  {
    if k == |JsPrefixes| then None
    else if JsAlternative(s, q, p, JsPrefixes[k]).Some? then Some(k)
    else JsFirstAlternative(s, q, p, k + 1)
  }

  /** `JS_URL_RE` tried at index `i`. */
  function JsMatchAt(s: string, i: nat): (r: Option<Match>)
    requires i <= |s|
    ensures r.Some? ==> r.value.JsLiteral? && i < r.value.end <= |s|
    ensures r.Some? ==> IsJsMatch(s, i, r.value)
  {
    if i < |s| && IsJsQuote(s[i]) then
      var q := s[i];
      var p := SkipSpaces(s, i + 1);
      match JsFirstAlternative(s, q, p, 0)
      case Some(k) =>
        var (e, end) := JsAlternative(s, q, p, JsPrefixes[k]).value;
        JsLiteralIsMatch(s, i, p, k, e, end);
        Some(JsLiteral(q, s[p..e], p, end))
      case None => None
    else None
  }

  lemma JsLiteralIsMatch(s: string, i: nat, p: nat, k: nat, e: nat, end: nat)
    requires i < |s| && IsJsQuote(s[i]) && p == SkipSpaces(s, i + 1)
    requires JsFirstAlternative(s, s[i], p, 0) == Some(k)
    requires JsAlternative(s, s[i], p, JsPrefixes[k]) == Some((e, end))
    ensures IsJsMatch(s, i, JsLiteral(s[i], s[p..e], p, end))
  {
    JsLiteralFromParts(s, i, p, k, e, end);
  }

  /** The facts `JsAlternative` and `JsFirstAlternative` report, assembled into `IsJsMatch`. */
  lemma JsLiteralFromParts(s: string, i: nat, p: nat, k: nat, e: nat, end: nat)
    requires i < |s| && IsJsQuote(s[i]) && p == SkipSpaces(s, i + 1) && k < |JsPrefixes|
    requires CiPrefixAt(s, p, JsPrefixes[k]) && p + |JsPrefixes[k]| < e <= |s|
    requires IsJsClose(s, s[i], e, end)
    requires forall j :: p + |JsPrefixes[k]| <= j < e ==> IsJsUrlChar(s[j])
    requires forall e' :: p + |JsPrefixes[k]| < e' < e ==> JsCloseAt(s, s[i], e').None?
    requires forall j :: 0 <= j < k ==> JsAlternative(s, s[i], p, JsPrefixes[j]).None?
    ensures IsJsMatch(s, i, JsLiteral(s[i], s[p..e], p, end))
  {
    var q := s[i];
    var pre := JsPrefixes[k];
    var m := JsLiteral(q, s[p..e], p, end);
    assert forall c :: c in m.url ==> IsJsUrlChar(c) by {
      PrefixUrlChars(s, p, pre);
    }
    assert IsJsChoice(s, m, k) by {
      assert m.url[0..|pre|] == s[p..p + |pre|];
    }
  }

  /** Text that equals a prefix up to case holds no space and no backslash. */
  lemma PrefixUrlChars(s: string, p: nat, pre: string)
    requires pre in JsPrefixes && CiPrefixAt(s, p, pre)
    ensures forall j :: p <= j < p + |pre| ==> IsJsUrlChar(s[j])
  {
    forall j | p <= j < p + |pre|
      ensures IsJsUrlChar(s[j])
    {
      var t := s[p..p + |pre|];
      assert t[j - p] == s[j];
      assert Lower(t)[j - p] == Lower(pre)[j - p];
      assert IsJsUrlChar(pre[j - p]);
    }
  }

  /**
    What a match of `JS_URL_RE` at `i` is: an opening quote, spaces, the URL
    (a prefix, then at least one character other than a space or a backslash),
    spaces, an optional backslash and the same quote again; of the prefixes the
    first that leads to a match is used, and with it the shortest URL.
   */
  predicate IsJsMatch(s: string, i: nat, m: Match)
  {
    m.JsLiteral? && i < m.urlStart <= m.urlStart + |m.url| <= |s|
    && s[i] == m.quote && IsJsQuote(m.quote)
    && (forall k :: i < k < m.urlStart ==> IsSpace(s[k]))
    && m.urlStart == SkipSpaces(s, i + 1)
    && m.url == s[m.urlStart..m.urlStart + |m.url|]
    && (forall c :: c in m.url ==> IsJsUrlChar(c))
    && IsJsClose(s, m.quote, m.urlStart + |m.url|, m.end)
    && exists k :: 0 <= k < |JsPrefixes| && IsJsChoice(s, m, k)
  }

  /** The URL of `m` was found through alternative `k`, after all earlier ones failed. */
  predicate IsJsChoice(s: string, m: Match, k: nat)
    requires m.JsLiteral? && m.urlStart <= |s| && IsJsQuote(m.quote) && k < |JsPrefixes|
  {
    var pre := JsPrefixes[k];
    CiPrefixAt(m.url, 0, pre) && |pre| < |m.url|
    && (forall j :: 0 <= j < k ==> JsAlternative(s, m.quote, m.urlStart, JsPrefixes[j]).None?)
    && (forall e :: m.urlStart + |pre| < e < m.urlStart + |m.url| && e <= |s| ==> JsCloseAt(s, m.quote, e).None?)
  }

  /**
    Conversely, wherever the text has the shape of a match (a quote, spaces, a
    prefix, URL characters, a closing part), `JsMatchAt` finds one.
   */
  lemma JsMatchAtComplete(s: string, i: nat, u: nat, k: nat, e: nat, end: nat)
    requires i < |s| && IsJsQuote(s[i]) && k < |JsPrefixes|
    requires i < u && u + |JsPrefixes[k]| < e <= |s|
    requires forall j :: i < j < u ==> IsSpace(s[j])
    requires CiPrefixAt(s, u, JsPrefixes[k])
    requires forall j :: u + |JsPrefixes[k]| <= j < e ==> IsJsUrlChar(s[j])
    requires IsJsClose(s, s[i], e, end)
    ensures JsMatchAt(s, i).Some?
  {
    var q := s[i];
    JsAlternativeComplete(s, q, u, k, e, end);
    SkipSpacesTo(s, i + 1, u);
    assert JsFirstAlternative(s, q, u, 0).Some?;
  }

  /** The alternative `k` fits wherever its prefix, URL characters and a closing part follow. */
  lemma JsAlternativeComplete(s: string, q: char, u: nat, k: nat, e: nat, end: nat)
    requires IsJsQuote(q) && k < |JsPrefixes| && u + |JsPrefixes[k]| < e <= |s|
    requires CiPrefixAt(s, u, JsPrefixes[k])
    requires forall j :: u + |JsPrefixes[k]| <= j < e ==> IsJsUrlChar(s[j])
    requires IsJsClose(s, q, e, end)
    ensures JsAlternative(s, q, u, JsPrefixes[k]).Some?
    ensures u < |s| && !IsSpace(s[u])
  {
    var pre := JsPrefixes[k];
    PrefixUrlChars(s, u, pre);
    JsCloseAtComplete(s, q, e, end);
    JsLazyUrlComplete(s, q, u + |pre|, u + |pre| + 1, e);
  }

  // ---------------------------------------------------------------------------
  // HTML_ATTR_RE:  (href|src|url)\s*=\s*(['"])([^'"]+)\2
  // ---------------------------------------------------------------------------

  predicate IsAttrQuote(c: char) { c == '"' || c == '\'' }

  /** The attribute names of group 1, lower-case. */
  const AttrNames: seq<string> := ["href", "src", "url"]

  /** Where the greedy `[^'"]+` started at `k` stops: the first quote from `k` on. */
  function QuoteFree(s: string, k: nat): (r: nat)
    requires k <= |s|
    ensures k <= r <= |s|
    ensures forall j :: k <= j < r ==> !IsAttrQuote(s[j])
    ensures r < |s| ==> IsAttrQuote(s[r])
    decreases |s| - k
  {
    if k == |s| || IsAttrQuote(s[k]) then k else QuoteFree(s, k + 1)
  }

  /**
    The pattern after the attribute name `s[i..n]`. Neither `=` nor a quote is a
    space, so the two `\s*` cannot give back characters; the value runs to the
    first quote, and if that is not the opening quote no shorter value can end
    at a quote either.
   */
  function HtmlAfterName(s: string, i: nat, n: nat): (r: Option<Match>)
    requires i <= n <= |s|
    ensures r.Some? ==> r.value.HtmlAttr? && r.value.name == s[i..n] && n < r.value.end <= |s|
    ensures r.Some? ==> IsHtmlValue(s, n, r.value)
  {
    var j := SkipSpaces(s, n);
    if j < |s| && s[j] == '=' then
      var k := SkipSpaces(s, j + 1);
      if k < |s| && IsAttrQuote(s[k]) then
        var v := QuoteFree(s, k + 1);
        if k + 1 < v < |s| && s[v] == s[k] then
          var m := HtmlAttr(s[i..n], s[k], s[k + 1..v], k + 1, v + 1);
          assert IsSpacedEquals(s, n, k + 1, j);
          Some(m)
        else None
      else None
    else None
  }

  /** `s[n..v - 1]`, before the quote that opens the value at `v`, is spaces, one `=` at `j`, and spaces. */
  predicate IsSpacedEquals(s: string, n: nat, v: nat, j: nat)
  {
    n <= j < v - 1 < |s| && s[j] == '='
    && (forall x :: n <= x < j ==> IsSpace(s[x]))
    && (forall x :: j < x < v - 1 ==> IsSpace(s[x]))
  }

  /** From the end `n` of the name on, `m` is `=` between spaces, then the quoted value. */
  predicate IsHtmlValue(s: string, n: nat, m: Match)
  {
    m.HtmlAttr? && n < m.valueStart && m.valueStart + |m.value| < |s|
    && (exists j :: n <= j < m.valueStart && IsSpacedEquals(s, n, m.valueStart, j))
    && IsAttrQuote(m.quote) && s[m.valueStart - 1] == m.quote
    && m.value == s[m.valueStart..m.valueStart + |m.value|] && m.value != []
    && (forall c :: c in m.value ==> !IsAttrQuote(c))
    && s[m.valueStart + |m.value|] == m.quote && m.end == m.valueStart + |m.value| + 1
  }

  /** `HTML_ATTR_RE` tried at index `i`. */
  function HtmlMatchAt(s: string, i: nat): (r: Option<Match>)
    requires i <= |s|
    ensures r.Some? ==> r.value.HtmlAttr? && i < r.value.end <= |s|
    ensures r.Some? ==> exists k :: 0 <= k < |AttrNames| && IsAttrName(s, i, r.value, k)
    ensures r.Some? ==> IsHtmlValue(s, i + |r.value.name|, r.value)
  {
    // The names begin with different letters, so at most one of them fits at `i`.
    if CiPrefixAt(s, i, AttrNames[0]) then
      var r := HtmlAfterName(s, i, i + 4);
      assert r.Some? ==> IsAttrName(s, i, r.value, 0);
      r
    else if CiPrefixAt(s, i, AttrNames[1]) then
      var r := HtmlAfterName(s, i, i + 3);
      assert r.Some? ==> IsAttrName(s, i, r.value, 1);
      r
    else if CiPrefixAt(s, i, AttrNames[2]) then
      var r := HtmlAfterName(s, i, i + 3);
      assert r.Some? ==> IsAttrName(s, i, r.value, 2);
      r
    else None
  }

  /** The name of `m` is `AttrNames[k]`, in any case, at index `i`. */
  predicate IsAttrName(s: string, i: nat, m: Match, k: nat)
    requires k < |AttrNames|
  {
    m.HtmlAttr? && CiPrefixAt(s, i, AttrNames[k]) && m.name == s[i..i + |AttrNames[k]|]
  }

  /** Wherever the text has the shape of an attribute match, `HtmlMatchAt` finds one. */
  lemma HtmlMatchAtComplete(s: string, i: nat, k: nat, m: Match)
    requires k < |AttrNames| && CiPrefixAt(s, i, AttrNames[k])
    requires IsHtmlValue(s, i + |AttrNames[k]|, m)
    ensures HtmlMatchAt(s, i).Some?
  {
    var n := i + |AttrNames[k]|;
    assert HtmlAfterName(s, i, n).Some? by {
      HtmlAfterNameComplete(s, i, n, m);
    }
    HtmlNameDispatch(s, i, k);
  }

  lemma HtmlNameDispatch(s: string, i: nat, k: nat)
    requires k < |AttrNames| && CiPrefixAt(s, i, AttrNames[k])
    ensures HtmlMatchAt(s, i) == HtmlAfterName(s, i, i + |AttrNames[k]|)
  {
    CiPrefixFirst(s, i, AttrNames[k]);
    if k > 0 && CiPrefixAt(s, i, AttrNames[0]) {
      CiPrefixFirst(s, i, AttrNames[0]);
    }
    if k > 1 && CiPrefixAt(s, i, AttrNames[1]) {
      CiPrefixFirst(s, i, AttrNames[1]);
    }
  }

  lemma HtmlAfterNameComplete(s: string, i: nat, n: nat, m: Match)
    requires i <= n <= |s| && IsHtmlValue(s, n, m)
    ensures HtmlAfterName(s, i, n).Some?
  {
    var j: nat :| n <= j < m.valueStart && IsSpacedEquals(s, n, m.valueStart, j);
    var v, e := m.valueStart, m.valueStart + |m.value|;
    forall k | v <= k < e
      ensures !IsAttrQuote(s[k])
    {
      assert s[k] == m.value[k - v];
    }
    HtmlAfterNameFromParts(s, i, n, j, v, e);
  }

  /** The same, for the value `s[v..e]` between two equal quotes after `=` at `j`. */
  lemma HtmlAfterNameFromParts(s: string, i: nat, n: nat, j: nat, v: nat, e: nat)
    requires i <= n && IsSpacedEquals(s, n, v, j) && v < e < |s|
    requires IsAttrQuote(s[v - 1]) && s[e] == s[v - 1]
    requires forall k :: v <= k < e ==> !IsAttrQuote(s[k])
    ensures HtmlAfterName(s, i, n).Some?
  {
    SkipSpacesTo(s, n, j);
    SkipSpacesTo(s, j + 1, v - 1);
    QuoteFreeTo(s, v, e);
  }

  /** `QuoteFree` stops at the first quote. */
  lemma QuoteFreeTo(s: string, k: nat, e: nat)
    requires k <= e < |s| && IsAttrQuote(s[e])
    requires forall x :: k <= x < e ==> !IsAttrQuote(s[x])
    ensures QuoteFree(s, k) == e
  {
  }

  // ---------------------------------------------------------------------------
  // CSS_URL_RE:  url\s*\(\s*(['"]?)([^'"]+?)\1\s*\)
  // ---------------------------------------------------------------------------

  /** The word before the parenthesis, lower-case. */
  const CssFunction: string := "url"

  /** The closing part `\1\s*\)` occupies exactly `s[e..end]`, for the quote text `q`. */
  predicate IsCssClose(s: string, q: string, e: nat, end: nat)
  {
    e + |q| < end <= |s| && s[e..e + |q|] == q && s[end - 1] == ')'
    && forall k :: e + |q| <= k < end - 1 ==> IsSpace(s[k])
  }

  /** `\1\s*\)` tried at index `e`. */
  function CssCloseAt(s: string, q: string, e: nat): (r: Option<nat>)
    requires e <= |s|
    ensures r.Some? ==> IsCssClose(s, q, e, r.value)
  {
    if e + |q| <= |s| && s[e..e + |q|] == q then
      var j := SkipSpaces(s, e + |q|);
      if j < |s| && s[j] == ')' then Some(j + 1) else None
    else None
  }

  /** The lazy `[^'"]+?` from the payload start `a`, as for `JS_URL_RE`. */
  function CssLazyUrl(s: string, q: string, a: nat, e: nat): (r: Option<(nat, nat)>)
    requires a < e <= |s|
    requires forall k :: a <= k < e ==> !IsAttrQuote(s[k])
    ensures r.Some? ==> e <= r.value.0 <= |s| && CssCloseAt(s, q, r.value.0) == Some(r.value.1)
    ensures r.Some? ==> forall k :: a <= k < r.value.0 ==> !IsAttrQuote(s[k])
    ensures r.Some? ==> forall e' :: e <= e' < r.value.0 ==> CssCloseAt(s, q, e').None?
    decreases |s| - e
  {
    match CssCloseAt(s, q, e)
    case Some(end) => Some((e, end))
    case None =>
      if e < |s| && !IsAttrQuote(s[e]) then CssLazyUrl(s, q, a, e + 1) else None
  }

  /**
    `(['"]?)` and the URL from index `p`: the greedy `?` takes the quote first.
    When `s[p]` is a quote the empty alternative cannot help, as the URL may not
    start with a quote; otherwise only the empty alternative applies. The
    result is the quote text, the URL end and the match end.
   */
  function CssQuotedUrl(s: string, p: nat): (r: Option<(string, nat, nat)>)
    requires p <= |s|
    ensures r.Some? ==> IsCssQuotedUrl(s, p, r.value.0, r.value.1, r.value.2)
  {
    if p < |s| && IsAttrQuote(s[p]) then
      var q := [s[p]];
      if p + 1 < |s| && !IsAttrQuote(s[p + 1]) then
        match CssLazyUrl(s, q, p + 1, p + 2)
        case Some((e, end)) => Some((q, e, end))
        case None => None
      else None
    else if p < |s| then
      match CssLazyUrl(s, [], p, p + 1)
      case Some((e, end)) => Some(([], e, end))
      case None => None
    else None
  }

  /**
    From `p` on: the quote text `q` (empty or one quote), the URL `s[p + |q|..e]`
    without quotes, and the closing part up to `end`; no shorter URL closes.
   */
  predicate IsCssQuotedUrl(s: string, p: nat, q: string, e: nat, end: nat)
  {
    (q == [] || (|q| == 1 && IsAttrQuote(q[0]))) && p + |q| < e <= |s| && s[p..p + |q|] == q
    && e <= |s| && CssCloseAt(s, q, e) == Some(end)
    && (forall k :: p + |q| <= k < e ==> !IsAttrQuote(s[k]))
    && (forall e' :: p + |q| < e' < e ==> CssCloseAt(s, q, e').None?)
  }

  /** No quote and URL fit at any index in `(lo, hi]`. */
  predicate CssFitsNowhere(s: string, lo: nat, hi: nat)
    requires lo <= hi <= |s|
    decreases hi - lo
  {
    lo == hi || (CssQuotedUrl(s, hi).None? && CssFitsNowhere(s, lo, hi - 1))
  }

  /** `CssFitsNowhere` rules out every index of its range. */
  lemma {:induction false} CssFitsNowhereAt(s: string, lo: nat, hi: nat, p: nat)
    requires lo < p <= hi <= |s| && CssFitsNowhere(s, lo, hi)
    ensures CssQuotedUrl(s, p).None?
    decreases hi - lo
  {
    if p == hi {
      assert !(lo == hi);
    } else {
      assert CssFitsNowhere(s, lo, hi - 1);
      CssFitsNowhereAt(s, lo, hi - 1, p);
    }
  }

  /** An index range at which nothing fits is one `CssFitsNowhere` holds of. */
  lemma {:induction false} CssFitsNowhereIntro(s: string, lo: nat, hi: nat)
    requires lo <= hi <= |s|
    requires forall p :: lo < p <= hi ==> CssQuotedUrl(s, p).None?
    ensures CssFitsNowhere(s, lo, hi)
    decreases hi - lo
  {
    if lo < hi {
      CssFitsNowhereIntro(s, lo, hi - 1);
    }
  }

  /**
    The greedy `\s*` after the parenthesis gives back one space at a time: the
    quote and URL are tried from `p` down to `lo`, and the first index at which
    they fit is the result. The URL itself may then start with spaces.
   */
  function CssTrySpaces(s: string, lo: nat, p: nat): (r: Option<nat>)
    requires lo <= p <= |s|
    ensures r.Some? ==> lo <= r.value <= p && CssQuotedUrl(s, r.value).Some?
    ensures r.Some? ==> CssFitsNowhere(s, r.value, p)
    ensures r.None? ==> CssQuotedUrl(s, lo).None? && CssFitsNowhere(s, lo, p)
    decreases p - lo
  {
    if CssQuotedUrl(s, p).Some? then Some(p)
    else if lo < p then CssTrySpaces(s, lo, p - 1)
    else None
  }

  /** `CSS_URL_RE` tried at index `i`. */
  function CssMatchAt(s: string, i: nat): (r: Option<Match>)
    requires i <= |s|
    ensures r.Some? ==> r.value.CssUrl? && i < r.value.end <= |s|
    ensures r.Some? ==> IsCssMatch(s, i, r.value)
  {
    if CiPrefixAt(s, i, CssFunction) then
      var j := SkipSpaces(s, i + 3);
      if j < |s| && s[j] == '(' then
        match CssTrySpaces(s, j + 1, SkipSpaces(s, j + 1))
        case Some(p) =>
          var (q, e, end) := CssQuotedUrl(s, p).value;
          CssUrlIsMatch(s, i, j, p, q, e, end);
          Some(CssUrl(q, s[p + |q|..e], p + |q|, end))
        case None => None
      else None
    else None
  }

  lemma CssUrlIsMatch(s: string, i: nat, j: nat, p: nat, q: string, e: nat, end: nat)
    requires CiPrefixAt(s, i, CssFunction) && j == SkipSpaces(s, i + 3) && j < |s| && s[j] == '('
    requires CssTrySpaces(s, j + 1, SkipSpaces(s, j + 1)) == Some(p)
    requires CssQuotedUrl(s, p) == Some((q, e, end))
    ensures p + |q| < e <= |s| && i < end
    ensures IsCssMatch(s, i, CssUrl(q, s[p + |q|..e], p + |q|, end))
  {
    CssMatchFromParts(s, i, j, p, q, e, end);
  }

  /** The facts `CssTrySpaces` and `CssQuotedUrl` report, assembled into `IsCssMatch`. */
  lemma CssMatchFromParts(s: string, i: nat, j: nat, p: nat, q: string, e: nat, end: nat)
    requires CiPrefixAt(s, i, CssFunction) && j == SkipSpaces(s, i + 3) && j < |s| && s[j] == '('
    requires j + 1 <= p <= SkipSpaces(s, j + 1) && CssFitsNowhere(s, p, SkipSpaces(s, j + 1))
    requires IsCssQuotedUrl(s, p, q, e, end)
    ensures IsCssMatch(s, i, CssUrl(q, s[p + |q|..e], p + |q|, end))
  {
    var m := CssUrl(q, s[p + |q|..e], p + |q|, end);
    assert IsCssMatchParts(s, i, j, p, e, m);
  }

  /**
    What a match of `CSS_URL_RE` at `i` is: `url` in any case, spaces, `(`,
    spaces, an optional quote, a URL without quotes, the same quote, spaces and
    `)`; the spaces before the quote are as many as still allow a match, and
    with them the URL is the shortest.
   */
  predicate IsCssMatch(s: string, i: nat, m: Match)
  {
    m.CssUrl? && i + 3 <= |s|
    && exists paren: nat, p: nat, e: nat ::
         paren == SkipSpaces(s, i + 3) && p + |m.cssQuote| == m.urlStart && e == m.urlStart + |m.url|
         && IsCssMatchParts(s, i, paren, p, e, m)
  }

  /** `IsCssMatch` with the parenthesis at `paren`, the quote at `p` and the URL end at `e`. */
  predicate IsCssMatchParts(s: string, i: nat, paren: nat, p: nat, e: nat, m: Match)
  {
    m.CssUrl? && CiPrefixAt(s, i, CssFunction)
    && IsCssOpen(s, paren, p, m)
    && IsCssQuotedUrl(s, p, m.cssQuote, e, m.end)
    && p + |m.cssQuote| <= e <= |s| && m.url == s[p + |m.cssQuote|..e]
  }

  /**
    `(` at `paren`, then spaces up to the quote at `p`, and of all the spaces
    after the parenthesis only those that a match needs are given back.
   */
  predicate IsCssOpen(s: string, paren: nat, p: nat, m: Match)
  {
    m.CssUrl? && paren < p <= |s| && s[paren] == '('
    && (forall k :: paren < k < p ==> IsSpace(s[k]))
    && p <= SkipSpaces(s, paren + 1) && CssFitsNowhere(s, p, SkipSpaces(s, paren + 1))
  }

  // ---------------------------------------------------------------------------
  // re.sub
  // ---------------------------------------------------------------------------

  /** `pattern.match(s, i)` for the three patterns. */
  function MatchAt(pat: Pattern, s: string, i: nat): (r: Option<Match>)
    requires i <= |s|
    ensures r.Some? ==> i < r.value.end <= |s|
  {
    match pat
    case JsUrlRe => JsMatchAt(s, i)
    case HtmlAttrRe => HtmlMatchAt(s, i)
    case CssUrlRe => CssMatchAt(s, i)
  }

  /**
    A table of what a pattern finds when tried at each index of `s`. None of
    the patterns matches the empty text, so every match ends after its start.
   */
  predicate IsMatchTable(s: string, t: seq<Option<Match>>)
  {
    |t| == |s| && forall j :: 0 <= j < |t| && t[j].Some? ==> j < t[j].value.end <= |s|
  }

  function MatchTable(pat: Pattern, s: string): (t: seq<Option<Match>>)
    ensures IsMatchTable(s, t)
    ensures forall j :: 0 <= j < |s| ==> t[j] == MatchAt(pat, s, j)
  {
    seq(|s|, j requires 0 <= j < |s| => MatchAt(pat, s, j))
  }

  /**
    `pattern.sub(repl, s)` from index `i` on, with `t` the pattern's table for
    `s`: where the pattern matches, the match is replaced by `repl` of it and
    the scan resumes after it; elsewhere the character is copied.
   */
  function SubFrom(s: string, t: seq<Option<Match>>, i: nat, repl: Match -> string): string
    requires IsMatchTable(s, t) && i <= |s|
    decreases |s| - i
  {
    if i == |s| then []
    else
      match t[i]
      case Some(m) => repl(m) + SubFrom(s, t, m.end, repl)
      case None => [s[i]] + SubFrom(s, t, i + 1, repl)
  }

  function Sub(pat: Pattern, s: string, repl: Match -> string): string
  {
    SubFrom(s, MatchTable(pat, s), 0, repl)
  }

  lemma SubAtEnd(pat: Pattern, s: string, repl: Match -> string)
    ensures SubFrom(s, MatchTable(pat, s), |s|, repl) == []
  {
  }

  /** Where the pattern matches nowhere, `sub` returns the text as it is. */
  lemma {:induction false} SubFromNoMatch(s: string, t: seq<Option<Match>>, i: nat, repl: Match -> string)
    requires IsMatchTable(s, t) && i <= |s|
    requires forall j :: i <= j < |s| ==> t[j].None?
    ensures SubFrom(s, t, i, repl) == s[i..]
    decreases |s| - i
  {
    if i < |s| {
      SubFromNoMatch(s, t, i + 1, repl);
      ConsSlice(s, i, |s|);
    }
  }

  lemma SubNoMatch(pat: Pattern, s: string, repl: Match -> string)
    requires forall j :: 0 <= j < |s| ==> MatchAt(pat, s, j).None?
    ensures Sub(pat, s, repl) == s
  {
    SubFromNoMatch(s, MatchTable(pat, s), 0, repl);
  }

  /**
    The text before the first match is copied, the first match is replaced, and
    the scan goes on after it.
   */
  lemma {:induction false} SubFromFirstMatch(s: string, t: seq<Option<Match>>, i: nat, j: nat, repl: Match -> string)
    requires IsMatchTable(s, t) && i <= j < |s| && t[j].Some?
    requires forall k :: i <= k < j ==> t[k].None?
    ensures SubFrom(s, t, i, repl) == s[i..j] + repl(t[j].value) + SubFrom(s, t, t[j].value.end, repl)
    decreases j - i
  {
    if i < j {
      SubFromFirstMatch(s, t, i + 1, j, repl);
      ConsSlice(s, i, j);
    }
  }

  lemma SubFirstMatch(pat: Pattern, s: string, j: nat, repl: Match -> string)
    requires j < |s| && MatchAt(pat, s, j).Some?
    requires forall k :: 0 <= k < j ==> MatchAt(pat, s, k).None?
    ensures var m := MatchAt(pat, s, j).value;
      Sub(pat, s, repl) == s[..j] + repl(m) + SubFrom(s, MatchTable(pat, s), m.end, repl)
  {
    SubFromFirstMatch(s, MatchTable(pat, s), 0, j, repl);
  }

  /** A text whose only match runs to its end: copied up to the match, then replaced. */
  lemma SubLastMatch(pat: Pattern, s: string, j: nat, repl: Match -> string)
    requires j < |s| && MatchAt(pat, s, j).Some? && MatchAt(pat, s, j).value.end == |s|
    requires forall k :: 0 <= k < j ==> MatchAt(pat, s, k).None?
    ensures Sub(pat, s, repl) == s[..j] + repl(MatchAt(pat, s, j).value)
  {
    SubFirstMatch(pat, s, j, repl);
    SubAtEnd(pat, s, repl);
  }

  /**
    A replacement that gives back the matched text leaves the text unchanged:
    `sub` changes nothing but the matches.
   */
  lemma {:induction false} SubFromKeepsText(s: string, t: seq<Option<Match>>, i: nat, repl: Match -> string)
    requires IsMatchTable(s, t) && i <= |s|
    requires forall j :: i <= j < |s| && t[j].Some? ==> repl(t[j].value) == s[j..t[j].value.end]
    ensures SubFrom(s, t, i, repl) == s[i..]
    decreases |s| - i
  {
    if i < |s| {
      match t[i]
      case Some(m) =>
        SubFromKeepsText(s, t, m.end, repl);
        JoinSlices(s, i, m.end);
      case None =>
        SubFromKeepsText(s, t, i + 1, repl);
        ConsSlice(s, i, |s|);
    }
  }

  lemma SubKeepsText(pat: Pattern, s: string, repl: Match -> string)
    requires forall j :: 0 <= j < |s| && MatchAt(pat, s, j).Some? ==>
      repl(MatchAt(pat, s, j).value) == s[j..MatchAt(pat, s, j).value.end]
    ensures Sub(pat, s, repl) == s
  {
    SubFromKeepsText(s, MatchTable(pat, s), 0, repl);
  }

  lemma ConsSlice(s: string, i: nat, j: nat)
    requires i < j <= |s|
    ensures [s[i]] + s[i + 1..j] == s[i..j]
  {
  }

  lemma JoinSlices(s: string, i: nat, j: nat)
    requires i <= j <= |s|
    ensures s[i..j] + s[j..] == s[i..]
  {
  }
}
