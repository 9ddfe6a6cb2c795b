# URL rewriting and URL discovery of the token proxy add-on

This project models the text logic at the core of a mitmproxy add-on. The add-on
sits between a browser and a web application. It does two things:

- **URL rewriting.** It rewrites the URLs in JavaScript responses so that
  root-relative paths (`/api/tasks`) point at a new target
  (`http://192.168.0.16:3007/api/tasks`).
- **URL discovery.** It finds the URLs a script talks to, resolves them against
  the page's URL and keeps those on an allow-list of hosts.

Modules, file by file:

- `wrappers.dfy`: `Option`.
- `text.dfy`: the Python `str` operations the code relies on (`strip`, `lower`,
  `startswith`, `in`, `split(c, 1)`, the `\s` class).
- `utf8.dfy`: the UTF-8 codec of RFC 3629 that `bytes.decode` and `str.encode`
  apply. It is written out, and both round trips are proved.
- `urls.dfy`: the part of `urllib.parse` the code calls. This is `urlsplit` (the
  generic syntax of section 3 of RFC 3986), `urlunsplit`, `hostname` and
  `urljoin` (reference resolution, section 5.2 of RFC 3986). The main results
  are the resolution of root-relative, network-path and other-scheme references,
  and the split/unsplit round trip.
- `utils.dfy`: `normalize_url` and `host_only`.
- `patterns.dfy`: `JS_URL_RE`, `HTML_ATTR_RE` and `CSS_URL_RE`, as matchers that
  follow the backtracking engine's order of choices:
  - alternatives are tried left to right;
  - greedy repetitions are tried longest first, lazy ones shortest first;
  - letters are compared without case.

  Each matcher has a declarative description of a match, proved both ways
  (sound, and complete where it matters). The file also models `re.sub` as a
  left-to-right scan.
- `replacer.dfy`: `rewrite_url_func` and `process_and_rewrite_response`. The
  latter runs a content-type gate and a UTF-8 gate, then three `re.sub` passes
  in order (JS literals, HTML attributes, CSS `url()`), then re-encodes.
- `js_processing.py` is modelled in `js_processing.dfy`:
  - the three extraction patterns are modelled as matchers, and `re.findall` as a scan;
  - `_is_ignored_scheme`;
  - `extract_urls_from_js`, as an imperative method. Its loops grow the candidate
    set and the result; the allow-list is a set comprehension with one more host
    added. The method is proved equal to a set-valued specification, and
    soundness and completeness lemmas are proved about that specification.
- `addon.dfy`: `host_matches_any` and the text-type flag that the response hook
  computes before rewriting.

Parameters in place of the environment:

- The rewrite rule, the target scheme and the target authority are parameters
  of the pipeline.
- `allowed_hosts=None` is `None` of an `Option`.
- The response hook's mitmproxy objects are not modelled. Only the two
  decisions above are.

Where the comments of the code and the code disagree, the model follows the
code:

- **Root-path extraction.** The root-path extraction pattern
  (`js_processing.py:88`) also accepts a string that starts with `//`, although
  the comment above it says such strings are excluded.
  `JsProcessing.RootFoundIsPath` states what the pattern does.
- **Protocol-relative rewrite.** The docstring and the comment of
  `rewrite_url_func` (`replacer.py:26`, `replacer.py:29`) speak of root-relative
  paths. The test `startswith('/')` (`replacer.py:30`) also holds for a
  protocol-relative URL such as `//cdn.example/a.js`, which becomes
  `scheme://netloc//cdn.example/a.js`. `Replacer.RewriteProtocolRelative`
  states that.
- **`wss` test expectation.** The test at `test/test_js_processing.py:31`
  expects `wss://example.com/ws` to come out as `http://example.com/ws`.
  However, `urljoin` does not resolve across schemes, so the code keeps
  `wss://example.com/ws`. `JsProcessing.OtherSchemeKept` states that.

## Model

| member | source | states |
|---|---|---|
| Utils.NormalizeUrl | utils.py:6-29 | the empty URL is returned as is; any other result holds no `#` (the fragment is cut) |
| Utils.NormalizeLowersAuthority | utils.py:22-28 | with an authority, the result splits into the input's scheme, path and query and its authority lowercased |
| Utils.NormalizeWithoutAuthority | utils.py:16-29 | without an authority, the result is the trimmed text up to its first `#` |
| Utils.NormalizeIdempotent | utils.py:6-29 | normalizing a normalized URL with no whitespace at its ends changes nothing |
| Utils.HostOnly | utils.py:32-39 | the result is the lowercased text before the first `:` of the host: no `:`, no upper-case letter, `""` for `""` |
| Utils.HostOnlyIdempotent | utils.py:39 | `host_only` applied twice equals `host_only` applied once |
| Utils.HostOnlyPortGeneral | utils.py:39 | `host:port` gives the lowercased host, whatever the port |
| Utils.HostOnlyStripsPort | utils.py:39 | `api.domain.net:8080` gives `api.domain.net` |
| Utf8.DecodeEncode | replacer.py:135 | decoding the UTF-8 encoding of any text gives the text back |
| Utf8.EncodeDecode | replacer.py:93 | bytes that decode re-encode to the same bytes |
| Urls.SplitUnsplit | utils.py:22-27 | splitting what `urlunsplit` built from an authority split gives the same parts back |
| Urls.JoinRootRelativeAuthority | js_processing.py:113 | any `/x` (not `//x`) joined to a base with a scheme and an authority, whose scheme is in both `uses_relative` and `uses_netloc` (such as `http` or `https`), gives a URL with the base's scheme and authority |
| Urls.JoinRootRelative | js_processing.py:113 | `/x` (not `//x`) without `.` or `..` path segments, whose `?` and `#` (if any) carry a non-empty query and fragment, joined to a base with a scheme and an authority, whose scheme is in both `uses_relative` and `uses_netloc` (such as `http` or `https`), is the base's scheme and authority followed by `/x` as written |
| Urls.JoinNetworkPath | js_processing.py:113 | `//host/x` with a non-empty host, whose `?` and `#` (if any) carry a non-empty query and fragment, joined to a base with a scheme, whose scheme is in both `uses_relative` and `uses_netloc` (such as `http` or `https`), is the base's scheme, `:` and `//host/x` as written |
| Urls.JoinOtherScheme | js_processing.py:113 | a reference whose scheme differs from the base's is returned unchanged |
| Urls.Hostname | js_processing.py:98-100 | the host name of an authority holds no `:` |
| Urls.HostnamePlain | js_processing.py:98-100 | a host with no userinfo, port or zone gives itself, lowercased |
| Urls.HostnameDropsUserinfo | js_processing.py:107-109 | everything up to the last `@` is not part of the host name |
| Urls.HostnameDropsPort | js_processing.py:107-109 | the `:port` after the host is not part of the host name |
| Patterns.JsMatchAt | rewriter_regex.py:13-18 | a match starts with a quote and ends with the same quote; its URL starts with `https://`, `http://`, `//` or `/` in any case, has at least one more character and holds no whitespace or backslash; the first prefix that leads to a match and the shortest URL are taken |
| Patterns.JsMatchAtComplete | rewriter_regex.py:13-18 | wherever the text has the shape of a JS literal URL, the matcher finds a match |
| Patterns.JsAlternativeComplete | rewriter_regex.py:15-16 | one alternative of the URL group fits wherever its prefix, URL characters and a closing part follow |
| Patterns.JsCloseAtComplete | rewriter_regex.py:16 | the closing spaces, optional backslash and quote can end in one place only, and the matcher finds it |
| Patterns.JsLazyUrlComplete | rewriter_regex.py:15 | the lazy URL scan succeeds whenever some longer URL could be closed |
| Patterns.HtmlMatchAt | rewriter_regex.py:23 | a match is `href`, `src` or `url` in any case, `=` between spaces, and a non-empty value without quotes that is closed by the quote that opened it |
| Patterns.HtmlMatchAtComplete | rewriter_regex.py:23 | wherever the text has the shape of an attribute match, the matcher finds one |
| Patterns.CssQuotedUrl | rewriter_regex.py:28 | the optional quote, a URL without quotes and the same quote, spaces and `)`; no shorter URL closes |
| Patterns.CssTrySpaces | rewriter_regex.py:28 | the greedy spaces after `(` give back one at a time: the index found is the highest at which the quote and URL fit, nothing fits above it, and no result means nothing fits in the whole range (the helpers `CssFitsNowhereAt` and `CssFitsNowhereIntro` unfold and fold that range predicate) |
| Patterns.CssMatchAt | rewriter_regex.py:28 | a match is `url`, spaces, `(`, spaces, the optional quote, the shortest URL, the same quote, spaces and `)`; of the spaces after `(` only those a match needs are given back |
| Patterns.SubNoMatch | replacer.py:111 | where the pattern matches nowhere, `sub` returns the text unchanged |
| Patterns.SubFirstMatch | replacer.py:111 | text before the first match is copied, the match is replaced, the scan resumes after it |
| Patterns.SubLastMatch | replacer.py:111 | a single match running to the end of the text: the text before it plus its replacement |
| Patterns.SubKeepsText | replacer.py:111-131 | a replacement that gives back the matched text leaves the text unchanged |
| Replacer.RewriteUrl | replacer.py:19-59 | a URL starting with `/` becomes `scheme://netloc` followed by the URL; every other URL is returned unchanged |
| Replacer.RewriteProtocolRelative | replacer.py:30-33 | a protocol-relative `//host/x` is prefixed like a root-relative path: the target's scheme and authority, then `//host/x` |
| Replacer.RewriteKeepsAbsolute | replacer.py:37-55 | an `http://` or `https://` URL, in any case, is not rewritten |
| Replacer.RewriteIdempotent | replacer.py:30-59 | rewriting a rewritten URL changes nothing when the target scheme does not start with `/` |
| Replacer.RewrittenIsAbsolute | replacer.py:30-37 | with an `http`/`https` target, a rewritten path is an absolute URL that the rule leaves alone |
| Replacer.RewriteExamples | replacer.py:30-59 | `/api/tasks` gets the target scheme and authority in front |
| Replacer.KeepExamples | replacer.py:30-59 | `http://old.cdn.com/style.css`, `./data.json`, `styles.css` and `""` are unchanged |
| Replacer.ProcessAndRewriteResponse | replacer.py:64-135 | bytes are unchanged when the gate fails or they are not UTF-8; otherwise the output decodes to CSS(HTML(JS(text))) |
| Replacer.NoMatchKeepsContent | replacer.py:91-135 | when no pattern matches anywhere in the decoded text the output bytes equal the input bytes |
| Replacer.JsReplacementDropsPadding | replacer.py:101-108 | a JS match is written back as found exactly when no spaces or backslash surround its URL; the replacement keeps only the quotes |
| Replacer.HtmlReplacementDropsPadding | replacer.py:114-119 | an attribute match is written back as found exactly when there is no space around its `=`: `href = 'x'` becomes `href='x'` |
| Replacer.CssReplacementDropsPadding | replacer.py:124-129 | a `url(...)` match is written back as found exactly when `url` is in lower case and nothing but the quotes surrounds the URL inside the parentheses: `url( 'x' )` becomes `url('x')` |
| Replacer.EscapedLiteralExample | replacer.py:101-111 | `\" /dev-api\"` becomes `\"` + the rewritten `/dev-api` + `"` |
| Replacer.TextJavascriptNotRewritten | replacer.py:87-89 | a `text/javascript` body is returned unchanged by the gate as written |
| Replacer.ProcessScriptResponse | replacer.py:87-135 | the pipeline with the intended gate (either script type) |
| Replacer.ScriptResponseFixesGate | replacer.py:87 | the intended gate admits `text/javascript` and agrees with the written one wherever that one passes |
| JsProcessing.IsIgnoredScheme | js_processing.py:17-26 | true exactly when the lowercased URL starts with `data:`, `blob:` or `javascript:` |
| JsProcessing.NetworkCallAt | js_processing.py:62-67 | a capture of the network-call pattern is a non-empty run without quotes after an opening quote, followed by a quote |
| JsProcessing.AbsoluteUrlAt | js_processing.py:81 | a capture of the absolute-URL pattern starts with `http://` or `https://` |
| JsProcessing.RootPathAt | js_processing.py:88 | a capture of the root-path pattern starts with `/` and has at least two characters |
| JsProcessing.FindAll | js_processing.py:62-67 | every string `findall` returns is non-empty and holds no quote |
| JsProcessing.FindAllFromReaches | js_processing.py:62-67 | the scan misses no match it reaches: when no match starts in `[i, j)` and one starts at `j`, its capture is among the strings returned from `i` |
| JsProcessing.AbsoluteUrlComplete | js_processing.py:81 | a quote, `http://` or `https://` with at least one more character and no quote, then a quote: the absolute-URL pattern matches there and captures the URL |
| JsProcessing.RootPathComplete | js_processing.py:88 | a quote, `/` with at least one more character and no quote, then a quote: the root-path pattern matches there and captures the path |
| JsProcessing.CalleeCallComplete | js_processing.py:62-63 | `fetch`, `axios`, `axios.get`, `axios.post` or `axios.put`, spaces, `(`, spaces and a quoted argument: the network-call pattern captures the argument |
| JsProcessing.XhrOpenComplete | js_processing.py:64 | `xhr.open`, spaces, `(`, spaces, a quoted method name in capitals, spaces, `,`, spaces and a quoted argument: the network-call pattern captures the argument |
| JsProcessing.WebSocketComplete | js_processing.py:65 | `new`, at least one space, `WebSocket`, spaces, `(`, spaces and a quoted argument: the network-call pattern captures the argument |
| JsProcessing.FirstAbsoluteUrlFound | js_processing.py:81 | the first quoted string of a script, when it is an `http(s)` URL with more after the `//`, is among the strings `findall` returns for the absolute-URL pattern |
| JsProcessing.FirstRootPathFound | js_processing.py:88 | the first quoted string of a script, when it starts with `/` and has at least two characters, is among the strings `findall` returns for the root-path pattern |
| JsProcessing.FoundByPattern | js_processing.py:62-90 | every string `findall` returns is the capture of a match of the pattern |
| JsProcessing.ExtractUrlsFromJs | js_processing.py:28-122 | the result is the set the specification defines; empty script text gives the empty set |
| JsProcessing.CollectCandidates | js_processing.py:57-90 | the three loops collect exactly the candidates: stripped network-call captures and plain captures, without ignored schemes |
| JsProcessing.FilterCandidates | js_processing.py:102-118 | the loop keeps exactly the normalized, resolved candidates whose host is allowed |
| JsProcessing.AdmittedAdd | js_processing.py:102-116 | one more candidate adds exactly its own admission to the result |
| JsProcessing.CandidateShape | js_processing.py:69-90 | no candidate has an ignored scheme or holds a quote; absolute-pattern candidates are `http(s)` URLs, root-pattern ones start with `/` |
| JsProcessing.AbsoluteFoundIsHttp | js_processing.py:81 | the absolute-URL pattern only yields `http://` and `https://` URLs |
| JsProcessing.RootFoundIsPath | js_processing.py:88 | the root-path pattern only yields paths starting with `/` (`//x` included) |
| JsProcessing.ExtractedSound | js_processing.py:92-122 | every result is a normalized, resolved candidate whose host is on the allow-list, and holds no `#` |
| JsProcessing.ExtractedComplete | js_processing.py:102-116 | every candidate whose resolved host is allowed appears in the result, normalized |
| JsProcessing.AllowedHostsHold | js_processing.py:96-100 | the base URL's lowercased host name and each given non-empty host without its port are allowed |
| JsProcessing.GivenHostAdmits | js_processing.py:96-111 | a given host admits an absolute candidate whose host name equals the given host's part before `:`, up to case, as the normalized URL |
| JsProcessing.GivenHostAdmitsUrl | js_processing.py:96-111 | a given host admits `http(s)://host[:port]/...` written out, when its part before `:` is `host` up to case |
| JsProcessing.RootRelativeAlwaysAdmitted | js_processing.py:113-116 | every root-relative candidate (not `//x`) on an `http(s)` page with a host resolves to the page's scheme and authority and is admitted |
| JsProcessing.RootRelativeAdmitted | js_processing.py:113-116 | a root-relative candidate without `.` or `..` path segments, whose `?` and `#` (if any) carry a non-empty query and fragment, on an `http(s)` page with a host is admitted as the normalized page's scheme and authority followed by the candidate |
| JsProcessing.RootRelativeFragmentAdmitted | js_processing.py:113-116 | `/another-page#details` on an `http(s)` page is admitted as the page's scheme and authority followed by `/another-page`: the fragment is dropped |
| Utils.NormalizeDropsFragment | utils.py:16-19 | a URL without `#` and without whitespace at its ends normalizes the same with any `#fragment` after it |
| JsProcessing.OtherSchemeKept | js_processing.py:113 | a candidate with another scheme than the page's (such as `wss:`) is kept as written |
| Addon.IsSubstring | addon.py:23 | the `in` test on strings: true exactly when the text occurs somewhere |
| Addon.HostMatchesAny | addon.py:19-23 | false for the empty host; otherwise true exactly when some lowercased domain occurs in the lowercased host |
| Addon.NoDomainsNoMatch | addon.py:23 | an empty domain list matches nothing |
| Addon.MatchesAnywhere | addon.py:22-23 | a domain matches any host that contains it, not only a host that ends with it |
| Addon.MatchIgnoresHostCase | addon.py:22 | the host's case does not matter |
| Addon.EmptyDomainMatchesAll | addon.py:23 | an empty domain in the list matches every non-empty host |
| Addon.ClassifyContentType | addon.py:60-71 | the flag is set exactly when the lowercased, trimmed type starts with `text/`, `application/json`, `application/javascript`, `application/x-javascript`, `application/xml` or `application/xhtml+xml` |
| Addon.TextJavascriptIsText | addon.py:68 | the `text/javascript` branch of the chain is already covered by `text/` |
| Addon.ImageIsNotText | addon.py:72-74 | an `image/...` type such as `image/png` is skipped |

## Left out

- Logging (`logger_setup.py`, every `logger` call, the `debug` flag of `extract_urls_from_js`): it has no effect on results.
- The `request` and `response` hooks of `addon.py`. Left out with them:
  - header deletion;
  - `set_content`;
  - the `JS_URLS` store and its lock;
  - the empty-body and unchanged-body checks.

  Only the text-type flag of the response hook is modelled.
- The `if __name__ == '__main__'` blocks (file reads, printing).
- `JS_VAR_ASSIGN_RE` and `HTML_SCRIPT_RE`: neither is applied by the modelled code.
- The commented-out absolute-URL rewrite in `rewrite_url_func`: it is dead code.
- The default values of `process_and_rewrite_response`: the model takes the rewrite rule and the target scheme as parameters. The add-on passes the scheme (addon.py:92), so the default `"https"` (replacer.py:68) is never used by it; it leaves the rule at its default `rewrite_url_func`, which is `Replacer.RewriteUrl`.
- Case: Python's `lower()` and `re.IGNORECASE` fold all of Unicode, while the model folds ASCII letters only. This includes the `ſ`/`K` special cases of `IGNORECASE`.
- `urllib.parse`:
  - the model does not strip leading C0 control characters and spaces, and does not remove tab and newline characters;
  - it does not handle IPv6 brackets, or the `ValueError` they and `_checknetloc` can raise;
  - the `try`/`continue` around each candidate is therefore not modelled;
  - `urlparse` is modelled as `urlsplit` (no `;params` split). So an empty `;params` is kept: Python's `normalize_url("http://H/a;")` gives `http://h/a`, and `urljoin` drops the `;` the same way, while the model gives `http://h/a;`;
  - `urlunsplit` is written in its Python 3.8 to 3.11 form.
- The `try`/`except` around the network-call `findall`: the modelled matching cannot raise.
- Urls.UrlJoin: dot segments in relative paths are merged as Python does, but the only lemmas proved are for root-relative, network-path and other-scheme references. For a root-relative reference in general, only the scheme and authority of the result are proved (`Urls.JoinRootRelativeAuthority`). The root-relative and network-path lemmas are about a base with a non-empty scheme in both `uses_relative` and `uses_netloc`. They do not cover other bases: a base without a scheme, or one whose scheme is outside `uses_relative` (`mailto:`, `git:`). With the latter, `urljoin` returns the reference unchanged.
- Urls.JoinRootRelative: the joined URL is given in full only for a path without `.` or `..` segments and without an empty query or fragment (a bare `?` or `#`, which `urlunsplit` drops).
- Urls.JoinNetworkPath: the same condition on the query and fragment.
- JsProcessing.RootRelativeAdmitted: the admitted URL is given in full under the conditions of `Urls.JoinRootRelative`; that every root-relative candidate is admitted is proved without them (`JsProcessing.RootRelativeAlwaysAdmitted`).
- Patterns.CssMatchAt: no completeness lemma is proved for the CSS pattern; its soundness and the engine's order of choices are stated.
- JsProcessing.NetworkCallAt: its contract states the shape of the capture but not which of the three call forms matched.

## Findings

| source | as written | input that shows it | evidently intended | confidence | as-written member | corrected member |
|---|---|---|---|---|---|---|
| replacer.py:87 | the prefix tested is the value of `'application/javascript' or 'text/javascript'`, which is the first string alone | a UTF-8 body with content type `text/javascript` is returned unchanged | both script content types are rewritten | not executed | Replacer.TextJavascriptNotRewritten | Replacer.ScriptResponseFixesGate |
