/**
  `js_processing.py`: guessing the URLs a script talks to. Three patterns pick
  quoted strings out of the script text (network calls, absolute `http(s)`
  URLs, root-relative paths); candidates with a `data:`, `blob:` or
  `javascript:` scheme are dropped; the rest are resolved against the page's
  URL, kept when their host is allowed, and normalized.
 */
module JsProcessing {
  import opened Wrappers
  import opened Text
  import opened Urls
  import opened Utils
  import Patterns

  /** `IGNORED_SCHEMES` */
  const IgnoredSchemes: seq<string> := ["data:", "blob:", "javascript:"]

  /** `_is_ignored_scheme`: the lower-cased URL starts with one of the ignored schemes. */
  function IsIgnoredScheme(u: string): (r: bool)
    ensures r <==> exists k :: 0 <= k < |IgnoredSchemes| && StartsWith(Lower(u), IgnoredSchemes[k])
  {
    var l := Lower(u);
    StartsWith(l, IgnoredSchemes[0]) || StartsWith(l, IgnoredSchemes[1]) || StartsWith(l, IgnoredSchemes[2])
  }

  // ---------------------------------------------------------------------------
  // The three extraction patterns (case-sensitive), as matchers
  // ---------------------------------------------------------------------------

  /** A string captured by an extraction pattern: `s[start..start + |value|]`, the match ending at `end`. */
  datatype Capture = Capture(value: string, start: nat, end: nat)

  datatype Extractor = NetworkCallRe | AbsoluteUrlRe | RootPathRe

  /** The first index from `k` on that holds a quote of `['"`]`, or `|s|`. */
  function QuoteEnd(s: string, k: nat): (r: nat)
    requires k <= |s|
    ensures k <= r <= |s|
    ensures forall j {:trigger Patterns.IsJsQuote(s[j])} :: k <= j < r ==> !Patterns.IsJsQuote(s[j])
    ensures r < |s| ==> Patterns.IsJsQuote(s[r])
    decreases |s| - k
  {
    if k == |s| || Patterns.IsJsQuote(s[k]) then k else QuoteEnd(s, k + 1)
  }

  /**
    `([^'"`]+)['"`]` from `k`: the greedy run stops at the first quote, which
    must be there; the closing quote may differ from the opening one.
   */
  function QuotedRun(s: string, k: nat): (r: Option<Capture>)
    requires k <= |s|
    ensures r.Some? ==> IsCapture(s, r.value) && r.value.start == k
  {
    var v := QuoteEnd(s, k);
    if k < v < |s| then Some(Capture(s[k..v], k, v + 1)) else None
  }

  /** `c` is a non-empty run without quotes, followed by a quote. */
  predicate IsCapture(s: string, c: Capture)
  {
    c.value != [] && c.end == c.start + |c.value| + 1 <= |s|
    && c.value == s[c.start..c.start + |c.value|]
    && (forall x :: x in c.value ==> !Patterns.IsJsQuote(x))
    && Patterns.IsJsQuote(s[c.end - 1])
  }

  /** `s[i..]` starts with `w`. */
  predicate WordAt(s: string, i: nat, w: string)
  {
    i + |w| <= |s| && s[i..i + |w|] == w
  }

  /** `\s*` `sep` `\s*['"`]` from `n`: where the opening quote stands. */
  function QuoteAfter(s: string, n: nat, sep: char): (r: Option<nat>)
    requires n <= |s|
    ensures r.Some? ==> n < r.value < |s| && Patterns.IsJsQuote(s[r.value])
  {
    var j := SkipSpaces(s, n);
    if j < |s| && s[j] == sep then
      var k := SkipSpaces(s, j + 1);
      if k < |s| && Patterns.IsJsQuote(s[k]) then Some(k) else None
    else None
  }

  /** `\s*\(\s*['"`]([^'"`]+)['"`]` from `n`. */
  function CallArgument(s: string, n: nat): (r: Option<Capture>)
    requires n <= |s|
    ensures r.Some? ==> IsCapture(s, r.value) && n < r.value.start && Patterns.IsJsQuote(s[r.value.start - 1])
  {
    match QuoteAfter(s, n, '(')
    case Some(k) => QuotedRun(s, k + 1)
    case None => None
  }

  /**
    `fetch|axios(?:\.(?:get|post|put))?`: where the callee name ends. When a
    method suffix is present, giving it back cannot help, as `(` would then
    have to follow `axios` directly.
   */
  function CalleeEnd(s: string, i: nat): (r: Option<nat>)
    requires i <= |s|
    ensures r.Some? ==> i < r.value <= |s|
  {
    if WordAt(s, i, "fetch") then Some(i + 5)
    else if WordAt(s, i, "axios") then
      if WordAt(s, i + 5, ".get") then Some(i + 9)
      else if WordAt(s, i + 5, ".post") then Some(i + 10)
      else if WordAt(s, i + 5, ".put") then Some(i + 9)
      else Some(i + 5)
    else None
  }

  /** `[A-Z]+`: where the run of capital letters from `k` ends. */
  function CapitalsEnd(s: string, k: nat): (r: nat)
    requires k <= |s|
    ensures k <= r <= |s|
    ensures forall j {:trigger IsUpper(s[j])} :: k <= j < r ==> IsUpper(s[j])
    decreases |s| - k
  {
    if k < |s| && IsUpper(s[k]) then CapitalsEnd(s, k + 1) else k
  }

  /** `xhr\.open\s*\(\s*['"`][A-Z]+['"`]\s*,\s*['"`]([^'"`]+)['"`]` at `i`. */
  function XhrOpenAt(s: string, i: nat): (r: Option<Capture>)
    requires i <= |s|
    ensures r.Some? ==> IsCapture(s, r.value) && i < r.value.start
  {
    if WordAt(s, i, "xhr.open") then
      match QuoteAfter(s, i + 8, '(')
      case Some(k) => XhrMethodThenUrl(s, k)
      case None => None
    else None
  }

  /** `[A-Z]+['"`]\s*,\s*['"`]([^'"`]+)['"`]` after the quote at `k`. */
  function XhrMethodThenUrl(s: string, k: nat): (r: Option<Capture>)
    requires k < |s|
    ensures r.Some? ==> IsCapture(s, r.value) && k < r.value.start
  {
    var v := CapitalsEnd(s, k + 1);
    if k + 1 < v < |s| && Patterns.IsJsQuote(s[v]) then
      match QuoteAfter(s, v + 1, ',')
      case Some(d) => QuotedRun(s, d + 1)
      case None => None
    else None
  }

  /** `new\s+WebSocket\s*\(...` at `i`. */
  function WebSocketAt(s: string, i: nat): (r: Option<Capture>)
    requires i <= |s|
    ensures r.Some? ==> IsCapture(s, r.value) && i < r.value.start
  {
    if WordAt(s, i, "new") then
      var j := SkipSpaces(s, i + 3);
      if i + 3 < j && WordAt(s, j, "WebSocket") then CallArgument(s, j + 9) else None
    else None
  }

  /**
    The network-call pattern at `i`. Its three alternatives begin with
    different letters, so at most one of them applies.
   */
  function NetworkCallAt(s: string, i: nat): (r: Option<Capture>)
    requires i <= |s|
    ensures r.Some? ==> IsCapture(s, r.value) && i < r.value.start
  {
    match CalleeEnd(s, i)
    case Some(n) => CallArgument(s, n)
    case None =>
      if WordAt(s, i, "xhr.open") then XhrOpenAt(s, i) else WebSocketAt(s, i)
  }

  /** `https?://` at `k`: the `s` of `https` is taken when it is there. */
  function SchemePrefix(s: string, k: nat): (r: string)
    ensures r == [] || r == "https://" || r == "http://"
    ensures r != [] ==> WordAt(s, k, r)
  {
    if WordAt(s, k, "https://") then "https://" else if WordAt(s, k, "http://") then "http://" else []
  }

  lemma WordAtStartsWith(s: string, k: nat, v: nat, w: string)
    requires WordAt(s, k, w) && k + |w| <= v <= |s|
    ensures StartsWith(s[k..v], w)
  {
    assert s[k..v][..|w|] == s[k..k + |w|];
  }

  /**
    `['"`](https?://[^'"`]+)['"`]` at `i`. The prefix holds no quote, so the
    run of non-quotes from `i + 1` covers it; it must go on past it.
   */
  function AbsoluteUrlAt(s: string, i: nat): (r: Option<Capture>)
    requires i <= |s|
    ensures r.Some? ==> IsCapture(s, r.value) && r.value.start == i + 1
    ensures r.Some? ==> StartsWith(r.value.value, "http://") || StartsWith(r.value.value, "https://")
  {
    if i < |s| && Patterns.IsJsQuote(s[i]) then
      var p := SchemePrefix(s, i + 1);
      if p != [] then
        match QuotedRun(s, i + 1)
        case Some(c) =>
          if |c.value| > |p| then
            WordAtStartsWith(s, i + 1, i + 1 + |c.value|, p);
            Some(c)
          else None
        case None => None
      else None
    else None
  }

  /** `['"`](/[^'"`]+)['"`]` at `i`. */
  function RootPathAt(s: string, i: nat): (r: Option<Capture>)
    requires i <= |s|
    ensures r.Some? ==> IsCapture(s, r.value) && r.value.start == i + 1
    ensures r.Some? ==> |r.value.value| >= 2 && r.value.value[0] == '/'
  {
    if i + 1 < |s| && Patterns.IsJsQuote(s[i]) && s[i + 1] == '/' then
      match QuotedRun(s, i + 1)
      case Some(c) => if |c.value| >= 2 then Some(c) else None
      case None => None
    else None
  }

  function CaptureAt(e: Extractor, s: string, i: nat): (r: Option<Capture>)
    requires i <= |s|
    ensures r.Some? ==> IsCapture(s, r.value) && i < r.value.start
  {
    match e
    case NetworkCallRe => NetworkCallAt(s, i)
    case AbsoluteUrlRe => AbsoluteUrlAt(s, i)
    case RootPathRe => RootPathAt(s, i)
  }

  // ---------------------------------------------------------------------------
  // re.findall
  // ---------------------------------------------------------------------------

  predicate IsCaptureTable(s: string, t: seq<Option<Capture>>)
  {
    |t| == |s| && forall j :: 0 <= j < |t| && t[j].Some? ==> j < t[j].value.end <= |s| && IsCapture(s, t[j].value)
  }

  function CaptureTable(e: Extractor, s: string): (t: seq<Option<Capture>>)
    ensures IsCaptureTable(s, t)
    ensures forall j :: 0 <= j < |s| ==> t[j] == CaptureAt(e, s, j)
  {
    seq(|s|, j requires 0 <= j < |s| => CaptureAt(e, s, j))
  }

  /**
    `re.findall` from index `i`, with `t` the pattern's table for `s`: the
    captured strings of the non-overlapping matches, left to right.
   */
  function FindAllFrom(s: string, t: seq<Option<Capture>>, i: nat): (r: seq<string>)
    requires IsCaptureTable(s, t) && i <= |s|
    ensures forall v :: v in r ==> v != [] && forall x :: x in v ==> !Patterns.IsJsQuote(x)
    decreases |s| - i
  {
    if i == |s| then []
    else
      match t[i]
      case Some(c) => [c.value] + FindAllFrom(s, t, c.end)
      case None => FindAllFrom(s, t, i + 1)
  }

  function FindAll(e: Extractor, s: string): (r: seq<string>)
    ensures forall v :: v in r ==> v != [] && forall x :: x in v ==> !Patterns.IsJsQuote(x)
  {
    FindAllFrom(s, CaptureTable(e, s), 0)
  }

  /** Every string `findall` returns is captured by a match of the pattern in `s`. */
  lemma {:induction false} FindAllFromSound(s: string, t: seq<Option<Capture>>, i: nat, v: string)
    requires IsCaptureTable(s, t) && i <= |s|
    requires v in FindAllFrom(s, t, i)
    ensures exists j :: i <= j < |s| && t[j].Some? && t[j].value.value == v
    decreases |s| - i
  {
    match t[i]
    case Some(c) =>
      if v != c.value {
        FindAllFromSound(s, t, c.end, v);
      }
    case None =>
      FindAllFromSound(s, t, i + 1, v);
  }

  /** A text in which the pattern matches nowhere yields nothing. */
  lemma {:induction false} FindAllFromNoMatch(s: string, t: seq<Option<Capture>>, i: nat)
    requires IsCaptureTable(s, t) && i <= |s|
    requires forall j :: i <= j < |s| ==> t[j].None?
    ensures FindAllFrom(s, t, i) == []
    decreases |s| - i
  {
    if i < |s| {
      FindAllFromNoMatch(s, t, i + 1);
    }
  }

  /**
    A match the scan reaches is returned: when no match starts in `[i, j)` and
    one starts at `j`, its captured string is in `findall`'s result from `i`.
   */
  lemma {:induction false} FindAllFromReaches(s: string, t: seq<Option<Capture>>, i: nat, j: nat)
    requires IsCaptureTable(s, t) && i <= j < |s|
    requires forall k :: i <= k < j ==> t[k].None?
    requires t[j].Some?
    ensures t[j].value.value in FindAllFrom(s, t, i)
    decreases j - i
  {
    if i < j {
      FindAllFromReaches(s, t, i + 1, j);
    }
  }

  // ---------------------------------------------------------------------------
  // Completeness of the three patterns: a quoted string of the right shape is matched
  // ---------------------------------------------------------------------------

  /** `s[k..v]` is a non-empty run without quotes and `s[v]` is a quote. */
  predicate IsQuotedRunTo(s: string, k: nat, v: nat)
  {
    k < v < |s| && Patterns.IsJsQuote(s[v]) && forall j :: k <= j < v ==> !Patterns.IsJsQuote(s[j])
  }

  lemma {:induction false} QuoteEndTo(s: string, k: nat, v: nat)
    requires k <= v < |s| && Patterns.IsJsQuote(s[v])
    requires forall j :: k <= j < v ==> !Patterns.IsJsQuote(s[j])
    ensures QuoteEnd(s, k) == v
    decreases v - k
  {
    if k < v {
      QuoteEndTo(s, k + 1, v);
    }
  }

  /** `([^'"`]+)['"`]` matches every non-empty run without quotes up to the next quote. */
  lemma QuotedRunComplete(s: string, k: nat, v: nat)
    requires IsQuotedRunTo(s, k, v)
    ensures QuotedRun(s, k) == Some(Capture(s[k..v], k, v + 1))
  {
    QuoteEndTo(s, k, v);
  }

  /**
    A quote at `i`, then `http://` or `https://` and at least one more character
    without quotes, then a quote at `v`: the absolute-URL pattern matches at `i`
    and captures the URL between the quotes.
   */
  lemma AbsoluteUrlComplete(s: string, i: nat, v: nat)
    requires i < |s| && Patterns.IsJsQuote(s[i]) && IsQuotedRunTo(s, i + 1, v)
    requires var w := s[i + 1..v];
      (StartsWith(w, "http://") && |w| > 7) || (StartsWith(w, "https://") && |w| > 8)
    ensures AbsoluteUrlAt(s, i) == Some(Capture(s[i + 1..v], i + 1, v + 1))
  {
    var w := s[i + 1..v];
    QuotedRunComplete(s, i + 1, v);
    if StartsWith(w, "https://") {
      assert s[i + 1..i + 9] == w[..8];
      assert !StartsWith(w, "http://") by { assert w[4] == w[..8][4] == 's'; }
      assert SchemePrefix(s, i + 1) == "https://";
    } else {
      assert StartsWith(w, "http://");
      assert w[..7] == "http://";
      assert s[i + 1..i + 8] == w[..7];
      assert s[i + 5] == s[i + 1..i + 8][4] == ':';
      NotWordAt(s, i + 1, "https://", 4);
      assert SchemePrefix(s, i + 1) == "http://";
    }
  }

  /**
    A quote at `i`, then `/` and at least one more character without quotes,
    then a quote at `v`: the root-path pattern matches at `i` and captures the
    path between the quotes (`//x` included).
   */
  lemma RootPathComplete(s: string, i: nat, v: nat)
    requires i < |s| && Patterns.IsJsQuote(s[i]) && IsQuotedRunTo(s, i + 1, v)
    requires s[i + 1] == '/' && i + 3 <= v
    ensures RootPathAt(s, i) == Some(Capture(s[i + 1..v], i + 1, v + 1))
  {
    QuotedRunComplete(s, i + 1, v);
  }

  /**
    `\s*\(\s*['"`]([^'"`]+)['"`]` from `n`: spaces up to `(` at `j`, spaces up
    to a quote at `k`, and a quoted run up to the quote at `v`.
   */
  lemma CallArgumentComplete(s: string, n: nat, j: nat, k: nat, v: nat)
    requires n <= j < k < |s| && s[j] == '(' && Patterns.IsJsQuote(s[k]) && IsQuotedRunTo(s, k + 1, v)
    requires forall x :: n <= x < j ==> IsSpace(s[x])
    requires forall x :: j < x < k ==> IsSpace(s[x])
    ensures CallArgument(s, n) == Some(Capture(s[k + 1..v], k + 1, v + 1))
  {
    QuoteAfterAt(s, n, '(', j, k);
    QuotedRunComplete(s, k + 1, v);
  }

  /** Spaces, `sep` at `j`, spaces and a quote at `k`: `QuoteAfter` finds that quote. */
  lemma QuoteAfterAt(s: string, n: nat, sep: char, j: nat, k: nat)
    requires !IsSpace(sep)
    requires n <= j < k < |s| && s[j] == sep && Patterns.IsJsQuote(s[k])
    requires forall x :: n <= x < j ==> IsSpace(s[x])
    requires forall x :: j < x < k ==> IsSpace(s[x])
    ensures QuoteAfter(s, n, sep) == Some(k)
  {
    SkipSpacesTo(s, n, j);
    assert !IsSpace(s[k]);
    SkipSpacesTo(s, j + 1, k);
  }

  /**
    `fetch`, `axios`, `axios.get`, `axios.post` or `axios.put` at `i`, then the
    call's opening and a quoted argument: the network-call pattern captures the
    argument.
   */
  lemma CalleeCallComplete(s: string, i: nat, callee: string, j: nat, k: nat, v: nat)
    requires callee in {"fetch", "axios", "axios.get", "axios.post", "axios.put"} && WordAt(s, i, callee)
    requires i + |callee| <= j < k < |s| && s[j] == '(' && Patterns.IsJsQuote(s[k]) && IsQuotedRunTo(s, k + 1, v)
    requires forall x :: i + |callee| <= x < j ==> IsSpace(s[x])
    requires forall x :: j < x < k ==> IsSpace(s[x])
    ensures NetworkCallAt(s, i) == Some(Capture(s[k + 1..v], k + 1, v + 1))
  {
    CalleeEndOf(s, i, callee);
    CallArgumentComplete(s, i + |callee|, j, k, v);
    CalleeFound(s, i, i + |callee|, Some(Capture(s[k + 1..v], k + 1, v + 1)));
  }

  /** Where a callee name ends at `n`, the network-call pattern reads the call's argument from `n`. */
  lemma CalleeFound(s: string, i: nat, n: nat, r: Option<Capture>)
    requires i <= |s| && CalleeEnd(s, i) == Some(n) && CallArgument(s, n) == r
    ensures NetworkCallAt(s, i) == r
  {
  }

  /** Where `CalleeEnd` puts the end of a callee name followed by spaces or `(`. */
  lemma CalleeEndOf(s: string, i: nat, callee: string)
    requires callee in {"fetch", "axios", "axios.get", "axios.post", "axios.put"} && WordAt(s, i, callee)
    requires i + |callee| < |s| && (s[i + |callee|] == '(' || IsSpace(s[i + |callee|]))
    ensures CalleeEnd(s, i) == Some(i + |callee|)
  {
    var w := s[i..i + |callee|];
    assert w == callee;
    if callee == "fetch" {
      assert s[i..i + 5] == w;
    } else {
      assert s[i..i + 5] == w[..5] == "axios";
      assert !WordAt(s, i, "fetch") by { assert s[i] == w[0]; }
      if callee == "axios" {
        NotWordAt(s, i + 5, ".get", 0);
        NotWordAt(s, i + 5, ".post", 0);
        NotWordAt(s, i + 5, ".put", 0);
      } else if callee == "axios.get" {
        assert s[i + 5..i + 9] == w[5..];
      } else if callee == "axios.post" {
        assert !WordAt(s, i + 5, ".get") by { assert s[i + 6] == w[6]; }
        assert s[i + 5..i + 10] == w[5..];
      } else {
        assert !WordAt(s, i + 5, ".get") by { assert s[i + 6] == w[6]; }
        assert !WordAt(s, i + 5, ".post") by { assert s[i + 7] == w[7]; }
        assert s[i + 5..i + 9] == w[5..];
      }
    }
  }

  /**
    `new`, at least one space, `WebSocket` at `w`, then the call's opening and a
    quoted argument: the network-call pattern captures the argument.
   */
  lemma WebSocketComplete(s: string, i: nat, w: nat, j: nat, k: nat, v: nat)
    requires WordAt(s, i, "new") && i + 3 < w && WordAt(s, w, "WebSocket")
    requires forall x :: i + 3 <= x < w ==> IsSpace(s[x])
    requires w + 9 <= j < k < |s| && s[j] == '(' && Patterns.IsJsQuote(s[k]) && IsQuotedRunTo(s, k + 1, v)
    requires forall x :: w + 9 <= x < j ==> IsSpace(s[x])
    requires forall x :: j < x < k ==> IsSpace(s[x])
    ensures NetworkCallAt(s, i) == Some(Capture(s[k + 1..v], k + 1, v + 1))
  {
    assert s[w] == 'W' by { assert s[w..w + 9][0] == s[w]; }
    SkipSpacesTo(s, i + 3, w);
    CallArgumentComplete(s, w + 9, j, k, v);
    WebSocketFound(s, i, w, Some(Capture(s[k + 1..v], k + 1, v + 1)));
  }

  /** `new`, spaces up to `WebSocket` at `w`: the network-call pattern reads the call's argument after `WebSocket`. */
  lemma WebSocketFound(s: string, i: nat, w: nat, r: Option<Capture>)
    requires WordAt(s, i, "new") && i + 3 < w && SkipSpaces(s, i + 3) == w && WordAt(s, w, "WebSocket")
    requires CallArgument(s, w + 9) == r
    ensures NetworkCallAt(s, i) == r
  {
    assert s[i] == 'n' by { assert s[i..i + 3][0] == s[i]; }
    NetworkCallOther(s, i);
    WebSocketArgument(s, i, w);
  }

  /** Neither `fetch`, `axios` nor `xhr.open` starts with the letter at `i`: the pattern tries `new WebSocket`. */
  lemma NetworkCallOther(s: string, i: nat)
    requires i < |s| && s[i] != 'f' && s[i] != 'a' && s[i] != 'x'
    ensures NetworkCallAt(s, i) == WebSocketAt(s, i)
  {
    NotWordAt(s, i, "fetch", 0);
    NotWordAt(s, i, "axios", 0);
    NotWordAt(s, i, "xhr.open", 0);
  }

  /** `new`, spaces and `WebSocket` at `w`: the argument is read after `WebSocket`. */
  lemma WebSocketArgument(s: string, i: nat, w: nat)
    requires WordAt(s, i, "new") && i + 3 < w && SkipSpaces(s, i + 3) == w && WordAt(s, w, "WebSocket")
    ensures WebSocketAt(s, i) == CallArgument(s, w + 9)
  {
  }

  /** A word does not start where its first letter is missing. */
  lemma NotWordAt(s: string, i: nat, w: string, d: nat)
    requires d < |w| && i + d < |s| && s[i + d] != w[d]
    ensures !WordAt(s, i, w)
  {
    if i + |w| <= |s| {
      assert s[i..i + |w|][d] == s[i + d];
    }
  }

  /** `[A-Z]+` ends at the first character after `k` that is not a capital letter. */
  lemma {:induction false} CapitalsEndTo(s: string, k: nat, v: nat)
    requires k <= v <= |s| && (v == |s| || !IsUpper(s[v]))
    requires forall x :: k <= x < v ==> IsUpper(s[x])
    ensures CapitalsEnd(s, k) == v
    decreases v - k
  {
    if k < v {
      CapitalsEndTo(s, k + 1, v);
    }
  }

  /**
    `xhr.open`, the call's opening, a quoted method name in capitals ending at
    the quote at `m`, spaces, `,` at `c`, spaces and a quoted argument opened at
    `d`: the network-call pattern captures the argument.
   */
  lemma XhrOpenComplete(s: string, i: nat, j: nat, k: nat, m: nat, c: nat, d: nat, v: nat)
    requires WordAt(s, i, "xhr.open") && i + 8 <= j < k < |s| && s[j] == '(' && Patterns.IsJsQuote(s[k])
    requires forall x :: i + 8 <= x < j ==> IsSpace(s[x])
    requires forall x :: j < x < k ==> IsSpace(s[x])
    requires k + 1 < m < c < |s| && Patterns.IsJsQuote(s[m]) && forall x :: k + 1 <= x < m ==> IsUpper(s[x])
    requires s[c] == ',' && forall x :: m < x < c ==> IsSpace(s[x])
    requires c < d < |s| && Patterns.IsJsQuote(s[d]) && forall x :: c < x < d ==> IsSpace(s[x])
    requires IsQuotedRunTo(s, d + 1, v)
    ensures NetworkCallAt(s, i) == Some(Capture(s[d + 1..v], d + 1, v + 1))
  {
    QuoteAfterAt(s, i + 8, '(', j, k);
    XhrMethodQuotes(s, k, m, c, d);
    XhrOpenFound(s, i, k, m, d, v);
  }

  /** After the quote at `k`, the capitals end at the quote `m` and the URL's opening quote is at `d`. */
  lemma XhrMethodQuotes(s: string, k: nat, m: nat, c: nat, d: nat)
    requires k + 1 < m < c < |s| && Patterns.IsJsQuote(s[m]) && forall x :: k + 1 <= x < m ==> IsUpper(s[x])
    requires s[c] == ',' && forall x :: m < x < c ==> IsSpace(s[x])
    requires c < d < |s| && Patterns.IsJsQuote(s[d]) && forall x :: c < x < d ==> IsSpace(s[x])
    ensures CapitalsEnd(s, k + 1) == m && QuoteAfter(s, m + 1, ',') == Some(d)
  {
    CapitalsEndTo(s, k + 1, m);
    QuoteAfterAt(s, m + 1, ',', c, d);
  }

  /** The `xhr.open` alternative, once its quotes at `k`, `m` and `d` are found, captures the run after `d`. */
  lemma XhrOpenFound(s: string, i: nat, k: nat, m: nat, d: nat, v: nat)
    requires WordAt(s, i, "xhr.open") && QuoteAfter(s, i + 8, '(') == Some(k)
    requires k + 1 < m < |s| && CapitalsEnd(s, k + 1) == m && Patterns.IsJsQuote(s[m])
    requires QuoteAfter(s, m + 1, ',') == Some(d) && IsQuotedRunTo(s, d + 1, v)
    ensures NetworkCallAt(s, i) == Some(Capture(s[d + 1..v], d + 1, v + 1))
  {
    QuotedRunComplete(s, d + 1, v);
    XhrOpenUrl(s, i, k, m, d);
  }

  /** The `xhr.open` alternative, once its quotes at `k`, `m` and `d` are found, is the quoted run after `d`. */
  lemma XhrOpenUrl(s: string, i: nat, k: nat, m: nat, d: nat)
    requires WordAt(s, i, "xhr.open") && QuoteAfter(s, i + 8, '(') == Some(k)
    requires k + 1 < m < |s| && CapitalsEnd(s, k + 1) == m && Patterns.IsJsQuote(s[m])
    requires QuoteAfter(s, m + 1, ',') == Some(d)
    ensures NetworkCallAt(s, i) == QuotedRun(s, d + 1)
  {
    assert s[i] == 'x' by { assert s[i..i + 8][0] == s[i]; }
    NetworkCallXhr(s, i);
    XhrOpenHead(s, i, k);
    XhrMethodTail(s, k, m, d);
  }

  /** At `xhr.open` the pattern's first alternative cannot start, so the `xhr.open` one is tried. */
  lemma NetworkCallXhr(s: string, i: nat)
    requires WordAt(s, i, "xhr.open") && s[i] == 'x'
    ensures NetworkCallAt(s, i) == XhrOpenAt(s, i)
  {
    NotWordAt(s, i, "fetch", 0);
    NotWordAt(s, i, "axios", 0);
  }

  /** `xhr.open`, then `(` and the quote at `k`: what follows is the method name. */
  lemma XhrOpenHead(s: string, i: nat, k: nat)
    requires WordAt(s, i, "xhr.open") && QuoteAfter(s, i + 8, '(') == Some(k)
    ensures XhrOpenAt(s, i) == XhrMethodThenUrl(s, k)
  {
  }

  /** Capitals up to the quote at `m`, then `,` and the quote at `d`: the URL is the quoted run after `d`. */
  lemma XhrMethodTail(s: string, k: nat, m: nat, d: nat)
    requires k + 1 < m < |s| && CapitalsEnd(s, k + 1) == m && Patterns.IsJsQuote(s[m])
    requires QuoteAfter(s, m + 1, ',') == Some(d)
    ensures XhrMethodThenUrl(s, k) == QuotedRun(s, d + 1)
  {
  }

  /**
    The first quoted string of a script, when it is an `http(s)` URL, is among
    the strings `findall` returns for the absolute-URL pattern.
   */
  lemma FirstAbsoluteUrlFound(s: string, i: nat, v: nat)
    requires i < |s| && Patterns.IsJsQuote(s[i]) && IsQuotedRunTo(s, i + 1, v)
    requires forall k :: 0 <= k < i ==> !Patterns.IsJsQuote(s[k])
    requires var w := s[i + 1..v];
      (StartsWith(w, "http://") && |w| > 7) || (StartsWith(w, "https://") && |w| > 8)
    ensures s[i + 1..v] in FindAll(AbsoluteUrlRe, s)
  {
    var t := CaptureTable(AbsoluteUrlRe, s);
    AbsoluteUrlComplete(s, i, v);
    FindAllFromReaches(s, t, 0, i);
  }

  /**
    The first quoted string of a script, when it is a path of two or more
    characters starting with `/`, is among the strings `findall` returns for
    the root-path pattern.
   */
  lemma FirstRootPathFound(s: string, i: nat, v: nat)
    requires i < |s| && Patterns.IsJsQuote(s[i]) && IsQuotedRunTo(s, i + 1, v)
    requires forall k :: 0 <= k < i ==> !Patterns.IsJsQuote(s[k])
    requires s[i + 1] == '/' && i + 3 <= v
    ensures s[i + 1..v] in FindAll(RootPathRe, s)
  {
    var t := CaptureTable(RootPathRe, s);
    RootPathComplete(s, i, v);
    FindAllFromReaches(s, t, 0, i);
  }

  // ---------------------------------------------------------------------------
  // extract_urls_from_js
  // ---------------------------------------------------------------------------

  /** The network-call captures, stripped, whose scheme is not ignored. */
  function NetworkCandidates(found: seq<string>): set<string>
  {
    set v | v in found && v != [] && !IsIgnoredScheme(Strip(v)) :: Strip(v)
  }

  /** The absolute-URL or root-path captures whose scheme is not ignored. */
  function PlainCandidates(found: seq<string>): set<string>
  {
    set v | v in found && !IsIgnoredScheme(v)
  }

  /** Every candidate the three patterns find in the script text. */
  function Candidates(jsText: string): set<string>
  {
    NetworkCandidates(FindAll(NetworkCallRe, jsText))
    + PlainCandidates(FindAll(AbsoluteUrlRe, jsText))
    + PlainCandidates(FindAll(RootPathRe, jsText))
  }

  /** The given hosts without their ports, lower-cased; empty entries are skipped. */
  function GivenHosts(allowedHosts: Option<set<string>>): set<string>
  {
    var given := if allowedHosts.Some? then allowedHosts.value else {};
    set h | h in given && h != [] :: HostOnly(h)
  }

  /** The allow-list: the given hosts and the base URL's host name. */
  function AllowedHosts(allowedHosts: Option<set<string>>, baseUrl: string): set<string>
  {
    var baseHost := Hostname(SplitUrl(baseUrl, "").netloc);
    GivenHosts(allowedHosts) + (if baseHost != [] then {Lower(baseHost)} else {})
  }

  /**
    An absolute `http(s)` candidate (the scheme in lower case) is taken as it
    is; any other is resolved against the base URL.
   */
  function Resolved(u: string, baseUrl: string): string
  {
    if StartsWith(u, "http://") || StartsWith(u, "https://") then u else UrlJoin(baseUrl, u)
  }

  /** The host name of `url` is non-empty and, without a port, on the allow-list. */
  predicate HostAllowed(url: string, allowed: set<string>)
  {
    var h := Hostname(SplitUrl(url, "").netloc);
    h != [] && HostOnly(h) in allowed
  }

  /** What one candidate contributes to the result. */
  function Admit(u: string, baseUrl: string, allowed: set<string>): (r: Option<string>)
    ensures r.Some? <==> HostAllowed(Resolved(u, baseUrl), allowed)
    ensures r.Some? ==> r.value == NormalizeUrl(Resolved(u, baseUrl))
    ensures r.Some? ==> '#' !in r.value
  {
    var x := Resolved(u, baseUrl);
    if HostAllowed(x, allowed) then Some(NormalizeUrl(x)) else None
  }

  function Admitted(us: set<string>, baseUrl: string, allowed: set<string>): set<string>
  {
    set u | u in us && Admit(u, baseUrl, allowed).Some? :: Admit(u, baseUrl, allowed).value
  }

  /** One more network-call capture adds its stripped form unless it is empty or ignored. */
  lemma NetworkCandidatesStep(found: seq<string>, k: nat)
    requires k < |found|
    ensures NetworkCandidates(found[..k + 1])
         == NetworkCandidates(found[..k])
            + (if found[k] != [] && !IsIgnoredScheme(Strip(found[k])) then {Strip(found[k])} else {})
  {
    assert found[..k + 1] == found[..k] + [found[k]];
  }

  /** One more capture of the other two patterns adds itself unless its scheme is ignored. */
  lemma PlainCandidatesStep(found: seq<string>, k: nat)
    requires k < |found|
    ensures PlainCandidates(found[..k + 1])
         == PlainCandidates(found[..k]) + (if !IsIgnoredScheme(found[k]) then {found[k]} else {})
  {
    assert found[..k + 1] == found[..k] + [found[k]];
  }

  lemma CandidatesAre(jsText: string, matches: seq<string>, absolute: seq<string>, roots: seq<string>)
    requires matches == FindAll(NetworkCallRe, jsText)
    requires absolute == FindAll(AbsoluteUrlRe, jsText)
    requires roots == FindAll(RootPathRe, jsText)
    ensures Candidates(jsText) == NetworkCandidates(matches) + PlainCandidates(absolute) + PlainCandidates(roots)
  {
  }

  lemma AllowedHostsAre(allowedHosts: Option<set<string>>, baseUrl: string, allowed: set<string>)
    requires var baseHost := Hostname(SplitUrl(baseUrl, "").netloc);
      allowed == GivenHosts(allowedHosts) + (if baseHost != [] then {Lower(baseHost)} else {})
    ensures allowed == AllowedHosts(allowedHosts, baseUrl)
  {
  }

  /** The result `extract_urls_from_js` promises. */
  function ExtractedUrls(jsText: string, baseUrl: string, allowedHosts: Option<set<string>>): set<string>
  {
    if jsText == [] then {}
    else Admitted(Candidates(jsText), baseUrl, AllowedHosts(allowedHosts, baseUrl))
  }

  /**
    `extract_urls_from_js`: collects the candidates of the three patterns,
    builds the allow-list, and keeps each candidate whose resolved host is
    allowed, normalized.
   */
  method ExtractUrlsFromJs(jsText: string, baseUrl: string, allowedHosts: Option<set<string>>)
    returns (result: set<string>)
    ensures result == ExtractedUrls(jsText, baseUrl, allowedHosts)
    ensures jsText == [] ==> result == {}
  {
    var urls: set<string> := {};
    if jsText == [] {
      return urls;
    }
    var txt := jsText;
    urls := CollectCandidates(txt);

    var allowed := GivenHosts(allowedHosts);
    var base := SplitUrl(baseUrl, "");
    var baseHost := Hostname(base.netloc);
    if baseHost != [] {
      allowed := allowed + {Lower(baseHost)};
    }
    AllowedHostsAre(allowedHosts, baseUrl, allowed);

    result := FilterCandidates(urls, baseUrl, allowed);
  }

  /** The three `findall` passes of `extract_urls_from_js` and the set of candidates they build. */
  method CollectCandidates(txt: string) returns (urls: set<string>)
    ensures urls == Candidates(txt)
  {
    urls := {};
    var matches := FindAll(NetworkCallRe, txt);
    for k := 0 to |matches|
      invariant urls == NetworkCandidates(matches[..k])
    {
      var candidate := matches[k];
      NetworkCandidatesStep(matches, k);
      if candidate != [] {
        candidate := Strip(candidate);
        if !IsIgnoredScheme(candidate) {
          urls := urls + {candidate};
        }
      }
    }
    assert matches[..|matches|] == matches;
    ghost var network := urls;

    var absolute := FindAll(AbsoluteUrlRe, txt);
    for k := 0 to |absolute|
      invariant urls == network + PlainCandidates(absolute[..k])
    {
      var m := absolute[k];
      PlainCandidatesStep(absolute, k);
      if !IsIgnoredScheme(m) {
        urls := urls + {m};
      }
    }
    assert absolute[..|absolute|] == absolute;
    ghost var plain := urls;

    var roots := FindAll(RootPathRe, txt);
    for k := 0 to |roots|
      invariant urls == plain + PlainCandidates(roots[..k])
    {
      var m := roots[k];
      PlainCandidatesStep(roots, k);
      if !IsIgnoredScheme(m) {
        urls := urls + {m};
      }
    }
    assert roots[..|roots|] == roots;

    CandidatesAre(txt, matches, absolute, roots);
  }

  /** The final loop of `extract_urls_from_js`: resolves, filters and normalizes each candidate. */
  method FilterCandidates(urls: set<string>, baseUrl: string, allowed: set<string>) returns (result: set<string>)
    ensures result == Admitted(urls, baseUrl, allowed)
  {
    result := {};
    var rest := urls;
    while rest != {}
      invariant rest <= urls
      invariant result == Admitted(urls - rest, baseUrl, allowed)
      decreases |rest|
    {
      var u :| u in rest;
      ghost var before := result;
      if StartsWith(u, "http://") || StartsWith(u, "https://") {
        var p := SplitUrl(u, "");
        var h := Hostname(p.netloc);
        assert Resolved(u, baseUrl) == u;
        if h != [] && HostOnly(h) in allowed {
          result := result + {NormalizeUrl(u)};
          SomeContribution(u, baseUrl, allowed, u);
        } else {
          NoContribution(before, u, baseUrl, allowed);
        }
      } else {
        var absU := UrlJoin(baseUrl, u);
        var p := SplitUrl(absU, "");
        var h := Hostname(p.netloc);
        assert Resolved(u, baseUrl) == absU;
        if h != [] && HostOnly(h) in allowed {
          result := result + {NormalizeUrl(absU)};
          SomeContribution(u, baseUrl, allowed, absU);
        } else {
          NoContribution(before, u, baseUrl, allowed);
        }
      }
      AdmittedStep(urls, rest, u, baseUrl, allowed);
      rest := rest - {u};
    }
    assert urls - rest == urls;
  }

  /** `Admit` as a set of zero or one URLs. */
  function Contribution(u: string, baseUrl: string, allowed: set<string>): set<string>
  {
    match Admit(u, baseUrl, allowed)
    case Some(r) => {r}
    case None => {}
  }

  lemma SomeContribution(u: string, baseUrl: string, allowed: set<string>, url: string)
    requires url == Resolved(u, baseUrl) && HostAllowed(url, allowed)
    ensures Contribution(u, baseUrl, allowed) == {NormalizeUrl(url)}
  {
  }

  lemma NoContribution(before: set<string>, u: string, baseUrl: string, allowed: set<string>)
    requires !HostAllowed(Resolved(u, baseUrl), allowed)
    ensures before == before + Contribution(u, baseUrl, allowed)
  {
  }

  lemma AdmittedStep(urls: set<string>, rest: set<string>, u: string, baseUrl: string, allowed: set<string>)
    requires u in rest && rest <= urls
    ensures Admitted(urls - (rest - {u}), baseUrl, allowed)
         == Admitted(urls - rest, baseUrl, allowed) + Contribution(u, baseUrl, allowed)
  {
    assert urls - (rest - {u}) == (urls - rest) + {u};
    AdmittedAdd(urls - rest, u, baseUrl, allowed);
  }

  lemma AdmittedAdd(us: set<string>, u: string, baseUrl: string, allowed: set<string>)
    ensures Admitted(us + {u}, baseUrl, allowed) == Admitted(us, baseUrl, allowed) + Contribution(u, baseUrl, allowed)
  {
  }

  // ---------------------------------------------------------------------------
  // What the extracted URLs are
  // ---------------------------------------------------------------------------

  /** Every string `findall` returns for a pattern is the capture of one of its matches. */
  lemma FoundByPattern(e: Extractor, s: string, v: string)
    requires v in FindAll(e, s)
    ensures exists j :: 0 <= j < |s| && CaptureAt(e, s, j).Some? && CaptureAt(e, s, j).value.value == v
  {
    FindAllFromSound(s, CaptureTable(e, s), 0, v);
  }

  /** The absolute-URL pattern only yields `http://` and `https://` URLs. */
  lemma AbsoluteFoundIsHttp(s: string, v: string)
    requires v in FindAll(AbsoluteUrlRe, s)
    ensures StartsWith(v, "http://") || StartsWith(v, "https://")
  {
    FoundByPattern(AbsoluteUrlRe, s, v);
  }

  /** The root-path pattern only yields paths of two or more characters starting with `/`. */
  lemma RootFoundIsPath(s: string, v: string)
    requires v in FindAll(RootPathRe, s)
    ensures |v| >= 2 && v[0] == '/'
  {
    FoundByPattern(RootPathRe, s, v);
  }

  /** Stripping a string without quotes leaves a string without quotes. */
  lemma StripKeepsQuoteFree(v: string)
    requires forall x :: x in v ==> !Patterns.IsJsQuote(x)
    ensures forall x :: x in Strip(v) ==> !Patterns.IsJsQuote(x)
  {
    var r := Strip(v);
    var k :| 0 <= k <= |v| - |r| && OccursAt(v, r, k);
    forall x | x in r
      ensures !Patterns.IsJsQuote(x)
    {
      var i :| 0 <= i < |r| && r[i] == x;
      assert v[k + i] == x;
    }
  }

  /**
    A candidate never has an ignored scheme and holds no quote; one found by
    the absolute-URL pattern is an `http(s)` URL, one found by the root-path
    pattern starts with `/`.
   */
  lemma CandidateShape(jsText: string, v: string)
    requires v in Candidates(jsText)
    ensures !IsIgnoredScheme(v)
    ensures forall x :: x in v ==> !Patterns.IsJsQuote(x)
    ensures v in FindAll(AbsoluteUrlRe, jsText) ==> StartsWith(v, "http://") || StartsWith(v, "https://")
    ensures v in FindAll(RootPathRe, jsText) ==> v[0] == '/'
  {
    if v in NetworkCandidates(FindAll(NetworkCallRe, jsText)) {
      var w :| w in FindAll(NetworkCallRe, jsText) && w != [] && !IsIgnoredScheme(Strip(w)) && v == Strip(w);
      StripKeepsQuoteFree(w);
    }
    if v in FindAll(AbsoluteUrlRe, jsText) {
      AbsoluteFoundIsHttp(jsText, v);
    }
    if v in FindAll(RootPathRe, jsText) {
      RootFoundIsPath(jsText, v);
    }
  }

  /**
    Soundness: every extracted URL is the normalized form of a candidate,
    resolved against the base URL, whose host is on the allow-list; it carries
    no fragment.
   */
  lemma ExtractedSound(jsText: string, baseUrl: string, allowedHosts: Option<set<string>>, v: string)
    requires v in ExtractedUrls(jsText, baseUrl, allowedHosts)
    ensures exists u :: (u in Candidates(jsText)
                         && HostAllowed(Resolved(u, baseUrl), AllowedHosts(allowedHosts, baseUrl))
                         && v == NormalizeUrl(Resolved(u, baseUrl)))
    ensures '#' !in v
  {
    var allowed := AllowedHosts(allowedHosts, baseUrl);
    var u :| u in Candidates(jsText) && Admit(u, baseUrl, allowed).Some? && v == Admit(u, baseUrl, allowed).value;
  }

  /** Completeness: every candidate whose resolved host is allowed is extracted, normalized. */
  lemma ExtractedComplete(jsText: string, baseUrl: string, allowedHosts: Option<set<string>>, u: string)
    requires jsText != [] && u in Candidates(jsText)
    requires HostAllowed(Resolved(u, baseUrl), AllowedHosts(allowedHosts, baseUrl))
    ensures NormalizeUrl(Resolved(u, baseUrl)) in ExtractedUrls(jsText, baseUrl, allowedHosts)
  {
    assert Admit(u, baseUrl, AllowedHosts(allowedHosts, baseUrl)).Some?;
  }

  /** The base URL's own host is always allowed, and so is each given host without its port. */
  lemma AllowedHostsHold(allowedHosts: Option<set<string>>, baseUrl: string, h: string)
    ensures var baseHost := Hostname(SplitUrl(baseUrl, "").netloc);
      baseHost != [] ==> Lower(baseHost) in AllowedHosts(allowedHosts, baseUrl)
    ensures allowedHosts.Some? && h in allowedHosts.value && h != [] ==> HostOnly(h) in AllowedHosts(allowedHosts, baseUrl)
  {
  }

  /**
    A root-relative candidate (`/x`, not `//x`, without dot segments, with any
    non-empty query and fragment) resolves against an `http(s)` base to the
    base's scheme and authority followed by the candidate, and is always admitted
    when the base has a host name: that host is on the allow-list.
   */
  lemma RootRelativeAdmitted(u: string, baseUrl: string, allowedHosts: Option<set<string>>)
    requires u != [] && u[0] == '/' && !StartsWith(u, "//")
    requires HasNoDotSegments(SplitPathQuery(u).0) && IsPlainReference(u)
    requires var b := SplitUrl(baseUrl, "");
      (b.scheme == "http" || b.scheme == "https") && Hostname(b.netloc) != []
    ensures var b := SplitUrl(baseUrl, "");
      Admit(u, baseUrl, AllowedHosts(allowedHosts, baseUrl)) == Some(NormalizeUrl(b.scheme + "://" + b.netloc + u))
  {
    var b := SplitUrl(baseUrl, "");
    var x := b.scheme + "://" + b.netloc + u;
    RootRelativeResolved(u, baseUrl);
    HostOnlyOfHostname(Hostname(b.netloc));
    assert HostAllowed(x, AllowedHosts(allowedHosts, baseUrl));
  }

  /**
    Every root-relative candidate (`/x`, not `//x`), with dot segments or an
    empty `?` or `#` as well, resolves against an `http(s)` page with a host
    name to a URL with the page's scheme and authority, and is admitted.
   */
  lemma RootRelativeAlwaysAdmitted(u: string, baseUrl: string, allowedHosts: Option<set<string>>)
    requires u != [] && u[0] == '/' && !StartsWith(u, "//")
    requires var b := SplitUrl(baseUrl, "");
      (b.scheme == "http" || b.scheme == "https") && Hostname(b.netloc) != []
    ensures var b := SplitUrl(baseUrl, ""); var j := SplitUrl(Resolved(u, baseUrl), "");
      j.scheme == b.scheme && j.netloc == b.netloc
    ensures Admit(u, baseUrl, AllowedHosts(allowedHosts, baseUrl)).Some?
  {
    var b := SplitUrl(baseUrl, "");
    NotHttpPrefixed(u, "http://");
    NotHttpPrefixed(u, "https://");
    JoinRootRelativeAuthority(baseUrl, u);
    HostOnlyOfHostname(Hostname(b.netloc));
    assert HostAllowed(Resolved(u, baseUrl), AllowedHosts(allowedHosts, baseUrl));
  }

  /** The resolved root-relative candidate, and the authority it splits back into. */
  lemma RootRelativeResolved(u: string, baseUrl: string)
    requires u != [] && u[0] == '/' && !StartsWith(u, "//")
    requires HasNoDotSegments(SplitPathQuery(u).0) && IsPlainReference(u)
    requires var b := SplitUrl(baseUrl, "");
      (b.scheme == "http" || b.scheme == "https") && b.netloc != []
    ensures var b := SplitUrl(baseUrl, "");
      && Resolved(u, baseUrl) == b.scheme + "://" + b.netloc + u
      && SplitUrl(b.scheme + "://" + b.netloc + u, "").netloc == b.netloc
  {
    var b := SplitUrl(baseUrl, "");
    NotHttpPrefixed(u, "http://");
    NotHttpPrefixed(u, "https://");
    JoinRootRelative(baseUrl, u);
    assert IsSchemeName(b.scheme) by { assert HasScheme(baseUrl); }
    SplitAuthorityPrefix(b.scheme, b.netloc, u);
  }

  /**
    A root-relative candidate with a fragment, such as `/another-page#details`
    on `http://example.com/...`, is admitted as the page's scheme and authority
    followed by the part before `#`: `normalize_url` drops the fragment.
   */
  lemma RootRelativeFragmentAdmitted(v: string, f: string, baseUrl: string, allowedHosts: Option<set<string>>)
    requires v != [] && v[0] == '/' && !StartsWith(v, "//") && '#' !in v && !IsSpace(v[|v| - 1])
    requires HasNoDotSegments(SplitPathQuery(v).0) && IsPlainReference(v) && f != []
    requires var b := SplitUrl(baseUrl, "");
      (b.scheme == "http" || b.scheme == "https") && Hostname(b.netloc) != []
    ensures var b := SplitUrl(baseUrl, "");
      Admit(v + "#" + f, baseUrl, AllowedHosts(allowedHosts, baseUrl)) == Some(NormalizeUrl(b.scheme + "://" + b.netloc + v))
  {
    var b := SplitUrl(baseUrl, "");
    FragmentReference(v, f);
    RootRelativeAdmitted(v + "#" + f, baseUrl, allowedHosts);
    assert IsSchemeName(b.scheme) by { assert HasScheme(baseUrl); }
    AuthorityPrefixed(b.scheme, b.netloc, v, f);
  }

  /** `scheme://netloc` before `v` keeps it clean at both ends and free of `#`, so the fragment after it normalizes away. */
  lemma AuthorityPrefixed(scheme: string, netloc: string, v: string, f: string)
    requires IsSchemeName(scheme) && '#' !in netloc && v != [] && '#' !in v && !IsSpace(v[|v| - 1])
    ensures NormalizeUrl(scheme + "://" + netloc + (v + "#" + f)) == NormalizeUrl(scheme + "://" + netloc + v)
  {
    var x := scheme + "://" + netloc + v;
    assert scheme + "://" + netloc + (v + "#" + f) == x + "#" + f;
    assert x[0] == scheme[0] && x[|x| - 1] == v[|v| - 1];
    assert '#' !in x by {
      assert forall k :: 0 <= k < |scheme| ==> IsSchemeChar(scheme[k]);
    }
    NormalizeDropsFragment(x, f);
  }

  /** `v#f`, for a root-relative plain `v` and a non-empty `f`, is a root-relative plain reference with the same path. */
  lemma FragmentReference(v: string, f: string)
    requires v != [] && v[0] == '/' && !StartsWith(v, "//") && '#' !in v && IsPlainReference(v) && f != []
    ensures var u := v + "#" + f;
      u[0] == '/' && !StartsWith(u, "//") && IsPlainReference(u) && SplitPathQuery(u).0 == SplitPathQuery(v).0
  {
    var u := v + "#" + f;
    assert u == v + ("#" + f);
    IndexOfAppend(v, "#" + f, '#');
    assert Before(u, '#') == v;
    assert After(u, '#') == f;
    if |v| >= 2 {
      assert u[..2] == v[..2];
    } else {
      assert u[1] == '#';
    }
  }

  lemma NotHttpPrefixed(u: string, p: string)
    requires u != [] && u[0] == '/' && p != [] && p[0] == 'h'
    ensures !StartsWith(u, p)
  {
    if StartsWith(u, p) {
      StartsWithHead(u, p);
    }
  }

  /** A host name holds no `:`, so `host_only` only lowercases it. */
  lemma HostOnlyOfHostname(h: string)
    requires ':' !in h
    ensures HostOnly(h) == Lower(h)
  {
  }

  /**
    A candidate with a scheme other than the base's, such as `wss://host/x` on
    an `http` page, is kept exactly as written: `urljoin` does not resolve
    across schemes, so the scheme is not replaced by the page's.
   */
  lemma OtherSchemeKept(u: string, baseUrl: string)
    requires baseUrl != [] && HasScheme(u)
    requires !StartsWith(u, "http://") && !StartsWith(u, "https://")
    requires SplitUrl(u, "").scheme != SplitUrl(baseUrl, "").scheme
    ensures Resolved(u, baseUrl) == u
  {
    JoinOtherScheme(baseUrl, u);
  }

  /**
    A given host admits an absolute candidate whose host name equals the given
    host's part before any `:`, up to case: `API.Trusted.com` admits
    `https://api.trusted.com/v1`, and `cdn.trusted.net:8080` admits
    `http://cdn.trusted.net:8080/image.jpg`.
   */
  lemma GivenHostAdmits(u: string, baseUrl: string, allowedHosts: Option<set<string>>, g: string)
    requires StartsWith(u, "http://") || StartsWith(u, "https://")
    requires allowedHosts.Some? && g in allowedHosts.value && g != []
    requires var h := Hostname(SplitUrl(u, "").netloc); h != [] && Lower(h) == Lower(Before(g, ':'))
    ensures Admit(u, baseUrl, AllowedHosts(allowedHosts, baseUrl)) == Some(NormalizeUrl(u))
  {
    HostOnlyOfHostname(Hostname(SplitUrl(u, "").netloc));
    assert HostOnly(g) in AllowedHosts(allowedHosts, baseUrl);
  }

  /**
    The same for a URL written out: `http(s)://host[:port]` and a path or query
    is admitted when a given host, before its `:`, is `host` up to case; for
    example `cdn.trusted.net:8080` admits `http://cdn.trusted.net:8080/image.jpg`.
   */
  lemma GivenHostAdmitsUrl(scheme: string, host: string, port: string, tail: string, baseUrl: string,
                           allowedHosts: Option<set<string>>, g: string)
    requires scheme == "http" || scheme == "https"
    requires host != [] && '@' !in host && ':' !in host && '%' !in host
    requires '/' !in host && '?' !in host && '#' !in host
    requires port == [] || (port[0] == ':' && '@' !in port && '/' !in port && '?' !in port && '#' !in port)
    requires tail == [] || tail[0] == '/' || tail[0] == '?'
    requires allowedHosts.Some? && g in allowedHosts.value && Lower(Before(g, ':')) == Lower(host)
    ensures var u := scheme + "://" + (host + port) + tail;
      Admit(u, baseUrl, AllowedHosts(allowedHosts, baseUrl)) == Some(NormalizeUrl(u))
  {
    var netloc := host + port;
    var u := scheme + "://" + netloc + tail;
    HttpPrefixed(scheme, netloc, tail);
    SplitAuthorityPrefix(scheme, netloc, tail);
    HostnameOfHostPort(host, port);
    LowerIsLowered(host);
    GivenHostAdmits(u, baseUrl, allowedHosts, g);
  }

  /** An `http` or `https` URL written out starts with its prefix, and its scheme is a scheme name. */
  lemma HttpPrefixed(scheme: string, netloc: string, tail: string)
    requires scheme == "http" || scheme == "https"
    ensures var u := scheme + "://" + netloc + tail; StartsWith(u, "http://") || StartsWith(u, "https://")
    ensures IsSchemeName(scheme)
  {
    assert (scheme + "://" + netloc + tail)[..|scheme| + 3] == scheme + "://";
    assert forall k :: 0 <= k < |scheme| ==> scheme[k] in "hpst";
  }
}
