/**
  The part of Python's `urllib.parse` that the core calls: `urlsplit` (the
  generic syntax of section 3 of RFC 3986 split into scheme, authority, path,
  query and fragment), `urlunsplit`, the `hostname` attribute and `urljoin`
  (reference resolution, section 5.2 of RFC 3986, as Python implements it).
 */
module Urls {
  import opened Text

  datatype Parts = Parts(scheme: string, netloc: string, path: string, query: string, fragment: string)

  /** Schemes for which `urljoin` resolves at all (`uses_relative`). */
  const UsesRelative: set<string> := {"", "ftp", "http", "gopher", "nntp", "imap", "wais", "file",
    "https", "shttp", "mms", "prospero", "rtsp", "rtsps", "rtspu", "sftp", "svn", "svn+ssh", "ws", "wss"}

  /** Schemes that carry an authority (`uses_netloc`). */
  const UsesNetloc: set<string> := {"", "ftp", "http", "gopher", "nntp", "telnet", "imap", "wais",
    "file", "mms", "https", "shttp", "snews", "prospero", "rtsp", "rtsps", "rtspu", "rsync", "svn",
    "svn+ssh", "sftp", "nfs", "git", "git+ssh", "ws", "wss", "itms-services"}

  predicate IsSchemeChar(c: char)
  {
    IsAsciiAlpha(c) || '0' <= c <= '9' || c == '+' || c == '-' || c == '.'
  }

  predicate IsNetlocEnd(c: char) { c == '/' || c == '?' || c == '#' }

  /** The first index at or after `i` holding `/`, `?` or `#`, or `|s|`. */
  function NetlocEnd(s: string, i: nat): (r: nat)
    requires i <= |s|
    ensures i <= r <= |s|
    ensures forall k :: i <= k < r ==> !IsNetlocEnd(s[k])
    ensures r < |s| ==> IsNetlocEnd(s[r])
    decreases |s| - i
  {
    if i == |s| || IsNetlocEnd(s[i]) then i else NetlocEnd(s, i + 1)
  }

  /** A scheme as `urlsplit` returns it: a letter, then scheme characters, lowercased. */
  predicate IsSchemeName(s: string)
  {
    s != [] && IsAsciiAlpha(s[0]) && IsLowered(s) && forall k :: 0 <= k < |s| ==> IsSchemeChar(s[k])
  }

  /** Whether the text before the first `:` of `url` is a scheme. */
  predicate HasScheme(url: string)
  {
    var i := IndexOf(url, ':');
    0 < i < |url| && IsAsciiAlpha(url[0]) && forall k :: 0 <= k < i ==> IsSchemeChar(url[k])
  }

  /** The authority of `rest` and what follows it, when `rest` starts with `//`. */
  function SplitNetloc(rest: string): (r: (string, string))
    ensures '#' !in r.0 && '/' !in r.0 && '?' !in r.0
    ensures r.0 != [] ==> StartsWith(rest, "//")
    ensures StartsWith(rest, "//") ==> r.1 == [] || IsNetlocEnd(r.1[0])
    ensures StartsWith(rest, "//") ==> rest == "//" + r.0 + r.1
    ensures !StartsWith(rest, "//") ==> r == ("", rest)
  {
    if StartsWith(rest, "//") then
      var e := NetlocEnd(rest, 2);
      assert rest == rest[..2] + rest[2..e] + rest[e..];
      (rest[2..e], rest[e..])
    else ("", rest)
  }

  /** The path, query and fragment of what follows the authority. */
  function SplitPathQuery(s: string): (r: (string, string, string))
    ensures '#' !in r.0 && '#' !in r.1 && '?' !in r.0
    ensures '#' !in s ==> r.2 == []
    ensures '#' !in s && '?' !in s ==> r.0 == s && r.1 == []
    ensures '#' !in s && '?' in s ==> s == r.0 + "?" + r.1
    ensures s != [] && s[0] == '/' ==> r.0 != [] && r.0[0] == '/'
    ensures s != [] && (s[0] == '?' || s[0] == '#') ==> r.0 == []
  {
    var noFragment := Before(s, '#');
    var fragment := if '#' in s then After(s, '#') else "";
    var path := Before(noFragment, '?');
    var query := if '?' in noFragment then After(noFragment, '?') else "";
    assert '#' !in query by {
      if '?' in noFragment {
        assert After(noFragment, '?') == noFragment[IndexOf(noFragment, '?') + 1..];
      }
    }
    (path, query, fragment)
  }

  /** The scheme of `url` (or the default) and the text after its `:`. */
  function SplitScheme(url: string, defaultScheme: string): (r: (string, string))
    ensures HasScheme(url) ==> IsSchemeName(r.0)
    ensures !HasScheme(url) ==> r == (defaultScheme, url)
    ensures '#' !in url ==> '#' !in r.1
  {
    if HasScheme(url) then
      var i := IndexOf(url, ':');
      (Lower(url[..i]), url[i + 1..])
    else (defaultScheme, url)
  }

  /** `urlsplit(url, defaultScheme)`. */
  function SplitUrl(url: string, defaultScheme: string): (p: Parts)
    ensures '#' !in p.netloc && '#' !in p.path && '#' !in p.query
    ensures '/' !in p.netloc && '?' !in p.netloc && '?' !in p.path
    ensures '#' !in url ==> p.fragment == []
    ensures p.netloc != [] ==> p.path == [] || p.path[0] == '/'
    ensures '#' !in defaultScheme ==> '#' !in p.scheme
    ensures HasScheme(url) ==> IsSchemeName(p.scheme)
    ensures !HasScheme(url) ==> p.scheme == defaultScheme
  {
    var (scheme, rest) := SplitScheme(url, defaultScheme);
    var (netloc, afterNetloc) := SplitNetloc(rest);
    var (path, query, fragment) := SplitPathQuery(afterNetloc);
    Parts(scheme, netloc, path, query, fragment)
  }

  /**
    What `urlsplit` returns for a URL that has an authority and no `#`, with no
    default scheme.
   */
  predicate IsAuthoritySplit(p: Parts)
  {
    && (p.scheme == [] || IsSchemeName(p.scheme))
    && p.netloc != [] && p.fragment == []
    && '#' !in p.netloc && '/' !in p.netloc && '?' !in p.netloc
    && '#' !in p.path && '?' !in p.path && (p.path == [] || p.path[0] == '/')
    && '#' !in p.query
  }

  lemma UnsplitNoHash(p: Parts)
    requires '#' !in p.scheme && '#' !in p.netloc && '#' !in p.path && '#' !in p.query && p.fragment == []
    ensures '#' !in UnsplitUrl(p)
  {
  }

  /** The `?query` and `#fragment` suffixes `urlunsplit` appends. */
  function QuerySuffix(query: string): string { if query != [] then "?" + query else "" }

  function FragmentSuffix(fragment: string): string { if fragment != [] then "#" + fragment else "" }

  /** `urlunsplit(p)`, in the form Python 3.8 to 3.11 use. */
  function UnsplitUrl(p: Parts): string
  {
    var withNetloc :=
      if p.netloc != [] || (p.scheme != [] && p.scheme in UsesNetloc && !StartsWith(p.path, "//")) then
        "//" + p.netloc + (if p.path != [] && p.path[0] != '/' then "/" + p.path else p.path)
      else p.path;
    (if p.scheme != [] then p.scheme + ":" else "") + withNetloc + QuerySuffix(p.query) + FragmentSuffix(p.fragment)
  }

  /** Everything after the last `c` of `s` (`s.rpartition(c)[2]`). */
  function AfterLast(s: string, c: char): (r: string)
    ensures c !in r
    decreases |s|
  {
    if c in s then AfterLast(After(s, c), c) else s
  }

  /**
    The `hostname` attribute of a split URL with authority `netloc`: userinfo and
    port removed, lowercased up to an IPv6 zone `%`; `""` stands for `None`.
   */
  function Hostname(netloc: string): (h: string)
    ensures ':' !in h
  {
    var name := Before(AfterLast(netloc, '@'), ':');
    assert forall k :: 0 <= k < |Lower(Before(name, '%'))| ==> Lower(Before(name, '%'))[k] != ':';
    Lower(Before(name, '%')) + (if '%' in name then "%" + After(name, '%') else "")
  }

  /** A host with no userinfo, port or zone is its own host name, lowercased. */
  lemma HostnamePlain(host: string)
    requires '@' !in host && ':' !in host && '%' !in host
    ensures Hostname(host) == Lower(host)
  {
  }

  /** The userinfo before the last `@` is not part of the host name. */
  lemma HostnameDropsUserinfo(user: string, hostport: string)
    requires '@' !in hostport
    ensures Hostname(user + "@" + hostport) == Hostname(hostport)
  {
    AfterLastAppend(user, hostport);
  }

  /** The port after the first `:` of the host part is not part of the host name. */
  lemma HostnameDropsPort(host: string, port: string)
    requires '@' !in host && ':' !in host && '@' !in port
    ensures Hostname(host + ":" + port) == Hostname(host)
  {
    var hp := host + ":" + port;
    assert '@' !in hp;
    assert hp == host + (":" + port);
    IndexOfAppend(host, ":" + port, ':');
    assert Before(hp, ':') == host;
  }

  /** A host followed by nothing or by `:port` has the host, lowercased, as its host name. */
  lemma HostnameOfHostPort(host: string, port: string)
    requires '@' !in host && ':' !in host && '%' !in host
    requires port == [] || (port[0] == ':' && '@' !in port)
    ensures Hostname(host + port) == Lower(host)
  {
    HostnamePlain(host);
    if port == [] {
      assert host + port == host;
    } else {
      assert host + port == host + ":" + port[1..];
      HostnameDropsPort(host, port[1..]);
    }
  }

  lemma {:induction false} AfterLastAppend(user: string, rest: string)
    requires '@' !in rest
    ensures AfterLast(user + "@" + rest, '@') == rest
    decreases |user|
  {
    var s := user + "@" + rest;
    assert s == user + ("@" + rest);
    IndexOfAppend(user, "@" + rest, '@');
    if '@' in user {
      var tail := After(user, '@');
      assert user == Before(user, '@') + "@" + tail;
      assert After(s, '@') == tail + "@" + rest;
      AfterLastAppend(tail, rest);
    } else {
      assert After(s, '@') == rest;
    }
  }

  /** `s.split(c)`. */
  function SplitOn(s: string, c: char): (r: seq<string>)
    ensures |r| >= 1
    ensures forall k :: 0 <= k < |r| ==> c !in r[k]
    decreases |s|
  {
    if c in s then [Before(s, c)] + SplitOn(After(s, c), c) else [s]
  }

  /** `c.join(xs)`. */
  function JoinOn(xs: seq<string>, c: char): string
  {
    if |xs| == 0 then "" else if |xs| == 1 then xs[0] else xs[0] + [c] + JoinOn(xs[1..], c)
  }

  /** Joining the pieces of a split gives back the string. */
  lemma {:induction false} JoinSplit(s: string, c: char)
    ensures JoinOn(SplitOn(s, c), c) == s
    decreases |s|
  {
    if c in s {
      var rest := After(s, c);
      JoinSplit(rest, c);
      assert SplitOn(s, c)[1..] == SplitOn(rest, c);
    }
  }

  /** `filter(None, xs)`: the non-empty strings of `xs`. */
  function NonEmpty(xs: seq<string>): (r: seq<string>)
  {
    if xs == [] then [] else (if xs[0] == [] then [] else [xs[0]]) + NonEmpty(xs[1..])
  }

  /** The loop of `urljoin` that drops `.` segments and pops on `..`. */
  function RemoveDots(resolved: seq<string>, segments: seq<string>): seq<string>
    decreases |segments|
  {
    if segments == [] then resolved
    else if segments[0] == ".." then
      RemoveDots(if resolved == [] then [] else resolved[..|resolved| - 1], segments[1..])
    else if segments[0] == "." then RemoveDots(resolved, segments[1..])
    else RemoveDots(resolved + [segments[0]], segments[1..])
  }

  predicate IsDotSegment(s: string) { s == "." || s == ".." }

  lemma {:induction false} RemoveDotsPlain(resolved: seq<string>, segments: seq<string>)
    requires forall k :: 0 <= k < |segments| ==> !IsDotSegment(segments[k])
    ensures RemoveDots(resolved, segments) == resolved + segments
    decreases |segments|
  {
    if segments != [] {
      RemoveDotsPlain(resolved + [segments[0]], segments[1..]);
      assert resolved + [segments[0]] + segments[1..] == resolved + segments;
    }
  }

  /** The path `urljoin` builds for a reference with a non-empty path. */
  function MergePath(basePath: string, refPath: string): (r: string)
    requires refPath != []
    ensures r != []
  {
    var baseParts := SplitOn(basePath, '/');
    var baseDir := if baseParts[|baseParts| - 1] != [] then baseParts[..|baseParts| - 1] else baseParts;
    var segments :=
      if refPath[0] == '/' then SplitOn(refPath, '/')
      else
        var all := baseDir + SplitOn(refPath, '/');
        if |all| >= 2 then [all[0]] + NonEmpty(all[1..|all| - 1]) + [all[|all| - 1]] else all;
    var resolved := RemoveDots([], segments);
    var last := segments[|segments| - 1];
    var joined := JoinOn(if IsDotSegment(last) then resolved + [""] else resolved, '/');
    if joined == [] then "/" else joined
  }

  /** `urljoin(base, url)`. */
  function UrlJoin(base: string, url: string): string
  {
    if base == [] then url
    else if url == [] then base
    else
      var b := SplitUrl(base, "");
      Resolve(url, b, SplitUrl(url, b.scheme))
  }

  /** The decisions of `urljoin` once the base `b` and the reference `r` (spelled `url`) are split. */
  function Resolve(url: string, b: Parts, r: Parts): string
  {
    if r.scheme != b.scheme || r.scheme !in UsesRelative then url
    else if r.scheme in UsesNetloc && r.netloc != [] then UnsplitUrl(r)
    else
      var netloc := if r.scheme in UsesNetloc then b.netloc else r.netloc;
      if r.path == [] then
        UnsplitUrl(Parts(r.scheme, netloc, b.path, if r.query == [] then b.query else r.query, r.fragment))
      else
        UnsplitUrl(Parts(r.scheme, netloc, MergePath(b.path, r.path), r.query, r.fragment))
  }

  lemma IndexOfAppend(a: string, b: string, c: char)
    ensures c in a ==> IndexOf(a + b, c) == IndexOf(a, c)
    ensures c !in a ==> IndexOf(a + b, c) == |a| + IndexOf(b, c)
  {
    var i := IndexOf(a + b, c);
    if c in a {
      var j := IndexOf(a, c);
      assert (a + b)[j] == c;
    } else {
      var j := IndexOf(b, c);
      if j < |b| { assert (a + b)[|a| + j] == c; }
      forall k | |a| <= k < |a| + j ensures (a + b)[k] != c { assert (a + b)[k] == b[k - |a|]; }
    }
  }

  lemma SplitSchemeOfUnsplit(scheme: string, rest: string)
    requires scheme == [] || IsSchemeName(scheme)
    requires StartsWith(rest, "//")
    ensures SplitScheme((if scheme != [] then scheme + ":" else "") + rest, "") == (scheme, rest)
  {
    var url := (if scheme != [] then scheme + ":" else "") + rest;
    if scheme != [] {
      assert ':' !in scheme by {
        forall k | 0 <= k < |scheme| ensures scheme[k] != ':' { assert IsSchemeChar(scheme[k]); }
      }
      IndexOfAppend(scheme, ":" + rest, ':');
      assert url == scheme + (":" + rest);
      assert IndexOf(":" + rest, ':') == 0;
      assert url[..|scheme|] == scheme;
      assert url[|scheme| + 1..] == rest;
      assert IndexOf(url, ':') == |scheme|;
      assert url[0] == scheme[0];
      assert forall k :: 0 <= k < |scheme| ==> url[k] == scheme[k];
      assert HasScheme(url);
      LowerIsLowered(scheme);
    } else {
      assert url == rest && url[0] == rest[..2][0] == '/';
      assert !HasScheme(url);
    }
  }

  lemma SplitNetlocOfUnsplit(netloc: string, tail: string)
    requires '#' !in netloc && '/' !in netloc && '?' !in netloc
    requires tail == [] || tail[0] == '/' || tail[0] == '?'
    ensures SplitNetloc("//" + netloc + tail) == (netloc, tail)
  {
    var rest := "//" + netloc + tail;
    var e := NetlocEnd(rest, 2);
    assert forall k :: 2 <= k < 2 + |netloc| ==> rest[k] == netloc[k - 2];
    if tail != [] {
      assert rest[2 + |netloc|] == tail[0];
    }
    assert e == 2 + |netloc|;
    assert rest[2..e] == netloc && rest[e..] == tail;
  }

  lemma SplitPathQueryOfUnsplit(path: string, query: string)
    requires '#' !in path && '?' !in path && '#' !in query
    ensures SplitPathQuery(path + (if query != [] then "?" + query else "")) == (path, query, "")
  {
    if query == [] {
      assert path + "" == path;
    } else {
      var tail := path + ("?" + query);
      assert '?' in tail by { assert tail[|path|] == '?'; }
      assert '#' !in tail && tail == path + "?" + query;
      SplitPathQueryAt(path, query, tail);
    }
  }

  /** A path without `?`, a `?` and a query split back into that path and query. */
  lemma SplitPathQueryAt(path: string, query: string, tail: string)
    requires '?' !in path && '#' !in tail && '?' in tail && tail == path + "?" + query
    ensures SplitPathQuery(tail) == (path, query, "")
  {
    var r := SplitPathQuery(tail);
    SeparatorIsFirst(path, query, r.0, r.1, '?');
  }

  /** A URL written as `scheme://netloc` and a tail that starts a path or a query splits back into that scheme and authority. */
  lemma SplitAuthorityPrefix(scheme: string, netloc: string, tail: string)
    requires IsSchemeName(scheme) && '#' !in netloc && '/' !in netloc && '?' !in netloc
    requires tail == [] || tail[0] == '/' || tail[0] == '?'
    ensures var p := SplitUrl(scheme + "://" + netloc + tail, "");
      p.scheme == scheme && p.netloc == netloc
  {
    var rest := "//" + netloc + tail;
    assert scheme + "://" + netloc + tail == scheme + ":" + rest;
    SplitSchemeOfUnsplit(scheme, rest);
    SplitNetlocOfUnsplit(netloc, tail);
  }

  /** Two ways of writing a text around a separator that the first part never holds are the same way. */
  lemma SeparatorIsFirst(a: string, b: string, c: string, d: string, x: char)
    requires x !in a && x !in c && a + [x] + b == c + [x] + d
    ensures a == c && b == d
  {
    var s := a + [x] + b;
    if |a| < |c| {
      CharAround(a, b, x, c, |a|);
      assert false;
    } else if |c| < |a| {
      CharAround(c, d, x, a, |c|);
      assert false;
    }
    assert a == s[..|a|] && c == s[..|c|];
    assert b == s[|a| + 1..] && d == s[|c| + 1..];
  }

  /** The separator sits right after the first part; before it, the text holds the first part's characters. */
  lemma CharAround(a: string, b: string, x: char, c: string, k: nat)
    requires k == |a| && k < |c|
    ensures (a + [x] + b)[k] == x && (c + [x] + b)[k] == c[k] && c[k] in c
  {
  }

  /** Splitting what `urlunsplit` built from an authority split gives the same parts back. */
  lemma SplitUnsplit(p: Parts)
    requires IsAuthoritySplit(p)
    ensures SplitUrl(UnsplitUrl(p), "") == p
  {
    var tail := p.path + (if p.query != [] then "?" + p.query else "");
    var rest := "//" + p.netloc + tail;
    assert UnsplitUrl(p) == (if p.scheme != [] then p.scheme + ":" else "") + rest;
    SplitSchemeOfUnsplit(p.scheme, rest);
    SplitNetlocOfUnsplit(p.netloc, tail);
    SplitPathQueryOfUnsplit(p.path, p.query);
  }

  /**
    A `#` in `url` is followed by a non-empty fragment, and a `?` before it by a
    non-empty query: `urlunsplit` writes both back only when they are non-empty.
   */
  predicate IsPlainReference(url: string)
  {
    ('#' in url ==> After(url, '#') != [])
    && ('?' in Before(url, '#') ==> After(Before(url, '#'), '?') != [])
  }

  /** A plain reference is its path, then its query and fragment suffixes. */
  lemma PlainPathQuery(url: string)
    requires IsPlainReference(url)
    ensures var pq := SplitPathQuery(url); url == pq.0 + (QuerySuffix(pq.1) + FragmentSuffix(pq.2))
  {
    var nf := Before(url, '#');
    SeparatedPart(url, '#');
    SeparatedPart(nf, '?');
    var pq := SplitPathQuery(url);
    assert pq.0 == Before(nf, '?');
    SuffixesJoin(url, nf, pq.0, QuerySuffix(pq.1), FragmentSuffix(pq.2));
  }

  /** Text with a non-empty part after its first `c` is the part before, then `c` and that part. */
  lemma SeparatedPart(s: string, c: char)
    requires c in s ==> After(s, c) != []
    ensures s == Before(s, c) + (if c in s && After(s, c) != [] then [c] + After(s, c) else "")
  {
    if c in s {
      assert s == Before(s, c) + [c] + After(s, c);
    }
  }

  lemma SuffixesJoin(url: string, nf: string, path: string, q: string, f: string)
    requires nf == path + q && url == nf + f
    ensures url == path + (q + f)
  {
  }

  lemma UnsplitAuthority(scheme: string, netloc: string, url: string)
    requires scheme != [] && netloc != [] && url != [] && url[0] == '/' && IsPlainReference(url)
    ensures var pq := SplitPathQuery(url);
      UnsplitUrl(Parts(scheme, netloc, pq.0, pq.1, pq.2)) == scheme + "://" + netloc + url
  {
    var pq := SplitPathQuery(url);
    PlainPathQuery(url);
    UnsplitWithAuthority(scheme, netloc, pq.0, pq.1, pq.2);
    AuthorityPrefix(scheme, netloc, pq.0, QuerySuffix(pq.1), FragmentSuffix(pq.2), url);
  }

  /**
    A root-relative reference (`/x`, not `//x`) takes the scheme and authority of
    the base and keeps its own path, query and fragment (section 5.2.2 of RFC 3986),
    when its path has no dot segments.
   */
  lemma JoinRootRelative(base: string, url: string)
    requires url != [] && url[0] == '/' && !StartsWith(url, "//")
    requires var b := SplitUrl(base, "");
      b.scheme != [] && b.netloc != [] && b.scheme in UsesRelative && b.scheme in UsesNetloc
    requires HasNoDotSegments(SplitPathQuery(url).0)
    requires IsPlainReference(url)
    ensures var b := SplitUrl(base, ""); UrlJoin(base, url) == b.scheme + "://" + b.netloc + url
  {
    var b := SplitUrl(base, "");
    assert base != [];
    var pq := SplitPathQuery(url);
    SplitWithoutAuthority(url, b.scheme);
    var r := Parts(b.scheme, "", pq.0, pq.1, pq.2);
    MergeRootPath(b.path, r.path);
    UnsplitAuthority(b.scheme, b.netloc, url);
    assert Resolve(url, b, r) == UnsplitUrl(Parts(b.scheme, b.netloc, pq.0, pq.1, pq.2));
  }

  /**
    Every root-relative reference (`/x`, not `//x`), whatever its dot segments,
    query and fragment, joins to a URL with the base's scheme and authority.
   */
  lemma JoinRootRelativeAuthority(base: string, url: string)
    requires url != [] && url[0] == '/' && !StartsWith(url, "//")
    requires var b := SplitUrl(base, "");
      b.scheme != [] && b.netloc != [] && b.scheme in UsesRelative && b.scheme in UsesNetloc
    ensures var b := SplitUrl(base, ""); var j := SplitUrl(UrlJoin(base, url), "");
      j.scheme == b.scheme && j.netloc == b.netloc
  {
    var b := SplitUrl(base, "");
    assert base != [];
    var pq := SplitPathQuery(url);
    SplitWithoutAuthority(url, b.scheme);
    var path := MergePath(b.path, pq.0);
    assert UrlJoin(base, url) == UnsplitUrl(Parts(b.scheme, b.netloc, path, pq.1, pq.2));
    var tail := UnsplitAfterAuthority(b.scheme, b.netloc, path, pq.1, pq.2);
    assert IsSchemeName(b.scheme) by { assert HasScheme(base); }
    SplitAuthorityPrefix(b.scheme, b.netloc, tail);
  }

  /** `urlunsplit` with an authority and a non-empty path writes `scheme://netloc` and then a tail starting with `/`. */
  lemma UnsplitAfterAuthority(scheme: string, netloc: string, path: string, query: string, fragment: string)
    returns (tail: string)
    requires scheme != [] && netloc != [] && path != []
    ensures tail != [] && tail[0] == '/'
    ensures UnsplitUrl(Parts(scheme, netloc, path, query, fragment)) == scheme + "://" + netloc + tail
  {
    var rooted := if path[0] != '/' then "/" + path else path;
    var q, f := QuerySuffix(query), FragmentSuffix(fragment);
    tail := rooted + (q + f);
    assert UnsplitUrl(Parts(scheme, netloc, path, query, fragment)) == UnsplitUrl(Parts(scheme, netloc, rooted, query, fragment));
    UnsplitWithAuthority(scheme, netloc, rooted, query, fragment);
    AuthorityPrefix(scheme, netloc, rooted, q, f, tail);
  }

  predicate HasNoDotSegments(path: string)
  {
    forall k :: 0 <= k < |SplitOn(path, '/')| ==> !IsDotSegment(SplitOn(path, '/')[k])
  }

  lemma MergeRootPath(basePath: string, path: string)
    requires path != [] && path[0] == '/' && HasNoDotSegments(path)
    ensures MergePath(basePath, path) == path
  {
    var segments := SplitOn(path, '/');
    RemoveDotsPlain([], segments);
    assert RemoveDots([], segments) == segments;
    assert !IsDotSegment(segments[|segments| - 1]);
    JoinSplit(path, '/');
  }

  lemma SplitWithoutAuthority(url: string, d: string)
    requires url != [] && url[0] == '/' && !StartsWith(url, "//")
    ensures var pq := SplitPathQuery(url); SplitUrl(url, d) == Parts(d, "", pq.0, pq.1, pq.2)
  {
    assert !HasScheme(url);
    assert SplitNetloc(url) == ("", url);
  }

  /**
    A network-path reference (`//host/x`) takes only the scheme of the base
    (section 5.2.2 of RFC 3986).
   */
  lemma JoinNetworkPath(base: string, url: string)
    requires StartsWith(url, "//") && IsPlainReference(url)
    requires var b := SplitUrl(base, ""); b.scheme != [] && b.scheme in UsesRelative && b.scheme in UsesNetloc
    requires SplitNetloc(url).0 != []
    ensures UrlJoin(base, url) == SplitUrl(base, "").scheme + ":" + url
  {
    var b := SplitUrl(base, "");
    assert base != [];
    SplitNetworkPath(url, b.scheme);
    var r := SplitUrl(url, b.scheme);
    assert Resolve(url, b, r) == UnsplitUrl(r);
  }

  lemma SplitNetworkPath(url: string, d: string)
    requires d != [] && StartsWith(url, "//") && IsPlainReference(url) && SplitNetloc(url).0 != []
    ensures SplitUrl(url, d).scheme == d && SplitUrl(url, d).netloc != []
    ensures UnsplitUrl(SplitUrl(url, d)) == d + ":" + url
  {
    var (netloc, tail) := SplitNetloc(url);
    var pq := SplitPathQuery(tail);
    NetworkPathParts(url, d);
    PlainPathQuery(tail);
    UnsplitWithAuthority(d, netloc, pq.0, pq.1, pq.2);
    Regroup(d, netloc, tail, pq.0, QuerySuffix(pq.1) + FragmentSuffix(pq.2), url);
  }

  /** A reference starting with `//` takes the default scheme and splits into netloc, path, query and fragment. */
  lemma NetworkPathParts(url: string, d: string)
    requires StartsWith(url, "//") && IsPlainReference(url)
    ensures url == "//" + SplitNetloc(url).0 + SplitNetloc(url).1
    ensures IsPlainReference(SplitNetloc(url).1)
    ensures var path := SplitPathQuery(SplitNetloc(url).1).0; path == [] || path[0] == '/'
    ensures SplitUrl(url, d) == Parts(d, SplitNetloc(url).0, SplitPathQuery(SplitNetloc(url).1).0,
      SplitPathQuery(SplitNetloc(url).1).1, SplitPathQuery(SplitNetloc(url).1).2)
  {
    assert !HasScheme(url) by { assert url[0] == '/'; }
    assert SplitScheme(url, d) == (d, url);
    NetworkTail(url);
  }

  /** After the netloc of a plain `//` reference comes a plain path, query and fragment. */
  lemma NetworkTail(url: string)
    requires StartsWith(url, "//") && IsPlainReference(url)
    ensures IsPlainReference(SplitNetloc(url).1)
    ensures var path := SplitPathQuery(SplitNetloc(url).1).0; path == [] || path[0] == '/'
  {
    var (netloc, tail) := SplitNetloc(url);
    assert url == "//" + netloc + tail;
    PlainTail("//" + netloc, tail);
  }

  lemma Regroup(d: string, netloc: string, tail: string, path: string, q: string, url: string)
    requires url == "//" + netloc + tail && tail == path + q
    ensures d + ":" + "//" + netloc + path + q == d + ":" + url
  {
  }

  lemma UnsplitWithAuthority(scheme: string, netloc: string, path: string, query: string, fragment: string)
    requires scheme != [] && netloc != [] && (path == [] || path[0] == '/')
    ensures UnsplitUrl(Parts(scheme, netloc, path, query, fragment))
      == scheme + ":" + "//" + netloc + path + (QuerySuffix(query) + FragmentSuffix(fragment))
  {
    var q, f := QuerySuffix(query), FragmentSuffix(fragment);
    assert UnsplitUrl(Parts(scheme, netloc, path, query, fragment))
      == scheme + ":" + ("//" + netloc + path) + q + f;
  }

  lemma AuthorityPrefix(scheme: string, netloc: string, path: string, q: string, f: string, url: string)
    requires url == path + (q + f)
    ensures scheme + ":" + "//" + netloc + path + (q + f) == scheme + "://" + netloc + url
  {
  }

  /** Behind an authority that holds neither `#` nor `?`, the rest of a plain reference is plain. */
  lemma PlainTail(head: string, tail: string)
    requires '?' !in head && '#' !in head && IsPlainReference(head + tail)
    ensures IsPlainReference(tail)
  {
    SplitAfterHead(head, tail, '#');
    SplitAfterHead(head, Before(tail, '#'), '?');
  }

  /** A character that `head` lacks is found in `head + tail` where it is found in `tail`. */
  lemma SplitAfterHead(head: string, tail: string, c: char)
    requires c !in head
    ensures Before(head + tail, c) == head + Before(tail, c)
    ensures c in head + tail <==> c in tail
    ensures c in tail ==> After(head + tail, c) == After(tail, c)
  {
    IndexOfAppend(head, tail, c);
    assert c in head + tail <==> c in tail;
  }

  /**
    A reference whose scheme differs from the base's is returned as it is: `urljoin`
    does not resolve across schemes.
   */
  lemma JoinOtherScheme(base: string, url: string)
    requires base != [] && HasScheme(url)
    requires SplitUrl(url, "").scheme != SplitUrl(base, "").scheme
    ensures UrlJoin(base, url) == url
  {
  }
}
