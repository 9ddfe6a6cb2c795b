/** `utils.py`: canonical form of a URL and the bare host of a `host[:port]`. */
module Utils {
  import opened Text
  import opened Urls

  /**
    `normalize_url`: strip surrounding whitespace, cut at the first `#` (the
    fragment, section 3.5 of RFC 3986) and, when the rest has an authority,
    lowercase the authority and rebuild the URL.
   */
  function NormalizeUrl(u: string): (r: string)
    ensures u == [] ==> r == []
    ensures u != [] ==> '#' !in r
  {
    if u == [] then u
    else
      var t := Before(Strip(u), '#');
      var p := SplitUrl(t, "");
      if p.netloc != [] then
        LowerKeepsNonLetter(p.netloc, '#');
        UnsplitNoHash(p.(netloc := Lower(p.netloc)));
        UnsplitUrl(p.(netloc := Lower(p.netloc)))
      else t
  }

  /** The URL `NormalizeUrl` reassembles when the trimmed, fragment-free text has an authority. */
  lemma LoweredSplitIsAuthoritySplit(t: string)
    requires '#' !in t && SplitUrl(t, "").netloc != []
    ensures var p := SplitUrl(t, ""); IsAuthoritySplit(p.(netloc := Lower(p.netloc)))
  {
    var p := SplitUrl(t, "");
    LowerKeepsNonLetter(p.netloc, '#');
    LowerKeepsNonLetter(p.netloc, '/');
    LowerKeepsNonLetter(p.netloc, '?');
  }

  /**
    With an authority, the normalized URL splits into the same scheme, path and
    query as the input, and its authority is the input's, lowercased.
   */
  lemma NormalizeLowersAuthority(u: string)
    requires u != []
    requires SplitUrl(Before(Strip(u), '#'), "").netloc != []
    ensures var p := SplitUrl(Before(Strip(u), '#'), "");
      SplitUrl(NormalizeUrl(u), "") == p.(netloc := Lower(p.netloc))
    ensures IsLowered(SplitUrl(NormalizeUrl(u), "").netloc)
  {
    var t := Before(Strip(u), '#');
    var p := SplitUrl(t, "");
    LoweredSplitIsAuthoritySplit(t);
    SplitUnsplit(p.(netloc := Lower(p.netloc)));
    LowerIsLowered(p.netloc);
  }

  /**
    Without an authority the result is the trimmed text up to its first `#`:
    a prefix of it, followed there by the `#` when one occurs.
   */
  lemma NormalizeWithoutAuthority(u: string)
    requires u != [] && SplitUrl(Before(Strip(u), '#'), "").netloc == []
    ensures NormalizeUrl(u) <= Strip(u)
    ensures '#' in Strip(u) ==> NormalizeUrl(u) + "#" <= Strip(u)
    ensures '#' !in Strip(u) ==> NormalizeUrl(u) == Strip(u)
  {
  }

  /**
    A fragment is cut off whatever it holds: a URL without `#` and without
    whitespace at its ends normalizes the same with any `#fragment` after it.
   */
  lemma NormalizeDropsFragment(x: string, f: string)
    requires x != [] && !IsSpace(x[0]) && !IsSpace(x[|x| - 1]) && '#' !in x
    ensures NormalizeUrl(x + "#" + f) == NormalizeUrl(x)
  {
    var s := x + "#" + f;
    StripUnchanged(x);
    StripThrough(s, |x|);
    var r := Strip(s);
    assert r[|x|] == s[|x|] == '#';
    assert forall k :: 0 <= k < |x| ==> r[k] == x[k];
    assert IndexOf(r, '#') == |x|;
    assert Before(Strip(s), '#') == x;
  }

  /** `strip()` keeps everything from a first character that is not whitespace up to one that is not either. */
  lemma StripThrough(s: string, n: nat)
    requires n < |s| && !IsSpace(s[0]) && !IsSpace(s[n])
    ensures n < |Strip(s)| && Strip(s)[..n + 1] == s[..n + 1]
  {
    SkipSpacesTo(s, 0, 0);
    assert StripLeft(s) == s;
  }

  /**
    Normalizing a normalized URL changes nothing, provided the first pass did not
    leave whitespace at an end (it can: whitespace in front of a `#` survives).
   */
  lemma NormalizeIdempotent(u: string)
    requires var r := NormalizeUrl(u); r == [] || (!IsSpace(r[0]) && !IsSpace(r[|r| - 1]))
    ensures NormalizeUrl(NormalizeUrl(u)) == NormalizeUrl(u)
  {
    var r := NormalizeUrl(u);
    if u != [] && r != [] {
      StripUnchanged(r);
      assert Before(Strip(r), '#') == r;
      if SplitUrl(Before(Strip(u), '#'), "").netloc != [] {
        RenormalizeAuthority(u);
      }
    }
  }

  lemma RenormalizeAuthority(u: string)
    requires u != [] && SplitUrl(Before(Strip(u), '#'), "").netloc != []
    requires Before(Strip(NormalizeUrl(u)), '#') == NormalizeUrl(u)
    ensures NormalizeUrl(NormalizeUrl(u)) == NormalizeUrl(u)
  {
    NormalizedAuthoritySplit(u);
    RenormalizeLowered(NormalizeUrl(u));
  }

  /** With an authority, the normalized URL has a lowercase authority and reassembles from its own parts. */
  lemma NormalizedAuthoritySplit(u: string)
    requires u != [] && SplitUrl(Before(Strip(u), '#'), "").netloc != []
    ensures var r := NormalizeUrl(u);
      r != [] && SplitUrl(r, "").netloc != [] && IsLowered(SplitUrl(r, "").netloc)
      && UnsplitUrl(SplitUrl(r, "")) == r
  {
    var r := NormalizeUrl(u);
    NormalizeLowersAuthority(u);
    NormalizeWithAuthority(u);
    assert UnsplitUrl(SplitUrl(r, "")) == r;
  }

  /** A clean URL whose authority is already lowercase and which reassembles from its own parts is left alone. */
  lemma RenormalizeLowered(r: string)
    requires r != [] && Before(Strip(r), '#') == r
    requires SplitUrl(r, "").netloc != [] && IsLowered(SplitUrl(r, "").netloc)
    requires UnsplitUrl(SplitUrl(r, "")) == r
    ensures NormalizeUrl(r) == r
  {
    var q := SplitUrl(r, "");
    NormalizeWithAuthority(r);
    LowerIsLowered(q.netloc);
    assert q.(netloc := Lower(q.netloc)) == q;
  }

  /** With an authority, the result is the split of the trimmed, fragment-free text, reassembled with the authority lowercased. */
  lemma NormalizeWithAuthority(u: string)
    requires u != [] && SplitUrl(Before(Strip(u), '#'), "").netloc != []
    ensures var p := SplitUrl(Before(Strip(u), '#'), "");
      NormalizeUrl(u) == UnsplitUrl(p.(netloc := Lower(p.netloc)))
  {
  }

  /** `host_only`: the lowercased text before the first `:`. */
  function HostOnly(host: string): (r: string)
    ensures ':' !in r && IsLowered(r)
    ensures |r| <= |host| && r == Lower(host[..|r|])
    ensures |r| == |host| || host[|r|] == ':'
  {
    if host == [] then []
    else
      LowerIsLowered(Before(host, ':'));
      LowerKeepsNonLetter(Before(host, ':'), ':');
      Lower(Before(host, ':'))
  }

  lemma HostOnlyIdempotent(host: string)
    ensures HostOnly(HostOnly(host)) == HostOnly(host)
  {
    var r := HostOnly(host);
    if r != [] {
      LowerIsLowered(r);
    }
  }

  lemma HostOnlyPortGeneral(a: string, b: string)
    requires a != [] && ':' !in a
    ensures HostOnly(a + ":" + b) == Lower(a)
  {
    var h := a + ":" + b;
    assert h[|a|] == ':';
    assert forall k :: 0 <= k < |a| ==> h[k] == a[k];
    assert h[..|a|] == a;
  }

  lemma HostOnlyStripsPort()
    ensures HostOnly("api.domain.net:8080") == "api.domain.net"
  {
    var a := "api.domain.net";
    assert ':' !in a;
    HostOnlyPortGeneral(a, "8080");
    assert a + ":" + "8080" == "api.domain.net:8080";
    ExampleHostLowered();
    LowerIsLowered(a);
  }

  lemma ExampleHostLowered()
    ensures IsLowered("api.domain.net")
  {
  }
}
