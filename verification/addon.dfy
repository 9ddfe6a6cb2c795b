/**
  The two decisions of `addon.py` that are plain text logic: whether a host
  belongs to one of the target domains (`host_matches_any`) and whether a
  response's `Content-Type` is textual enough to be rewritten (the flag the
  response hook computes before rewriting).
 */
module Addon {
  import opened Text

  /** `sub in s`, searched from the front of `s`. */
  function IsSubstring(sub: string, s: string): (r: bool)
    ensures r <==> Contains(s, sub)
    decreases |s|
  {
    if StartsWith(s, sub) then
      assert OccursAt(s, sub, 0);
      true
    else if s == [] then false
    else
      ContainsTail(sub, s);
      IsSubstring(sub, s[1..])
  }

  /** Past a position where `sub` does not start, `sub` occurs in `s` exactly when it occurs in the rest. */
  lemma ContainsTail(sub: string, s: string)
    requires s != [] && !StartsWith(s, sub)
    ensures Contains(s, sub) <==> Contains(s[1..], sub)
  {
    if Contains(s[1..], sub) {
      var k :| 0 <= k <= |s[1..]| - |sub| && OccursAt(s[1..], sub, k);
      assert s[k + 1..k + 1 + |sub|] == s[1..][k..k + |sub|];
      assert OccursAt(s, sub, k + 1);
    }
    if Contains(s, sub) {
      var k :| 0 <= k <= |s| - |sub| && OccursAt(s, sub, k);
      assert k != 0;
      assert s[1..][k - 1..k - 1 + |sub|] == s[k..k + |sub|];
      assert OccursAt(s[1..], sub, k - 1);
    }
  }

  /** `any(d.lower() in h for d in domains)`, with `h` already lowercased. */
  function AnyContained(h: string, domains: seq<string>): (r: bool)
    ensures r <==> exists k :: 0 <= k < |domains| && Contains(h, Lower(domains[k]))
  {
    if domains == [] then false
    else
      var r := IsSubstring(Lower(domains[0]), h) || AnyContained(h, domains[1..]);
      assert forall k :: 1 <= k < |domains| ==> domains[k] == domains[1..][k - 1];
      r
  }

  /**
    `host_matches_any`: an empty host matches nothing; otherwise the host
    matches when some domain, lowercased, occurs anywhere in the lowercased host.
   */
  function HostMatchesAny(host: string, domains: seq<string>): (r: bool)
    ensures r <==> host != [] && exists k :: 0 <= k < |domains| && Contains(Lower(host), Lower(domains[k]))
  {
    if host == [] then false
    else AnyContained(Lower(host), domains)
  }

  /** An empty domain list matches no host. */
  lemma NoDomainsNoMatch(host: string)
    ensures !HostMatchesAny(host, [])
  {
  }

  /**
    The match is a substring test, not a suffix test: a domain matches a host
    that contains it anywhere, as in `example.com.attacker.net` for
    `example.com`, whatever the case of either.
   */
  lemma MatchesAnywhere(pre: string, d: string, post: string, domains: seq<string>)
    requires d in domains && pre + d + post != []
    ensures HostMatchesAny(pre + d + post, domains)
  {
    var k :| 0 <= k < |domains| && domains[k] == d;
    LowerAppend(pre, d);
    LowerAppend(pre + d, post);
    var h := Lower(pre + d + post);
    assert h == Lower(pre) + Lower(d) + Lower(post);
    assert h[|pre|..|pre| + |d|] == Lower(d);
    assert OccursAt(h, Lower(d), |pre|);
  }

  /** The host's case does not matter. */
  lemma MatchIgnoresHostCase(host: string, domains: seq<string>)
    ensures HostMatchesAny(Lower(host), domains) == HostMatchesAny(host, domains)
  {
    LowerIsLowered(Lower(host));
    LowerIsLowered(host);
  }

  /** An empty domain in the list matches every non-empty host. */
  lemma EmptyDomainMatchesAll(host: string, domains: seq<string>)
    requires [] in domains && host != []
    ensures HostMatchesAny(host, domains)
  {
    MatchesAnywhere(host, [], [], domains);
    assert host + [] + [] == host;
  }

  // ---------------------------------------------------------------------------
  // The text-type gate of the response hook
  // ---------------------------------------------------------------------------

  /** The content-type prefixes the response hook treats as text. */
  const TextTypePrefixes: seq<string> := ["text/", "application/json", "application/javascript",
    "application/x-javascript", "application/xml", "application/xhtml+xml"]

  /** The lowercased, trimmed content type starts with one of the textual prefixes. */
  predicate IsTextType(contentType: string)
  {
    exists k :: 0 <= k < |TextTypePrefixes| && StartsWith(Strip(Lower(contentType)), TextTypePrefixes[k])
  }

  /**
    The `is_text_type` flag of the response hook, computed by its `if`/`elif`
    chain over the lowercased, trimmed `Content-Type` header.
   */
  method ClassifyContentType(contentType: string) returns (isTextType: bool)
    ensures isTextType <==> IsTextType(contentType)
  {
    var ct := Strip(Lower(contentType));
    TextTypePrefixesAre();
    isTextType := false;
    if StartsWith(ct, "text/") {
      isTextType := true;
      TextTypeBy(contentType, 0);
    } else if StartsWith(ct, "application/json") {
      isTextType := true;
      TextTypeBy(contentType, 1);
    } else if StartsWith(ct, "application/javascript") || StartsWith(ct, "application/x-javascript") {
      isTextType := true;
      if StartsWith(ct, "application/javascript") {
        TextTypeBy(contentType, 2);
      } else {
        TextTypeBy(contentType, 3);
      }
    } else if StartsWith(ct, "text/javascript") {
      isTextType := true;
      TextJavascriptIsText(ct);
      assert false;
    } else if StartsWith(ct, "application/xml") || StartsWith(ct, "application/xhtml+xml") {
      isTextType := true;
      if StartsWith(ct, "application/xml") {
        TextTypeBy(contentType, 4);
      } else {
        TextTypeBy(contentType, 5);
      }
    } else {
      NotTextType(contentType);
    }
  }

  lemma TextTypePrefixesAre()
    ensures |TextTypePrefixes| == 6
    ensures TextTypePrefixes[0] == "text/" && TextTypePrefixes[1] == "application/json"
    ensures TextTypePrefixes[2] == "application/javascript" && TextTypePrefixes[3] == "application/x-javascript"
    ensures TextTypePrefixes[4] == "application/xml" && TextTypePrefixes[5] == "application/xhtml+xml"
  {
  }

  /** Every textual prefix starts with `t` or `a`. */
  lemma TextTypePrefixHead(k: nat)
    requires k < |TextTypePrefixes|
    ensures TextTypePrefixes[k] != [] && TextTypePrefixes[k][0] in "ta"
  {
    TextTypePrefixesAre();
  }

  /** One prefix of the list is enough. */
  lemma TextTypeBy(contentType: string, k: nat)
    requires k < |TextTypePrefixes| && StartsWith(Strip(Lower(contentType)), TextTypePrefixes[k])
    ensures IsTextType(contentType)
  {
  }

  /** A content type that starts with none of the prefixes of the chain is not textual. */
  lemma NotTextType(contentType: string)
    requires var ct := Strip(Lower(contentType));
      && !StartsWith(ct, "text/") && !StartsWith(ct, "application/json")
      && !StartsWith(ct, "application/javascript") && !StartsWith(ct, "application/x-javascript")
      && !StartsWith(ct, "application/xml") && !StartsWith(ct, "application/xhtml+xml")
    ensures !IsTextType(contentType)
  {
  }

  /** The `text/javascript` branch of the chain is already covered by `text/`. */
  lemma TextJavascriptIsText(ct: string)
    requires StartsWith(ct, "text/javascript")
    ensures StartsWith(ct, "text/")
  {
    assert ct[..5] == ct[..15][..5];
  }

  /** A content type whose trimmed, lowercased form starts with `image/` (such as `image/png`) is skipped. */
  lemma ImageIsNotText(contentType: string)
    requires StartsWith(Strip(Lower(contentType)), "image/")
    ensures !IsTextType(contentType)
  {
    var ct := Strip(Lower(contentType));
    StartsWithHead(ct, "image/");
    forall k | 0 <= k < |TextTypePrefixes|
      ensures !StartsWith(ct, TextTypePrefixes[k])
    {
      TextTypePrefixHead(k);
      if StartsWith(ct, TextTypePrefixes[k]) {
        StartsWithHead(ct, TextTypePrefixes[k]);
      }
    }
  }
}
