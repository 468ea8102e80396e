/**
 * The link pipeline of the humm command: the basic-auth allow-list,
 * making every link absolute, splitting internal from external links,
 * order-preserving deduplication and the links limit.
 */
module MainLinks {
  import opened Wrappers
  import opened Humm

  /** The fixed hosts to which credentials may be attached. */
  const AllowedHosts: seq<string> := ["mystic.com", "staging.mystic.com"]

  /** containsHost: an early-return search of the allow-list. */
  method ContainsHost(host: string, allowedHosts: seq<string>) returns (found: bool)
    ensures found <==> host in allowedHosts
  {
    var i := 0;
    while i < |allowedHosts|
      invariant 0 <= i <= |allowedHosts|
      invariant host !in allowedHosts[..i]
    {
      if host == allowedHosts[i] {
        return true;
      }
      i := i + 1;
    }
    return false;
  }

  datatype AuthError = HostNotAllowed(host: string, allowed: seq<string>)

  /** The root URL to crawl from and whether basic auth is in use. */
  datatype AuthSetup = AuthSetup(root: Url, basicAuth: bool)

  /**
   * Basic-auth setup: with both a user and a password, credentials are put
   * on the root only if its host is allow-listed, and otherwise the run stops
   * with an error; without both, nothing changes.
   */
  method ConfigureBasicAuth(root: Url, user: string, pass: string) returns (r: Result<AuthSetup, AuthError>)
    ensures (user == "" || pass == "") ==> r == Success(AuthSetup(root, false))
    ensures user != "" && pass != "" && root.host !in AllowedHosts ==>
      r == Failure(HostNotAllowed(root.host, AllowedHosts))
    ensures user != "" && pass != "" && root.host in AllowedHosts ==>
      r == Success(AuthSetup(root.(user := Some(Userinfo(user, Some(pass)))), true))
    ensures r.Success? && r.value.basicAuth ==> r.value.root.host in AllowedHosts
    ensures r.Success? ==> r.value.root.(user := root.user) == root
  {
    if user != "" && pass != "" {
      var allowed := ContainsHost(root.host, AllowedHosts);
      if !allowed {
        return Failure(HostNotAllowed(root.host, AllowedHosts));
      }
      return Success(AuthSetup(root.(user := Some(Userinfo(user, Some(pass)))), true));
    }
    return Success(AuthSetup(root, false));
  }

  /**
   * The URL a probe task requests: the root's credentials go onto the link
   * only when basic auth is on and the link is internal.
   */
  function ProbeUrl(link: Url, root: Url, basicAuth: bool): (r: Url)
    ensures r.(user := link.user) == link
    ensures basicAuth && IsInternal(link, root) ==> r.user == root.user
    ensures !(basicAuth && IsInternal(link, root)) ==> r.user == link.user
  {
    if basicAuth && IsInternal(link, root) then AddBasicAuth(link, root) else link
  }

  /** Credentials that a probe carries and the link did not have belong to the root's own host. */
  lemma ProbeCredentialsStayOnRootHost(link: Url, root: Url, basicAuth: bool)
    ensures ProbeUrl(link, root, basicAuth).user != link.user ==>
      basicAuth && ProbeUrl(link, root, basicAuth).host == root.host
  {
  }

  /** makeLinksAbsolute: element by element MakeAbsolute against the root. */
  method MakeLinksAbsolute(links: seq<Url>, root: Url) returns (r: seq<Url>)
    ensures |r| == |links|
    ensures forall i :: 0 <= i < |links| ==> r[i] == MakeAbsolute(links[i], root)
    ensures root.scheme != "" && root.host != "" ==>
      forall i :: 0 <= i < |r| ==> r[i].scheme != "" && r[i].host != ""
  {
    r := [];
    for i := 0 to |links|
      invariant |r| == i
      invariant forall k :: 0 <= k < i ==> r[k] == MakeAbsolute(links[k], root)
    {
      r := r + [MakeAbsolute(links[i], root)];
    }
  }

  // ---------------------------------------------------------------------
  // Deduplication
  // ---------------------------------------------------------------------

  predicate NoDuplicates<T(==)>(s: seq<T>)
  {
    forall i, j :: 0 <= i < j < |s| ==> s[i] != s[j]
  }

  /** The links of `s` kept at their first occurrence, in order; the reference for makeLinksUniq. */
  function Uniq(s: seq<Url>): seq<Url>
  {
    if |s| == 0 then []
    else
      var u := Uniq(s[..|s| - 1]);
      if s[|s| - 1] in u then u else u + [s[|s| - 1]]
  }

  /** The position of the first occurrence of `x` in `s`. */
  function FirstIndex(s: seq<Url>, x: Url): (r: nat)
    requires x in s
    ensures r < |s| && s[r] == x && x !in s[..r]
  {
    if s[0] == x then 0 else assert s == [s[0]] + s[1..]; 1 + FirstIndex(s[1..], x)
  }

  /** Uniq has exactly the elements of its input. */
  lemma {:induction false} UniqMembers(s: seq<Url>)
    ensures forall x :: x in Uniq(s) <==> x in s
  {
    if |s| > 0 {
      UniqMembers(s[..|s| - 1]);
      assert s == s[..|s| - 1] + [s[|s| - 1]];
    }
  }

  lemma {:induction false} UniqNoDuplicates(s: seq<Url>)
    ensures NoDuplicates(Uniq(s))
  {
    if |s| > 0 {
      UniqNoDuplicates(s[..|s| - 1]);
    }
  }

  lemma {:induction false} UniqNoLonger(s: seq<Url>)
    ensures |Uniq(s)| <= |s|
  {
    if |s| > 0 {
      UniqNoLonger(s[..|s| - 1]);
    }
  }

  /** A duplicate-free list is its own deduplication. */
  lemma {:induction false} UniqOfDistinct(s: seq<Url>)
    requires NoDuplicates(s)
    ensures Uniq(s) == s
  {
    if |s| > 0 {
      var init := s[..|s| - 1];
      UniqOfDistinct(init);
      UniqMembers(init);
      assert s == init + [s[|s| - 1]];
    }
  }

  lemma UniqIdempotent(s: seq<Url>)
    ensures Uniq(Uniq(s)) == Uniq(s)
  {
    UniqNoDuplicates(s);
    UniqOfDistinct(Uniq(s));
  }

  lemma {:induction false} FirstIndexOfExtension(s: seq<Url>, x: Url, y: Url)
    requires y in s
    ensures FirstIndex(s + [x], y) == FirstIndex(s, y)
  {
    if s[0] != y {
      assert (s + [x])[1..] == s[1..] + [x];
      FirstIndexOfExtension(s[1..], x, y);
    }
  }

  /** Uniq lists the distinct links in the order of their first occurrence. */
  lemma {:induction false} UniqFirstOccurrenceOrder(s: seq<Url>)
    ensures forall x :: x in Uniq(s) ==> x in s
    ensures forall i, j :: 0 <= i < j < |Uniq(s)| ==>
      FirstIndex(s, Uniq(s)[i]) < FirstIndex(s, Uniq(s)[j])
  {
    UniqMembers(s);
    if |s| > 0 {
      var init, last := s[..|s| - 1], s[|s| - 1];
      assert s == init + [last];
      UniqFirstOccurrenceOrder(init);
      UniqMembers(init);
      var u, u' := Uniq(s), Uniq(init);
      forall y | y in u'
        ensures FirstIndex(s, y) == FirstIndex(init, y)
      {
        FirstIndexOfExtension(init, last, y);
      }
      if last !in u' {
        assert last !in init;
        assert FirstIndex(s, last) == |init|;
      }
    }
  }

  /** makeLinksUniq: the nested search with a `found` flag. */
  method MakeLinksUniq(links: seq<Url>) returns (filtered: seq<Url>)
    ensures filtered == Uniq(links)
    ensures NoDuplicates(filtered)
    ensures forall x :: x in filtered <==> x in links
    ensures |filtered| <= |links|
  {
    filtered := [];
    for i := 0 to |links|
      invariant filtered == Uniq(links[..i])
    {
      var link := links[i];
      var found := false;
      for j := 0 to |filtered|
        invariant !found && link !in filtered[..j]
      {
        if filtered[j] == link {
          found := true;
          break;
        }
      }
      assert found <==> link in filtered;
      if !found {
        filtered := filtered + [link];
      }
      assert links[..i + 1][..i] == links[..i];
    }
    assert links[..|links|] == links;
    UniqNoDuplicates(links);
    UniqMembers(links);
    UniqNoLonger(links);
  }

  // ---------------------------------------------------------------------
  // Internal / external split
  // ---------------------------------------------------------------------

  /** The internal links of `links`, in order, duplicates kept. */
  function InternalLinks(links: seq<Url>, root: Url): seq<Url>
  {
    if |links| == 0 then []
    else
      var rest := InternalLinks(links[..|links| - 1], root);
      if IsInternal(links[|links| - 1], root) then rest + [links[|links| - 1]] else rest
  }

  /** The external links of `links`, in order, duplicates kept. */
  function ExternalLinks(links: seq<Url>, root: Url): seq<Url>
  {
    if |links| == 0 then []
    else
      var rest := ExternalLinks(links[..|links| - 1], root);
      if IsExternal(links[|links| - 1], root) then rest + [links[|links| - 1]] else rest
  }

  /** Every link lands on exactly one side, according to its host. */
  lemma {:induction false} SplitMembers(links: seq<Url>, root: Url)
    ensures forall x :: x in InternalLinks(links, root) <==> x in links && x.host == root.host
    ensures forall x :: x in ExternalLinks(links, root) <==> x in links && x.host != root.host
  {
    if |links| > 0 {
      SplitMembers(links[..|links| - 1], root);
      assert links == links[..|links| - 1] + [links[|links| - 1]];
    }
  }

  /**
   * splitInternalExternalLinks: partition by host, then deduplicate each side.
   * The sides are host-correct, disjoint, duplicate-free and together hold
   * every input link.
   */
  method SplitInternalExternalLinks(links: seq<Url>, root: Url) returns (internal: seq<Url>, external: seq<Url>)
    ensures internal == Uniq(InternalLinks(links, root))
    ensures external == Uniq(ExternalLinks(links, root))
    ensures forall x :: x in internal ==> x.host == root.host
    ensures forall x :: x in external ==> x.host != root.host
    ensures forall x :: !(x in internal && x in external)
    ensures forall x :: x in links <==> x in internal || x in external
    ensures NoDuplicates(internal) && NoDuplicates(external)
  {
    var linksInternal, linksExternal := [], [];
    for i := 0 to |links|
      invariant linksInternal == InternalLinks(links[..i], root)
      invariant linksExternal == ExternalLinks(links[..i], root)
    {
      assert links[..i + 1][..i] == links[..i];
      if IsInternal(links[i], root) {
        linksInternal := linksInternal + [links[i]];
      } else {
        linksExternal := linksExternal + [links[i]];
      }
    }
    assert links[..|links|] == links;
    internal := MakeLinksUniq(linksInternal);
    external := MakeLinksUniq(linksExternal);
    SplitMembers(links, root);
  }

  // ---------------------------------------------------------------------
  // Links limit
  // ---------------------------------------------------------------------

  /**
   * The truncation as written: a non-zero limit below the count slices the
   * list, and a negative limit always does, which is a slice-bounds panic
   * in Go (None here).
   */
  function TruncateAsWritten(links: seq<Url>, limit: int): (r: Option<seq<Url>>)
    ensures r.None? <==> limit < 0
    ensures r.Some? && limit != 0 && |links| > limit ==> r.value == links[..limit]
    ensures r.Some? && (limit == 0 || |links| <= limit) ==> r.value == links
  {
    if limit != 0 && |links| > limit then
      if limit < 0 then None else Some(links[..limit])
    else Some(links)
  }

  /** The panic: "-l -1" with any list of links, even an empty one. */
  lemma NegativeLimitPanics(links: seq<Url>)
    ensures TruncateAsWritten(links, -1) == None
  {
  }

  /**
   * The truncation as intended: a positive limit below the count keeps that
   * many leading links; any other limit (0 or negative) keeps all.
   */
  function TruncateLinks(links: seq<Url>, limit: int): (r: seq<Url>)
    ensures 0 < limit < |links| ==> r == links[..limit]
    ensures !(0 < limit < |links|) ==> r == links
    ensures |r| <= |links| && r == links[..|r|]
  {
    if limit > 0 && |links| > limit then links[..limit] else links
  }

  /** Where the written code does not panic, the intended one agrees with it. */
  lemma TruncateAgreesWhenDefined(links: seq<Url>, limit: int)
    requires limit >= 0
    ensures TruncateAsWritten(links, limit) == Some(TruncateLinks(links, limit))
  {
  }

  /**
   * The link stage of the command: absolutise, split (deduplicating), then
   * limit the internal links that will be probed. The limit applied is the
   * corrected TruncateLinks, so a negative limit keeps every link where the
   * command as written panics (TruncateAsWritten).
   */
  method PrepareLinks(linksAll: seq<Url>, root: Url, limit: int) returns (internal: seq<Url>, external: seq<Url>)
    ensures var abs := seq(|linksAll|, i requires 0 <= i < |linksAll| => MakeAbsolute(linksAll[i], root));
      && internal == TruncateLinks(Uniq(InternalLinks(abs, root)), limit)
      && external == Uniq(ExternalLinks(abs, root))
    ensures NoDuplicates(internal) && NoDuplicates(external)
    ensures forall x :: x in internal ==> x.host == root.host
    ensures forall x :: x in external ==> x.host != root.host
  {
    var abs := MakeLinksAbsolute(linksAll, root);
    assert abs == seq(|linksAll|, i requires 0 <= i < |linksAll| => MakeAbsolute(linksAll[i], root));
    internal, external := SplitInternalExternalLinks(abs, root);
    internal := TruncateLinks(internal, limit);
  }

  /**
   * An internal link given twice followed by an external one splits into
   * that internal link once and the external one.
   */
  lemma SplitOfRepeatedLink(x: Url, y: Url, root: Url)
    requires x.host == root.host && y.host != root.host
    ensures Uniq(InternalLinks([x, x, y], root)) == [x] && Uniq(ExternalLinks([x, x, y], root)) == [y]
  {
    var a1, a2 := [x], [x, x];
    assert a1[..0] == [] && a2[..1] == a1 && [x, x, y][..2] == a2;
    assert InternalLinks(a1, root) == a1 && ExternalLinks(a1, root) == [];
    assert InternalLinks(a2, root) == a2 && ExternalLinks(a2, root) == [];
    assert InternalLinks([x, x, y], root) == a2;
    assert ExternalLinks([x, x, y], root) == [y];
    assert Uniq(a1) == a1;
    assert Uniq(a2) == a1;
    assert [y][..0] == [];
  }

  /**
   * A worked case: root https://example.com/ and the hrefs "/about",
   * "https://example.com/about" and "https://other.com/x".
   */
  lemma ExampleComScenario()
    ensures var root := Url("https", "", None, "example.com", "/", "", "");
      var about := Url("https", "", None, "example.com", "/about", "", "");
      var other := Url("https", "", None, "other.com", "/x", "", "");
      var hrefs := [Url("", "", None, "", "/about", "", ""), about, other];
      var abs := seq(3, i requires 0 <= i < 3 => MakeAbsolute(hrefs[i], root));
      Uniq(InternalLinks(abs, root)) == [about] && Uniq(ExternalLinks(abs, root)) == [other]
  {
    var root := Url("https", "", None, "example.com", "/", "", "");
    var about := Url("https", "", None, "example.com", "/about", "", "");
    var other := Url("https", "", None, "other.com", "/x", "", "");
    var hrefs := [Url("", "", None, "", "/about", "", ""), about, other];
    var abs := seq(3, i requires 0 <= i < 3 => MakeAbsolute(hrefs[i], root));
    assert abs == [about, about, other];
    assert about.host == root.host && other.host != root.host;
    SplitOfRepeatedLink(about, other, root);
  }

  /**
   * Two mailto links differ only in their opaque part. Made absolute against
   * https://example.com/ both get that host and path, so both are internal,
   * and both are kept by the deduplication.
   */
  lemma MailtoLinksStayDistinct()
    ensures var root := Url("https", "", None, "example.com", "/", "", "");
      var a := MakeAbsolute(Url("mailto", "a@x.com", None, "", "", "", ""), root);
      var b := MakeAbsolute(Url("mailto", "b@x.com", None, "", "", "", ""), root);
      IsInternal(a, root) && IsInternal(b, root) && Uniq([a, b]) == [a, b]
  {
    var root := Url("https", "", None, "example.com", "/", "", "");
    var a := MakeAbsolute(Url("mailto", "a@x.com", None, "", "", "", ""), root);
    var b := MakeAbsolute(Url("mailto", "b@x.com", None, "", "", "", ""), root);
    assert a.opaquePart[0] != b.opaquePart[0];
    UniqOfDistinct([a, b]);
  }
}
