/**
 * The value helpers of package humm: making a link absolute, attaching and
 * stripping basic-auth credentials, internal/external host tests, and the
 * page-type classifier with its four fixed path patterns.
 */
module Humm {
  import opened Wrappers

  /** The credential part of a URL (Go's url.Userinfo): user name and optional password. */
  datatype Userinfo = Userinfo(username: string, password: Option<string>)

  /**
   * A parsed URL, reduced to the fields the core reads, writes or compares.
   * `opaquePart` (Go's Opaque) holds the part after the scheme of a URL such as
   * `mailto:a@x.com`; `user == None` stands for Go's nil `*url.Userinfo`.
   */
  datatype Url = Url(
    scheme: string,
    opaquePart: string,
    user: Option<Userinfo>,
    host: string,
    path: string,
    rawQuery: string,
    fragment: string)

  /** One probe result (LinkStats); the two timestamps are not modelled. */
  datatype LinkStats = LinkStats(url: Url, statusCode: int)

  /** SpiderSummary: status code to the records that returned it. */
  datatype SpiderSummary = SpiderSummary(results: map<int, seq<LinkStats>>)

  /** Fills an empty component of a link from the base; a non-empty one is copied unchanged. */
  function Fill(own: string, base: string): string
  {
    if own == "" then base else own
  }

  /**
   * MakeAbsolute: scheme, host and path are each taken from the base exactly
   * when the link's own is empty; every other field is the link's.
   */
  function MakeAbsolute(link: Url, base: Url): (r: Url)
    ensures r.scheme == Fill(link.scheme, base.scheme)
    ensures r.host == Fill(link.host, base.host)
    ensures r.path == Fill(link.path, base.path)
    ensures r.opaquePart == link.opaquePart && r.user == link.user
    ensures r.rawQuery == link.rawQuery && r.fragment == link.fragment
    ensures base.scheme != "" ==> r.scheme != ""
    ensures base.host != "" ==> r.host != ""
  {
    var withScheme := if link.scheme == "" then link.(scheme := base.scheme) else link;
    var withHost := if withScheme.host == "" then withScheme.(host := base.host) else withScheme;
    if withHost.path == "" then withHost.(path := base.path) else withHost
  }

  /** Making a link absolute a second time against the same base changes nothing. */
  lemma MakeAbsoluteIdempotent(link: Url, base: Url)
    ensures MakeAbsolute(MakeAbsolute(link, base), base) == MakeAbsolute(link, base)
  {
  }

  /** A URL made absolute against itself is itself. */
  lemma MakeAbsoluteSelf(u: Url)
    ensures MakeAbsolute(u, u) == u
  {
  }

  /** A link that already has scheme, host and path is left as it is, whatever the base. */
  lemma MakeAbsoluteKeepsAbsolute(link: Url, base: Url)
    requires link.scheme != "" && link.host != "" && link.path != ""
    ensures MakeAbsolute(link, base) == link
  {
  }

  /** AddBasicAuth: the link with the base's credentials, every other field unchanged. */
  function AddBasicAuth(link: Url, base: Url): (r: Url)
    ensures r.user == base.user
    ensures r.(user := link.user) == link
  {
    link.(user := base.user)
  }

  /** RemoveBasicAuth: the link without credentials, every other field unchanged. */
  function RemoveBasicAuth(link: Url): (r: Url)
    ensures r.user == None
    ensures r.(user := link.user) == link
  {
    link.(user := None)
  }

  lemma RemoveBasicAuthIdempotent(u: Url)
    ensures RemoveBasicAuth(RemoveBasicAuth(u)) == RemoveBasicAuth(u)
  {
  }

  /** Stripping after attaching leaves no credentials and undoes the attachment. */
  lemma RemoveAfterAdd(u: Url, base: Url)
    ensures RemoveBasicAuth(AddBasicAuth(u, base)).user == None
    ensures RemoveBasicAuth(AddBasicAuth(u, base)) == RemoveBasicAuth(u)
  {
  }

  /** IsInternal: the link's host is exactly the base's host. */
  predicate IsInternal(other: Url, base: Url)
  {
    other.host == base.host
  }

  /** IsExternal: the link's host differs from the base's host. */
  predicate IsExternal(other: Url, base: Url)
  {
    other.host != base.host
  }

  /** A link is external exactly when it is not internal. */
  lemma ExternalIsNotInternal(other: Url, base: Url)
    ensures IsExternal(other, base) <==> !IsInternal(other, base)
  {
  }

  /** Both tests look at the two hosts and at nothing else. */
  lemma InternalDependsOnlyOnHosts(u: Url, v: Url, b: Url, c: Url)
    requires u.host == v.host && b.host == c.host
    ensures IsInternal(u, b) <==> IsInternal(v, c)
    ensures IsExternal(u, b) <==> IsExternal(v, c)
  {
  }

  // ---------------------------------------------------------------------
  // Page types. The four regular expressions are written out as predicates.
  // ---------------------------------------------------------------------

  /** A character of the class [a-z0-9-]. */
  predicate IsSlugChar(c: char)
  {
    ('a' <= c <= 'z') || ('0' <= c <= '9') || c == '-'
  }

  /** A string matching [a-z0-9-]+ as a whole. */
  predicate IsSlug(s: string)
  {
    |s| > 0 && forall i :: 0 <= i < |s| ==> IsSlugChar(s[i])
  }

  /** A string matching [a-z0-9-]+/? as a whole. */
  predicate IsSlugOptSlash(s: string)
  {
    IsSlug(s) || (|s| > 1 && s[|s| - 1] == '/' && IsSlug(s[..|s| - 1]))
  }

  /** A regular expression of the classifier, anchored at both ends. */
  datatype Pattern =
    | Exactly(text: string)          // ^text$
    | PrefixThenSlug(prefix: string) // ^prefix[a-z0-9-]+/?$

  /**
   * `t.re.MatchString(path)` for the two shapes of pattern: `Exactly(t)` is
   * `^t$` and `PrefixThenSlug(p)` is `^p[a-z0-9-]+/?$`. Go's `$` without the
   * multi-line flag matches only at the end of the text, so the whole path
   * must be consumed.
   */
  predicate Matches(p: Pattern, path: string)
  {
    match p
    case Exactly(text) => path == text
    case PrefixThenSlug(prefix) =>
      |prefix| <= |path| && path[..|prefix|] == prefix && IsSlugOptSlash(path[|prefix|..])
  }

  /** One entry of the classifier's table: a pattern and the tag it gives. */
  datatype PageType = PageType(kind: string, re: Pattern)

  /** The table in priority order. */
  const AllTypes: seq<PageType> := [
    PageType("index", Exactly("/")),
    PageType("technology", PrefixThenSlug("/technology/")),
    PageType("project", PrefixThenSlug("/projects/")),
    PageType("static", PrefixThenSlug("/"))
  ]

  const Unknown: string := "unknown"

  /** The index of the first entry of `types` whose pattern matches `path`, if any. */
  function FirstMatch(types: seq<PageType>, path: string): (r: Option<nat>)
    ensures r.Some? ==> r.value < |types| && Matches(types[r.value].re, path)
    ensures r.Some? ==> forall j :: 0 <= j < r.value ==> !Matches(types[j].re, path)
    ensures r.None? ==> forall j :: 0 <= j < |types| ==> !Matches(types[j].re, path)
  {
    if |types| == 0 then None
    else if Matches(types[0].re, path) then Some(0)
    else match FirstMatch(types[1..], path)
      case None => None
      case Some(k) => Some(k + 1)
  }

  predicate IsIndexPath(path: string) { path == "/" }

  predicate IsTechnologyPath(path: string)
  {
    |path| >= 12 && path[..12] == "/technology/" && IsSlugOptSlash(path[12..])
  }

  predicate IsProjectPath(path: string)
  {
    |path| >= 10 && path[..10] == "/projects/" && IsSlugOptSlash(path[10..])
  }

  predicate IsStaticPath(path: string)
  {
    |path| >= 1 && path[0] == '/' && IsSlugOptSlash(path[1..])
  }

  /**
   * DeterminePageType: the tag of the first pattern that matches the path,
   * in the order index, technology, project, static; otherwise "unknown".
   */
  function DeterminePageType(u: Url): (r: string)
    ensures r in {"index", "technology", "project", "static", "unknown"}
  {
    match FirstMatch(AllTypes, u.path)
    case Some(i) => AllTypes[i].kind
    case None => Unknown
  }

  /** The tag returned is that of the first of the four patterns the path matches. */
  lemma PageTypeIsFirstMatch(u: Url)
    ensures DeterminePageType(u) == "index" <==> IsIndexPath(u.path)
    ensures DeterminePageType(u) == "technology" <==> !IsIndexPath(u.path) && IsTechnologyPath(u.path)
    ensures DeterminePageType(u) == "project" <==>
      !IsIndexPath(u.path) && !IsTechnologyPath(u.path) && IsProjectPath(u.path)
    ensures DeterminePageType(u) == "static" <==>
      !IsIndexPath(u.path) && !IsTechnologyPath(u.path) && !IsProjectPath(u.path) && IsStaticPath(u.path)
    ensures DeterminePageType(u) == "unknown" <==>
      !IsIndexPath(u.path) && !IsTechnologyPath(u.path) && !IsProjectPath(u.path) && !IsStaticPath(u.path)
  {
    assert Matches(AllTypes[0].re, u.path) <==> IsIndexPath(u.path);
    assert Matches(AllTypes[1].re, u.path) <==> IsTechnologyPath(u.path);
    assert Matches(AllTypes[2].re, u.path) <==> IsProjectPath(u.path);
    assert Matches(AllTypes[3].re, u.path) <==> IsStaticPath(u.path);
  }

  /** The tag depends on the path alone: credentials, host, query and fragment play no part. */
  lemma PageTypeDependsOnlyOnPath(u: Url, v: Url)
    requires u.path == v.path
    ensures DeterminePageType(u) == DeterminePageType(v)
  {
  }

  /** Stripping credentials before classifying does not change the tag. */
  lemma PageTypeIgnoresCredentials(u: Url)
    ensures DeterminePageType(RemoveBasicAuth(u)) == DeterminePageType(u)
  {
    PageTypeDependsOnlyOnPath(RemoveBasicAuth(u), u);
  }

  function PathOnly(path: string): Url
  {
    Url("", "", None, "", path, "", "")
  }

  lemma PageTypeOfRoot()
    ensures DeterminePageType(PathOnly("/")) == "index"
  {
  }

  lemma PageTypeOfTechnology()
    ensures DeterminePageType(PathOnly("/technology/rust-lang")) == "technology"
  {
    var p := "/technology/rust-lang";
    assert !Matches(AllTypes[0].re, p);
    assert Matches(AllTypes[1].re, p) by {
      assert p[..12] == "/technology/" && p[12..] == "rust-lang";
      assert IsSlug("rust-lang");
    }
  }

  lemma PageTypeOfProject()
    ensures DeterminePageType(PathOnly("/projects/my-app/")) == "project"
  {
    var p := "/projects/my-app/";
    assert !Matches(AllTypes[0].re, p);
    assert !Matches(AllTypes[1].re, p) by { assert p[..12][1] == 'p'; }
    assert Matches(AllTypes[2].re, p) by {
      assert p[..10] == "/projects/" && p[10..] == "my-app/";
      assert "my-app/"[..6] == "my-app" && IsSlug("my-app");
    }
  }

  lemma PageTypeOfAbout()
    ensures DeterminePageType(PathOnly("/about")) == "static"
  {
    var p := "/about";
    assert !Matches(AllTypes[0].re, p);
    assert !Matches(AllTypes[1].re, p);
    assert !Matches(AllTypes[2].re, p);
    assert Matches(AllTypes[3].re, p) by {
      assert p[..1] == "/" && p[1..] == "about" && IsSlug("about");
    }
  }

  lemma PageTypeOfDeepPath()
    ensures DeterminePageType(PathOnly("/a/b/c")) == "unknown"
  {
    var p := "/a/b/c";
    assert !Matches(AllTypes[0].re, p);
    assert !Matches(AllTypes[1].re, p);
    assert !Matches(AllTypes[2].re, p);
    assert !Matches(AllTypes[3].re, p) by {
      assert p[1..] == "a/b/c";
      assert !IsSlugChar("a/b/c"[1]);
      assert "a/b/c"[4] != '/';
    }
  }

  /** "/technology/" has no slug after the prefix, so it falls through to static. */
  lemma PageTypeOfBareTechnology()
    ensures DeterminePageType(PathOnly("/technology/")) == "static"
  {
    var p := "/technology/";
    assert IsSlug("technology");
    assert Matches(AllTypes[3].re, p) by {
      assert p[..1] == "/" && p[1..] == "technology/" && "technology/"[..10] == "technology";
    }
    assert !Matches(AllTypes[0].re, p);
    assert !Matches(AllTypes[1].re, p) by { assert p[12..] == ""; }
    assert !Matches(AllTypes[2].re, p) by {
      assert p[..10][1] == 't';
    }
  }
}
