/** Hosted static sites: the public address of a file, and which site serves a request. */
module StaticHosting {
  import opened PercentEncoding
  import opened Utf8
  import opened Wrappers

  datatype Site = Site(key: Bytes, name: Bytes, urlPath: Bytes, enabled: bool)

  /** The bytes of an ASCII literal. */
  function Ascii(s: string): Bytes
    requires forall i :: 0 <= i < |s| ==> s[i] < 128 as char
  {
    seq(|s|, i requires 0 <= i < |s| => s[i] as int)
  }

  const ROOT: Bytes := [SLASH]

  const RESERVED_PUBLIC_PREFIXES: seq<Bytes> :=
    [Ascii("/api"), Ascii("/admin"), Ascii("/login"), Ascii("/public"), Ascii("/api-docs"), Ascii("/swagger-ui"),
     Ascii("/static")]

  // -------------------------------------------------------------- addresses

  function PublicFileUrl(site: Site, relative: Bytes): Bytes {
    if relative == [] then site.urlPath
    else if site.urlPath == ROOT then [SLASH] + EncodePath(relative)
    else site.urlPath + [SLASH] + EncodePath(relative)
  }

  /** Where a file of the site is, unencoded. */
  function Location(site: Site, relative: Bytes): Bytes {
    if relative == [] then site.urlPath
    else if site.urlPath == ROOT then [SLASH] + relative
    else site.urlPath + [SLASH] + relative
  }

  lemma LocationValid(site: Site, relative: Bytes)
    requires Valid(site.urlPath) && Valid(relative)
    ensures Valid(Location(site, relative))
  {
    assert Valid([SLASH]);
    ConcatValid([SLASH], relative);
    ConcatValid(site.urlPath, [SLASH]);
    ConcatValid(site.urlPath + [SLASH], relative);
  }

  /** The address of a file decodes to its location exactly when the site's own path has no percent sign. */
  lemma UrlDecodes(site: Site, relative: Bytes)
    requires Valid(site.urlPath) && Valid(relative)
    ensures DecodePath(PublicFileUrl(site, relative)) == Ok(Location(site, relative)) <==> PERCENT !in site.urlPath
  {
    if PERCENT in site.urlPath {
      PercentShortens(site, relative);
    } else {
      PlainUrlDecodes(site, relative);
    }
  }

  /** With a percent sign in the site's path, what the address decodes to is shorter than the location. */
  lemma PercentShortens(site: Site, relative: Bytes)
    requires PERCENT in site.urlPath
    ensures
      var url := PublicFileUrl(site, relative);
      DecodePath(url).Ok? ==> |DecodePath(url).value| < |Location(site, relative)|
  {
    var url, base := PublicFileUrl(site, relative), Decoded(site.urlPath);
    if base.Some? { DecodedIsShorter(site.urlPath); }
    hide Decoded, EncodePath;
    if relative != [] {
      DecodedAtSlash(site.urlPath, EncodePath(relative));
      DecodeEncodedPath(relative);
    }
  }

  lemma PlainUrlDecodes(site: Site, relative: Bytes)
    requires PERCENT !in site.urlPath && Valid(site.urlPath) && Valid(relative)
    ensures DecodePath(PublicFileUrl(site, relative)) == Ok(Location(site, relative))
  {
    LocationValid(site, relative);
    hide Valid, EncodePath, Decoded;
    DecodeEncodedPath(relative);
    if relative == [] {
      DecodePlain(site.urlPath, []);
      assert site.urlPath + [] == site.urlPath;
      assert Decoded([]) == Some([]) by { DecodeEncodedPath([]); EmptyPath(); }
    } else if site.urlPath == ROOT {
      DecodePlain([SLASH], EncodePath(relative));
    } else {
      DecodePlain(site.urlPath + [SLASH], EncodePath(relative));
    }
  }

  lemma EmptyPath()
    ensures EncodePath([]) == []
  {
  }

  // --------------------------------------------------------------- matching

  function TrimSlashes(s: Bytes): Bytes {
    if s != [] && s[0] == SLASH then TrimSlashes(s[1..]) else s
  }

  function MatchedRelativePath(prefix: Bytes, request: Bytes): Option<Bytes> {
    if prefix == ROOT then Some(TrimSlashes(request))
    else if request == prefix then Some([])
    else if !(prefix <= request) then None
    else
      var remaining := request[|prefix|..];
      if remaining != [] && remaining[0] == SLASH then Some(remaining[1..]) else None
  }

  /** The site at `prefix` holds the request: they agree up to the end of a segment. */
  predicate Holds(prefix: Bytes, request: Bytes) {
    prefix == ROOT || request == prefix || prefix + [SLASH] <= request
  }

  /** A site matches exactly the requests it holds. */
  lemma MatchesWhatItHolds(prefix: Bytes, request: Bytes)
    ensures MatchedRelativePath(prefix, request).Some? <==> Holds(prefix, request)
  {
    if prefix + [SLASH] <= request {
      assert request[|prefix|] == (prefix + [SLASH])[|prefix|];
      assert prefix <= request by { assert request[..|prefix|] == (prefix + [SLASH])[..|prefix|]; }
    }
  }

  /** A site finds a file under its location by exactly its path, unless the root site's path starts with a slash. */
  lemma LocationMatches(site: Site, relative: Bytes)
    ensures
      MatchedRelativePath(site.urlPath, Location(site, relative)) == Some(relative)
      <==> site.urlPath != ROOT || relative == [] || relative[0] != SLASH
  {
    var location := Location(site, relative);
    if site.urlPath == ROOT {
      TrimmedHasNoSlash(relative);
      assert relative != [] ==> location[1..] == relative;
      assert relative == [] ==> location[1..] == [];
    } else if relative != [] {
      assert location[..|site.urlPath|] == site.urlPath;
      assert location[|site.urlPath|..] == [SLASH] + relative;
    }
  }

  lemma {:induction false} TrimmedHasNoSlash(s: Bytes)
    ensures |TrimSlashes(s)| <= |s|
    ensures TrimSlashes(s) == s <==> s == [] || s[0] != SLASH
    ensures TrimSlashes(s) == [] || TrimSlashes(s)[0] != SLASH
    ensures
      var n := |s| - |TrimSlashes(s)|;
      s[n..] == TrimSlashes(s) && forall i :: 0 <= i < n ==> s[i] == SLASH
    decreases |s|
  {
    if s != [] && s[0] == SLASH {
      TrimmedHasNoSlash(s[1..]);
      forall i | 0 < i < |s| - |TrimSlashes(s)| ensures s[i] == SLASH { assert s[1..][i - 1] == SLASH; }
    }
  }

  /**
   The path within a site is what follows the site's path and one slash; within the
   root site it is the request without all the slashes in front.
   */
  lemma RelativeIsTheRest(prefix: Bytes, request: Bytes, relative: Bytes)
    ensures prefix != [47] ==>
              (MatchedRelativePath(prefix, request) == Some(relative)
               <==> (request == prefix && relative == []) || request == prefix + [47] + relative)
    ensures prefix == [47] ==>
              (MatchedRelativePath(prefix, request) == Some(relative)
               <==> && |relative| <= |request| && request[|request| - |relative|..] == relative
                    && (forall i :: 0 <= i < |request| - |relative| ==> request[i] == 47)
                    && (relative == [] || relative[0] != 47))
  {
    TrimmedHasNoSlash(request);
    if prefix == [47] {
      var trimmed := TrimSlashes(request);
      if |relative| < |trimmed| { assert request[|request| - |trimmed|] == trimmed[0]; }
    } else if request == prefix + [47] + relative {
      assert request[..|prefix|] == prefix && request[|prefix|..] == [47] + relative;
    }
  }

  datatype Match = Match(site: Site, relative: Bytes)

  /** The last of the enabled matching sites with the longest path. */
  function MatchSite(sites: seq<Site>, request: Bytes): Option<Match> {
    if sites == [] then None
    else
      var before, last := MatchSite(sites[..|sites| - 1], request), sites[|sites| - 1];
      var relative := MatchedRelativePath(last.urlPath, request);
      if !last.enabled || relative.None? then before
      else if before.Some? && |before.value.site.urlPath| > |last.urlPath| then before
      else Some(Match(last, relative.value))
  }

  predicate Serves(site: Site, request: Bytes) {
    site.enabled && Holds(site.urlPath, request)
  }

  /** A site serves the request if one can, and none that can has a longer path. */
  lemma {:induction false} MatchIsLongest(sites: seq<Site>, request: Bytes)
    ensures
      match MatchSite(sites, request)
      case None => forall site :: site in sites ==> !Serves(site, request)
      case Some(m) =>
        && m.site in sites && Serves(m.site, request)
        && MatchedRelativePath(m.site.urlPath, request) == Some(m.relative)
        && forall site :: site in sites && Serves(site, request) ==> |site.urlPath| <= |m.site.urlPath|
    decreases |sites|
  {
    if sites != [] {
      var before, last := sites[..|sites| - 1], sites[|sites| - 1];
      MatchIsLongest(before, request);
      MatchesWhatItHolds(last.urlPath, request);
      assert sites == before + [last];
    }
  }

  /** What `normalize_sites` guarantees of the configured sites. */
  ghost predicate Configured(sites: seq<Site>) {
    && (forall i, j :: 0 <= i < j < |sites| ==> sites[i].urlPath != sites[j].urlPath)
    && (forall site :: site in sites ==> ROOT <= site.urlPath)
  }

  lemma SamePath(sites: seq<Site>, a: Site, b: Site)
    requires Configured(sites) && a in sites && b in sites && a.urlPath == b.urlPath
    ensures a == b
  {
    var i :| 0 <= i < |sites| && sites[i] == a;
    var j :| 0 <= j < |sites| && sites[j] == b;
  }

  lemma SameLength(a: Bytes, b: Bytes, request: Bytes)
    requires ROOT <= a && ROOT <= b && |a| == |b| && Holds(a, request) && Holds(b, request)
    ensures a == b
  {
    if a != ROOT && b != ROOT {
      assert a == request[..|a|] by { HeldStarts(a, request); }
      assert b == request[..|b|] by { HeldStarts(b, request); }
    }
  }

  lemma HeldStarts(prefix: Bytes, request: Bytes)
    requires prefix != ROOT && Holds(prefix, request)
    ensures prefix <= request
  {
    if prefix + [SLASH] <= request {
      assert request[..|prefix|] == (prefix + [SLASH])[..|prefix|];
    }
  }

  /** The longest serving site is unique: whichever site serves at that length is the match. */
  lemma MatchIsUnique(sites: seq<Site>, request: Bytes, site: Site)
    requires Configured(sites) && site in sites && Serves(site, request)
    requires forall other :: other in sites && Serves(other, request) ==> |other.urlPath| <= |site.urlPath|
    ensures MatchSite(sites, request).Some? && MatchSite(sites, request).value.site == site
  {
    MatchIsLongest(sites, request);
    var found := MatchSite(sites, request).value.site;
    SameLength(found.urlPath, site.urlPath, request);
    SamePath(sites, found, site);
  }

  /** The order in which the sites are listed does not matter. */
  lemma OrderDoesNotMatter(sites: seq<Site>, others: seq<Site>, request: Bytes)
    requires Configured(sites) && multiset(sites) == multiset(others)
    ensures MatchSite(others, request) == MatchSite(sites, request)
  {
    assert forall site :: site in sites <==> site in multiset(sites);
    assert forall site :: site in others <==> site in multiset(others);
    MatchIsLongest(sites, request);
    MatchIsLongest(others, request);
    if MatchSite(others, request).Some? {
      MatchIsUnique(sites, request, MatchSite(others, request).value.site);
    }
  }

  // --------------------------------------------------------------- requests

  predicate Under(prefix: Bytes, path: Bytes) {
    path == prefix || prefix + [SLASH] <= path
  }

  predicate Reserved(path: Bytes) {
    exists prefix :: prefix in RESERVED_PUBLIC_PREFIXES && Under(prefix, path)
  }

  /** The site and the file a GET request for `path` is served from, if any. */
  function Route(sites: seq<Site>, path: Bytes): Option<Match> {
    match DecodePath(path)
    case Err(_) => None
    case Ok(decoded) => if Reserved(decoded) then None else MatchSite(sites, decoded)
  }

  /** The first segment of an absolute path. */
  function FirstSegment(path: Bytes): Option<Bytes> {
    if |Split(path)| > 1 && Split(path)[0] == [] then Some(Split(path)[1]) else None
  }

  lemma {:induction false} SplitAtEnd(segment: Bytes, rest: Bytes)
    requires SLASH !in segment
    ensures Split(segment) == [segment]
    ensures Split(segment + [SLASH] + rest) == [segment] + Split(rest)
    decreases |segment|
  {
    if segment == [] {
      assert ([] + [SLASH] + rest)[1..] == rest;
    } else {
      assert (segment + [SLASH] + rest)[1..] == segment[1..] + [SLASH] + rest;
      SplitAtEnd(segment[1..], rest);
      assert [segment[0]] + segment[1..] == segment;
    }
  }

  lemma {:induction false} SplitFirst(s: Bytes)
    ensures
      var first := Split(s)[0];
      SLASH !in first && (s == first || first + [SLASH] <= s)
    decreases |s|
  {
    if s != [] {
      SplitFirst(s[1..]);
      if s[0] != SLASH {
        var first := Split(s[1..])[0];
        assert Split(s)[0] == [s[0]] + first;
        if s[1..] != first {
          assert s == [s[0]] + (first + [SLASH] + s[1..][|first| + 1..]);
          assert [s[0]] + first + [SLASH] <= s;
        }
      }
    }
  }

  /** A path lies at or below `/segment` exactly when that is its first segment. */
  lemma UnderSegment(path: Bytes, segment: Bytes)
    requires SLASH !in segment
    ensures path == [SLASH] + segment || [SLASH] + segment + [SLASH] <= path <==> FirstSegment(path) == Some(segment)
  {
    if path == [SLASH] + segment {
      assert path[1..] == segment;
      SplitAtEnd(segment, []);
    } else if [SLASH] + segment + [SLASH] <= path {
      var rest := path[|segment| + 2..];
      assert path == [SLASH] + segment + [SLASH] + rest;
      assert path[1..] == segment + [SLASH] + rest;
      SplitAtEnd(segment, rest);
    }
    if FirstSegment(path) == Some(segment) {
      assert path != [] && path[0] == SLASH;
      SplitFirst(path[1..]);
      var tail := path[1..];
      assert path == [SLASH] + tail;
      if tail != segment {
        assert tail == segment + [SLASH] + tail[|segment| + 1..];
      }
    }
  }

  /** A reserved prefix is a slash and its name, and holds the paths that begin with that segment. */
  lemma PrefixIsSegment(path: Bytes, prefix: string, name: string)
    requires prefix == "/" + name && '/' !in name && forall i :: 0 <= i < |name| ==> name[i] < 128 as char
    ensures Under(Ascii(prefix), path) <==> FirstSegment(path) == Some(Ascii(name))
  {
    assert Ascii(prefix) == [SLASH] + Ascii(name);
    UnderSegment(path, Ascii(name));
  }

  /** A path is reserved exactly when its first segment is one of these seven. */
  lemma ReservedIsFirstSegment(path: Bytes)
    ensures Reserved(path)
       <==> FirstSegment(path) in {
              Some(Ascii("api")), Some(Ascii("admin")), Some(Ascii("login")), Some(Ascii("public")),
              Some(Ascii("api-docs")), Some(Ascii("swagger-ui")), Some(Ascii("static"))}
  {
    hide FirstSegment, Ascii, Under;
    PrefixIsSegment(path, "/api", "api");
    PrefixIsSegment(path, "/admin", "admin");
    PrefixIsSegment(path, "/login", "login");
    PrefixIsSegment(path, "/public", "public");
    PrefixIsSegment(path, "/api-docs", "api-docs");
    PrefixIsSegment(path, "/swagger-ui", "swagger-ui");
    PrefixIsSegment(path, "/static", "static");
    assert Reserved(path) <==>
      exists i :: 0 <= i < 7 && Under(RESERVED_PUBLIC_PREFIXES[i], path);
  }

  /** Whether another enabled site with a longer path holds the location. */
  ghost predicate Shadowed(sites: seq<Site>, site: Site, location: Bytes) {
    exists other :: other in sites && Serves(other, location) && |other.urlPath| > |site.urlPath|
  }

  /**
   The public address of a file leads back to that file of that site, exactly when
   the site's path has no percent sign, the location is not reserved and no longer
   site shadows it.
   */
  lemma FileUrlIsRouted(sites: seq<Site>, site: Site, relative: Bytes)
    requires Configured(sites) && site in sites && site.enabled
    requires Valid(site.urlPath) && Valid(relative)
    requires relative == [] || relative[0] != SLASH
    ensures
      var location := Location(site, relative);
      Route(sites, PublicFileUrl(site, relative)) == Some(Match(site, relative))
      <==> PERCENT !in site.urlPath && !Reserved(location) && !Shadowed(sites, site, location)
  {
    hide PublicFileUrl, Location, Reserved, Valid;
    if PERCENT in site.urlPath {
      PercentIsNotRouted(sites, site, relative);
    } else {
      PlainUrlDecodes(site, relative);
      hide DecodePath, MatchSite;
      LocationIsServed(sites, site, relative);
    }
  }

  lemma LocationIsServed(sites: seq<Site>, site: Site, relative: Bytes)
    requires Configured(sites) && site in sites && site.enabled
    requires relative == [] || relative[0] != SLASH
    ensures
      var location := Location(site, relative);
      MatchSite(sites, location) == Some(Match(site, relative)) <==> !Shadowed(sites, site, location)
  {
    var location := Location(site, relative);
    LocationMatches(site, relative);
    MatchesWhatItHolds(site.urlPath, location);
    MatchIsLongest(sites, location);
    hide Location, Holds, MatchedRelativePath, MatchSite;
    if !Shadowed(sites, site, location) {
      MatchIsUnique(sites, location, site);
    }
  }

  lemma MatchIsLongEnough(prefix: Bytes, request: Bytes, relative: Bytes)
    requires prefix != ROOT && MatchedRelativePath(prefix, request) == Some(relative)
    ensures |request| >= |prefix| + if relative == [] then 0 else 1 + |relative|
  {
  }

  lemma PercentIsNotRouted(sites: seq<Site>, site: Site, relative: Bytes)
    requires PERCENT in site.urlPath
    ensures Route(sites, PublicFileUrl(site, relative)) != Some(Match(site, relative))
  {
    var url := PublicFileUrl(site, relative);
    PercentShortens(site, relative);
    hide PublicFileUrl, Reserved, MatchSite, DecodePath, MatchedRelativePath;
    if DecodePath(url).Ok? {
      var request := DecodePath(url).value;
      MatchIsLongest(sites, request);
      if MatchSite(sites, request) == Some(Match(site, relative)) {
        MatchIsLongEnough(site.urlPath, request, relative);
      }
    }
  }

  // ---------------------------------------------------------- configuration

  /** Names compare byte by byte. */
  predicate NameLeq(a: Bytes, b: Bytes)
    decreases |a|
  {
    a == [] || (b != [] && (a[0] < b[0] || (a[0] == b[0] && NameLeq(a[1..], b[1..]))))
  }

  /** That is the lexicographic order: a name comes before its extensions, and else the first difference decides. */
  lemma {:induction false} NameLeqIsLexicographic(a: Bytes, b: Bytes)
    ensures NameLeq(a, b)
       <==> a <= b || exists k :: 0 <= k < |a| && k < |b| && a[..k] == b[..k] && a[k] < b[k]
    decreases |a|
  {
    if a != [] && b != [] && a[0] == b[0] {
      NameLeqIsLexicographic(a[1..], b[1..]);
      assert a == [a[0]] + a[1..] && b == [b[0]] + b[1..];
      if k :| 0 <= k < |a| && k < |b| && a[..k] == b[..k] && a[k] < b[k] {
        assert k > 0 && a[1..][..k - 1] == a[..k][1..] && b[1..][..k - 1] == b[..k][1..];
        assert a[1..][k - 1] < b[1..][k - 1];
      }
      if k :| 0 <= k < |a[1..]| && k < |b[1..]| && a[1..][..k] == b[1..][..k] && a[1..][k] < b[1..][k] {
        assert a[..k + 1] == [a[0]] + a[1..][..k] && b[..k + 1] == [b[0]] + b[1..][..k];
        assert a[k + 1] < b[k + 1];
      }
    } else if a != [] && b != [] {
      if a[0] < b[0] { assert a[..0] == b[..0]; }
      forall k | 0 < k < |a| && k < |b| ensures a[..k] != b[..k] {
        assert a[..k][0] != b[..k][0];
      }
    }
  }

  lemma {:induction false} NameLeqTotal(a: Bytes, b: Bytes)
    ensures NameLeq(a, b) || NameLeq(b, a)
    decreases |a|
  {
    if a != [] && b != [] { NameLeqTotal(a[1..], b[1..]); }
  }

  lemma {:induction false} NameLeqTransitive(a: Bytes, b: Bytes, c: Bytes)
    requires NameLeq(a, b) && NameLeq(b, c)
    ensures NameLeq(a, c)
    decreases |a|
  {
    if a != [] && a[0] == b[0] == c[0] { NameLeqTransitive(a[1..], b[1..], c[1..]); }
  }

  function InsertByName(sorted: seq<Site>, site: Site): (r: seq<Site>)
    ensures multiset(r) == multiset(sorted) + multiset{site}
  {
    if sorted == [] then [site]
    else
      var before, last := sorted[..|sorted| - 1], sorted[|sorted| - 1];
      assert sorted == before + [last];
      if NameLeq(last.name, site.name) then sorted + [site] else InsertByName(before, site) + [last]
  }

  /** `sort_by` on the names: a stable sort. */
  function SortByName(sites: seq<Site>): (r: seq<Site>)
    ensures multiset(r) == multiset(sites)
  {
    if sites == [] then []
    else
      assert sites == sites[..|sites| - 1] + [sites[|sites| - 1]];
      InsertByName(SortByName(sites[..|sites| - 1]), sites[|sites| - 1])
  }

  ghost predicate SortedByName(sites: seq<Site>) {
    forall i, j :: 0 <= i < j < |sites| ==> NameLeq(sites[i].name, sites[j].name)
  }

  lemma {:induction false} InsertKeepsSorted(sorted: seq<Site>, site: Site)
    requires SortedByName(sorted)
    ensures SortedByName(InsertByName(sorted, site))
    decreases |sorted|
  {
    if sorted != [] {
      var before, last := sorted[..|sorted| - 1], sorted[|sorted| - 1];
      if NameLeq(last.name, site.name) {
        forall i | 0 <= i < |sorted| ensures NameLeq(sorted[i].name, site.name) {
          if i < |before| { NameLeqTransitive(sorted[i].name, last.name, site.name); }
        }
      } else {
        InsertKeepsSorted(before, site);
        NameLeqTotal(last.name, site.name);
        var r := InsertByName(before, site);
        forall i | 0 <= i < |r| ensures NameLeq(r[i].name, last.name) {
          assert r[i] in multiset(r);
          assert r[i] == site || r[i] in before;
        }
      }
    }
  }

  function Named(sites: seq<Site>, name: Bytes): seq<Site> {
    if sites == [] then []
    else
      Named(sites[..|sites| - 1], name)
      + if sites[|sites| - 1].name == name then [sites[|sites| - 1]] else []
  }

  lemma OneIsEmpty<T>(s: seq<T>, a: seq<T>, b: seq<T>)
    requires a == [] || b == []
    ensures s + a + b == s + b + a
  {
  }

  lemma NamedSnoc(sites: seq<Site>, site: Site, name: Bytes)
    ensures Named(sites + [site], name) == Named(sites, name) + if site.name == name then [site] else []
  {
    assert (sites + [site])[..|sites|] == sites;
  }

  lemma {:induction false} NameLeqReflexive(a: Bytes)
    ensures NameLeq(a, a)
    decreases |a|
  {
    if a != [] { NameLeqReflexive(a[1..]); }
  }

  lemma {:induction false} InsertIsStable(sorted: seq<Site>, site: Site, name: Bytes)
    ensures Named(InsertByName(sorted, site), name) == Named(sorted, name) + if site.name == name then [site] else []
    decreases |sorted|
  {
    if sorted == [] {
      NamedSnoc([], site, name);
      assert [] + [site] == [site];
    } else {
      var before, last := sorted[..|sorted| - 1], sorted[|sorted| - 1];
      if NameLeq(last.name, site.name) {
        NamedSnoc(sorted, site, name);
      } else {
        NameLeqReflexive(last.name);
        InsertIsStable(before, site, name);
        NamedSnoc(InsertByName(before, site), last, name);
        NamedSnoc(before, last, name);
        assert before + [last] == sorted;
        hide Named, NameLeq, InsertByName;
        OneIsEmpty(Named(before, name), if site.name == name then [site] else [], if last.name == name then [last] else []);
      }
    }
  }

  /** The sites come out sorted by name, and those of one name in the order they were given. */
  lemma {:induction false} SortIsStable(sites: seq<Site>, name: Bytes)
    ensures SortedByName(SortByName(sites)) && Named(SortByName(sites), name) == Named(sites, name)
    decreases |sites|
  {
    if sites != [] {
      var before, last := sites[..|sites| - 1], sites[|sites| - 1];
      SortIsStable(before, name);
      InsertKeepsSorted(SortByName(before), last);
      InsertIsStable(SortByName(before), last, name);
    }
  }

  datatype SiteError = InvalidSite | DuplicateKey | DuplicateUrlPath

  ghost predicate Distinct<T>(s: seq<T>) {
    forall i, j :: 0 <= i < j < |s| ==> s[i] != s[j]
  }

  function Keys(sites: seq<Site>): (r: seq<Bytes>)
    ensures |r| == |sites|
  {
    seq(|sites|, i requires 0 <= i < |sites| => sites[i].key)
  }

  function UrlPaths(sites: seq<Site>): (r: seq<Bytes>)
    ensures |r| == |sites|
  {
    seq(|sites|, i requires 0 <= i < |sites| => sites[i].urlPath)
  }

  function SetOf<T>(s: seq<T>): set<T> {
    set x | x in s
  }

  /** A set that collects a list notices the first repetition. */
  lemma Collect<T>(s: seq<T>, i: nat)
    requires i < |s|
    ensures SetOf(s[..i + 1]) == SetOf(s[..i]) + {s[i]}
    ensures Distinct(s[..i + 1]) <==> Distinct(s[..i]) && s[i] !in SetOf(s[..i])
    ensures Distinct(s) ==> Distinct(s[..i + 1])
  {
    var before, next := s[..i], s[..i + 1];
    assert next == before + [s[i]];
    if s[i] in SetOf(before) {
      var k :| 0 <= k < i && before[k] == s[i];
      assert next[k] == next[i];
    } else {
      assert forall k :: 0 <= k < i ==> next[k] == before[k] && before[k] in SetOf(before);
    }
  }

  method FindDuplicate(sites: seq<Site>) returns (found: Option<SiteError>)
    ensures found.None? <==> Distinct(Keys(sites)) && Distinct(UrlPaths(sites))
    ensures found == Some(DuplicateKey) ==> !Distinct(Keys(sites))
    ensures found == Some(DuplicateUrlPath) ==> !Distinct(UrlPaths(sites))
    ensures found != Some(InvalidSite)
  {
    ghost var allKeys, allPaths := Keys(sites), UrlPaths(sites);
    var keys: set<Bytes>, urlPaths: set<Bytes> := {}, {};
    for i := 0 to |sites|
      invariant keys == SetOf(allKeys[..i]) && urlPaths == SetOf(allPaths[..i])
      invariant Distinct(allKeys[..i]) && Distinct(allPaths[..i])
    {
      Collect(allKeys, i);
      Collect(allPaths, i);
      var site := sites[i];
      assert allKeys[i] == site.key && allPaths[i] == site.urlPath;
      hide Distinct, SetOf;
      if site.key in keys {
        return Some(DuplicateKey);
      }
      keys := keys + {site.key};
      if site.urlPath in urlPaths {
        return Some(DuplicateUrlPath);
      }
      urlPaths := urlPaths + {site.urlPath};
    }
    assert allKeys[..|sites|] == allKeys && allPaths[..|sites|] == allPaths;
    found := None;
  }

  /** `normalize_sites`, given what `normalize_site` made of each site. */
  method NormalizeSites(each: seq<Option<Site>>) returns (r: Result<seq<Site>, SiteError>)
    ensures r == Err(InvalidSite) <==> None in each
    ensures None !in each ==>
              var sites := seq(|each|, i requires 0 <= i < |each| && each[i].Some? => each[i].value);
              && (r.Ok? <==> Distinct(Keys(sites)) && Distinct(UrlPaths(sites)))
              && (r.Ok? ==> r.value == SortByName(sites))
              && (r == Err(DuplicateKey) ==> !Distinct(Keys(sites)))
              && (r == Err(DuplicateUrlPath) ==> !Distinct(UrlPaths(sites)))
  {
    var normalized: seq<Site> := [];
    for i := 0 to |each|
      invariant |normalized| == i && forall j :: 0 <= j < i ==> each[j] == Some(normalized[j])
    {
      if each[i].None? {
        return Err(InvalidSite);
      }
      normalized := normalized + [each[i].value];
    }
    assert normalized == seq(|each|, i requires 0 <= i < |each| && each[i].Some? => each[i].value);
    hide Distinct, Keys, UrlPaths;
    var found := FindDuplicate(normalized);
    return if found.Some? then Err(found.value) else Ok(SortByName(normalized));
  }

  /** Sorting the configured sites changes no route. */
  lemma SortingKeepsRoutes(sites: seq<Site>, path: Bytes)
    requires Distinct(UrlPaths(sites)) && forall site :: site in sites ==> ROOT <= site.urlPath
    ensures Route(SortByName(sites), path) == Route(sites, path)
  {
    forall i, j | 0 <= i < j < |sites| ensures sites[i].urlPath != sites[j].urlPath {
      assert UrlPaths(sites)[i] != UrlPaths(sites)[j];
    }
    if DecodePath(path).Ok? {
      OrderDoesNotMatter(sites, SortByName(sites), DecodePath(path).value);
    }
  }
}
