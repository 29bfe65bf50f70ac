/** The asset base-path resolver: the prefix under which the page's static
    assets are served, either configured at build time or inferred from the
    first segment of the current location (a site hosted under `/Repo/`). */
module BasePath {
  import opened Wrappers
  import opened Paths

  predicate EndsWithSlash(s: string) {
    |s| > 0 && s[|s| - 1] == Slash
  }

  /** A base inferred from a path: either the root `/`, or `/seg/` for one
      non-empty segment `seg` that holds no slash. */
  predicate WellFormedBase(r: string) {
    r == [Slash]
    || (|r| >= 3 && r[0] == Slash && r[|r| - 1] == Slash && Slash !in r[1..|r| - 1])
  }

  /** `ensureSlash`: the shortest extension of `s` that ends with a slash.
      The string is returned unchanged exactly when it already ends with one;
      nothing else about it is normalised. */
  function EnsureSlash(s: string): (r: string)
    ensures EndsWithSlash(r)
    ensures |s| <= |r| <= |s| + 1 && r[..|s|] == s
    ensures r == s <==> EndsWithSlash(s)
  {
    if EndsWithSlash(s) then s else s + [Slash]
  }

  /** Adding the slash a second time changes nothing. */
  lemma EnsureSlashIdempotent(s: string)
    ensures EnsureSlash(EnsureSlash(s)) == EnsureSlash(s)
  {
  }

  /** No string that extends `s` and ends with a slash is shorter than
      `EnsureSlash(s)`: at most the one missing slash is added. */
  lemma EnsureSlashShortest(s: string, t: string)
    requires |s| <= |t| && t[..|s|] == s && EndsWithSlash(t)
    ensures |EnsureSlash(s)| <= |t|
  {
  }

  /** JavaScript's `pathname || "/"`: a missing (null) or empty pathname
      counts as the root. */
  function OrRoot(pathname: Option<string>): (path: string)
    ensures path != ""
    ensures pathname.Some? && pathname.value != "" ==> path == pathname.value
    ensures pathname.None? || pathname.value == "" ==> path == [Slash]
  {
    if pathname.None? || pathname.value == "" then [Slash] else pathname.value
  }

  /** `baseFromPathname`: `/` followed by the first non-empty segment and a
      slash, or `/` alone when the path has no non-empty segment. */
  function BaseFromPathname(pathname: Option<string>): (r: string)
    ensures WellFormedBase(r)
    ensures r == [Slash] <==> AllSlashes(OrRoot(pathname))
  {
    var path := OrRoot(pathname);
    var parts := Segments(path);
    SegmentsHead(path);
    if |parts| > 0 then [Slash] + parts[0] + [Slash] else [Slash]
  }

  /** `BaseFromPathname` agrees with the reference scan that skips leading
      slashes and reads the first segment directly. */
  lemma BaseFromPathnameByScan(pathname: Option<string>)
    ensures FirstSegment(OrRoot(pathname)).None? ==> BaseFromPathname(pathname) == [Slash]
    ensures FirstSegment(OrRoot(pathname)).Some? ==>
      BaseFromPathname(pathname) == [Slash] + FirstSegment(OrRoot(pathname)).value + [Slash]
  {
    SegmentsHead(OrRoot(pathname));
  }

  /** Runs of leading slashes collapse and everything after the first segment
      (a file name, deeper directories) is discarded. */
  lemma BaseOfSegmentPath(lead: string, seg: string, rest: string)
    requires AllSlashes(lead)
    requires seg != "" && Slash !in seg
    requires rest == "" || rest[0] == Slash
    ensures BaseFromPathname(Some(lead + seg + rest)) == [Slash] + seg + [Slash]
  {
    FirstSegmentOf(lead, seg, rest);
    BaseFromPathnameByScan(Some(lead + seg + rest));
  }

  /** The strings `BaseFromPathname` leaves unchanged are exactly the
      well-formed bases. */
  lemma BaseFixedPoints(r: string)
    ensures BaseFromPathname(Some(r)) == r <==> WellFormedBase(r)
  {
    if WellFormedBase(r) && r != [Slash] {
      var seg := r[1..|r| - 1];
      assert r == [Slash] + seg + [Slash];
      BaseOfSegmentPath([Slash], seg, [Slash]);
    }
  }

  /** Normalising a normalised base is a no-op. */
  lemma BaseFromPathnameIdempotent(pathname: Option<string>)
    ensures BaseFromPathname(Some(BaseFromPathname(pathname))) == BaseFromPathname(pathname)
  {
    BaseFixedPoints(BaseFromPathname(pathname));
  }

  /** The build-time base counts only when it is present and non-empty. */
  predicate HasBuildBase(buildBase: Option<string>) {
    buildBase.Some? && buildBase.value != ""
  }

  /** `resolveBaseUrl`. `buildBase` is the bundler's `BASE_URL` (None when the
      build-time environment is unavailable, throws, or holds no string);
      `location` is the pathname of the current document location (None when
      there is no window or no location). The resolver never fails. */
  function ResolveBaseUrl(buildBase: Option<string>, location: Option<string>): (r: string)
    ensures EndsWithSlash(r)
    ensures HasBuildBase(buildBase) ==>
      |r| >= |buildBase.value| && r[..|buildBase.value|] == buildBase.value
    ensures !HasBuildBase(buildBase) ==> WellFormedBase(r)
    ensures !HasBuildBase(buildBase) ==> (r == [Slash] <==> AllSlashes(OrRoot(location)))
  {
    if HasBuildBase(buildBase) then EnsureSlash(buildBase.value)
    else if location.Some? then
      var path := OrRoot(location);
      var parts := Segments(path);
      SegmentsHead(path);
      if |parts| > 0 then [Slash] + parts[0] + [Slash] else [Slash]
    else [Slash]
  }

  /** The precedence order: a non-empty build base wins; otherwise the result
      is what `baseFromPathname` makes of the location, which is `/` when
      there is no location at all. */
  lemma ResolvePrecedence(buildBase: Option<string>, location: Option<string>)
    ensures HasBuildBase(buildBase) ==>
      ResolveBaseUrl(buildBase, location) == EnsureSlash(buildBase.value)
    ensures !HasBuildBase(buildBase) ==>
      ResolveBaseUrl(buildBase, location) == BaseFromPathname(location)
  {
  }
}
