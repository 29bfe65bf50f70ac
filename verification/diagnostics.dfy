/** The page's embedded self-test: a fixed table of pathnames with the base
    each should yield, run through `BaseFromPathname` on every render. */
module Diagnostics {
  import opened Wrappers
  import opened Paths
  import opened BasePath

  /** One fixture; a None pathname stands for JavaScript's `null`. */
  datatype PathTestCase = PathTestCase(name: string, pathname: Option<string>, expected: string)

  /** A fixture together with what was computed for it. */
  datatype PathTestResult = PathTestResult(test: PathTestCase, got: string, pass: bool)

  const Tests: seq<PathTestCase> := [
    PathTestCase("root", Some("/"), "/"),
    PathTestCase("gh-pages repo root", Some("/N2bio/"), "/N2bio/"),
    PathTestCase("gh-pages file", Some("/N2bio/index.html"), "/N2bio/"),
    PathTestCase("nested path", Some("/foo/bar"), "/foo/"),
    PathTestCase("repo no trailing slash", Some("/N2bio"), "/N2bio/"),
    PathTestCase("empty string", Some(""), "/"),
    PathTestCase("null coerced", None, "/"),
    PathTestCase("double slashes", Some("//N2bio//index.html"), "/N2bio/")
  ]

  /** One row of the diagnostics table: the computed base and whether it is the
      expected one. */
  function RunTest(t: PathTestCase): (r: PathTestResult)
    ensures r.test == t
    ensures r.got == BaseFromPathname(t.pathname) && WellFormedBase(r.got)
    ensures r.pass <==> r.got == t.expected
  {
    var got := BaseFromPathname(t.pathname);
    PathTestResult(t, got, got == t.expected)
  }

  /** The whole table, in order (`tests.map(...)`). */
  function RunTests(tests: seq<PathTestCase>): (results: seq<PathTestResult>)
    ensures |results| == |tests|
    ensures forall i :: 0 <= i < |tests| ==>
      results[i] == RunTest(tests[i])
      && results[i].test == tests[i]
      && results[i].got == BaseFromPathname(tests[i].pathname)
      && (results[i].pass <==> results[i].got == tests[i].expected)
  {
    seq(|tests|, i requires 0 <= i < |tests| => RunTest(tests[i]))
  }

  // One lemma per fixture. A pathname with a segment is taken apart as
  // leading slashes, first segment and the rest, so that the proof goes
  // through `BaseOfSegmentPath` rather than by evaluating the functions on
  // the literal.

  /** "root": `"/"` yields `"/"`. */
  lemma RootFixture()
    ensures BaseFromPathname(Tests[0].pathname) == Tests[0].expected
  {
    assert Tests[0].pathname == Some("/") && Tests[0].expected == "/";
    assert AllSlashes("/");
  }

  /** "gh-pages repo root": `"/N2bio/"` yields `"/N2bio/"`. */
  lemma RepoRootFixture()
    ensures BaseFromPathname(Tests[1].pathname) == Tests[1].expected
  {
    assert Tests[1].pathname == Some("/N2bio/") && Tests[1].expected == "/N2bio/";
    assert "/N2bio/" == "/" + "N2bio" + "/";
    assert AllSlashes("/");
    BaseOfSegmentPath("/", "N2bio", "/");
  }

  /** "gh-pages file": `"/N2bio/index.html"` yields `"/N2bio/"`. */
  lemma RepoFileFixture()
    ensures BaseFromPathname(Tests[2].pathname) == Tests[2].expected
  {
    assert Tests[2].pathname == Some("/N2bio/index.html") && Tests[2].expected == "/N2bio/";
    assert "/N2bio/index.html" == "/" + "N2bio" + "/index.html";
    assert "/N2bio/" == "/" + "N2bio" + "/";
    assert AllSlashes("/");
    BaseOfSegmentPath("/", "N2bio", "/index.html");
  }

  /** "nested path": `"/foo/bar"` yields `"/foo/"`. */
  lemma NestedPathFixture()
    ensures BaseFromPathname(Tests[3].pathname) == Tests[3].expected
  {
    assert Tests[3].pathname == Some("/foo/bar") && Tests[3].expected == "/foo/";
    assert "/foo/bar" == "/" + "foo" + "/bar";
    assert "/foo/" == "/" + "foo" + "/";
    assert AllSlashes("/");
    BaseOfSegmentPath("/", "foo", "/bar");
  }

  /** "repo no trailing slash": `"/N2bio"` yields `"/N2bio/"`. */
  lemma NoTrailingSlashFixture()
    ensures BaseFromPathname(Tests[4].pathname) == Tests[4].expected
  {
    assert Tests[4].pathname == Some("/N2bio") && Tests[4].expected == "/N2bio/";
    assert "/N2bio" == "/" + "N2bio" + "";
    assert "/N2bio/" == "/" + "N2bio" + "/";
    assert AllSlashes("/");
    BaseOfSegmentPath("/", "N2bio", "");
  }

  /** "empty string": `""` yields `"/"`. */
  lemma EmptyStringFixture()
    ensures BaseFromPathname(Tests[5].pathname) == Tests[5].expected
  {
    assert Tests[5].pathname == Some("") && Tests[5].expected == "/";
  }

  /** "null coerced": null yields `"/"`. */
  lemma NullFixture()
    ensures BaseFromPathname(Tests[6].pathname) == Tests[6].expected
  {
    assert Tests[6].pathname == None && Tests[6].expected == "/";
  }

  /** "double slashes": `"//N2bio//index.html"` yields `"/N2bio/"`. */
  lemma DoubleSlashFixture()
    ensures BaseFromPathname(Tests[7].pathname) == Tests[7].expected
  {
    assert Tests[7].pathname == Some("//N2bio//index.html") && Tests[7].expected == "/N2bio/";
    assert "//N2bio//index.html" == "//" + "N2bio" + "//index.html";
    assert "/N2bio/" == "/" + "N2bio" + "/";
    assert AllSlashes("//");
    BaseOfSegmentPath("//", "N2bio", "//index.html");
  }

  /** The base computed for fixture `i` is the one the table expects. */
  lemma FixtureExpected(i: nat)
    requires i < |Tests|
    ensures BaseFromPathname(Tests[i].pathname) == Tests[i].expected
  {
    if i == 0 {
      RootFixture();
    } else if i == 1 {
      RepoRootFixture();
    } else if i == 2 {
      RepoFileFixture();
    } else if i == 3 {
      NestedPathFixture();
    } else if i == 4 {
      NoTrailingSlashFixture();
    } else if i == 5 {
      EmptyStringFixture();
    } else if i == 6 {
      NullFixture();
    } else {
      DoubleSlashFixture();
    }
  }

  /** Every fixture of the table passes. */
  lemma AllFixturesPass()
    ensures |RunTests(Tests)| == |Tests| == 8
    ensures forall i :: 0 <= i < |Tests| ==>
      RunTests(Tests)[i].got == Tests[i].expected && RunTests(Tests)[i].pass
  {
    forall i | 0 <= i < |Tests|
      ensures RunTests(Tests)[i].got == Tests[i].expected && RunTests(Tests)[i].pass
    {
      FixtureExpected(i);
    }
  }
}
