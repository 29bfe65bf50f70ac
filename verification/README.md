# Asset base-path resolver of the Plasma-Torch site

The site is a single React page. Before rendering, it works out the URL prefix
under which its static images are served. This prefix is the *base*. The site
can be hosted at a domain root (`/`) or under one project sub-path, as GitHub
Pages does (`/N2bio/`). This project models that resolver as pure Dafny
functions over `string` (`seq<char>`) and proves its contracts.

- `Paths` models JavaScript's `path.split("/").filter(Boolean)`.
  - `Split` is proved to be a bijection onto non-empty lists of slash-free
    pieces, via `Join` in both directions.
  - `NonEmpty` keeps the non-empty pieces in order, with repeats. It is pinned
    down by its one-piece case and by distributing over concatenation.
  - `FirstSegment` is an independent reference scan: skip the leading slashes,
    then read up to the next slash.
- `BasePath` holds the resolver itself.
  - `EnsureSlash` is `ensureSlash`.
  - `BaseFromPathname` is `baseFromPathname`.
  - `ResolveBaseUrl` is `resolveBaseUrl`.
  - Also here are the shape, fixed-point and precedence lemmas.
- `Diagnostics` holds the page's embedded self-test table and the proof that
  every fixture passes.
- `Wrappers` holds `Option`. It stands for JavaScript's `null` and for an
  environment probe that is unavailable.

The environment probes of `resolveBaseUrl` become plain inputs:

- `buildBase: Option<string>` is the bundler's `import.meta.env.BASE_URL`. It
  is `None` when `import.meta` or `env` is missing, when the access throws, or
  when the value is not a string. An empty string is read as absent.
- `location: Option<string>` is `window.location.pathname`. It is `None` when
  there is no `window` or no `location`. An empty pathname counts as `/`, as
  JavaScript's `||` makes it.

## Model

| member | source | states |
|---|---|---|
| Paths.Split | src/App.jsx:26 | `split("/")` always yields at least one piece, and no piece contains the separator |
| Paths.JoinSplit | src/App.jsx:26 | joining the pieces of a split with the separator gives back the original string exactly |
| Paths.SplitJoin | src/App.jsx:26 | for any non-empty list of separator-free pieces, splitting their join gives back the same list, so `Split` loses nothing and adds nothing |
| Paths.NonEmpty | src/App.jsx:26 | `filter(Boolean)` on strings keeps exactly the non-empty pieces, never more pieces than it was given |
| Paths.NonEmptySingle | src/App.jsx:26 | one piece is kept exactly when it is non-empty (`Boolean("")` is false) |
| Paths.NonEmptyAppend | src/App.jsx:26 | filtering a concatenation is the concatenation of the filtered parts, so the kept pieces keep their order and multiplicity |
| Paths.Segments | src/App.jsx:26 | every segment that survives the filter is non-empty and contains no `/` |
| Paths.FirstSegment | src/App.jsx:26-27 | the reference scan finds no segment exactly when the path is made only of slashes; a segment it finds is non-empty and slash-free |
| Paths.SegmentsHead | src/App.jsx:26-27 | the split-and-filter has a first segment exactly when the reference scan finds one, and the two agree on it |
| Paths.FirstSegmentOf | src/App.jsx:26-27 | leading slashes are skipped and whatever follows the first segment is ignored |
| BasePath.EnsureSlash | src/App.jsx:4-6 | the result ends with `/` and extends the input by at most one character; it equals the input exactly when the input already ends with `/` |
| BasePath.EnsureSlashIdempotent | src/App.jsx:4-6 | applying `ensureSlash` twice is the same as applying it once |
| BasePath.EnsureSlashShortest | src/App.jsx:4-6 | no extension of the input that ends with `/` is shorter than the result |
| BasePath.OrRoot | src/App.jsx:26 | `pathname \|\| "/"`: a present, non-empty pathname passes through unchanged; null or the empty string becomes `/` |
| BasePath.BaseFromPathname | src/App.jsx:25-28 | the result is `/` or `/seg/` for one non-empty, slash-free `seg`; it is `/` exactly when the input, with null or empty read as `/`, is made only of slashes |
| BasePath.BaseFromPathnameByScan | src/App.jsx:25-28 | the result is `/` followed by the first segment the reference scan finds and a `/`, or `/` when the scan finds none |
| BasePath.BaseOfSegmentPath | src/App.jsx:26-27 | any run of leading slashes, then a segment, then nothing or a `/` and anything else, yields `/segment/`: repeated slashes collapse and deeper segments are discarded |
| BasePath.BaseFixedPoints | src/App.jsx:25-28 | the inputs `baseFromPathname` returns unchanged are exactly the well-formed bases (`/` or `/seg/`) |
| BasePath.BaseFromPathnameIdempotent | src/App.jsx:25-28 | applying `baseFromPathname` to its own output returns that output |
| BasePath.ResolveBaseUrl | src/App.jsx:8-23 | never fails and always ends with `/`; a non-empty build base is a prefix of the result; otherwise the result is a well-formed base, `/` exactly when there is no location or its path has no segment |
| BasePath.ResolvePrecedence | src/App.jsx:8-23 | a non-empty build base wins and yields `ensureSlash(base)`; otherwise the inline location logic gives the same result as `baseFromPathname` applied to the location, which is `/` when there is no location |
| Diagnostics.RootFixture | src/App.jsx:35 | fixture "root": `/` yields `/` |
| Diagnostics.RepoRootFixture | src/App.jsx:36 | fixture "gh-pages repo root": `/N2bio/` yields `/N2bio/` |
| Diagnostics.RepoFileFixture | src/App.jsx:37 | fixture "gh-pages file": `/N2bio/index.html` yields `/N2bio/` |
| Diagnostics.NestedPathFixture | src/App.jsx:38 | fixture "nested path": `/foo/bar` yields `/foo/` |
| Diagnostics.NoTrailingSlashFixture | src/App.jsx:39 | fixture "repo no trailing slash": `/N2bio` yields `/N2bio/` |
| Diagnostics.EmptyStringFixture | src/App.jsx:40 | fixture "empty string": `""` yields `/` |
| Diagnostics.NullFixture | src/App.jsx:41 | fixture "null coerced": null yields `/` |
| Diagnostics.DoubleSlashFixture | src/App.jsx:42 | fixture "double slashes": `//N2bio//index.html` yields `/N2bio/` |
| Diagnostics.RunTest | src/App.jsx:44-47 | one row of `testResults` keeps its fixture; `got` is `baseFromPathname(pathname)`, a well-formed base; `pass` holds exactly when `got` equals the expected base |
| Diagnostics.RunTests | src/App.jsx:44-47 | `tests.map(...)`: one result per fixture, in order; result `i` is `RunTest(tests[i])`, so it keeps its fixture, reports `baseFromPathname(pathname)` as `got`, and passes exactly when `got` is the expected base |
| Diagnostics.FixtureExpected | src/App.jsx:34-43 | each of the eight fixtures maps to its expected base: root, repo root, repo file, nested path, no trailing slash, empty string, null and double slashes |
| Diagnostics.AllFixturesPass | src/App.jsx:44-47 | the self-test table has eight rows, every row's `got` equals its expected base, and every row reports a pass |

## Left out

- The JSX markup of `App()` is presentational only: header, sections, iframes,
  footer and the diagnostics table's HTML (src/App.jsx:49-329). Only the
  fixture values and their pass flags are modelled.
- The asset URL `${base}chicken.jpg` (src/App.jsx:32) is left out. It is plain
  concatenation used only by the markup.
- The image `onError` fallback (src/App.jsx:111-114) is left out. It is DOM
  event handling.
- The footer year (src/App.jsx:320) is left out. It reads the runtime clock.
- The `try`/`catch` around `import.meta` and the `typeof window` checks
  (src/App.jsx:9-16) are not modelled as exceptions. They become the optional
  inputs `buildBase` and `location` described above.
- src/main.jsx is not part of this model. It only mounts the React tree.
- vite.config.js is not part of this model. Its `base: '/N2bio/'` is one
  possible value of `buildBase`.

## A note on `ensureSlash`

`ensureSlash` only appends a `/` when one is missing and changes nothing
else. So a configured base `a//` stays `a//`, and `N2bio` becomes `N2bio/`
with no leading slash. `ResolveBaseUrl` therefore promises, for a configured
base, only that the result ends with `/` and extends that base. The shape `/`
or `/seg/` is promised only for bases taken from the location.
