/** main.py's discovery and reconciliation engine: the executable test, the
    per-path details, the latest-version lookup, `os.path.dirname`, the
    uncovered-`PATH` filter, the environment snapshot and `get_resources`, which
    assembles one result per configured resource.

    Everything the program learns from the operating system or the network
    reaches the model through a `Host` value. */
module Inventory {
  import opened PyStr
  import opened OrderedDicts
  import opened Settings

  datatype Option<T> = None | Some(value: T)

  /** The outcome of `requests.get(url)`: a response, or the `RequestException` raised. */
  datatype Response = Response(status: int, text: string) | RequestError(reason: string)

  /** The outcome of a secondary fetch whose JSON body is read: the fields read,
      or the `RequestException` raised. */
  datatype Fetched<T> = Fetched(value: T) | FetchError(reason: string)

  /** The `version` and `date` fields of the first entry of the Node.js release index. */
  datatype NodeRelease = NodeRelease(version: Option<string>, date: Option<string>)

  /** What the program observes of the machine and the network during a run. */
  datatype Host = Host(
    platform: Platform,
    /** The lines printed by `where <name>` / `which -a <name>`; none when the command fails. */
    locate: string -> seq<string>,
    /** The glob matches under the standard install roots that pass `os.access(X_OK)`, in glob order. */
    standardMatches: string -> seq<string>,
    /** `os.path.isfile(path)`. */
    isFile: string -> bool,
    /** `os.access(path, os.X_OK)`. */
    canExecute: string -> bool,
    /** `get_version(path, args)`: the first output line, or the "Error: ..." text. */
    versionLine: (string, string) -> string,
    /** `requests.get(url)`. */
    fetch: string -> Response,
    /** The fetch of https://nodejs.org/dist/index.json. */
    nodeIndex: Fetched<NodeRelease>,
    /** The `version` field of https://registry.npmjs.org/npm/latest. */
    npmLatest: Fetched<Option<string>>)

  // ---------------------------------------------------------------------------
  // is_executable / get_path_details

  /** `path.endswith(('.exe', '.cmd', '.bat'))`. */
  predicate HasExecutableSuffix(path: string)
  {
    EndsWith(path, ".exe") || EndsWith(path, ".cmd") || EndsWith(path, ".bat")
  }

  /** `is_executable`: on Windows a regular file with one of the three suffixes,
      elsewhere whatever the execute-permission check says. */
  function IsExecutable(host: Host, path: string): (r: bool)
    ensures host.platform == Windows ==>
      (r <==> host.isFile(path) && |path| >= 4 && path[|path| - 4..] in {".exe", ".cmd", ".bat"})
    ensures host.platform == PosixLike ==> (r <==> host.canExecute(path))
  {
    if host.platform == Windows then host.isFile(path) && HasExecutableSuffix(path)
    else host.canExecute(path)
  }

  /** One entry of a resource's `paths` dict. */
  datatype PathDetails = PathDetails(executable: bool, version: Option<string>, inPath: bool)

  /** `get_path_details`: the version probe runs only on an executable path. */
  function GetPathDetails(host: Host, path: string, versionArgs: string): (d: (bool, Option<string>))
    ensures d.0 == IsExecutable(host, path)
    ensures d.1.None? <==> !d.0
    ensures d.1.Some? ==> d.1.value == host.versionLine(path, versionArgs)
  {
    var executable := IsExecutable(host, path);
    (executable, if executable then Some(host.versionLine(path, versionArgs)) else None)
  }

  // ---------------------------------------------------------------------------
  // get_latest_version

  const ReleaseMarker: string := "<span class=\"release-number\">"
  const SpanClose: string := "</span>"

  /** The slice of the python.org page taken as the latest release: from just
      after the first release-number marker up to the next closing span tag,
      with surrounding whitespace stripped. */
  function ReleaseNumber(text: string): string
  {
    TextBetween(text, ReleaseMarker, SpanClose)
  }

  /** `text[start:end].strip()` where `start` is just after the first `open` and
      `end` is the first `close` found from `start`, with `find`'s -1 taken as is
      (a missing `open` makes `start` equal `|open| - 1`). */
  function TextBetween(text: string, open: string, close: string): string
    requires |open| > 0
  {
    var start := OpenEnd(text, open);
    Strip(Slice(text, start, Find(text, close, start)))
  }

  /** `text.find(open) + len(open)`. */
  function OpenEnd(text: string, open: string): nat
    requires |open| > 0
  {
    Find(text, open, 0) + |open|
  }

  /** When the page holds the marker and a closing tag after it, the result is the
      stripped text strictly between them, and it never holds a closing tag. */
  lemma ReleaseNumberBetweenMarkers(text: string)
    requires Find(text, ReleaseMarker, 0) >= 0
    requires Find(text, SpanClose, OpenEnd(text, ReleaseMarker)) >= 0
    ensures var i := OpenEnd(text, ReleaseMarker);
            var j := Find(text, SpanClose, i);
            i <= j && ReleaseNumber(text) == Strip(text[i..j]) && !Contains(ReleaseNumber(text), SpanClose)
  {
    BetweenMarkers(text, ReleaseMarker, SpanClose);
  }

  /** When `open` occurs and `close` occurs after it, the text between them is
      the stripped slice strictly between, and it holds no `close`. */
  lemma BetweenMarkers(text: string, open: string, close: string)
    requires |open| > 0 && |close| > 0
    requires Find(text, open, 0) >= 0
    requires Find(text, close, OpenEnd(text, open)) >= 0
    ensures var i := OpenEnd(text, open);
            var j := Find(text, close, i);
            i <= j && TextBetween(text, open, close) == Strip(text[i..j])
            && !Contains(TextBetween(text, open, close), close)
  {
    ClosedSlice(text, close, OpenEnd(text, open), Find(text, close, OpenEnd(text, open)));
  }

  /** The stripped slice from `i` up to the first `close` found from `i` holds no
      `close`, and Python's slicing agrees with Dafny's there. */
  lemma ClosedSlice(text: string, close: string, i: nat, j: int)
    requires |close| > 0
    requires j == Find(text, close, i) && j >= 0
    ensures i <= j <= |text| && Strip(Slice(text, i, j)) == Strip(text[i..j])
    ensures !Contains(Strip(text[i..j]), close)
  {
    var inner := text[i..j];
    assert Slice(text, i, j) == inner;
    assert !Contains(Strip(inner), close) by {
      var piece := Strip(inner);
      var k := StripOffset(inner);
      NoOccurrenceBefore(text, close, i, j, piece, k);
    }
  }

  lemma SliceOfSlice<T>(s: seq<T>, i: nat, j: nat, a: nat, b: nat)
    requires i <= j <= |s| && a <= b <= j - i
    ensures s[i..j][a..b] == s[i + a..i + b]
  {
    forall k | 0 <= k < b - a
      ensures s[i..j][a..b][k] == s[i + a..i + b][k]
    {
      assert s[i..j][a..b][k] == s[i..j][a + k];
    }
  }

  /** A piece of `text[i..j]`, where `j` is the first occurrence of `sub` found
      from `i`, does not contain `sub`. */
  lemma NoOccurrenceBefore(text: string, sub: string, i: nat, j: int, piece: string, k: nat)
    requires |sub| > 0
    requires j == Find(text, sub, i) && j >= 0
    requires k + |piece| <= j - i && piece == text[i..j][k..k + |piece|]
    ensures !Contains(piece, sub)
  {
    var at := i + k;
    assert piece == text[at..at + |piece|] by { SliceOfSlice(text, i, j, k, k + |piece|); }
    forall m: nat | m + |sub| <= |piece| ensures !OccursAt(piece, sub, m) {
      OccurrenceOfPiece(text, sub, piece, at, m);
    }
    NowhereNotContained(piece, sub);
  }

  /** An occurrence in a piece of `text` is an occurrence in `text`. */
  lemma OccurrenceOfPiece(text: string, sub: string, piece: string, at: nat, m: nat)
    requires at + |piece| <= |text| && piece == text[at..at + |piece|]
    requires m + |sub| <= |piece|
    ensures OccursAt(piece, sub, m) <==> OccursAt(text, sub, at + m)
  {
    SliceOfSlice(text, at, at + |piece|, m, m + |sub|);
  }

  /** Where `Strip(s)` sits inside `s`. */
  function StripOffset(s: string): (k: nat)
    ensures k + |Strip(s)| <= |s| && Strip(s) == s[k..k + |Strip(s)|]
  {
    var t := RStrip(s, Whitespace);
    assert t == s[..|t|];
    |t| - |Strip(s)|
  }

  /** `get_latest_version` once `requests.get(url)` has answered 200: the first
      publisher the url names, in the fixed order nodejs, python, npmjs, decides. */
  function LatestFromPublisher(url: string, text: string, host: Host): string
  {
    if Contains(url, "nodejs") then
      match host.nodeIndex
      case FetchError(e) => "Error fetching data: " + e
      case Fetched(rel) =>
        GetOr(rel.version, "Unknown version") + " (" + GetOr(rel.date, "Unknown version") + ")"
    else if Contains(url, "python") then ReleaseNumber(text)
    else if Contains(url, "npmjs") then
      match host.npmLatest
      case FetchError(e) => "Error fetching data: " + e
      case Fetched(v) => GetOr(v, "Unknown version")
    else "Latest version info not found"
  }

  /** `dict.get(key, default)` on an optional JSON field. */
  function GetOr(o: Option<string>, default: string): string
  {
    match o
    case Some(v) => v
    case None => default
  }

  /** `get_latest_version(url)`. */
  function LatestVersion(url: string, host: Host): (r: string)
    ensures host.fetch(url).RequestError? ==> r == "Error fetching data: " + host.fetch(url).reason
    ensures host.fetch(url).Response? && host.fetch(url).status != 200 ==>
      r == "Failed to fetch version from " + url
    ensures host.fetch(url).Response? && host.fetch(url).status == 200 ==>
      r == LatestFromPublisher(url, host.fetch(url).text, host)
  {
    match host.fetch(url)
    case RequestError(e) => "Error fetching data: " + e
    case Response(status, text) =>
      if status == 200 then LatestFromPublisher(url, text, host)
      else "Failed to fetch version from " + url
  }

  /** The publishers the lookup knows, as a closed set. */
  datatype Publisher = NodeJs | PythonOrg | Npm | UnknownPublisher

  /** The url substrings that select a publisher, highest priority first. */
  const PublisherMarkers: seq<(string, Publisher)> :=
    [("nodejs", NodeJs), ("python", PythonOrg), ("npmjs", Npm)]

  /** The publisher of the first marker in `markers` that `url` contains. */
  function FirstMatch(url: string, markers: seq<(string, Publisher)>): (p: Publisher)
    ensures p == UnknownPublisher ==> forall i :: 0 <= i < |markers| && markers[i].1 != UnknownPublisher ==> !Contains(url, markers[i].0)
    ensures p != UnknownPublisher ==> exists i :: 0 <= i < |markers| && markers[i].1 == p && Contains(url, markers[i].0)
  {
    if markers == [] then UnknownPublisher
    else if Contains(url, markers[0].0) && markers[0].1 != UnknownPublisher then markers[0].1
    else FirstMatch(url, markers[1..])
  }

  function Classify(url: string): Publisher
  {
    FirstMatch(url, PublisherMarkers)
  }

  /** The markers are tried in the order nodejs, python, npmjs: a url is
      classified by the first of them it contains, and as unknown when it
      contains none. */
  lemma ClassifyOrder(url: string)
    ensures Contains(url, "nodejs") ==> Classify(url) == NodeJs
    ensures !Contains(url, "nodejs") && Contains(url, "python") ==> Classify(url) == PythonOrg
    ensures !Contains(url, "nodejs") && !Contains(url, "python") && Contains(url, "npmjs") ==> Classify(url) == Npm
    ensures !Contains(url, "nodejs") && !Contains(url, "python") && !Contains(url, "npmjs") ==>
      Classify(url) == UnknownPublisher
  {
    var m := PublisherMarkers;
    assert m[0] == ("nodejs", NodeJs);
    assert m[1..][0] == ("python", PythonOrg);
    assert m[1..][1..][0] == ("npmjs", Npm);
    assert m[1..][1..][1..] == [];
    if !Contains(url, "nodejs") {
      assert FirstMatch(url, m) == FirstMatch(url, m[1..]);
      if !Contains(url, "python") {
        assert FirstMatch(url, m[1..]) == FirstMatch(url, m[1..][1..]);
        if !Contains(url, "npmjs") {
          assert FirstMatch(url, m[1..][1..]) == FirstMatch(url, m[1..][1..][1..]);
        }
      }
    }
  }

  /** A successful lookup is decided by the publisher the url is classified as:
      each publisher has its own reading rule, and an unrecognised url gives the
      fixed "not found" text. */
  lemma {:induction false} LatestVersionByPublisher(url: string, text: string, host: Host)
    ensures Classify(url) == NodeJs ==>
      (LatestFromPublisher(url, text, host) ==
        match host.nodeIndex
        case FetchError(e) => "Error fetching data: " + e
        case Fetched(rel) => GetOr(rel.version, "Unknown version") + " (" + GetOr(rel.date, "Unknown version") + ")")
    ensures Classify(url) == PythonOrg ==> LatestFromPublisher(url, text, host) == ReleaseNumber(text)
    ensures Classify(url) == Npm ==>
      (LatestFromPublisher(url, text, host) ==
        match host.npmLatest
        case FetchError(e) => "Error fetching data: " + e
        case Fetched(v) => GetOr(v, "Unknown version"))
    ensures Classify(url) == UnknownPublisher ==>
      LatestFromPublisher(url, text, host) == "Latest version info not found"
  {
    var m := PublisherMarkers;
    assert m[1..][1..][1..] == [];
    if Classify(url) == UnknownPublisher {
      assert !Contains(url, m[0].0) && !Contains(url, m[1].0) && !Contains(url, m[2].0);
    } else if Contains(url, "nodejs") {
      assert Classify(url) == NodeJs;
    } else {
      assert m[0].0 == "nodejs" && FirstMatch(url, m) == FirstMatch(url, m[1..]);
      assert m[1..][0] == ("python", PythonOrg);
      if !Contains(url, "python") {
        assert FirstMatch(url, m[1..]) == FirstMatch(url, m[1..][1..]);
        assert m[1..][1..][0] == ("npmjs", Npm);
      }
    }
  }

  // ---------------------------------------------------------------------------
  // os.path.dirname

  /** The path-separator characters `os.path` recognises on each platform. */
  function Seps(platform: Platform): set<char>
  {
    if platform == Windows then {'\\', '/'} else {'/'}
  }

  /** The index just after the last separator in `s`, 0 when there is none. */
  function AfterLastSep(s: string, seps: set<char>): (i: nat)
    ensures i <= |s|
    ensures i == 0 || s[i - 1] in seps
    ensures forall k :: i <= k < |s| ==> s[k] !in seps
  {
    if s == [] then 0
    else if s[|s| - 1] in seps then |s|
    else AfterLastSep(s[..|s| - 1], seps)
  }

  /** `os.path.dirname(p)`: everything up to the last separator, with trailing
      separators removed unless nothing else would be left. On Windows a leading
      drive letter ("C:") is kept in front. */
  function Dirname(platform: Platform, p: string): string
  {
    var seps := Seps(platform);
    var hasDrive := platform == Windows && |p| >= 2 && p[1] == ':';
    var drive := if hasDrive then p[..2] else [];
    var rest := if hasDrive then p[2..] else p;
    var head := rest[..AfterLastSep(rest, seps)];
    var trimmed := RStrip(head, seps);
    drive + (if trimmed == [] then head else trimmed)
  }

  /** `os.path.dirname(p)` is always a prefix of `p`. */
  lemma DirnameIsPrefix(platform: Platform, p: string)
    ensures Dirname(platform, p) <= p
  {
    var seps := Seps(platform);
    var hasDrive := platform == Windows && |p| >= 2 && p[1] == ':';
    var drive := if hasDrive then p[..2] else [];
    var rest := if hasDrive then p[2..] else p;
    var head := rest[..AfterLastSep(rest, seps)];
    var trimmed := RStrip(head, seps);
    var kept := if trimmed == [] then head else trimmed;
    assert kept <= rest;
    assert Dirname(platform, p) == drive + kept;
    assert p == drive + rest;
    PrefixExtend(drive, kept, rest);
  }

  lemma PrefixExtend<T>(a: seq<T>, x: seq<T>, y: seq<T>)
    requires x <= y
    ensures a + x <= a + y
  {
    assert (a + y)[..|a + x|] == a + x;
  }

  /** A directory joined to a file name with a separator gets the directory back
      from `dirname`, provided the directory is not a bare drive and does not itself
      end in a separator. */
  lemma DirnameOfChild(platform: Platform, dir: string, sep: char, name: string)
    requires sep in Seps(platform)
    requires dir != [] && dir[|dir| - 1] !in Seps(platform)
    requires platform == Windows ==> !(|dir| == 2 && dir[1] == ':')
    requires forall c :: c in name ==> c !in Seps(platform)
    ensures Dirname(platform, dir + [sep] + name) == dir
  {
    var seps := Seps(platform);
    var p := dir + [sep] + name;
    var hasDrive := platform == Windows && |p| >= 2 && p[1] == ':';
    var rest := if hasDrive then p[2..] else p;
    var d := if hasDrive then 2 else 0;
    assert hasDrive ==> |dir| > 2 && p[..2] == dir[..2];
    assert rest == dir[d..] + [sep] + name;
    HeadOfChild(rest, seps, dir[d..], sep, name);
    if hasDrive {
      assert p[..2] + dir[2..] == dir;
    }
  }

  /** In `front + [sep] + name` with a separator-free `name`, the last separator
      is the one after `front`, and stripping separators from what precedes it
      gives `front` back when `front` does not end in one. */
  lemma HeadOfChild(rest: string, seps: set<char>, front: string, sep: char, name: string)
    requires sep in seps && front != [] && front[|front| - 1] !in seps
    requires forall c :: c in name ==> c !in seps
    requires rest == front + [sep] + name
    ensures AfterLastSep(rest, seps) == |front| + 1
    ensures rest[..|front| + 1] == front + [sep]
    ensures RStrip(rest[..|front| + 1], seps) == front
  {
    var i := |front| + 1;
    forall k | i <= k < |rest| ensures rest[k] !in seps {
      assert rest[k] == name[k - i];
    }
    AfterLastSepIs(rest, seps, i);
    assert rest[..i] == front + [sep];
    RStripDropsLast(front, sep, seps);
  }

  lemma AfterLastSepIs(s: string, seps: set<char>, i: nat)
    requires 0 < i <= |s| && s[i - 1] in seps
    requires forall k :: i <= k < |s| ==> s[k] !in seps
    ensures AfterLastSep(s, seps) == i
  {
  }

  // ---------------------------------------------------------------------------
  // list_uncovered_path_dirs / log_environment_variables

  /** `os.pathsep`. */
  function PathSep(platform: Platform): char
  {
    if platform == Windows then ';' else ':'
  }

  /** `os.environ.get(name, default)`. */
  function EnvGet(env: map<string, string>, name: string, default: string): string
  {
    if name in env then env[name] else default
  }

  /** `[d for d in entries if d and d not in covered]`. */
  function DropCovered(entries: seq<string>, covered: set<string>): (r: seq<string>)
    ensures forall d :: d in r <==> d in entries && d != [] && d !in covered
    ensures forall d :: multiset(r)[d] == if d != [] && d !in covered then multiset(entries)[d] else 0
    ensures IsSubsequence(r, entries)
    decreases |entries|
  {
    if entries == [] then []
    else
      var rest := DropCovered(entries[1..], covered);
      assert entries == [entries[0]] + entries[1..];
      if entries[0] != [] && entries[0] !in covered then [entries[0]] + rest else rest
  }

  /** `r` is `s` with some elements left out and the order kept. */
  predicate IsSubsequence<T(==)>(r: seq<T>, s: seq<T>)
  {
    r == [] ||
    (s != [] && ((r[0] == s[0] && IsSubsequence(r[1..], s[1..])) || IsSubsequence(r, s[1..])))
  }

  /** `list_uncovered_path_dirs(covered)`: the `PATH` entries, in order, that are
      neither empty nor in `covered`. */
  function UncoveredPathDirs(platform: Platform, env: map<string, string>, covered: set<string>): seq<string>
  {
    DropCovered(Split(EnvGet(env, "PATH", ""), PathSep(platform)), covered)
  }

  /** The uncovered list is the `PATH` entries in order, keeping every occurrence
      of each non-empty, uncovered entry and nothing else. */
  lemma UncoveredPathDirsSpec(platform: Platform, env: map<string, string>, covered: set<string>)
    ensures var entries := Split(EnvGet(env, "PATH", ""), PathSep(platform));
            var r := UncoveredPathDirs(platform, env, covered);
      && IsSubsequence(r, entries)
      && forall d :: multiset(r)[d] == if d != [] && d !in covered then multiset(entries)[d] else 0
  {
  }

  /** With nothing covered, every non-empty `PATH` entry is reported, in order. */
  lemma {:induction false} NothingCoveredKeepsNonEmpty(entries: seq<string>)
    ensures DropCovered(entries, {}) == NonEmpty(entries)
  {
    if entries != [] { NothingCoveredKeepsNonEmpty(entries[1..]); }
  }

  /** The non-empty entries of `entries`, in order. */
  function NonEmpty(entries: seq<string>): (r: seq<string>)
    ensures forall d :: d in r ==> d != []
  {
    if entries == [] then []
    else if entries[0] == [] then NonEmpty(entries[1..])
    else [entries[0]] + NonEmpty(entries[1..])
  }

  /** `log_environment_variables()`: the three variables, in this order, each
      "Not Set" when absent. */
  function EnvironmentVariables(env: map<string, string>): (vars: seq<(string, string)>)
    ensures |vars| == 3
    ensures vars[0].0 == "PATH" && vars[1].0 == "JAVA_HOME" && vars[2].0 == "PYTHON_HOME"
    ensures forall i :: 0 <= i < 3 ==>
      (vars[i].0 in env ==> vars[i].1 == env[vars[i].0]) &&
      (vars[i].0 !in env ==> vars[i].1 == "Not Set")
  {
    [("PATH", EnvGet(env, "PATH", "Not Set")),
     ("JAVA_HOME", EnvGet(env, "JAVA_HOME", "Not Set")),
     ("PYTHON_HOME", EnvGet(env, "PYTHON_HOME", "Not Set"))]
  }

  // ---------------------------------------------------------------------------
  // get_resources

  /** `{'latest_version': ..., 'url': ...}`. */
  datatype OnlineDetails = OnlineDetails(latestVersion: string, url: string)

  /** One value of `resource_results`: the upstream details and the `paths` dict. */
  datatype ResourceResult = ResourceResult(online: OnlineDetails, paths: ODict<string, PathDetails>)

  /** The details recorded for `path`. */
  function DetailsOf(host: Host, versionArgs: string, path: string, inPath: bool): PathDetails
  {
    var (executable, version) := GetPathDetails(host, path, versionArgs);
    PathDetails(executable, version, inPath)
  }

  /** The `paths` dict after the loop `for path in paths: table[path] = {...}`. */
  function RecordPaths(host: Host, versionArgs: string, table: ODict<string, PathDetails>,
                       paths: seq<string>, inPath: bool): (r: ODict<string, PathDetails>)
    requires table.Valid()
    ensures r.Valid()
    decreases |paths|
  {
    if paths == [] then table
    else
      var last := paths[|paths| - 1];
      RecordPaths(host, versionArgs, table, paths[..|paths| - 1], inPath)
        .Put(last, DetailsOf(host, versionArgs, last, inPath))
  }

  lemma RecordPathsStep(host: Host, versionArgs: string, table: ODict<string, PathDetails>,
                        paths: seq<string>, j: nat, inPath: bool)
    requires table.Valid() && j < |paths|
    ensures RecordPaths(host, versionArgs, table, paths[..j + 1], inPath)
         == RecordPaths(host, versionArgs, table, paths[..j], inPath).Put(paths[j], DetailsOf(host, versionArgs, paths[j], inPath))
  {
    assert paths[..j + 1][..j] == paths[..j];
  }

  /** The standard-directory matches of one resource: none unless the search is on. */
  function ExtraPaths(host: Host, name: string, searchStandardDirs: bool): seq<string>
  {
    if searchStandardDirs then host.standardMatches(name) else []
  }

  /** `resource_results[name]` once the two loops for that resource have run. */
  function ResourceEntry(host: Host, name: string, config: ResourceConfig, searchStandardDirs: bool): ResourceResult
  {
    var fromPath := RecordPaths(host, config.versionArgs, Empty(), host.locate(name), true);
    var paths := RecordPaths(host, config.versionArgs, fromPath, ExtraPaths(host, name, searchStandardDirs), false);
    ResourceResult(OnlineDetails(LatestVersion(config.url, host), config.url), paths)
  }

  /** `resource_results` after the resources in `names` have been processed. */
  function ResultsFor(host: Host, config: ODict<string, ResourceConfig>, names: seq<string>,
                      searchStandardDirs: bool): (r: ODict<string, ResourceResult>)
    requires forall n :: n in names ==> n in config.vals
    ensures r.Valid()
    decreases |names|
  {
    if names == [] then Empty()
    else
      var last := names[|names| - 1];
      ResultsFor(host, config, names[..|names| - 1], searchStandardDirs)
        .Put(last, ResourceEntry(host, last, config.vals[last], searchStandardDirs))
  }

  /** `set(s)` for a string: the one-character strings of its characters. */
  function CharStrings(s: string): set<string>
  {
    set c | c in s :: [c]
  }

  /** What `covered_dirs.update(os.path.dirname(path))` adds for each path in `paths`. */
  function CoveredByPaths(platform: Platform, paths: seq<string>): set<string>
    decreases |paths|
  {
    if paths == [] then {}
    else CoveredByPaths(platform, paths[..|paths| - 1]) + CharStrings(Dirname(platform, paths[|paths| - 1]))
  }

  lemma CoveredByPathsStep(platform: Platform, paths: seq<string>, j: nat)
    requires j < |paths|
    ensures CoveredByPaths(platform, paths[..j + 1])
         == CoveredByPaths(platform, paths[..j]) + CharStrings(Dirname(platform, paths[j]))
  {
    assert paths[..j + 1][..j] == paths[..j];
  }

  /** `covered_dirs` after the resources in `names` have been processed. */
  function CoveredFor(host: Host, names: seq<string>, searchStandardDirs: bool): set<string>
    decreases |names|
  {
    if names == [] then {}
    else
      CoveredFor(host, names[..|names| - 1], searchStandardDirs)
        + CoveredByPaths(host.platform, ExtraPaths(host, names[|names| - 1], searchStandardDirs))
  }

  lemma ResultsForStep(host: Host, config: ODict<string, ResourceConfig>, names: seq<string>, i: nat,
                       searchStandardDirs: bool)
    requires forall n :: n in names ==> n in config.vals
    requires i < |names|
    ensures ResultsFor(host, config, names[..i + 1], searchStandardDirs)
         == ResultsFor(host, config, names[..i], searchStandardDirs)
              .Put(names[i], ResourceEntry(host, names[i], config.vals[names[i]], searchStandardDirs))
    ensures CoveredFor(host, names[..i + 1], searchStandardDirs)
         == CoveredFor(host, names[..i], searchStandardDirs)
              + CoveredByPaths(host.platform, ExtraPaths(host, names[i], searchStandardDirs))
  {
    assert names[..i + 1][..i] == names[..i];
  }

  /** `get_resources(search_standard_dirs)`: one result per configured resource,
      in configuration order, and the covered directory set. */
  method GetResources(host: Host, config: ODict<string, ResourceConfig>, searchStandardDirs: bool)
    returns (results: ODict<string, ResourceResult>, covered: set<string>)
    requires config.Valid()
    ensures results == ResultsFor(host, config, config.keys, searchStandardDirs)
    ensures covered == CoveredFor(host, config.keys, searchStandardDirs)
  {
    results := Empty();
    covered := {};
    var i := 0;
    while i < |config.keys|
      invariant i <= |config.keys|
      invariant results == ResultsFor(host, config, config.keys[..i], searchStandardDirs)
      invariant covered == CoveredFor(host, config.keys[..i], searchStandardDirs)
    {
      var name := config.keys[i];
      var entry, added := CollectResource(host, name, config.vals[name], searchStandardDirs);
      ResultsForStep(host, config, config.keys, i, searchStandardDirs);
      results := results.Put(name, entry);
      covered := covered + added;
      i := i + 1;
    }
    assert config.keys[..i] == config.keys;
  }

  /** The body of `get_resources`' loop for one resource: its result entry, and
      what it adds to `covered_dirs`. */
  method CollectResource(host: Host, name: string, details: ResourceConfig, searchStandardDirs: bool)
    returns (entry: ResourceResult, added: set<string>)
    ensures entry == ResourceEntry(host, name, details, searchStandardDirs)
    ensures added == CoveredByPaths(host.platform, ExtraPaths(host, name, searchStandardDirs))
  {
    var lv := LatestVersion(details.url, host);
    var paths := host.locate(name);
    var extraPaths: seq<string> := [];
    if searchStandardDirs {
      extraPaths := host.standardMatches(name);
    }
    var table: ODict<string, PathDetails> := Empty();
    var j := 0;
    while j < |paths|
      invariant j <= |paths|
      invariant table == RecordPaths(host, details.versionArgs, Empty(), paths[..j], true)
    {
      table := table.Put(paths[j], DetailsOf(host, details.versionArgs, paths[j], true));
      RecordPathsStep(host, details.versionArgs, Empty(), paths, j, true);
      j := j + 1;
    }
    assert paths[..j] == paths;
    ghost var fromPath := table;
    added := {};
    j := 0;
    while j < |extraPaths|
      invariant j <= |extraPaths|
      invariant table == RecordPaths(host, details.versionArgs, fromPath, extraPaths[..j], false)
      invariant added == CoveredByPaths(host.platform, extraPaths[..j])
    {
      table := table.Put(extraPaths[j], DetailsOf(host, details.versionArgs, extraPaths[j], false));
      added := added + CharStrings(Dirname(host.platform, extraPaths[j]));
      RecordPathsStep(host, details.versionArgs, fromPath, extraPaths, j, false);
      CoveredByPathsStep(host.platform, extraPaths, j);
      j := j + 1;
    }
    assert extraPaths[..j] == extraPaths;
    entry := ResourceResult(OnlineDetails(lv, details.url), table);
  }

  // ---------------------------------------------------------------------------
  // What get_resources promises

  /** The paths of `paths` that are not in `seen`, each at its first occurrence,
      in the order they occur. */
  function Fresh(paths: seq<string>, seen: seq<string>): seq<string>
    decreases |paths|
  {
    if paths == [] then []
    else if paths[0] in seen then Fresh(paths[1..], seen)
    else [paths[0]] + Fresh(paths[1..], seen + [paths[0]])
  }

  /** Looking at one more path adds it exactly when it has not been seen. */
  lemma {:induction false} FreshAppend(s: seq<string>, x: string, seen: seq<string>)
    ensures Fresh(s + [x], seen) == Fresh(s, seen) + (if x in seen || x in s then [] else [x])
    decreases |s|
  {
    if s == [] {
      assert [x][1..] == [];
    } else {
      assert (s + [x])[0] == s[0] && (s + [x])[1..] == s[1..] + [x];
      assert s == [s[0]] + s[1..];
      if s[0] in seen {
        FreshAppend(s[1..], x, seen);
      } else {
        FreshAppend(s[1..], x, seen + [s[0]]);
      }
    }
  }

  /** The first occurrences hold each unseen path once, and nothing else. */
  lemma {:induction false} FreshSpec(paths: seq<string>, seen: seq<string>)
    ensures forall p :: p in Fresh(paths, seen) <==> p in paths && p !in seen
    ensures forall i, j :: 0 <= i < j < |Fresh(paths, seen)| ==> Fresh(paths, seen)[i] != Fresh(paths, seen)[j]
    decreases |paths|
  {
    if paths != [] {
      assert paths == [paths[0]] + paths[1..];
      if paths[0] in seen {
        FreshSpec(paths[1..], seen);
      } else {
        var rest := Fresh(paths[1..], seen + [paths[0]]);
        FreshSpec(paths[1..], seen + [paths[0]]);
        assert Fresh(paths, seen) == [paths[0]] + rest;
        assert paths[0] !in rest;
      }
    }
  }

  /** Recording paths into a dict: the keys already there keep their places at the
      front and are followed by the first occurrences of the new paths, in the
      order recorded; the dict then holds exactly the old keys and the recorded paths. */
  lemma RecordPathsKeys(host: Host, versionArgs: string, table: ODict<string, PathDetails>,
                        paths: seq<string>, inPath: bool)
    requires table.Valid()
    ensures var r := RecordPaths(host, versionArgs, table, paths, inPath);
      && r.keys == table.keys + Fresh(paths, table.keys)
      && (forall p :: p in r.vals <==> p in table.vals || p in paths)
  {
    RecordPathsOrder(host, versionArgs, table, paths, inPath);
    RecordPathsMembers(host, versionArgs, table, paths, inPath);
  }

  lemma {:induction false} RecordPathsMembers(host: Host, versionArgs: string, table: ODict<string, PathDetails>,
                                             paths: seq<string>, inPath: bool)
    requires table.Valid()
    ensures var r := RecordPaths(host, versionArgs, table, paths, inPath);
      forall p :: p in r.vals <==> p in table.vals || p in paths
    decreases |paths|
  {
    if paths != [] {
      var init := paths[..|paths| - 1];
      var last := paths[|paths| - 1];
      RecordPathsMembers(host, versionArgs, table, init, inPath);
      assert forall p :: p in paths <==> p in init || p == last by {
        assert paths == init + [last];
      }
    }
  }

  lemma {:induction false} RecordPathsOrder(host: Host, versionArgs: string, table: ODict<string, PathDetails>,
                                           paths: seq<string>, inPath: bool)
    requires table.Valid()
    ensures RecordPaths(host, versionArgs, table, paths, inPath).keys == table.keys + Fresh(paths, table.keys)
    decreases |paths|
  {
    if paths == [] {
      assert table.keys + [] == table.keys;
    } else {
      var init := paths[..|paths| - 1];
      var last := paths[|paths| - 1];
      var before := RecordPaths(host, versionArgs, table, init, inPath);
      var after := before.Put(last, DetailsOf(host, versionArgs, last, inPath));
      assert RecordPaths(host, versionArgs, table, paths, inPath) == after;
      RecordPathsOrder(host, versionArgs, table, init, inPath);
      assert last in before.vals <==> last in table.keys || last in init by {
        RecordPathsMembers(host, versionArgs, table, init, inPath);
      }
      DropLastAppend(paths);
      FreshAppend(init, last, table.keys);
      if last in before.vals {
        assert Fresh(paths, table.keys) == Fresh(init, table.keys);
      } else {
        assert Fresh(paths, table.keys) == Fresh(init, table.keys) + [last];
      }
    }
  }

  /** Each recorded path carries its own details, and keys that were not
      recorded keep theirs. */
  lemma {:induction false} RecordPathsValues(host: Host, versionArgs: string, table: ODict<string, PathDetails>,
                                            paths: seq<string>, inPath: bool)
    requires table.Valid()
    ensures var r := RecordPaths(host, versionArgs, table, paths, inPath);
      && (forall p :: p in paths ==> p in r.vals && r.vals[p] == DetailsOf(host, versionArgs, p, inPath))
      && (forall p :: p in table.vals && p !in paths ==> p in r.vals && r.vals[p] == table.vals[p])
    decreases |paths|
  {
    if paths != [] {
      var init := paths[..|paths| - 1];
      var last := paths[|paths| - 1];
      RecordPathsValues(host, versionArgs, table, init, inPath);
      assert forall p :: p in paths <==> p in init || p == last by {
        assert paths == init + [last];
      }
    }
  }

  /** Each detail record obeys `get_path_details`: the version is absent exactly
      when the path is not executable, and otherwise is the probe's answer. */
  ghost predicate DetailsAgree(host: Host, versionArgs: string, path: string, d: PathDetails)
  {
    && d.executable == IsExecutable(host, path)
    && (d.version.None? <==> !d.executable)
    && (d.version.Some? ==> d.version.value == host.versionLine(path, versionArgs))
  }

  /** One resource's result: it holds exactly the `PATH` matches and the
      standard-directory matches; an entry is marked in-`PATH` exactly when no
      standard-directory match overwrote it; the `PATH` matches come first; every
      entry's version agrees with its executability; and the upstream details are
      the lookup of the configured url. */
  lemma ResourceEntrySpec(host: Host, name: string, config: ResourceConfig, searchStandardDirs: bool)
    ensures var e := ResourceEntry(host, name, config, searchStandardDirs);
            var found := host.locate(name);
            var extra := ExtraPaths(host, name, searchStandardDirs);
      && e.online == OnlineDetails(LatestVersion(config.url, host), config.url)
      && e.paths.Valid()
      && (forall p :: p in e.paths.vals <==> p in found || p in extra)
      && (forall p :: p in e.paths.vals ==> (e.paths.vals[p].inPath <==> p !in extra))
      && (forall p :: p in e.paths.vals ==> DetailsAgree(host, config.versionArgs, p, e.paths.vals[p]))
      && e.paths.keys == Fresh(found, []) + Fresh(extra, Fresh(found, []))
      && (forall i, k :: 0 <= k < i < |e.paths.keys| && e.paths.keys[i] in found ==> e.paths.keys[k] in found)
  {
    ResourceEntryPaths(host, name, config, searchStandardDirs);
    ResourceEntryOrder(host, name, config, searchStandardDirs);
  }

  lemma ResourceEntryPaths(host: Host, name: string, config: ResourceConfig, searchStandardDirs: bool)
    ensures var e := ResourceEntry(host, name, config, searchStandardDirs);
            var found := host.locate(name);
            var extra := ExtraPaths(host, name, searchStandardDirs);
      && (forall p :: p in e.paths.vals <==> p in found || p in extra)
      && (forall p :: p in e.paths.vals ==> (e.paths.vals[p].inPath <==> p !in extra))
      && (forall p :: p in e.paths.vals ==> DetailsAgree(host, config.versionArgs, p, e.paths.vals[p]))
  {
    var found := host.locate(name);
    var extra := ExtraPaths(host, name, searchStandardDirs);
    var fromPath := RecordPaths(host, config.versionArgs, Empty(), found, true);
    RecordPathsKeys(host, config.versionArgs, Empty(), found, true);
    RecordPathsKeys(host, config.versionArgs, fromPath, extra, false);
    RecordPathsValues(host, config.versionArgs, Empty(), found, true);
    RecordPathsValues(host, config.versionArgs, fromPath, extra, false);
  }

  lemma ResourceEntryOrder(host: Host, name: string, config: ResourceConfig, searchStandardDirs: bool)
    ensures var e := ResourceEntry(host, name, config, searchStandardDirs);
            var found := host.locate(name);
            var extra := ExtraPaths(host, name, searchStandardDirs);
      && e.paths.keys == Fresh(found, []) + Fresh(extra, Fresh(found, []))
      && forall i, k :: 0 <= k < i < |e.paths.keys| && e.paths.keys[i] in found ==> e.paths.keys[k] in found
  {
    var found := host.locate(name);
    var extra := ExtraPaths(host, name, searchStandardDirs);
    ResourceEntryKeys(host, name, config, searchStandardDirs);
    FreshSpec(found, []);
    FreshSpec(extra, Fresh(found, []));
    GroupsInOrder(Fresh(found, []), Fresh(extra, Fresh(found, [])), found);
  }

  lemma ResourceEntryKeys(host: Host, name: string, config: ResourceConfig, searchStandardDirs: bool)
    ensures var e := ResourceEntry(host, name, config, searchStandardDirs);
            var found := host.locate(name);
      e.paths.keys == Fresh(found, []) + Fresh(ExtraPaths(host, name, searchStandardDirs), Fresh(found, []))
  {
    var found := host.locate(name);
    var extra := ExtraPaths(host, name, searchStandardDirs);
    var fromPath := RecordPaths(host, config.versionArgs, Empty(), found, true);
    RecordPathsOrder(host, config.versionArgs, Empty(), found, true);
    RecordPathsOrder(host, config.versionArgs, fromPath, extra, false);
    assert fromPath.keys == Fresh(found, []);
  }

  /** In `a + b` where `a` is exactly the members of `found` and `b` shares nothing
      with `a`, every member of `found` comes before every other element. */
  lemma GroupsInOrder(a: seq<string>, b: seq<string>, found: seq<string>)
    requires forall p :: p in a <==> p in found
    requires forall p :: p in b ==> p !in a
    ensures forall i, k :: 0 <= k < i < |a + b| && (a + b)[i] in found ==> (a + b)[k] in found
  {
    forall i, k | 0 <= k < i < |a + b| && (a + b)[i] in found
      ensures (a + b)[k] in found
    {
      assert (a + b)[i] in a;
      assert (a + b)[k] == a[k];
    }
  }

  /** With the standard-directory search off, every recorded path was found on `PATH`. */
  lemma NoSearchMeansAllInPath(host: Host, name: string, config: ResourceConfig)
    ensures var e := ResourceEntry(host, name, config, false);
      forall p :: p in e.paths.vals ==> e.paths.vals[p].inPath && p in host.locate(name)
  {
    ResourceEntrySpec(host, name, config, false);
  }

  /** `resource_results` holds one entry per configured resource, in configuration
      order, even for a resource with no paths. */
  lemma ResultsForSpec(host: Host, config: ODict<string, ResourceConfig>,
                       names: seq<string>, searchStandardDirs: bool)
    requires forall n :: n in names ==> n in config.vals
    requires forall i, j :: 0 <= i < j < |names| ==> names[i] != names[j]
    ensures var r := ResultsFor(host, config, names, searchStandardDirs);
      && r.keys == names
      && forall n :: n in names ==> r.vals[n] == ResourceEntry(host, n, config.vals[n], searchStandardDirs)
  {
    ResultsForKeys(host, config, names, searchStandardDirs);
    ResultsForValues(host, config, names, searchStandardDirs);
  }

  /** The keys of `resource_results` are the configured names, in order. */
  lemma {:induction false} ResultsForKeys(host: Host, config: ODict<string, ResourceConfig>,
                                         names: seq<string>, searchStandardDirs: bool)
    requires forall n :: n in names ==> n in config.vals
    requires forall i, j :: 0 <= i < j < |names| ==> names[i] != names[j]
    ensures ResultsFor(host, config, names, searchStandardDirs).keys == names
    decreases |names|
  {
    if names != [] {
      var init := names[..|names| - 1];
      var last := names[|names| - 1];
      var before := ResultsFor(host, config, init, searchStandardDirs);
      var entry := ResourceEntry(host, last, config.vals[last], searchStandardDirs);
      calc {
        ResultsFor(host, config, names, searchStandardDirs).keys;
        before.Put(last, entry).keys;
        { KeysOfInit(host, config, names, searchStandardDirs);
          PutNewKey(before, last, entry, init); }
        init + [last];
        { DropLastAppend(names); }
        names;
      }
    }
  }
  /** A non-empty sequence is its front followed by its last element. */
  lemma DropLastAppend<T>(s: seq<T>)
    requires s != []
    ensures s[..|s| - 1] + [s[|s| - 1]] == s
  {
  }

  /** The step of ResultsForKeys: the names before the last one are the keys of
      the results so far, and the last name is not among them. */
  lemma KeysOfInit(host: Host, config: ODict<string, ResourceConfig>, names: seq<string>, searchStandardDirs: bool)
    requires forall n :: n in names ==> n in config.vals
    requires forall i, j :: 0 <= i < j < |names| ==> names[i] != names[j]
    requires names != []
    ensures var init := names[..|names| - 1];
      && ResultsFor(host, config, init, searchStandardDirs).keys == init
      && names[|names| - 1] !in init
    decreases |names|, 0
  {
    var init := names[..|names| - 1];
    var last := names[|names| - 1];
    assert forall n :: n in init ==> n in names;
    ResultsForKeys(host, config, init, searchStandardDirs);
    forall m | 0 <= m < |init| ensures init[m] != last {
      assert init[m] == names[m];
    }
  }


  /** Each configured name maps to the entry its own loop iteration built. */
  lemma {:induction false} ResultsForValues(host: Host, config: ODict<string, ResourceConfig>,
                                           names: seq<string>, searchStandardDirs: bool)
    requires forall n :: n in names ==> n in config.vals
    ensures var r := ResultsFor(host, config, names, searchStandardDirs);
      forall n :: n in names ==> n in r.vals && r.vals[n] == ResourceEntry(host, n, config.vals[n], searchStandardDirs)
    decreases |names|
  {
    if names != [] {
      var init := names[..|names| - 1];
      var last := names[|names| - 1];
      assert names == init + [last];
      ResultsForValues(host, config, init, searchStandardDirs);
      forall n | n in names
        ensures var r := ResultsFor(host, config, names, searchStandardDirs);
          n in r.vals && r.vals[n] == ResourceEntry(host, n, config.vals[n], searchStandardDirs)
      {
        if n != last { assert n in init; }
      }
    }
  }

  /** `covered_dirs` holds single characters only, never a directory string. */
  lemma {:induction false} CoveredIsCharacters(host: Host, names: seq<string>, searchStandardDirs: bool)
    ensures forall d :: d in CoveredFor(host, names, searchStandardDirs) ==> |d| == 1
    decreases |names|
  {
    if names != [] {
      CoveredIsCharacters(host, names[..|names| - 1], searchStandardDirs);
      CoveredByPathsSpec(host.platform, ExtraPaths(host, names[|names| - 1], searchStandardDirs));
    }
  }

  /** Every character of the dirname of every standard-directory match is in `covered_dirs`. */
  lemma {:induction false} CoveredHasDirnameChars(host: Host, names: seq<string>, searchStandardDirs: bool)
    ensures forall n, p, c ::
      n in names && p in ExtraPaths(host, n, searchStandardDirs) && c in Dirname(host.platform, p) ==>
        [c] in CoveredFor(host, names, searchStandardDirs)
    decreases |names|
  {
    if names != [] {
      var init := names[..|names| - 1];
      var last := names[|names| - 1];
      CoveredHasDirnameChars(host, init, searchStandardDirs);
      CoveredByPathsSpec(host.platform, ExtraPaths(host, last, searchStandardDirs));
      assert names == init + [last];
      forall n, p, c | n in names && p in ExtraPaths(host, n, searchStandardDirs) && c in Dirname(host.platform, p)
        ensures [c] in CoveredFor(host, names, searchStandardDirs)
      {
        if n != last { assert n in init; }
      }
    }
  }

  /** `covered_dirs` only grows from standard-directory matches: each of its
      characters comes from the dirname of one. */
  lemma {:induction false} CoveredComesFromMatches(host: Host, names: seq<string>, searchStandardDirs: bool)
    ensures forall d :: d in CoveredFor(host, names, searchStandardDirs) ==>
      (|d| == 1 &&
       exists n, p :: n in names && p in ExtraPaths(host, n, searchStandardDirs) && d[0] in Dirname(host.platform, p))
    decreases |names|
  {
    if names != [] {
      var init := names[..|names| - 1];
      var last := names[|names| - 1];
      var extra := ExtraPaths(host, last, searchStandardDirs);
      CoveredComesFromMatches(host, init, searchStandardDirs);
      CoveredByPathsFromPaths(host.platform, extra);
      assert names == init + [last];
      forall d | d in CoveredFor(host, names, searchStandardDirs)
        ensures |d| == 1 &&
          exists n, p :: n in names && p in ExtraPaths(host, n, searchStandardDirs) && d[0] in Dirname(host.platform, p)
      {
        if d in CoveredFor(host, init, searchStandardDirs) {
          var n, p :| n in init && p in ExtraPaths(host, n, searchStandardDirs) && d[0] in Dirname(host.platform, p);
          assert n in names && p in ExtraPaths(host, n, searchStandardDirs) && d[0] in Dirname(host.platform, p);
        } else {
          assert d in CoveredByPaths(host.platform, extra);
          var p :| p in extra && d[0] in Dirname(host.platform, p);
          assert last in names && p in ExtraPaths(host, last, searchStandardDirs) && d[0] in Dirname(host.platform, p);
        }
      }
    }
  }

  /** What one resource's matches add to `covered_dirs`: single characters, each
      character of each match's dirname, and nothing else. */
  lemma CoveredByPathsSpec(platform: Platform, paths: seq<string>)
    ensures var covered := CoveredByPaths(platform, paths);
      && (forall d :: d in covered ==> |d| == 1)
      && (forall p, c :: p in paths && c in Dirname(platform, p) ==> [c] in covered)
      && (forall d :: d in covered ==> exists p :: p in paths && d[0] in Dirname(platform, p))
  {
    CoveredByPathsHasChars(platform, paths);
    CoveredByPathsFromPaths(platform, paths);
  }

  lemma {:induction false} CoveredByPathsHasChars(platform: Platform, paths: seq<string>)
    ensures forall p, c :: p in paths && c in Dirname(platform, p) ==> [c] in CoveredByPaths(platform, paths)
    decreases |paths|
  {
    if paths != [] {
      var init := paths[..|paths| - 1];
      CoveredByPathsHasChars(platform, init);
      assert paths == init + [paths[|paths| - 1]];
    }
  }

  lemma {:induction false} CoveredByPathsFromPaths(platform: Platform, paths: seq<string>)
    ensures forall d :: d in CoveredByPaths(platform, paths) ==>
      |d| == 1 && exists p :: p in paths && d[0] in Dirname(platform, p)
    decreases |paths|
  {
    if paths != [] {
      var init := paths[..|paths| - 1];
      var last := paths[|paths| - 1];
      CoveredByPathsFromPaths(platform, init);
      assert paths == init + [last];
      forall d | d in CoveredByPaths(platform, paths)
        ensures |d| == 1 && exists p :: p in paths && d[0] in Dirname(platform, p)
      {
        if d in CoveredByPaths(platform, init) {
          var p :| p in init && d[0] in Dirname(platform, p);
          assert p in paths && d[0] in Dirname(platform, p);
        } else {
          assert d in CharStrings(Dirname(platform, last));
          var c :| c in Dirname(platform, last) && d == [c];
          assert last in paths && d[0] in Dirname(platform, last);
        }
      }
    }
  }

  /** With the standard-directory search off, nothing is ever covered. */
  lemma {:induction false} NoSearchCoversNothing(host: Host, names: seq<string>)
    ensures CoveredFor(host, names, false) == {}
    decreases |names|
  {
    if names != [] { NoSearchCoversNothing(host, names[..|names| - 1]); }
  }

  // ---------------------------------------------------------------------------
  // Finding: covered_dirs receives characters, not directories

  /** As written, the directory of a standard-directory match is still reported
      as an uncovered `PATH` entry: `dirname` gives the directory back, but only its
      characters were added to `covered_dirs`. */
  lemma AsWrittenMatchDirectoryStaysUncovered(host: Host, names: seq<string>, searchStandardDirs: bool,
                                              env: map<string, string>, n: string, dir: string, sep: char, name: string)
    requires n in names && dir + [sep] + name in ExtraPaths(host, n, searchStandardDirs)
    requires sep in Seps(host.platform)
    requires |dir| >= 2 && dir[|dir| - 1] !in Seps(host.platform)
    requires host.platform == Windows ==> !(|dir| == 2 && dir[1] == ':')
    requires forall c :: c in name ==> c !in Seps(host.platform)
    requires dir in Split(EnvGet(env, "PATH", ""), PathSep(host.platform))
    ensures Dirname(host.platform, dir + [sep] + name) == dir
    ensures dir in UncoveredPathDirs(host.platform, env, CoveredFor(host, names, searchStandardDirs))
  {
    DirnameOfChild(host.platform, dir, sep, name);
    CoveredIsCharacters(host, names, searchStandardDirs);
  }

  /** The evident intent: `covered_dirs.add(os.path.dirname(path))`, the set of
      directories holding a standard-directory match. */
  function CoveredDirectories(host: Host, names: seq<string>, searchStandardDirs: bool): (covered: set<string>)
    ensures forall d :: d in covered <==>
      exists n, p :: n in names && p in ExtraPaths(host, n, searchStandardDirs) && d == Dirname(host.platform, p)
  {
    set n, p | n in names && p in ExtraPaths(host, n, searchStandardDirs) :: Dirname(host.platform, p)
  }

  /** With the intended covered set, the directory of every standard-directory
      match is left out of the uncovered `PATH` entries. */
  lemma IntendedMatchDirectoryIsCovered(host: Host, names: seq<string>, searchStandardDirs: bool,
                                        env: map<string, string>, n: string, dir: string, sep: char, name: string)
    requires n in names && dir + [sep] + name in ExtraPaths(host, n, searchStandardDirs)
    requires sep in Seps(host.platform)
    requires dir != [] && dir[|dir| - 1] !in Seps(host.platform)
    requires host.platform == Windows ==> !(|dir| == 2 && dir[1] == ':')
    requires forall c :: c in name ==> c !in Seps(host.platform)
    ensures dir !in UncoveredPathDirs(host.platform, env, CoveredDirectories(host, names, searchStandardDirs))
  {
    DirnameOfChild(host.platform, dir, sep, name);
    assert dir in CoveredDirectories(host, names, searchStandardDirs);
  }

  // ---------------------------------------------------------------------------
  // The configured table

  /** config/settings.py enables one resource, "node", whose latest version is
      read from the Node.js release index; `get_resources` reports on it alone. */
  lemma ConfiguredResources(host: Host, searchStandardDirs: bool)
    ensures Resources.Valid() && Resources.keys == ["node"]
    ensures Classify(Resources.vals["node"].url) == NodeJs
    ensures ResultsFor(host, Resources, Resources.keys, searchStandardDirs).keys == ["node"]
  {
    var u := "https://nodejs.org/en/";
    assert Resources.vals["node"].url == u;
    assert Classify(u) == NodeJs by {
      assert u[8..14] == "nodejs";
      ContainsAt(u, "nodejs", 8);
      ClassifyOrder(u);
    }
    ResultsForKeys(host, Resources, Resources.keys, searchStandardDirs);
  }
}
