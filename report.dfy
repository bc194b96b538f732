/** main.py's `generate_report`: the list of report lines built from the
    resource results, the covered directories and the environment. */
module Report {
  import opened PyStr
  import opened OrderedDicts
  import opened Inventory
  import opened Settings
  import opened Hierarchy

  /** Every resource's `paths` dict is well formed. */
  predicate ResultsValid(results: ODict<string, ResourceResult>)
  {
    results.Valid() && forall n :: n in results.vals ==> results.vals[n].paths.Valid()
  }

  /** `str(version)`: the version, or "None" for a path that is not executable. */
  function VersionStr(v: Option<string>): string
  {
    match v
    case None => "None"
    case Some(s) => s
  }

  /** The four lines written for the entry `path`. */
  function PathBlock(path: string, d: PathDetails): seq<string>
  {
    ["\tPath: " + path,
     "\t\t\tExecutable: " + BoolStr(d.executable),
     "\t\t\tVersion: " + VersionStr(d.version),
     "\t\t\tIn-Path Variable: " + BoolStr(d.inPath)]
  }

  /** A resource's first line: its name, and "No paths found" when it has no paths. */
  function Header(name: string, r: ResourceResult): string
  {
    name + ": " + (if |r.paths.keys| == 0 then "No paths found" else "")
  }

  /** A resource's second line. */
  function LatestLine(o: OnlineDetails): string
  {
    "\tLatest Available Version: " + o.latestVersion + "  -  " + o.url
  }

  /** The `Path:` blocks of the entries `keys`, in order, for the executable ones. */
  function Blocks(keys: seq<string>, vals: map<string, PathDetails>): seq<string>
    requires forall k :: k in keys ==> k in vals
    decreases |keys|
  {
    if keys == [] then []
    else
      var p := keys[|keys| - 1];
      Blocks(keys[..|keys| - 1], vals) + (if vals[p].executable then PathBlock(p, vals[p]) else [])
  }

  /** The lines of one resource: header, latest version, `Path:` blocks, the tree
      of its standard-directory matches, and an empty line. */
  function ResourceSection(name: string, r: ResourceResult, counts: map<string, nat>, rule: CountKeyRule): seq<string>
    requires r.paths.Valid()
  {
    [Header(name, r), LatestLine(r.online)]
      + Blocks(r.paths.keys, r.paths.vals)
      + Render(Grow(r.paths.keys, r.paths.vals), [], counts, 2, rule)
      + [""]
  }

  /** The sections of the resources `names`, in order. */
  function Sections(results: ODict<string, ResourceResult>, names: seq<string>, counts: map<string, nat>,
                    rule: CountKeyRule): seq<string>
    requires forall n :: n in names ==> n in results.vals && results.vals[n].paths.Valid()
    decreases |names|
  {
    if names == [] then []
    else
      var n := names[|names| - 1];
      Sections(results, names[..|names| - 1], counts, rule) + ResourceSection(n, results.vals[n], counts, rule)
  }

  /** `"  " + d` for each `d`. */
  function Indented(ds: seq<string>): (r: seq<string>)
    ensures |r| == |ds| && forall i :: 0 <= i < |ds| ==> r[i] == "  " + ds[i]
  {
    seq(|ds|, i requires 0 <= i < |ds| => "  " + ds[i])
  }

  /** `"  VAR: value"` for each variable. */
  function EnvLines(vars: seq<(string, string)>): (r: seq<string>)
    ensures |r| == |vars| && forall i :: 0 <= i < |vars| ==> r[i] == "  " + vars[i].0 + ": " + vars[i].1
  {
    seq(|vars|, i requires 0 <= i < |vars| => "  " + vars[i].0 + ": " + vars[i].1)
  }

  /** The lines after the resource sections. */
  function Closing(platform: Platform, env: map<string, string>, covered: set<string>): seq<string>
  {
    var uncovered := UncoveredPathDirs(platform, env, covered);
    (if uncovered != [] then ["Uncovered PATH Directories:"] + Indented(uncovered) else [])
      + [""]
      + ["Environment Variables:"]
      + EnvLines(EnvironmentVariables(env))
  }

  /** The report for `results`, with entry counts shown under `rule`. */
  function ReportLines(results: ODict<string, ResourceResult>, covered: set<string>, platform: Platform,
                       env: map<string, string>, rule: CountKeyRule): seq<string>
    requires ResultsValid(results)
  {
    Sections(results, results.keys, CountsOf(AllPathKeys(results)), rule) + Closing(platform, env, covered)
  }

  // ---------------------------------------------------------------------------
  // generate_report

  lemma BlocksStep(keys: seq<string>, vals: map<string, PathDetails>, j: nat)
    requires j < |keys| && forall k :: k in keys ==> k in vals
    ensures Blocks(keys[..j + 1], vals) ==
      Blocks(keys[..j], vals) + (if vals[keys[j]].executable then PathBlock(keys[j], vals[keys[j]]) else [])
    ensures Grow(keys[..j + 1], vals) ==
      if vals[keys[j]].inPath then Grow(keys[..j], vals) else Insert(Grow(keys[..j], vals), Split(keys[j], Backslash))
  {
    assert keys[..j + 1][..j] == keys[..j];
  }

  lemma SectionsStep(results: ODict<string, ResourceResult>, names: seq<string>, i: nat, counts: map<string, nat>,
                     rule: CountKeyRule)
    requires i < |names| && forall n :: n in names ==> n in results.vals && results.vals[n].paths.Valid()
    ensures Sections(results, names[..i + 1], counts, rule) ==
      Sections(results, names[..i], counts, rule) + ResourceSection(names[i], results.vals[names[i]], counts, rule)
  {
    assert names[..i + 1][..i] == names[..i];
  }

  lemma AppendFour<T>(s: seq<T>, a: T, b: T, c: T, d: T)
    ensures s + [a] + [b] + [c] + [d] == s + [a, b, c, d]
  {
  }

  lemma Assoc<T>(a: seq<T>, b: seq<T>, c: seq<T>)
    ensures a + b + c == a + (b + c)
  {
  }

  lemma SectionShape<T>(s: seq<T>, h: T, l: T, blocks: seq<T>, tree: seq<T>, e: T)
    ensures s + [h] + [l] + blocks + tree + [e] == s + ([h, l] + blocks + tree + [e])
  {
  }

  /** The body of `generate_report`'s loop over the resources. */
  method ReportResource(report0: seq<string>, name: string, details: ResourceResult, counts: map<string, nat>)
    returns (report: seq<string>)
    requires details.paths.Valid()
    ensures report == report0 + ResourceSection(name, details, counts, ChildNamesKey)
  {
    var paths := details.paths;
    var header := name + ": " + (if |paths.keys| == 0 then "No paths found" else "");
    var latest := "\tLatest Available Version: " + details.online.latestVersion + "  -  " + details.online.url;
    assert header == Header(name, details) && latest == LatestLine(details.online);
    report := report0 + [header];
    report := report + [latest];
    ghost var head := report;
    var hierarchy := Tree([]);
    var j := 0;
    while j < |paths.keys|
      invariant j <= |paths.keys|
      invariant report == head + Blocks(paths.keys[..j], paths.vals)
      invariant hierarchy == Grow(paths.keys[..j], paths.vals)
    {
      var path := paths.keys[j];
      var d := paths.vals[path];
      BlocksStep(paths.keys, paths.vals, j);
      ghost var before := report;
      if d.executable {
        report := report + ["\tPath: " + path];
        report := report + ["\t\t\tExecutable: " + BoolStr(d.executable)];
        report := report + ["\t\t\tVersion: " + VersionStr(d.version)];
        report := report + ["\t\t\tIn-Path Variable: " + BoolStr(d.inPath)];
        AppendFour(before, "\tPath: " + path, "\t\t\tExecutable: " + BoolStr(d.executable),
          "\t\t\tVersion: " + VersionStr(d.version), "\t\t\tIn-Path Variable: " + BoolStr(d.inPath));
        Assoc(head, Blocks(paths.keys[..j], paths.vals), PathBlock(path, d));
      }
      if !d.inPath {
        var parts := Split(path, Backslash);
        hierarchy := Insert(hierarchy, parts);
      }
      j := j + 1;
    }
    assert paths.keys[..j] == paths.keys;
    ghost var blocks := Blocks(paths.keys, paths.vals);
    report := PrintHierarchy(report, hierarchy, counts, 2, []);
    report := report + [""];
    SectionShape(report0, header, latest, blocks, Render(hierarchy, [], counts, 2, ChildNamesKey), "");
  }

  /** `generate_report(resource_results, covered_dirs)`; `platform` and `env`
      stand for `os.pathsep` and `os.environ`. */
  method GenerateReport(results: ODict<string, ResourceResult>, covered: set<string>, platform: Platform,
                        env: map<string, string>) returns (report: seq<string>)
    requires ResultsValid(results)
    ensures report == ReportLines(results, covered, platform, env, ChildNamesKey)
  {
    report := [];
    var counts := BuildPathCounts(results);
    var i := 0;
    while i < |results.keys|
      invariant i <= |results.keys|
      invariant report == Sections(results, results.keys[..i], counts, ChildNamesKey)
    {
      var name := results.keys[i];
      SectionsStep(results, results.keys, i, counts, ChildNamesKey);
      report := ReportResource(report, name, results.vals[name], counts);
      i := i + 1;
    }
    assert results.keys[..i] == results.keys;
    report := WriteClosing(report, covered, platform, env);
  }

  /** The tail of `generate_report`: the uncovered `PATH` directories under their
      heading when there are any, an empty line, and the environment snapshot. */
  method WriteClosing(report0: seq<string>, covered: set<string>, platform: Platform, env: map<string, string>)
    returns (report: seq<string>)
    ensures report == report0 + Closing(platform, env, covered)
  {
    report := report0;
    var uncovered := UncoveredPathDirs(platform, env, covered);
    ghost var listing: seq<string> := [];
    if uncovered != [] {
      report := report + ["Uncovered PATH Directories:"];
      report := report + Indented(uncovered);
      listing := ["Uncovered PATH Directories:"] + Indented(uncovered);
      Assoc(report0, ["Uncovered PATH Directories:"], Indented(uncovered));
    }
    assert report == report0 + listing;
    report := report + [""];
    Assoc(report0, listing, [""]);
    var envVars := EnvironmentVariables(env);
    report := report + ["Environment Variables:"];
    Assoc(report0, listing + [""], ["Environment Variables:"]);
    ghost var beforeVars := report;
    var k := 0;
    while k < |envVars|
      invariant k <= |envVars|
      invariant report == beforeVars + EnvLines(envVars[..k])
    {
      assert EnvLines(envVars[..k + 1]) == EnvLines(envVars[..k]) + ["  " + envVars[k].0 + ": " + envVars[k].1];
      Assoc(beforeVars, EnvLines(envVars[..k]), ["  " + envVars[k].0 + ": " + envVars[k].1]);
      report := report + ["  " + envVars[k].0 + ": " + envVars[k].1];
      k := k + 1;
    }
    assert envVars[..k] == envVars;
    Assoc(report0, listing + [""] + ["Environment Variables:"], EnvLines(envVars));
  }

  // ---------------------------------------------------------------------------
  // What the report says

  /** A resource's header ends in "No paths found" exactly when it has no paths. */
  lemma HeaderSaysNoPaths(name: string, r: ResourceResult)
    ensures EndsWith(Header(name, r), "No paths found") <==> |r.paths.keys| == 0
  {
    var h := Header(name, r);
    if |r.paths.keys| != 0 {
      assert h[|h| - 1] == ' ';
    }
  }

  /** The entries of `keys` whose Executable is True, in order. */
  function ExecutablePaths(keys: seq<string>, vals: map<string, PathDetails>): (r: seq<string>)
    requires forall k :: k in keys ==> k in vals
    ensures forall p :: p in r <==> p in keys && vals[p].executable
    decreases |keys|
  {
    if keys == [] then []
    else
      var p := keys[|keys| - 1];
      var init := keys[..|keys| - 1];
      assert forall k :: k in keys <==> k in init || k == p by { assert keys == init + [p]; }
      ExecutablePaths(init, vals) + (if vals[p].executable then [p] else [])
  }

  lemma KeepBlock<T>(before: seq<T>, add: seq<T>, m: nat)
    requires 4 * m + 4 <= |before|
    ensures (before + add)[4 * m..4 * m + 4] == before[4 * m..4 * m + 4]
  {
  }

  lemma LastBlock<T>(before: seq<T>, block: seq<T>)
    ensures (before + block)[|before|..|before| + |block|] == block
  {
  }

  /** The `Path:` blocks are four lines each, one block per executable entry, in
      dict order. */
  lemma BlocksSpec(keys: seq<string>, vals: map<string, PathDetails>)
    requires forall k :: k in keys ==> k in vals
    ensures var exe := ExecutablePaths(keys, vals);
            |Blocks(keys, vals)| == 4 * |exe| &&
            forall m :: 0 <= m < |exe| ==>
              Blocks(keys, vals)[4 * m..4 * m + 4] == PathBlock(exe[m], vals[exe[m]])
  {
    BlocksLength(keys, vals);
    BlocksContent(keys, vals);
  }

  /** Four lines per executable entry. */
  lemma {:induction false} BlocksLength(keys: seq<string>, vals: map<string, PathDetails>)
    requires forall k :: k in keys ==> k in vals
    ensures |Blocks(keys, vals)| == 4 * |ExecutablePaths(keys, vals)|
    decreases |keys|
  {
    if keys != [] {
      var init := keys[..|keys| - 1];
      assert forall k :: k in init ==> k in keys;
      BlocksLength(init, vals);
    }
  }

  /** The `m`-th four lines are the block of the `m`-th executable entry. */
  lemma {:induction false} BlocksContent(keys: seq<string>, vals: map<string, PathDetails>)
    requires forall k :: k in keys ==> k in vals
    ensures var exe := ExecutablePaths(keys, vals);
            forall m :: 0 <= m < |exe| ==>
              4 * m + 4 <= |Blocks(keys, vals)| &&
              Blocks(keys, vals)[4 * m..4 * m + 4] == PathBlock(exe[m], vals[exe[m]])
    decreases |keys|
  {
    if keys != [] {
      var p := keys[|keys| - 1];
      var init := keys[..|keys| - 1];
      assert forall k :: k in init ==> k in keys;
      BlocksContent(init, vals);
      BlocksLength(init, vals);
      var before := Blocks(init, vals);
      var add := if vals[p].executable then PathBlock(p, vals[p]) else [];
      var exe0 := ExecutablePaths(init, vals);
      var exe := ExecutablePaths(keys, vals);
      assert exe == exe0 + (if vals[p].executable then [p] else []);
      assert Blocks(keys, vals) == before + add;
      forall m | 0 <= m < |exe|
        ensures 4 * m + 4 <= |Blocks(keys, vals)| &&
                Blocks(keys, vals)[4 * m..4 * m + 4] == PathBlock(exe[m], vals[exe[m]])
      {
        if m < |exe0| {
          assert exe[m] == exe0[m];
          KeepBlock(before, add, m);
        } else {
          assert m == |exe0| && vals[p].executable && exe[m] == p;
          LastBlock(before, add);
        }
      }
    }
  }

  /** Every block's second line says "Executable: True". */
  lemma BlocksAreExecutable(keys: seq<string>, vals: map<string, PathDetails>, m: nat)
    requires forall k :: k in keys ==> k in vals
    requires m < |ExecutablePaths(keys, vals)|
    ensures 4 * m + 1 < |Blocks(keys, vals)| && Blocks(keys, vals)[4 * m + 1] == "\t\t\tExecutable: " + BoolStr(true)
  {
    var exe := ExecutablePaths(keys, vals);
    var blocks := Blocks(keys, vals);
    assert 4 * m + 4 <= |blocks| && blocks[4 * m..4 * m + 4] == PathBlock(exe[m], vals[exe[m]]) by {
      BlocksContent(keys, vals);
    }
    assert vals[exe[m]].executable by { assert exe[m] in exe; }
    assert blocks[4 * m + 1] == blocks[4 * m..4 * m + 4][1];
  }

  lemma SectionLayout<T>(h: T, l: T, blocks: seq<T>, tree: seq<T>, e: T)
    ensures var x := [h, l] + blocks + tree + [e];
            |x| == 3 + |blocks| + |tree| && x[0] == h && x[1] == l &&
            x[2..2 + |blocks|] == blocks && x[|x| - 1] == e
  {
  }

  /** A resource's section: its header, its latest-version line, its `Path:`
      blocks, then one line per entry of the tree of its `InPath` False paths,
      then an empty line. */
  lemma ResourceSectionShape(name: string, r: ResourceResult, counts: map<string, nat>, rule: CountKeyRule)
    requires r.paths.Valid()
    ensures var lines := ResourceSection(name, r, counts, rule);
            var exe := ExecutablePaths(r.paths.keys, r.paths.vals);
            |lines| == 2 + 4 * |exe| + Size(Grow(r.paths.keys, r.paths.vals)) + 1 &&
            lines[0] == Header(name, r) && lines[1] == LatestLine(r.online) &&
            lines[2..2 + 4 * |exe|] == Blocks(r.paths.keys, r.paths.vals) &&
            lines[|lines| - 1] == ""
  {
    var tree := Grow(r.paths.keys, r.paths.vals);
    BlocksSpec(r.paths.keys, r.paths.vals);
    RenderLength(tree, [], counts, 2, rule);
    SectionLayout(Header(name, r), LatestLine(r.online), Blocks(r.paths.keys, r.paths.vals),
      Render(tree, [], counts, 2, rule), "");
  }

  lemma ClosingLayout<T>(listing: seq<T>, blank: T, head: T, vars: seq<T>)
    ensures var x := listing + [blank] + [head] + vars;
            |x| == |listing| + 2 + |vars| &&
            (forall i :: 0 <= i < |listing| ==> x[i] == listing[i]) &&
            x[|listing|] == blank && x[|listing| + 1] == head &&
            forall i :: 0 <= i < |vars| ==> x[|listing| + 2 + i] == vars[i]
  {
  }

  /** The closing lines open with the uncovered `PATH` directories, under their
      heading, only when there are any. */
  lemma ClosingListsUncovered(platform: Platform, env: map<string, string>, covered: set<string>)
    ensures var lines := Closing(platform, env, covered);
            var uncovered := UncoveredPathDirs(platform, env, covered);
            var listed := if uncovered != [] then 1 + |uncovered| else 0;
            |lines| == listed + 5 &&
            (lines[0] == "Uncovered PATH Directories:" <==> uncovered != []) &&
            (forall i :: 0 <= i < |uncovered| ==> lines[1 + i] == "  " + uncovered[i])
  {
    var uncovered := UncoveredPathDirs(platform, env, covered);
    var vars := EnvLines(EnvironmentVariables(env));
    ListingShape(uncovered, vars);
  }

  /** The closing layout for any uncovered list and any variable lines. */
  lemma ListingShape(uncovered: seq<string>, vars: seq<string>)
    ensures var lines := (if uncovered != [] then ["Uncovered PATH Directories:"] + Indented(uncovered) else [])
                         + [""] + ["Environment Variables:"] + vars;
            var listed := if uncovered != [] then 1 + |uncovered| else 0;
            |lines| == listed + 2 + |vars| &&
            (lines[0] == "Uncovered PATH Directories:" <==> uncovered != []) &&
            (forall i :: 0 <= i < |uncovered| ==> lines[1 + i] == "  " + uncovered[i])
  {
    var listing := if uncovered != [] then ["Uncovered PATH Directories:"] + Indented(uncovered) else [];
    ClosingLayout(listing, "", "Environment Variables:", vars);
    if uncovered != [] {
      assert forall i :: 0 <= i < |uncovered| ==> listing[1 + i] == Indented(uncovered)[i];
    } else {
      assert "Uncovered PATH Directories:" != "";
    }
  }

  /** The closing lines end with an empty line, the "Environment Variables:"
      heading and one line per variable, in the order PATH, JAVA_HOME, PYTHON_HOME. */
  lemma ClosingListsEnvironment(platform: Platform, env: map<string, string>, covered: set<string>)
    ensures var lines := Closing(platform, env, covered);
            var vars := EnvironmentVariables(env);
            |lines| >= 5 &&
            lines[|lines| - 5] == "" && lines[|lines| - 4] == "Environment Variables:" &&
            forall i :: 0 <= i < 3 ==> lines[|lines| - 3 + i] == "  " + vars[i].0 + ": " + vars[i].1
  {
    var uncovered := UncoveredPathDirs(platform, env, covered);
    var listing := if uncovered != [] then ["Uncovered PATH Directories:"] + Indented(uncovered) else [];
    var vars := EnvLines(EnvironmentVariables(env));
    ClosingLayout(listing, "", "Environment Variables:", vars);
  }
}
