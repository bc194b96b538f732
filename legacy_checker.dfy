/** resource_checker.py: the earlier, single-file form of the tool. It carries
    its own table of six resources, never searches the standard install
    directories (its `extra_paths` is always empty), and writes a flat report in
    which every recorded path gets a four-line block and no hierarchy is drawn.
    Its environment snapshot, executable test, per-path details, latest-version
    lookup and uncovered-`PATH` filter are the same code as main.py's and are
    shared with the `Inventory` and `Report` modules. */
module LegacyChecker {
  import opened PyStr
  import opened OrderedDicts
  import opened Settings
  import opened Inventory
  import opened Hierarchy
  import opened Report

  /** resource_checker.py's `RESOURCES`. */
  const LegacyResources: ODict<string, ResourceConfig> :=
    ODict(["node", "npm", "Java", "Python", "Git", "Hi"],
          map["node" := ResourceConfig("--version", "https://nodejs.org/en/"),
              "npm" := ResourceConfig("--version", "https://www.npmjs.com/"),
              "Java" := ResourceConfig("-version", "https://www.oracle.com/java/technologies/javase-jdk11-downloads.html"),
              "Python" := ResourceConfig("--version", "https://www.python.org/downloads/"),
              "Git" := ResourceConfig("--version", "https://git-scm.com/"),
              "Hi" := ResourceConfig("--version", "https://git-scm.com/")])

  /** The table is a well-formed dict of six resources, in this order. */
  lemma LegacyResourcesValid()
    ensures LegacyResources.Valid()
    ensures LegacyResources.keys == ["node", "npm", "Java", "Python", "Git", "Hi"]
  {
  }

  /** The latest-version lookup reads node from the Node.js release index. */
  lemma NodeUrlIsNodeJs()
    ensures Classify(LegacyResources.vals["node"].url) == NodeJs
  {
    var u := "https://nodejs.org/en/";
    assert LegacyResources.vals["node"].url == u;
    assert Classify(u) == NodeJs by {
      assert u[8..14] == "nodejs";
      ContainsAt(u, "nodejs", 8);
      ClassifyOrder(u);
    }
  }

  /** The latest-version lookup reads npm from the npm registry. */
  lemma NpmUrlIsNpm()
    ensures Classify(LegacyResources.vals["npm"].url) == Npm
  {
    var u := "https://www.npmjs.com/";
    assert LegacyResources.vals["npm"].url == u;
    assert OccursAt(u, "npmjs", 12) by { assert u[12..17] == "npmjs"; }
    NpmUrlLetters();
    NpmMarkerOnly(u, 12);
  }

  /** A url holding "npmjs" and no 'd' and no 'y' is read from the npm registry. */
  lemma NpmMarkerOnly(url: string, i: nat)
    requires OccursAt(url, "npmjs", i) && 'd' !in url && 'y' !in url
    ensures Classify(url) == Npm
  {
    ContainsAt(url, "npmjs", i);
    LacksChar(url, "nodejs", 2);
    LacksChar(url, "python", 1);
    ClassifyOrder(url);
  }

  /** The latest-version lookup reads Python from the release number on its page. */
  lemma PythonUrlIsPythonOrg()
    ensures Classify(LegacyResources.vals["Python"].url) == PythonOrg
  {
    var u := "https://www.python.org/downloads/";
    assert LegacyResources.vals["Python"].url == u;
    assert OccursAt(u, "python", 12) by { assert u[12..18] == "python"; }
    PythonUrlLetters();
    PythonMarkerOnly(u, 12);
  }

  /** A url holding "python" and no 'j' is read from the release number on its page. */
  lemma PythonMarkerOnly(url: string, i: nat)
    requires OccursAt(url, "python", i) && 'j' !in url
    ensures Classify(url) == PythonOrg
  {
    ContainsAt(url, "python", i);
    LacksChar(url, "nodejs", 4);
    ClassifyOrder(url);
  }

  /** Git and Hi share a url that no reading rule recognises: their lookup gives
      the fixed "not found" text. */
  lemma GitUrlIsUnknown()
    ensures Classify(LegacyResources.vals["Git"].url) == UnknownPublisher
    ensures LegacyResources.vals["Hi"].url == LegacyResources.vals["Git"].url
  {
    var u := "https://git-scm.com/";
    assert LegacyResources.vals["Git"].url == u;
    GitUrlLetters();
    NoMarkerLetters(u);
  }

  lemma NpmUrlLetters()
    ensures 'd' !in "https://www.npmjs.com/" && 'y' !in "https://www.npmjs.com/"
  {
  }

  lemma PythonUrlLetters()
    ensures 'j' !in "https://www.python.org/downloads/"
  {
  }

  lemma GitUrlLetters()
    ensures 'j' !in "https://git-scm.com/" && 'y' !in "https://git-scm.com/"
  {
  }

  /** A url with no 'j' and no 'y' holds none of the markers. */
  lemma NoMarkerLetters(url: string)
    requires 'j' !in url && 'y' !in url
    ensures Classify(url) == UnknownPublisher
  {
    LacksChar(url, "nodejs", 4);
    LacksChar(url, "python", 1);
    LacksChar(url, "npmjs", 3);
    ClassifyOrder(url);
  }

  // ---------------------------------------------------------------------------
  // get_resources

  /** `get_resources()`: the loop of main.py's `get_resources` with the
      standard-directory search switched off, over this file's table. */
  method LegacyGetResources(host: Host) returns (results: ODict<string, ResourceResult>, covered: set<string>)
    ensures results == ResultsFor(host, LegacyResources, LegacyResources.keys, false)
    ensures covered == {}
    ensures forall n, p :: n in results.vals && p in results.vals[n].paths.vals ==>
      results.vals[n].paths.vals[p].inPath && p in host.locate(n)
  {
    LegacyResourcesValid();
    results, covered := GetResources(host, LegacyResources, false);
    NoSearchCoversNothing(host, LegacyResources.keys);
    ResultsForSpec(host, LegacyResources, LegacyResources.keys, false);
    forall n, p | n in results.vals && p in results.vals[n].paths.vals
      ensures results.vals[n].paths.vals[p].inPath && p in host.locate(n)
    {
      NoSearchMeansAllInPath(host, n, LegacyResources.vals[n]);
    }
  }

  // ---------------------------------------------------------------------------
  // generate_report

  /** The four-line blocks of every entry of `keys`, in order. */
  function FlatBlocks(keys: seq<string>, vals: map<string, PathDetails>): seq<string>
    requires forall k :: k in keys ==> k in vals
    decreases |keys|
  {
    if keys == [] then []
    else
      var p := keys[|keys| - 1];
      FlatBlocks(keys[..|keys| - 1], vals) + PathBlock(p, vals[p])
  }

  /** The lines of one resource: header, latest version, a block per entry and an empty line. */
  function FlatSection(name: string, r: ResourceResult): seq<string>
    requires r.paths.Valid()
  {
    [Header(name, r), LatestLine(r.online)] + FlatBlocks(r.paths.keys, r.paths.vals) + [""]
  }

  /** The sections of the resources `names`, in order. */
  function FlatSections(results: ODict<string, ResourceResult>, names: seq<string>): seq<string>
    requires forall n :: n in names ==> n in results.vals && results.vals[n].paths.Valid()
    decreases |names|
  {
    if names == [] then []
    else
      var n := names[|names| - 1];
      FlatSections(results, names[..|names| - 1]) + FlatSection(n, results.vals[n])
  }

  /** The whole flat report. */
  function FlatReportLines(results: ODict<string, ResourceResult>, covered: set<string>, platform: Platform,
                           env: map<string, string>): seq<string>
    requires ResultsValid(results)
  {
    FlatSections(results, results.keys) + Closing(platform, env, covered)
  }

  lemma FlatBlocksStep(keys: seq<string>, vals: map<string, PathDetails>, j: nat)
    requires j < |keys| && forall k :: k in keys ==> k in vals
    ensures FlatBlocks(keys[..j + 1], vals) == FlatBlocks(keys[..j], vals) + PathBlock(keys[j], vals[keys[j]])
  {
    assert keys[..j + 1][..j] == keys[..j];
  }

  lemma FlatSectionsStep(results: ODict<string, ResourceResult>, names: seq<string>, i: nat)
    requires i < |names| && forall n :: n in names ==> n in results.vals && results.vals[n].paths.Valid()
    ensures FlatSections(results, names[..i + 1]) ==
      FlatSections(results, names[..i]) + FlatSection(names[i], results.vals[names[i]])
  {
    assert names[..i + 1][..i] == names[..i];
  }

  lemma FlatShape<T>(s: seq<T>, h: T, l: T, blocks: seq<T>, e: T)
    ensures s + [h] + [l] + blocks + [e] == s + ([h, l] + blocks + [e])
  {
  }

  /** The body of `generate_report`'s loop over the resources. */
  method FlatReportResource(report0: seq<string>, name: string, details: ResourceResult)
    returns (report: seq<string>)
    requires details.paths.Valid()
    ensures report == report0 + FlatSection(name, details)
  {
    var paths := details.paths;
    var header := name + ": " + (if |paths.keys| == 0 then "No paths found" else "");
    var latest := "\tLatest Available Version: " + details.online.latestVersion + "  -  " + details.online.url;
    assert header == Header(name, details) && latest == LatestLine(details.online);
    report := report0 + [header];
    report := report + [latest];
    ghost var head := report;
    var j := 0;
    while j < |paths.keys|
      invariant j <= |paths.keys|
      invariant report == head + FlatBlocks(paths.keys[..j], paths.vals)
    {
      var path := paths.keys[j];
      var d := paths.vals[path];
      FlatBlocksStep(paths.keys, paths.vals, j);
      ghost var before := report;
      report := report + ["\tPath: " + path];
      report := report + ["\t\t\tExecutable: " + BoolStr(d.executable)];
      report := report + ["\t\t\tVersion: " + VersionStr(d.version)];
      report := report + ["\t\t\tIn-Path Variable: " + BoolStr(d.inPath)];
      AppendFour(before, "\tPath: " + path, "\t\t\tExecutable: " + BoolStr(d.executable),
        "\t\t\tVersion: " + VersionStr(d.version), "\t\t\tIn-Path Variable: " + BoolStr(d.inPath));
      Assoc(head, FlatBlocks(paths.keys[..j], paths.vals), PathBlock(path, d));
      j := j + 1;
    }
    assert paths.keys[..j] == paths.keys;
    ghost var blocks := FlatBlocks(paths.keys, paths.vals);
    report := report + [""];
    FlatShape(report0, header, latest, blocks, "");
  }

  /** `generate_report(resource_results, covered_dirs)`; `platform` and `env`
      stand for `os.pathsep` and `os.environ`. */
  method LegacyGenerateReport(results: ODict<string, ResourceResult>, covered: set<string>, platform: Platform,
                              env: map<string, string>) returns (report: seq<string>)
    requires ResultsValid(results)
    ensures report == FlatReportLines(results, covered, platform, env)
  {
    report := [];
    var i := 0;
    while i < |results.keys|
      invariant i <= |results.keys|
      invariant report == FlatSections(results, results.keys[..i])
    {
      var name := results.keys[i];
      FlatSectionsStep(results, results.keys, i);
      report := FlatReportResource(report, name, results.vals[name]);
      i := i + 1;
    }
    assert results.keys[..i] == results.keys;
    report := WriteClosing(report, covered, platform, env);
  }

  // ---------------------------------------------------------------------------
  // What the flat report says

  /** Every entry gets its block, four lines each, in dict order, whether or not
      it is executable. */
  lemma {:induction false} FlatBlocksSpec(keys: seq<string>, vals: map<string, PathDetails>)
    requires forall k :: k in keys ==> k in vals
    ensures |FlatBlocks(keys, vals)| == 4 * |keys|
    ensures forall m :: 0 <= m < |keys| ==> FlatBlocks(keys, vals)[4 * m..4 * m + 4] == PathBlock(keys[m], vals[keys[m]])
    decreases |keys|
  {
    FlatBlocksLength(keys, vals);
    if keys != [] {
      var p := keys[|keys| - 1];
      var init := keys[..|keys| - 1];
      assert forall k :: k in init ==> k in keys;
      FlatBlocksSpec(init, vals);
      var before := FlatBlocks(init, vals);
      var add := PathBlock(p, vals[p]);
      var all := before + add;
      assert FlatBlocks(keys, vals) == all;
      forall m | 0 <= m < |keys|
        ensures all[4 * m..4 * m + 4] == PathBlock(keys[m], vals[keys[m]])
      {
        if m < |init| {
          assert keys[m] == init[m];
          KeepBlock(before, add, m);
        } else {
          assert |before| == 4 * m && keys[m] == p;
          LastBlock(before, add);
        }
      }
    }
  }

  lemma {:induction false} FlatBlocksLength(keys: seq<string>, vals: map<string, PathDetails>)
    requires forall k :: k in keys ==> k in vals
    ensures |FlatBlocks(keys, vals)| == 4 * |keys|
    decreases |keys|
  {
    if keys != [] {
      var init := keys[..|keys| - 1];
      assert forall k :: k in init ==> k in keys;
      FlatBlocksLength(init, vals);
    }
  }

  /** When every entry is on `PATH`, every block says "In-Path Variable: True". */
  lemma InPathBlocks(keys: seq<string>, vals: map<string, PathDetails>, m: nat)
    requires forall k :: k in keys ==> k in vals && vals[k].inPath
    requires m < |keys|
    ensures 4 * m + 3 < |FlatBlocks(keys, vals)|
    ensures FlatBlocks(keys, vals)[4 * m + 3] == "\t\t\tIn-Path Variable: " + BoolStr(true)
  {
    FlatBlocksSpec(keys, vals);
    var blocks := FlatBlocks(keys, vals);
    assert keys[m] in keys;
    assert blocks[4 * m + 3] == blocks[4 * m..4 * m + 4][3];
  }

  /** With the standard-directory search off, as here, every block of a
      resource's report section says "In-Path Variable: True". */
  lemma NoSearchBlocksSayInPath(host: Host, name: string, config: ResourceConfig, m: nat)
    requires m < |ResourceEntry(host, name, config, false).paths.keys|
    ensures var e := ResourceEntry(host, name, config, false);
            var blocks := FlatBlocks(e.paths.keys, e.paths.vals);
            4 * m + 3 < |blocks| && blocks[4 * m + 3] == "\t\t\tIn-Path Variable: " + BoolStr(true)
  {
    var e := ResourceEntry(host, name, config, false);
    NoSearchMeansAllInPath(host, name, config);
    InPathBlocks(e.paths.keys, e.paths.vals, m);
  }

  /** With the standard-directory search off, as here, nothing is covered, so the
      report lists every non-empty `PATH` entry as uncovered, in `PATH` order. */
  lemma NoSearchListsWholePath(host: Host, names: seq<string>, env: map<string, string>)
    ensures UncoveredPathDirs(host.platform, env, CoveredFor(host, names, false))
         == NonEmpty(Split(EnvGet(env, "PATH", ""), PathSep(host.platform)))
  {
    NoSearchCoversNothing(host, names);
    NothingCoveredKeepsNonEmpty(Split(EnvGet(env, "PATH", ""), PathSep(host.platform)));
  }

  /** When every entry is executable and on `PATH`, main.py's report section for
      a resource is the flat one: the tree is empty and no block is skipped. */
  lemma {:induction false} FlatAgreesWhenAllExecutableInPath(name: string, r: ResourceResult, counts: map<string, nat>,
                                                              rule: CountKeyRule)
    requires r.paths.Valid()
    requires forall p :: p in r.paths.vals ==> r.paths.vals[p].executable && r.paths.vals[p].inPath
    ensures ResourceSection(name, r, counts, rule) == FlatSection(name, r)
  {
    AllExecutableBlocks(r.paths.keys, r.paths.vals);
    AllInPathGrowsNothing(r.paths.keys, r.paths.vals);
    assert Render(Tree([]), [], counts, 2, rule) == [];
  }

  lemma {:induction false} AllExecutableBlocks(keys: seq<string>, vals: map<string, PathDetails>)
    requires forall k :: k in keys ==> k in vals && vals[k].executable
    ensures Blocks(keys, vals) == FlatBlocks(keys, vals)
    decreases |keys|
  {
    if keys != [] {
      assert forall k :: k in keys[..|keys| - 1] ==> k in keys;
      AllExecutableBlocks(keys[..|keys| - 1], vals);
    }
  }

  lemma {:induction false} AllInPathGrowsNothing(keys: seq<string>, vals: map<string, PathDetails>)
    requires forall k :: k in keys ==> k in vals && vals[k].inPath
    ensures Grow(keys, vals) == Tree([])
    decreases |keys|
  {
    if keys != [] {
      assert forall k :: k in keys[..|keys| - 1] ==> k in keys;
      AllInPathGrowsNothing(keys[..|keys| - 1], vals);
    }
  }
}
