# resource-checker, modelled in Dafny

resource-checker inventories developer tools on one machine: node, npm, Java,
Python, Git. For each configured resource it does four things:

- It finds every copy the shell reports (`where` on Windows, `which -a`
  elsewhere).
- It can also search the standard install directories.
- It records whether each copy is executable, which version it prints, and
  whether it was found through `PATH`.
- It looks up the latest published version on the publisher's site.

It then writes a text report with these parts:

- a section per resource, listing the executable copies;
- a tree of the directories found outside `PATH`, each with a count;
- the `PATH` directories no search covered;
- a snapshot of three environment variables.

The project models both forms of the program:

- `main.py`: discovery with the optional standard-directory search, per-path
  counts, the directory hierarchy and its printer, and the hierarchical report.
- `resource_checker.py`: the older single-file form, with six resources, no
  standard-directory search and a flat report.

Modules:

- `PyStr`: the Python string operations the program uses, given explicit
  definitions. These are `split`/`join` on one separator (inverse of each
  other), `find`, `in`, slicing with Python's clamping, `strip`/`rstrip`,
  `str(int)`, `str(bool)` and lexicographic order.
- `OrderedDicts`: a Python `dict` as an insertion-ordered key list plus a map.
  Assigning to a new key appends it and assigning to an old key keeps the order.
- `Settings`: `config/settings.py`, the platform and the resource table (only
  `node` is enabled).
- `Inventory`: `is_executable`, `get_path_details`, `get_latest_version`,
  `os.path.dirname`, `list_uncovered_path_dirs`, `log_environment_variables`
  and `get_resources`. Everything the program learns from the operating system
  or the network (command output, file tests, HTTP responses, glob matches) is
  a field of a `Host` value. The model is a function of that value.
- `Hierarchy`: `build_path_counts` and the nested-dict directory tree grown
  with `setdefault`, plus `print_hierarchy` with its sorted, recursive walk.
- `Report`: main.py's `generate_report`.
- `LegacyChecker`: resource_checker.py's table, its `get_resources` and its flat
  `generate_report`.

The counting loops and report writers are methods over local sequences and maps
whose loops mirror the source. Each is proved equal to a specification function,
and lemmas then state what the report holds in terms of the inputs.

## Model

| member | source | states |
|---|---|---|
| PyStr.Split | main.py:161 | `str.split` on one character always gives at least one part, and no part contains the separator |
| PyStr.JoinSplit | main.py:161-163 | joining the parts of a split with the same separator gives the original string back |
| PyStr.SplitJoin | main.py:161-163 | splitting a join of separator-free parts gives those parts back |
| PyStr.JoinDistinct | main.py:163 | different separator-free part lists join to different strings, so each prefix key names one prefix |
| PyStr.Find | main.py:88-91 | `str.find` gives -1 exactly when the substring occurs nowhere from `start` on, and otherwise the first occurrence at or after `start` |
| PyStr.ContainsIff | main.py:80 | `sub in s` holds exactly when `sub` occurs at some index of `s` |
| PyStr.Slice | main.py:92 | a Python slice with in-range bounds is the ordinary subsequence |
| PyStr.RStrip | main.py:129 | `rstrip(chars)` removes exactly the trailing characters in `chars`: the result is a prefix, every removed character is in the set, and the last kept one is not |
| PyStr.LStrip | main.py:92 | `lstrip(chars)` removes exactly the leading characters in `chars` and leaves a suffix |
| PyStr.Strip | main.py:92 | `strip()` leaves no whitespace at either end |
| PyStr.RStripDropsLast | main.py:129 | one trailing separator after a non-separator is all that `rstrip` removes |
| PyStr.NatStr | main.py:147 | `str(count)` is the decimal numeral of the count: digits only, denoting exactly `count` (read back by the independent `DecimalValue`), with no leading zero |
| PyStr.LexLessIrreflexive | main.py:144 | the order `sorted` uses on keys is irreflexive |
| PyStr.LexLessTransitive | main.py:144 | the order `sorted` uses on keys is transitive |
| PyStr.LexLessTotal | main.py:144 | any two different keys are ordered one way or the other |
| PyStr.LexLessAsymmetric | main.py:144 | the order `sorted` uses on keys is asymmetric |
| OrderedDicts.ODict.Put | main.py:121 | `d[k] = v` maps `k` to `v`, appends a new key at the end and keeps the order when the key is old |
| OrderedDicts.PutNewKey | main.py:121 | assigning a key not yet in the dict appends it after the existing keys |
| OrderedDicts.Empty | main.py:111 | `{}` has no keys |
| Inventory.IsExecutable | main.py:21-26 | on Windows, executable means an existing file ending in .exe, .cmd or .bat; elsewhere it means `os.access(X_OK)` |
| Inventory.GetPathDetails | main.py:104-107 | the pair is the executable flag, and a version exactly when the path is executable, namely the first line the path prints for the version argument |
| Inventory.LatestVersion | main.py:75-100 | a request exception gives "Error fetching data: ...", a non-200 status gives "Failed to fetch version from <url>", and a 200 response is handed to the publisher dispatch |
| Inventory.FirstMatch | main.py:80-96 | the publisher chosen is one whose marker the url contains; no publisher is chosen only when the url contains none of the markers |
| Inventory.ClassifyOrder | main.py:80-96 | "nodejs" wins over "python", which wins over "npmjs"; a url with none of them has no publisher |
| Inventory.LatestVersionByPublisher | main.py:80-96 | for the dispatch `LatestFromPublisher` after a 200 response: Node.js gives "version (date)" from the release index with "Unknown version" defaults, python.org gives the release number cut from the page, npm gives the registry's version, others give "Latest version info not found", and a failed secondary fetch gives "Error fetching data: ..." |
| Inventory.ReleaseNumberBetweenMarkers | main.py:88-92 | when both markers are present, the python.org release number is the stripped text between the end of the release-number marker and the next `</span>`, and it contains no `</span>` |
| Inventory.BetweenMarkers | main.py:88-91 | the text between an opening marker and the next closing marker contains no closing marker |
| Inventory.StripOffset | main.py:92 | the stripped text is a contiguous piece of the original |
| Inventory.AfterLastSep | main.py:129 | the index `os.path.dirname` cuts at is just after the last separator, and no separator follows it |
| Inventory.DirnameIsPrefix | main.py:129 | `os.path.dirname(p)` (`Dirname`) is a prefix of `p` (its exact value for a file under a directory is the next row) |
| Inventory.DirnameOfChild | main.py:129 | `os.path.dirname(dir + sep + name)` is `dir` for a file name without separators under a directory that is not a bare drive |
| Inventory.DropCovered | main.py:51 | the uncovered list keeps, in `PATH` order, every non-empty entry not in the covered set, each as many times as it occurs in `PATH`, and nothing else |
| Inventory.UncoveredPathDirsSpec | main.py:48-52 | the result of `UncoveredPathDirs` is the `PATH` entries split on `os.pathsep`, in order, keeping every occurrence of each non-empty, uncovered entry and dropping all others |
| Inventory.NothingCoveredKeepsNonEmpty | main.py:48-52 | with nothing covered, every non-empty `PATH` entry is listed |
| Inventory.EnvironmentVariables | main.py:11-18 | the snapshot lists PATH, JAVA_HOME and PYTHON_HOME in that order, with the environment's value or "Not Set" |
| Inventory.RecordPathsKeys | main.py:123-128 | recording paths keeps the old keys in front, followed by the recorded paths not yet present, each at its first occurrence in recording order; the dict holds exactly the old keys and the recorded paths |
| Inventory.RecordPathsMembers | main.py:123-128 | after recording, a path is a key exactly when it was one before or was recorded |
| Inventory.RecordPathsOrder | main.py:123-128 | after recording, the keys are the old keys followed by the first occurrences of the new paths, in recording order |
| Inventory.FreshSpec | main.py:123-128 | the first occurrences of the new paths hold each path not seen before exactly once, and nothing else |
| Inventory.FreshAppend | main.py:125 | one more assignment adds its path to the key order exactly when the path is not yet a key |
| Inventory.RecordPaths | main.py:123-128 | whatever paths are assigned, the paths dict stays well formed: each key listed once, exactly the mapped keys listed |
| Inventory.ResultsFor | main.py:114-121 | whatever resources are processed, the results dict stays well formed |
| Inventory.RecordPathsValues | main.py:123-128 | every recorded path maps to its own details, the last recording winning, and other entries are untouched |
| Inventory.GetResources | main.py:110-131 | the loop yields the results dict and covered set of the specification for every configured resource, in table order |
| Inventory.ConfiguredResources | main.py:114 | the configured table holds "node" alone, its url selects the Node.js release index, and the results dict has "node" as its only key |
| Inventory.CollectResource | main.py:115-129 | one iteration builds the resource's entry and the covered characters its standard matches add |
| Inventory.ResourceEntrySpec | main.py:115-128 | an entry (`ResourceEntry`) holds the latest-version lookup and url; its paths are exactly the shell's and the standard search's; its key order is the shell's paths in `where`/`which` order, then the standard matches not already listed, in glob order, each at its first occurrence; a path is in `PATH` exactly when the standard search did not also find it; the details agree with `get_path_details` |
| Inventory.ResourceEntryPaths | main.py:123-128 | the recorded paths and their `InPath` and detail values, as in the row above |
| Inventory.ResourceEntryOrder | main.py:123-128 | the paths dict's keys are the shell's paths in discovery order without repeats, then the standard-only matches in glob order without repeats, so every `PATH` match precedes every standard-only match |
| Inventory.ResourceEntryKeys | main.py:123-128 | the key order of one resource's paths dict, as in the row above |
| Inventory.NoSearchMeansAllInPath | main.py:118-125 | without the standard search, every recorded path came from the shell and is marked in `PATH` |
| Inventory.ResultsForSpec | main.py:110-131 | the results dict has the configured resources as keys in table order, and each maps to its own entry |
| Inventory.ResultsForKeys | main.py:114-121 | the result keys are the resource names in table order |
| Inventory.ResultsForValues | main.py:114-128 | each resource maps to the entry built from its own settings |
| Inventory.CoveredIsCharacters | main.py:129 | every element `covered_dirs` receives is a single character |
| Inventory.CoveredHasDirnameChars | main.py:129 | every character of every standard match's directory name is in `covered_dirs` |
| Inventory.CoveredComesFromMatches | main.py:129 | every element of `covered_dirs` is one character of some standard match's directory name |
| Inventory.CoveredByPathsSpec | main.py:126-129 | for one resource, `covered_dirs` gains exactly the one-character strings of its matches' directory names |
| Inventory.NoSearchCoversNothing | main.py:118-129 | without the standard search nothing is covered |
| Inventory.AsWrittenMatchDirectoryStaysUncovered | main.py:129 | a `PATH` directory that holds a standard match is still listed as uncovered |
| Inventory.CoveredDirectories | main.py:129 | the corrected covered set holds exactly the directory names of the standard matches |
| Inventory.IntendedMatchDirectoryIsCovered | main.py:129 | with the corrected covered set, a directory holding a standard match is not listed as uncovered |
| Hierarchy.Prefixes | main.py:161-163 | there is one prefix key per backslash-separated part |
| Hierarchy.PrefixesSpec | main.py:161-163 | the prefix keys of a path are exactly its leading runs of whole parts, joined, and all differ |
| Hierarchy.PrefixLeads | main.py:162-163 | each prefix key is a leading run of the path's parts |
| Hierarchy.LeadIsPrefix | main.py:162-163 | each leading run of parts is one of the prefix keys |
| Hierarchy.PrefixesDistinct | main.py:162-163 | the prefix keys of one path are pairwise different |
| Hierarchy.BumpSpec | main.py:162-164 | after counting keys (`Bump`), each key's count grows by its number of occurrences and the dict's keys are the old ones plus the counted ones |
| Hierarchy.CountPrefixes | main.py:161-164 | the inner loop adds one to the count of every prefix key of the path |
| Hierarchy.BuildPathCounts | main.py:151-165 | the counts are those of all recorded paths of all resources, in dict order |
| Hierarchy.PathKeys | main.py:159-160 | the paths visited are exactly the recorded paths of the resources visited: every one of them, and nothing else |
| Hierarchy.CountsOfSpec | main.py:151-165 | in the counts of a list of paths (`CountsOf`), a key is present exactly when some path has it as a leading run of parts, and its count is the number of such paths |
| Hierarchy.DistinctOccursOnce | main.py:162-164 | a path adds at most one to any one key |
| Hierarchy.CountsArePositive | main.py:164 | every key in the counts dict has a count of at least one |
| Hierarchy.ChildIndex | main.py:186 | `setdefault` finds the first entry with the key, or reports none |
| Hierarchy.InsertChain | main.py:183-186 | inserting a path's parts (`Insert`, the `setdefault` walk) adds exactly its leading runs as chains of nested keys and keeps all others |
| Hierarchy.InsertKeepsKeys | main.py:186 | `setdefault` keeps a level's key order and appends a new key at the end |
| Hierarchy.InsertWellFormed | main.py:186 | after `setdefault` no level holds the same key twice |
| Hierarchy.GrowChains | main.py:175-186 | the tree `Grow` builds is well formed, and its chains of nested keys are exactly the leading part-runs of the resource's paths that are not in `PATH` |
| Hierarchy.GrowWellFormed | main.py:175-186 | no level of the grown tree holds a key twice |
| Hierarchy.GrowChainsIff | main.py:175-186 | the chains of the grown tree are exactly the leading part-runs of the out-of-`PATH` paths |
| Hierarchy.InsertByName | main.py:144 | inserting an entry into a sorted level keeps it sorted and adds exactly that entry |
| Hierarchy.SortByName | main.py:144 | `sorted(current.items())` is a permutation of the level in ascending key order |
| Hierarchy.Spaces | main.py:147 | `' ' * indent` is `indent` spaces |
| Hierarchy.PrintHierarchy | main.py:135-148 | the recursive printer appends exactly the rendering of the level: entries in ascending key order, each line followed by its subtree two spaces deeper, with the count looked up under the key plus child-names string |
| Hierarchy.SizeFirstSum | main.py:144-148 | the lines of the first entries number as the sum of their sizes |
| Hierarchy.WeightsPermutation | main.py:144 | sorting a level does not change how many lines it produces |
| Hierarchy.RenderLength | main.py:135-148 | the printer's output (`Render`) has exactly one line per node of the tree |
| Hierarchy.RenderFirstLength | main.py:144-148 | the first `n` sorted entries produce as many lines as they have nodes |
| Hierarchy.NodeAt | main.py:144-147 | the entry at the end of a chain carries the chain's last key |
| Hierarchy.RenderFirstGrows | main.py:144-148 | the lines of fewer entries (`RenderFirst`) are a prefix of those of more entries |
| Hierarchy.EntryLinesInRender | main.py:144-148 | an entry's own line and all lines of its subtree appear in its level's rendering |
| Hierarchy.KthEntryLinesInRender | main.py:144-148 | the same, for the entry at a given sorted position |
| Hierarchy.ChainHasLine | main.py:135-148 | every directory in the tree gets a line, indented two spaces per level |
| Hierarchy.TwoLevelRender | main.py:182-188 | a single `dir\name` path grows a one-entry, two-level tree, which prints as two lines |
| Hierarchy.LeafRender | main.py:144-148 | a level with one empty entry prints one line |
| Hierarchy.TopRender | main.py:144-148 | a level with one entry that has one empty child prints two lines |
| Hierarchy.SinglePathCounts | main.py:161-164 | for a single `dir\name` path, the full path and `dir` are each counted once and the bare `name` is not counted |
| Hierarchy.OccurrencesSingle | main.py:162-164 | a single path counts a key once exactly when the key is a leading run of its parts |
| Hierarchy.AsWrittenLeafShowsZero | main.py:145-146 | with the key as written, the leaf of `dir\name` prints a count of 0; with full-prefix keys it prints 1 |
| Hierarchy.OccurrencesPositive | main.py:162-164 | a key that leads some path is counted at least once |
| Hierarchy.IntendedCountIsPathsBelow | main.py:145-146 | under the corrected key, every printed directory's key is its full path from the root, and its count is the number of paths below it, at least one |
| Hierarchy.FullPrefixKeyOfChain | main.py:145 | under the corrected key, an entry's key is its chain joined with backslashes |
| Hierarchy.ChainCountPositive | main.py:164 | every chain of the grown tree is counted at least once |
| Report.Indented | main.py:194 | the uncovered directories are listed each indented by two spaces |
| Report.EnvLines | main.py:199-200 | each environment variable is listed as "  NAME: value" |
| Report.ReportResource | main.py:173-189 | one resource's section is its header, its latest-version line, its executable paths' blocks, its hierarchy lines and a blank line |
| Report.GenerateReport | main.py:168-202 | the report is the sections (`Sections`) of all resources in dict order, then the closing part |
| Report.WriteClosing | main.py:191-200 | the closing part is the uncovered listing when non-empty, a blank line, the environment header and the three variables |
| Report.HeaderSaysNoPaths | main.py:173 | a resource's header ends in "No paths found" exactly when it has no paths |
| Report.ExecutablePaths | main.py:176-177 | the paths that get a block are exactly the executable ones |
| Report.BlocksSpec | main.py:176-181 | the blocks (`Blocks`) have four lines per executable path, and the m-th block describes the m-th executable path |
| Report.BlocksLength | main.py:176-181 | there are four lines per executable path |
| Report.BlocksContent | main.py:176-181 | the m-th four lines are the block of the m-th executable path |
| Report.BlocksAreExecutable | main.py:179 | every block's second line reads "Executable: True" |
| Report.ResourceSectionShape | main.py:172-189 | a section starts with the header and latest-version line, then holds the blocks and one line per tree node, and ends with a blank line |
| Report.ClosingListsUncovered | main.py:191-195 | the "Uncovered PATH Directories:" heading appears exactly when some `PATH` directory is uncovered, followed by each of them in order |
| Report.ClosingListsEnvironment | main.py:195-200 | the report ends with a blank line, "Environment Variables:" and the three variables |
| LegacyChecker.LegacyResourcesValid | resource_checker.py:10-17 | the legacy table is a dict of six resources in the order node, npm, Java, Python, Git, Hi |
| LegacyChecker.NodeUrlIsNodeJs | resource_checker.py:11 | node's url selects the Node.js release index |
| LegacyChecker.NpmUrlIsNpm | resource_checker.py:12 | npm's url selects the npm registry |
| LegacyChecker.PythonUrlIsPythonOrg | resource_checker.py:14 | Python's url selects the python.org release-number scrape |
| LegacyChecker.GitUrlIsUnknown | resource_checker.py:15-16 | Git's url (shared by "Hi") selects no publisher |
| LegacyChecker.NpmMarkerOnly | resource_checker.py:111 | a url with "npmjs" and neither a 'd' nor a 'y' (so neither "nodejs" nor "python") selects npm |
| LegacyChecker.PythonMarkerOnly | resource_checker.py:104 | a url with "python" and no "j" selects python.org |
| LegacyChecker.NoMarkerLetters | resource_checker.py:98-114 | a url without "j" and "y" selects no publisher |
| LegacyChecker.LegacyGetResources | resource_checker.py:128-147 | the legacy results are those of the shared specification with the search off; nothing is covered and every path came from the shell and is in `PATH` |
| LegacyChecker.FlatReportResource | resource_checker.py:153-160 | a flat section is the header, the latest-version line, a block per recorded path and a blank line |
| LegacyChecker.LegacyGenerateReport | resource_checker.py:150-172 | the flat report is the flat sections (`FlatSections`) of all resources in dict order, then the same closing part as main.py's |
| LegacyChecker.FlatBlocksSpec | resource_checker.py:155-159 | the flat blocks (`FlatBlocks`) have four lines per recorded path, executable or not, and the m-th block describes the m-th path |
| LegacyChecker.FlatBlocksLength | resource_checker.py:155-159 | there are four lines per recorded path |
| LegacyChecker.InPathBlocks | resource_checker.py:159 | when every path is in `PATH`, every block's fourth line reads "In-Path Variable: True" |
| LegacyChecker.NoSearchBlocksSayInPath | resource_checker.py:136-159 | since the legacy run never searches, every block of its report reads "In-Path Variable: True" |
| LegacyChecker.NoSearchListsWholePath | resource_checker.py:136-165 | since nothing is ever covered, the legacy report lists every non-empty `PATH` entry as uncovered |
| LegacyChecker.FlatAgreesWhenAllExecutableInPath | resource_checker.py:150-160 | when every path is executable and in `PATH`, the flat section and main.py's hierarchical section are the same lines |
| LegacyChecker.AllExecutableBlocks | resource_checker.py:155-159 | when every path is executable, main.py's blocks and the flat blocks are the same |
| LegacyChecker.AllInPathGrowsNothing | main.py:182-186 | when every path is in `PATH`, the hierarchy stays empty |

## Left out

- Running commands (`run_command`, `get_version`, `find_executable_paths`), `glob`, `os.access`, `os.path.isfile`, HTTP requests and JSON decoding are not modelled. Their results are fields of `Inventory.Host`, taken as given.
- `search_in_standard_dirs` is not modelled: the glob over `STANDARD_INSTALL_DIRS` and its `X_OK` filter reach the model as `Host.standardMatches`.
- `prompt_for_update`, `save_report` and `main` (interactive input, package installs, file writing, console output) are not modelled.
- BeautifulSoup parsing is not modelled. The source builds the soup and never uses it, and the release number comes from `str.find` alone, which is modelled.
- `os.path.dirname` is modelled for plain paths and drive-letter paths. UNC shares (`\\server\share`) are not.
- The nested `hierarchy` dicts are modelled as values. `setdefault` returning the same inner dict that is later mutated (aliasing) is replaced by the equivalent recursive insertion.
- Inventory.LatestVersionByPublisher: states the result for each publisher chosen by the dispatch. The JSON shape errors a real response could raise (a non-list index, an empty list) are not modelled. The release index and registry answers reach the model already decoded.
- Inventory.TextBetween: requires a non-empty opening marker. The source only ever passes the literal `<span class="release-number">`.
- Inventory.ReleaseNumberBetweenMarkers: requires that both markers occur. When `find` returns -1 the model still computes Python's slice, but no lemma describes that text.
- LegacyChecker.GitUrlIsUnknown: the Java entry's url is not classified by a lemma. Its result goes through the same `FirstMatch` contract as every other url.
- Hierarchy.PrintHierarchy: takes the keys above the current level as a ghost parameter, used only to state the corrected counter key. The source passes no such argument.
- Integers are unbounded and there is no floating point in the core, so no width is modelled.

## Findings

| source | as written | input that shows it | evidently intended | confidence | as-written member | corrected member |
|---|---|---|---|---|---|---|
| main.py:129 | `covered_dirs.update(os.path.dirname(path))` adds each character of the directory name to the set | a standard match `/opt/node/bin/node` with `/opt/node/bin` on `PATH`: the set gets `"/"`, `"o"`, `"p"`, ..., and `/opt/node/bin` is still listed as uncovered | add the directory itself (`covered_dirs.add(...)`), so its `PATH` entry counts as covered | not executed | Inventory.AsWrittenMatchDirectoryStaysUncovered | Inventory.IntendedMatchDirectoryIsCovered |
| main.py:145-146 | the count key is the entry's name joined with its children's names | the single out-of-`PATH` path `dir\name`: the leaf `name` is looked up under `name`, which was never counted, and prints `(0)` | look up the entry's full path from the hierarchy root, which `build_path_counts` did count | not executed | Hierarchy.AsWrittenLeafShowsZero | Hierarchy.IntendedCountIsPathsBelow |
