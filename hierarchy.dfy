/** main.py's hierarchy builder: the per-prefix path counters of
    `build_path_counts`, the nested directory tree that `generate_report` grows
    with `setdefault`, and its rendering by `print_hierarchy`.

    Paths are split on a backslash only, as in the source, so a POSIX path such
    as "/opt/foo/bin/node" is a single segment. */
module Hierarchy {
  import opened PyStr
  import opened OrderedDicts
  import opened Inventory

  // ---------------------------------------------------------------------------
  // build_path_counts

  /** `"\\".join(parts[:i])` for i = 1 .. len(parts), where `parts = path.split("\\")`. */
  function Prefixes(path: string): (r: seq<string>)
    ensures |r| == |Split(path, Backslash)|
  {
    var parts := Split(path, Backslash);
    seq(|parts|, i requires 0 <= i < |parts| => Join(parts[..i + 1], Backslash))
  }

  /** `counts.get(k, 0)`. */
  function Get0(counts: map<string, nat>, k: string): nat
  {
    if k in counts then counts[k] else 0
  }

  /** `for k in ks: counts[k] = counts.get(k, 0) + 1`. */
  function Bump(counts: map<string, nat>, ks: seq<string>): map<string, nat>
    decreases |ks|
  {
    if ks == [] then counts
    else
      var before := Bump(counts, ks[..|ks| - 1]);
      var k := ks[|ks| - 1];
      before[k := Get0(before, k) + 1]
  }

  /** The counters after every path of `paths` has been counted, in order. */
  function CountsOf(paths: seq<string>): map<string, nat>
    decreases |paths|
  {
    if paths == [] then map[]
    else Bump(CountsOf(paths[..|paths| - 1]), Prefixes(paths[|paths| - 1]))
  }

  /** The path keys of the resources in `names`, resource by resource, each in dict order. */
  function PathKeys(results: ODict<string, ResourceResult>, names: seq<string>): (r: seq<string>)
    requires forall n :: n in names ==> n in results.vals
    ensures forall n, p :: n in names && p in results.vals[n].paths.keys ==> p in r
    ensures forall p :: p in r ==> exists n :: n in names && p in results.vals[n].paths.keys
    decreases |names|
  {
    if names == [] then []
    else
      var init := names[..|names| - 1];
      var last := names[|names| - 1];
      assert names == init + [last];
      PathKeys(results, init) + results.vals[last].paths.keys
  }

  /** Every discovered path of every resource, in the order `build_path_counts` visits them. */
  function AllPathKeys(results: ODict<string, ResourceResult>): seq<string>
    requires results.Valid()
  {
    PathKeys(results, results.keys)
  }

  lemma BumpStep(counts: map<string, nat>, ks: seq<string>, k: nat)
    requires k < |ks|
    ensures Bump(counts, ks[..k + 1]) == Bump(counts, ks[..k])[ks[k] := Get0(Bump(counts, ks[..k]), ks[k]) + 1]
  {
    assert ks[..k + 1][..k] == ks[..k];
  }

  lemma CountsOfStep(paths: seq<string>, path: string)
    ensures CountsOf(paths + [path]) == Bump(CountsOf(paths), Prefixes(path))
  {
    assert (paths + [path])[..|paths|] == paths;
  }

  lemma CountsOfAppendStep(done: seq<string>, paths: seq<string>, j: nat)
    requires j < |paths|
    ensures CountsOf(done + paths[..j + 1]) == Bump(CountsOf(done + paths[..j]), Prefixes(paths[j]))
  {
    CountsOfStep(done + paths[..j], paths[j]);
    assert done + paths[..j + 1] == (done + paths[..j]) + [paths[j]];
  }

  lemma PathKeysStep(results: ODict<string, ResourceResult>, names: seq<string>, i: nat)
    requires i < |names| && forall n :: n in names ==> n in results.vals
    ensures PathKeys(results, names[..i + 1]) == PathKeys(results, names[..i]) + results.vals[names[i]].paths.keys
  {
    assert names[..i + 1][..i] == names[..i];
  }

  /** The innermost loop of `build_path_counts`: one counter bump per prefix of `path`. */
  method CountPrefixes(counts0: map<string, nat>, path: string) returns (counts: map<string, nat>)
    ensures counts == Bump(counts0, Prefixes(path))
  {
    var parts := Split(path, Backslash);
    counts := counts0;
    var k := 0;
    while k < |parts|
      invariant k <= |parts|
      invariant counts == Bump(counts0, Prefixes(path)[..k])
    {
      var subPath := Join(parts[..k + 1], Backslash);
      assert subPath == Prefixes(path)[k];
      BumpStep(counts0, Prefixes(path), k);
      counts := counts[subPath := Get0(counts, subPath) + 1];
      k := k + 1;
    }
    assert Prefixes(path)[..k] == Prefixes(path);
  }

  /** `build_path_counts(resource_results)`. */
  method BuildPathCounts(results: ODict<string, ResourceResult>) returns (counts: map<string, nat>)
    requires results.Valid()
    ensures counts == CountsOf(AllPathKeys(results))
  {
    counts := map[];
    var i := 0;
    while i < |results.keys|
      invariant i <= |results.keys|
      invariant counts == CountsOf(PathKeys(results, results.keys[..i]))
    {
      var paths := results.vals[results.keys[i]].paths.keys;
      ghost var done := PathKeys(results, results.keys[..i]);
      var j := 0;
      assert done + paths[..j] == done;
      while j < |paths|
        invariant j <= |paths|
        invariant counts == CountsOf(done + paths[..j])
      {
        counts := CountPrefixes(counts, paths[j]);
        CountsOfAppendStep(done, paths, j);
        j := j + 1;
      }
      assert paths[..j] == paths;
      PathKeysStep(results, results.keys, i);
      i := i + 1;
    }
    assert results.keys[..i] == results.keys;
  }

  // ---------------------------------------------------------------------------
  // What the counters mean

  /** The segments of `p` are a leading run of the segments of `q`. */
  predicate SegmentPrefix(p: string, q: string)
  {
    Split(p, Backslash) <= Split(q, Backslash)
  }

  /** How many of `paths` have `p`'s segments as a leading run of their own. */
  function Occurrences(paths: seq<string>, p: string): nat
    decreases |paths|
  {
    if paths == [] then 0
    else Occurrences(paths[..|paths| - 1], p) + (if SegmentPrefix(p, paths[|paths| - 1]) then 1 else 0)
  }

  /** The prefixes of a path are exactly the strings whose segments lead its own,
      and no prefix is listed twice. */
  lemma PrefixesSpec(q: string)
    ensures forall p :: p in Prefixes(q) <==> SegmentPrefix(p, q)
    ensures forall i, j :: 0 <= i < j < |Prefixes(q)| ==> Prefixes(q)[i] != Prefixes(q)[j]
  {
    forall p ensures p in Prefixes(q) <==> SegmentPrefix(p, q) {
      if p in Prefixes(q) {
        var i :| 0 <= i < |Prefixes(q)| && Prefixes(q)[i] == p;
        PrefixLeads(q, i);
      }
      if SegmentPrefix(p, q) { LeadIsPrefix(q, p); }
    }
    PrefixesDistinct(q);
  }

  /** The `i`-th prefix of `q` leads `q`. */
  lemma PrefixLeads(q: string, i: nat)
    requires i < |Prefixes(q)|
    ensures SegmentPrefix(Prefixes(q)[i], q)
  {
    var parts := Split(q, Backslash);
    LeadingPartsSepFree(parts, i + 1);
    SplitJoin(parts[..i + 1], Backslash);
  }

  /** A string that leads `q` is one of its prefixes. */
  lemma LeadIsPrefix(q: string, p: string)
    requires SegmentPrefix(p, q)
    ensures p in Prefixes(q)
  {
    var parts := Split(q, Backslash);
    var segs := Split(p, Backslash);
    var n := |segs|;
    assert 0 < n <= |parts| && parts[..n] == segs;
    assert Prefixes(q)[n - 1] == Join(parts[..n], Backslash);
    assert Join(segs, Backslash) == p by { JoinSplit(p, Backslash); }
  }

  /** No prefix is listed twice. */
  lemma PrefixesDistinct(q: string)
    ensures forall i, j :: 0 <= i < j < |Prefixes(q)| ==> Prefixes(q)[i] != Prefixes(q)[j]
  {
    var parts := Split(q, Backslash);
    var pre := Prefixes(q);
    forall i, j | 0 <= i < j < |pre| ensures pre[i] != pre[j] {
      LeadingPartsSepFree(parts, i + 1);
      LeadingPartsSepFree(parts, j + 1);
      assert |parts[..i + 1]| != |parts[..j + 1]|;
      JoinDistinct(parts[..i + 1], parts[..j + 1], Backslash);
    }
  }

  lemma LeadingPartsSepFree(parts: seq<string>, n: nat)
    requires n <= |parts| && SepFree(parts, Backslash)
    ensures SepFree(parts[..n], Backslash)
  {
    assert forall i :: 0 <= i < n ==> parts[..n][i] == parts[i];
  }

  /** Counting the keys `ks` adds each key's number of occurrences in `ks` to its counter. */
  lemma {:induction false} BumpSpec(counts: map<string, nat>, ks: seq<string>)
    ensures forall p :: p in Bump(counts, ks) <==> p in counts || p in ks
    ensures forall p :: Get0(Bump(counts, ks), p) == Get0(counts, p) + multiset(ks)[p]
    decreases |ks|
  {
    if ks != [] {
      var init := ks[..|ks| - 1];
      var last := ks[|ks| - 1];
      BumpSpec(counts, init);
      assert ks == init + [last];
      assert multiset(ks) == multiset(init) + multiset{last};
    }
  }

  /** In a list without repetitions each element occurs once. */
  lemma {:induction false} DistinctOccursOnce(ks: seq<string>, p: string)
    requires forall i, j :: 0 <= i < j < |ks| ==> ks[i] != ks[j]
    ensures multiset(ks)[p] == if p in ks then 1 else 0
    decreases |ks|
  {
    if ks != [] {
      var init := ks[..|ks| - 1];
      var last := ks[|ks| - 1];
      assert ks == init + [last];
      assert multiset(ks) == multiset(init) + multiset{last};
      DistinctOccursOnce(init, p);
      if p == last {
        assert p !in init by {
          forall i | 0 <= i < |init| ensures init[i] != p { assert init[i] == ks[i]; }
        }
      }
    }
  }

  /** `path_counts[p]` is the number of counted paths whose segments start with
      `p`'s segments; a prefix no counted path starts with is absent, so every
      stored count is at least 1. */
  lemma {:induction false} CountsOfSpec(paths: seq<string>)
    ensures forall p :: p in CountsOf(paths) <==> Occurrences(paths, p) > 0
    ensures forall p :: Get0(CountsOf(paths), p) == Occurrences(paths, p)
    decreases |paths|
  {
    if paths != [] {
      var init := paths[..|paths| - 1];
      var last := paths[|paths| - 1];
      CountsOfSpec(init);
      BumpSpec(CountsOf(init), Prefixes(last));
      PrefixesSpec(last);
      forall p ensures Get0(CountsOf(paths), p) == Occurrences(paths, p) {
        DistinctOccursOnce(Prefixes(last), p);
      }
    }
  }

  /** Every stored count is at least 1. */
  lemma CountsArePositive(paths: seq<string>)
    ensures forall p :: p in CountsOf(paths) ==> CountsOf(paths)[p] >= 1
  {
    CountsOfSpec(paths);
    forall p | p in CountsOf(paths) ensures CountsOf(paths)[p] >= 1 {
      assert Get0(CountsOf(paths), p) == CountsOf(paths)[p];
    }
  }

  // ---------------------------------------------------------------------------
  // The directory tree of generate_report: nested dicts grown with setdefault

  /** One level of the nested `hierarchy` dict: its entries in insertion order. */
  datatype Tree = Tree(children: seq<Branch>)

  /** One entry `key: subdir` of a level. */
  datatype Branch = Branch(name: string, sub: Tree)

  /** The keys of a level, in insertion order. */
  function Names(bs: seq<Branch>): (r: seq<string>)
    ensures |r| == |bs| && forall i :: 0 <= i < |bs| ==> r[i] == bs[i].name
  {
    seq(|bs|, i requires 0 <= i < |bs| => bs[i].name)
  }

  /** Where the key `name` sits in a level, or -1 when it is absent. */
  function ChildIndex(bs: seq<Branch>, name: string): (i: int)
    ensures -1 <= i < |bs|
    ensures i >= 0 ==> bs[i].name == name
    ensures forall k :: 0 <= k < |bs| && (i < 0 || k < i) ==> bs[k].name != name
  {
    if bs == [] then -1
    else if bs[0].name == name then 0
    else
      var j := ChildIndex(bs[1..], name);
      if j < 0 then -1 else j + 1
  }

  /** No key repeats within a level, at any depth, as in a Python dict. */
  predicate WellFormed(t: Tree)
    decreases t
  {
    (forall i, j :: 0 <= i < j < |t.children| ==> t.children[i].name != t.children[j].name) &&
    forall b :: b in t.children ==> WellFormed(b.sub)
  }

  /** `current = hierarchy; for part in parts: current = current.setdefault(part, {})`:
      follow the chain of keys, adding an empty level at the end of a level for
      each key that is not there yet. */
  function Insert(t: Tree, parts: seq<string>): Tree
    decreases |parts|
  {
    if parts == [] then t
    else
      var i := ChildIndex(t.children, parts[0]);
      if i >= 0 then Tree(t.children[i := Branch(parts[0], Insert(t.children[i].sub, parts[1..]))])
      else Tree(t.children + [Branch(parts[0], Insert(Tree([]), parts[1..]))])
  }

  /** The keys `c` can be followed from the top level down, one level per key. */
  predicate HasChain(t: Tree, c: seq<string>)
    decreases |c|
  {
    c == [] || (var i := ChildIndex(t.children, c[0]); i >= 0 && HasChain(t.children[i].sub, c[1..]))
  }

  lemma ChildIndexSameNames(bs: seq<Branch>, cs: seq<Branch>, name: string)
    requires Names(bs) == Names(cs)
    ensures ChildIndex(bs, name) == ChildIndex(cs, name)
  {
    var i := ChildIndex(bs, name);
    var j := ChildIndex(cs, name);
    assert forall k :: 0 <= k < |bs| ==> bs[k].name == Names(bs)[k] == Names(cs)[k] == cs[k].name;
  }

  lemma ChildIndexAppend(bs: seq<Branch>, b: Branch, name: string)
    ensures ChildIndex(bs + [b], name) ==
      if ChildIndex(bs, name) >= 0 then ChildIndex(bs, name) else if b.name == name then |bs| else -1
    decreases |bs|
  {
    if bs != [] && bs[0].name != name {
      assert (bs + [b])[1..] == bs[1..] + [b];
      ChildIndexAppend(bs[1..], b, name);
    }
  }

  lemma EmptyTreeChains(c: seq<string>)
    ensures HasChain(Tree([]), c) <==> c == []
  {
  }

  /** Inserting a chain adds exactly its leading runs to the chains of the tree:
      nothing that was there is lost. */
  lemma {:induction false} InsertChain(t: Tree, parts: seq<string>, c: seq<string>)
    ensures HasChain(Insert(t, parts), c) <==> HasChain(t, c) || c <= parts
    decreases |parts|
  {
    if parts != [] && c != [] {
      var i := ChildIndex(t.children, parts[0]);
      var u := Insert(t, parts);
      var sub := if i >= 0 then t.children[i].sub else Tree([]);
      if i >= 0 {
        assert Names(u.children) == Names(t.children);
        ChildIndexSameNames(t.children, u.children, c[0]);
      } else {
        ChildIndexAppend(t.children, Branch(parts[0], Insert(Tree([]), parts[1..])), c[0]);
      }
      if c[0] == parts[0] {
        InsertChain(sub, parts[1..], c[1..]);
        EmptyTreeChains(c[1..]);
        assert c <= parts <==> c[1..] <= parts[1..];
      } else {
        assert !(c <= parts);
      }
    }
  }

  /** `setdefault` never moves or drops a key: the top-level keys keep their
      places, and a new key goes at the end. */
  lemma InsertKeepsKeys(t: Tree, parts: seq<string>)
    requires parts != []
    ensures Names(Insert(t, parts).children) ==
      if parts[0] in Names(t.children) then Names(t.children) else Names(t.children) + [parts[0]]
  {
    var i := ChildIndex(t.children, parts[0]);
    var u := Insert(t, parts);
    if i >= 0 {
      assert Names(u.children) == Names(t.children);
    } else {
      assert parts[0] !in Names(t.children);
      assert Names(u.children) == Names(t.children) + [parts[0]];
    }
  }

  /** Inserting keeps every level free of repeated keys. */
  lemma {:induction false} InsertWellFormed(t: Tree, parts: seq<string>)
    requires WellFormed(t)
    ensures WellFormed(Insert(t, parts))
    decreases |parts|
  {
    if parts != [] {
      var i := ChildIndex(t.children, parts[0]);
      var u := Insert(t, parts);
      if i >= 0 {
        InsertWellFormed(t.children[i].sub, parts[1..]);
        forall b | b in u.children ensures WellFormed(b.sub) {
          var k :| 0 <= k < |u.children| && u.children[k] == b;
          if k != i { assert b == t.children[k]; }
        }
      } else {
        InsertWellFormed(Tree([]), parts[1..]);
        forall b | b in u.children ensures WellFormed(b.sub) {
          var k :| 0 <= k < |u.children| && u.children[k] == b;
          if k < |t.children| { assert b == t.children[k]; }
        }
      }
    }
  }

  /** The tree one resource's loop in `generate_report` builds from the paths
      `keys` (a prefix of its path dict): only standard-directory matches
      (`InPath` False) are inserted. */
  function Grow(keys: seq<string>, vals: map<string, PathDetails>): Tree
    requires forall k :: k in keys ==> k in vals
    decreases |keys|
  {
    if keys == [] then Tree([])
    else
      var t := Grow(keys[..|keys| - 1], vals);
      var p := keys[|keys| - 1];
      if vals[p].inPath then t else Insert(t, Split(p, Backslash))
  }

  /** The chains of the grown tree are exactly the leading runs of the segment
      lists of the paths whose `InPath` is False; `PATH` matches add nothing. */
  lemma GrowChains(keys: seq<string>, vals: map<string, PathDetails>)
    requires forall k :: k in keys ==> k in vals
    ensures WellFormed(Grow(keys, vals))
    ensures forall c :: HasChain(Grow(keys, vals), c) <==>
      c == [] || exists p :: p in keys && !vals[p].inPath && c <= Split(p, Backslash)
  {
    GrowWellFormed(keys, vals);
    GrowChainsIff(keys, vals);
  }

  lemma {:induction false} GrowWellFormed(keys: seq<string>, vals: map<string, PathDetails>)
    requires forall k :: k in keys ==> k in vals
    ensures WellFormed(Grow(keys, vals))
    decreases |keys|
  {
    if keys != [] {
      var init := keys[..|keys| - 1];
      var p := keys[|keys| - 1];
      assert forall k :: k in init ==> k in keys;
      GrowWellFormed(init, vals);
      if !vals[p].inPath {
        InsertWellFormed(Grow(init, vals), Split(p, Backslash));
      }
    }
  }

  lemma {:induction false} GrowChainsIff(keys: seq<string>, vals: map<string, PathDetails>)
    requires forall k :: k in keys ==> k in vals
    ensures forall c :: HasChain(Grow(keys, vals), c) <==>
      c == [] || exists p :: p in keys && !vals[p].inPath && c <= Split(p, Backslash)
    decreases |keys|
  {
    if keys != [] {
      var init := keys[..|keys| - 1];
      var p := keys[|keys| - 1];
      var before := Grow(init, vals);
      var parts := Split(p, Backslash);
      assert forall k :: k in init ==> k in keys;
      GrowChainsIff(init, vals);
      assert Grow(keys, vals) == if vals[p].inPath then before else Insert(before, parts);
      forall c ensures HasChain(Grow(keys, vals), c) <==>
        c == [] || exists q :: q in keys && !vals[q].inPath && c <= Split(q, Backslash)
      {
        if !vals[p].inPath { InsertChain(before, parts, c); }
        if exists q :: q in keys && !vals[q].inPath && c <= Split(q, Backslash) {
          var q :| q in keys && !vals[q].inPath && c <= Split(q, Backslash);
          if q != p { assert q in init; }
        }
        if HasChain(before, c) && c != [] {
          var q :| q in init && !vals[q].inPath && c <= Split(q, Backslash);
          assert q in keys;
        }
      }
    } else {
      assert forall c :: HasChain(Tree([]), c) <==> c == [] by {
        forall c { EmptyTreeChains(c); }
      }
    }
  }

  // ---------------------------------------------------------------------------
  // print_hierarchy

  /** Each entry's key is not below its predecessor's (`sorted` on the items of
      a level; keys are distinct, so the subdicts are never compared). */
  predicate Ascending(bs: seq<Branch>)
  {
    forall i :: 0 <= i < |bs| - 1 ==> !LexLess(bs[i + 1].name, bs[i].name)
  }

  function InsertByName(b: Branch, bs: seq<Branch>): (r: seq<Branch>)
    requires Ascending(bs)
    ensures multiset(r) == multiset(bs) + multiset{b}
    ensures Ascending(r)
    ensures r[0] == b || (bs != [] && r[0] == bs[0])
    decreases |bs|
  {
    if bs == [] || !LexLess(bs[0].name, b.name) then [b] + bs
    else
      LexLessAsymmetric(bs[0].name, b.name);
      var rest := InsertByName(b, bs[1..]);
      assert bs == [bs[0]] + bs[1..];
      [bs[0]] + rest
  }

  /** `sorted(current.items())`: the entries of a level, rearranged in ascending key order. */
  function SortByName(bs: seq<Branch>): (r: seq<Branch>)
    ensures |r| == |bs| && multiset(r) == multiset(bs)
    ensures Ascending(r)
    ensures forall b :: b in r <==> b in bs
    decreases |bs|
  {
    if bs == [] then []
    else
      var r := InsertByName(bs[|bs| - 1], SortByName(bs[..|bs| - 1]));
      assert bs == bs[..|bs| - 1] + [bs[|bs| - 1]];
      assert forall b :: b in r <==> b in multiset(r);
      r
  }

  /** Which counter a rendered entry shows. */
  datatype CountKeyRule =
    | ChildNamesKey  // the entry's key joined with its children's keys (main.py as written)
    | FullPrefixKey  // the keys from the top level down to the entry (the prefix it stands for)

  /** `n` spaces. */
  function Spaces(n: nat): (r: string)
    ensures |r| == n && forall i :: 0 <= i < n ==> r[i] == ' '
  {
    seq(n, _ => ' ')
  }

  /** The counter key for the entry `b` reached through the keys `above`. */
  function CountKey(b: Branch, above: seq<string>, rule: CountKeyRule): string
  {
    match rule
    case ChildNamesKey => Join([b.name] + Names(b.sub.children), Backslash)
    case FullPrefixKey => Join(above + [b.name], Backslash)
  }

  /** The line written for the entry `b`: its key and its count, indented. */
  function NodeLine(b: Branch, above: seq<string>, counts: map<string, nat>, indent: nat, rule: CountKeyRule): string
  {
    EntryLine(b.name, Get0(counts, CountKey(b, above, rule)), indent)
  }

  /** `f"{' ' * indent}{key} ({count})\\"`. */
  function EntryLine(key: string, count: nat, indent: nat): string
  {
    Spaces(indent) + key + " (" + NatStr(count) + ")\\"
  }

  /** The lines for the level `t` reached through the keys `above`: each entry in
      ascending key order, its own line first and then its level's lines two
      spaces deeper. */
  function Render(t: Tree, above: seq<string>, counts: map<string, nat>, indent: nat, rule: CountKeyRule): seq<string>
    decreases t, 1
  {
    RenderFirst(t, |t.children|, above, counts, indent, rule)
  }

  /** The lines for the first `n` entries of the level `t` in ascending key order. */
  function RenderFirst(t: Tree, n: nat, above: seq<string>, counts: map<string, nat>, indent: nat,
                       rule: CountKeyRule): seq<string>
    requires n <= |t.children|
    decreases t, 0, n
  {
    if n == 0 then []
    else
      var b := SortByName(t.children)[n - 1];
      assert b in t.children && b.sub < b;
      RenderFirst(t, n - 1, above, counts, indent, rule)
        + [NodeLine(b, above, counts, indent, rule)]
        + Render(b.sub, above + [b.name], counts, indent + 2, rule)
  }

  lemma RenderFirstStep(t: Tree, n: nat, above: seq<string>, counts: map<string, nat>, indent: nat,
                        rule: CountKeyRule)
    requires n < |t.children|
    ensures RenderFirst(t, n + 1, above, counts, indent, rule) ==
      RenderFirst(t, n, above, counts, indent, rule)
        + [NodeLine(SortByName(t.children)[n], above, counts, indent, rule)]
        + Render(SortByName(t.children)[n].sub, above + [SortByName(t.children)[n].name], counts, indent + 2, rule)
  {
  }

  lemma Regroup<T>(a: seq<T>, b: seq<T>, c: seq<T>, d: seq<T>)
    ensures a + b + c + d == a + (b + c + d)
  {
  }

  /** One pass of `print_hierarchy`'s loop appends the next entry's line and its level. */
  lemma PrintStep(report: seq<string>, t: Tree, n: nat, above: seq<string>, counts: map<string, nat>, indent: nat,
                  rule: CountKeyRule)
    requires n < |t.children|
    ensures var b := SortByName(t.children)[n];
      report + RenderFirst(t, n, above, counts, indent, rule) + [NodeLine(b, above, counts, indent, rule)]
        + Render(b.sub, above + [b.name], counts, indent + 2, rule)
      == report + RenderFirst(t, n + 1, above, counts, indent, rule)
  {
    var b := SortByName(t.children)[n];
    RenderFirstStep(t, n, above, counts, indent, rule);
    Regroup(report, RenderFirst(t, n, above, counts, indent, rule), [NodeLine(b, above, counts, indent, rule)],
      Render(b.sub, above + [b.name], counts, indent + 2, rule));
  }

  /** `print_hierarchy(report, current, path_counts, indent)`; `above` (the keys
      leading to `current`) is not used by the count lookup as written and only
      names the rendered lines. */
  method PrintHierarchy(report: seq<string>, current: Tree, counts: map<string, nat>, indent: nat,
                        ghost above: seq<string>) returns (out: seq<string>)
    ensures out == report + Render(current, above, counts, indent, ChildNamesKey)
    decreases current
  {
    var items := SortByName(current.children);
    out := report;
    var i := 0;
    while i < |items|
      invariant i <= |items| == |current.children|
      invariant out == report + RenderFirst(current, i, above, counts, indent, ChildNamesKey)
    {
      var key := items[i].name;
      var subdir := items[i].sub;
      var path := Join([key] + Names(subdir.children), Backslash);
      var count := Get0(counts, path);
      var line := EntryLine(key, count, indent);
      assert line == NodeLine(items[i], above, counts, indent, ChildNamesKey) by {
        assert path == CountKey(items[i], above, ChildNamesKey);
      }
      out := out + [line];
      assert subdir < current by { assert items[i] in items && items[i] in current.children; }
      out := PrintHierarchy(out, subdir, counts, indent + 2, above + [key]);
      PrintStep(report, current, i, above, counts, indent, ChildNamesKey);
      i := i + 1;
    }
  }

  // ---------------------------------------------------------------------------
  // What print_hierarchy writes

  /** The number of entries of `t` at every depth. */
  function Size(t: Tree): nat
    decreases t, 1
  {
    SizeFirst(t, |t.children|)
  }

  /** The number of entries in the first `n` top-level entries of `t` and below them. */
  function SizeFirst(t: Tree, n: nat): nat
    requires n <= |t.children|
    decreases t, 0, n
  {
    if n == 0 then 0
    else
      var b := t.children[n - 1];
      assert b in t.children && b.sub < b;
      SizeFirst(t, n - 1) + 1 + Size(b.sub)
  }

  /** Each entry counted with everything below it. */
  function Weights(bs: seq<Branch>): (w: seq<nat>)
    ensures |w| == |bs|
  {
    seq(|bs|, i requires 0 <= i < |bs| => 1 + Size(bs[i].sub))
  }

  function Sum(xs: seq<nat>): nat
    decreases |xs|
  {
    if xs == [] then 0 else Sum(xs[..|xs| - 1]) + xs[|xs| - 1]
  }

  lemma WeightsStep(bs: seq<Branch>, n: nat)
    requires 0 < n <= |bs|
    ensures Sum(Weights(bs[..n])) == Sum(Weights(bs[..n - 1])) + 1 + Size(bs[n - 1].sub)
  {
    assert Weights(bs[..n])[..n - 1] == Weights(bs[..n - 1]);
  }

  lemma {:induction false} SizeFirstSum(t: Tree, n: nat)
    requires n <= |t.children|
    ensures SizeFirst(t, n) == Sum(Weights(t.children[..n]))
    decreases n
  {
    if n > 0 {
      SizeFirstSum(t, n - 1);
      WeightsStep(t.children, n);
    }
  }

  /** Taking the `k`th element out of a sum. */
  lemma {:induction false} SumRemove(xs: seq<nat>, k: nat)
    requires k < |xs|
    ensures Sum(xs) == Sum(xs[..k] + xs[k + 1..]) + xs[k]
    decreases |xs|
  {
    var init := xs[..|xs| - 1];
    if k < |xs| - 1 {
      SumRemove(init, k);
      var rest := xs[..k] + xs[k + 1..];
      assert rest[..|rest| - 1] == init[..k] + init[k + 1..];
      assert rest[|rest| - 1] == xs[|xs| - 1];
    } else {
      assert xs[..k] + xs[k + 1..] == init;
    }
  }

  /** Removing the same element from two permutations of each other leaves permutations. */
  lemma RemoveMatching<T>(bs: seq<T>, cs: seq<T>, k: nat)
    requires multiset(bs) == multiset(cs) && bs != [] && k < |cs| && cs[k] == bs[|bs| - 1]
    ensures multiset(bs[..|bs| - 1]) == multiset(cs[..k] + cs[k + 1..])
  {
    var x := bs[|bs| - 1];
    var init := bs[..|bs| - 1];
    var rest := cs[..k] + cs[k + 1..];
    assert bs == init + [x];
    assert cs == cs[..k] + [x] + cs[k + 1..];
    assert multiset(init) == multiset(bs) - multiset{x};
    assert multiset(rest) == multiset(cs) - multiset{x};
  }

  lemma WeightsRemove(cs: seq<Branch>, k: nat)
    requires k < |cs|
    ensures Weights(cs)[..k] + Weights(cs)[k + 1..] == Weights(cs[..k] + cs[k + 1..])
  {
  }

  /** The total weight of a list of entries does not depend on their order. */
  lemma {:induction false} WeightsPermutation(bs: seq<Branch>, cs: seq<Branch>)
    requires multiset(bs) == multiset(cs)
    ensures Sum(Weights(bs)) == Sum(Weights(cs))
    decreases |bs|
  {
    if bs != [] {
      var x := bs[|bs| - 1];
      var init := bs[..|bs| - 1];
      assert x in multiset(cs) by { assert x in bs; }
      var k :| 0 <= k < |cs| && cs[k] == x;
      var rest := cs[..k] + cs[k + 1..];
      RemoveMatching(bs, cs, k);
      WeightsPermutation(init, rest);
      SumRemove(Weights(cs), k);
      WeightsRemove(cs, k);
      WeightsStep(bs, |bs|);
      assert bs[..|bs|] == bs;
    } else {
      assert cs == [];
    }
  }

  /** `print_hierarchy` writes exactly one line for each entry of the tree, at every depth. */
  lemma {:induction false} RenderLength(t: Tree, above: seq<string>, counts: map<string, nat>, indent: nat,
                                        rule: CountKeyRule)
    ensures |Render(t, above, counts, indent, rule)| == Size(t)
    decreases t, 1
  {
    var sorted := SortByName(t.children);
    RenderFirstLength(t, |t.children|, above, counts, indent, rule);
    SizeFirstSum(t, |t.children|);
    assert sorted[..|t.children|] == sorted && t.children[..|t.children|] == t.children;
    WeightsPermutation(sorted, t.children);
  }

  lemma {:induction false} RenderFirstLength(t: Tree, n: nat, above: seq<string>, counts: map<string, nat>,
                                             indent: nat, rule: CountKeyRule)
    requires n <= |t.children|
    ensures |RenderFirst(t, n, above, counts, indent, rule)| == Sum(Weights(SortByName(t.children)[..n]))
    decreases t, 0, n
  {
    if n > 0 {
      var b := SortByName(t.children)[n - 1];
      assert b in t.children && b.sub < b;
      RenderFirstLength(t, n - 1, above, counts, indent, rule);
      RenderLength(b.sub, above + [b.name], counts, indent + 2, rule);
      WeightsStep(SortByName(t.children), n);
    }
  }

  /** The entry reached by following the keys `c`. */
  function NodeAt(t: Tree, c: seq<string>): (b: Branch)
    requires c != [] && HasChain(t, c)
    ensures b.name == c[|c| - 1]
    decreases |c|
  {
    var b := t.children[ChildIndex(t.children, c[0])];
    if |c| == 1 then b else NodeAt(b.sub, c[1..])
  }

  lemma {:induction false} RenderFirstGrows(t: Tree, m: nat, n: nat, above: seq<string>, counts: map<string, nat>,
                                            indent: nat, rule: CountKeyRule)
    requires m <= n <= |t.children|
    ensures RenderFirst(t, m, above, counts, indent, rule) <= RenderFirst(t, n, above, counts, indent, rule)
    decreases n - m
  {
    if m < n {
      RenderFirstGrows(t, m, n - 1, above, counts, indent, rule);
    }
  }

  /** The line of a top-level entry, and all the lines below it, are among the lines of its level. */
  lemma EntryLinesInRender(t: Tree, b: Branch, above: seq<string>, counts: map<string, nat>, indent: nat,
                           rule: CountKeyRule)
    requires b in t.children
    ensures NodeLine(b, above, counts, indent, rule) in Render(t, above, counts, indent, rule)
    ensures forall l :: l in Render(b.sub, above + [b.name], counts, indent + 2, rule) ==>
      l in Render(t, above, counts, indent, rule)
  {
    var sorted := SortByName(t.children);
    assert b in sorted;
    var k :| 0 <= k < |sorted| && sorted[k] == b;
    KthEntryLinesInRender(t, k, above, counts, indent, rule);
  }

  /** The same, for the entry at place `k` in key order. */
  lemma KthEntryLinesInRender(t: Tree, k: nat, above: seq<string>, counts: map<string, nat>, indent: nat,
                              rule: CountKeyRule)
    requires k < |t.children|
    ensures var b := SortByName(t.children)[k];
      && NodeLine(b, above, counts, indent, rule) in Render(t, above, counts, indent, rule)
      && forall l :: l in Render(b.sub, above + [b.name], counts, indent + 2, rule) ==>
           l in Render(t, above, counts, indent, rule)
  {
    var b := SortByName(t.children)[k];
    var whole := Render(t, above, counts, indent, rule);
    var before := RenderFirst(t, k, above, counts, indent, rule);
    var line := NodeLine(b, above, counts, indent, rule);
    var sub := Render(b.sub, above + [b.name], counts, indent + 2, rule);
    RenderFirstGrows(t, k + 1, |t.children|, above, counts, indent, rule);
    RenderFirstStep(t, k, above, counts, indent, rule);
    PieceOfPrefix(before, line, sub, whole);
  }

  lemma PieceOfPrefix<T>(before: seq<T>, x: T, after: seq<T>, whole: seq<T>)
    requires before + [x] + after <= whole
    ensures x in whole && forall y :: y in after ==> y in whole
  {
    assert whole[|before|] == x;
    forall y | y in after ensures y in whole {
      var j :| 0 <= j < |after| && after[j] == y;
      assert whole[|before| + 1 + j] == y;
    }
  }

  /** Every entry of the tree gets its line, indented two spaces per level below
      the top: the lines are written depth first, from the top level down. */
  lemma {:induction false} ChainHasLine(t: Tree, c: seq<string>, above: seq<string>, counts: map<string, nat>,
                                        indent: nat, rule: CountKeyRule)
    requires c != [] && HasChain(t, c)
    ensures NodeLine(NodeAt(t, c), above + c[..|c| - 1], counts, indent + 2 * (|c| - 1), rule)
      in Render(t, above, counts, indent, rule)
    decreases |c|
  {
    var b := t.children[ChildIndex(t.children, c[0])];
    EntryLinesInRender(t, b, above, counts, indent, rule);
    if |c| == 1 {
      assert above + c[..0] == above;
    } else {
      var rest := c[1..];
      ChainHasLine(b.sub, rest, above + [b.name], counts, indent + 2, rule);
      LeadingRun(above, c);
      assert b.name == c[0];
      assert above + [b.name] + rest[..|rest| - 1] == above + c[..|c| - 1];
      assert NodeAt(t, c) == NodeAt(b.sub, rest);
      assert indent + 2 + 2 * (|rest| - 1) == indent + 2 * (|c| - 1);
    }
  }

  lemma LeadingRun<T>(above: seq<T>, c: seq<T>)
    requires |c| >= 2
    ensures above + [c[0]] + c[1..][..|c| - 2] == above + c[..|c| - 1]
  {
  }

  // ---------------------------------------------------------------------------
  // The count shown for an entry

  lemma SplitTwo(dir: string, name: string)
    requires Backslash !in dir && Backslash !in name
    ensures Split(dir + [Backslash] + name, Backslash) == [dir, name]
    ensures Split(dir, Backslash) == [dir] && Split(name, Backslash) == [name]
  {
    assert Join([dir, name], Backslash) == dir + [Backslash] + name;
    SplitJoin([dir, name], Backslash);
    SplitJoin([dir], Backslash);
    SplitJoin([name], Backslash);
  }

  /** The tree for one standard-directory match `dir\name`, and its lines. */
  lemma TwoLevelRender(dir: string, name: string, counts: map<string, nat>, rule: CountKeyRule)
    requires Backslash !in dir && Backslash !in name
    ensures var leaf := Branch(name, Tree([]));
            var top := Branch(dir, Tree([leaf]));
            Insert(Tree([]), Split(dir + [Backslash] + name, Backslash)) == Tree([top]) &&
            Render(Tree([top]), [], counts, 2, rule) ==
              [NodeLine(top, [], counts, 2, rule), NodeLine(leaf, [dir], counts, 4, rule)]
  {
    var leaf := Branch(name, Tree([]));
    SplitTwo(dir, name);
    assert Insert(Tree([]), [name]) == Tree([leaf]);
    LeafRender(dir, name, counts, rule);
    TopRender(dir, leaf, counts, rule);
  }

  /** A level holding one entry with nothing below it renders as that entry's line. */
  lemma LeafRender(dir: string, name: string, counts: map<string, nat>, rule: CountKeyRule)
    ensures var leaf := Branch(name, Tree([]));
            Render(Tree([leaf]), [dir], counts, 4, rule) == [NodeLine(leaf, [dir], counts, 4, rule)]
  {
    var leaf := Branch(name, Tree([]));
    assert SortByName([leaf]) == [leaf] by { assert multiset(SortByName([leaf])) == multiset{leaf}; }
    assert Render(Tree([]), [dir, name], counts, 6, rule) == [];
    assert RenderFirst(Tree([leaf]), 1, [dir], counts, 4, rule) ==
      [] + [NodeLine(leaf, [dir], counts, 4, rule)] + Render(Tree([]), [dir] + [name], counts, 6, rule);
    assert [dir] + [name] == [dir, name];
  }

  /** A level holding one entry renders as that entry's line, then its level's lines. */
  lemma TopRender(dir: string, leaf: Branch, counts: map<string, nat>, rule: CountKeyRule)
    requires Render(Tree([leaf]), [dir], counts, 4, rule) == [NodeLine(leaf, [dir], counts, 4, rule)]
    ensures var top := Branch(dir, Tree([leaf]));
            Render(Tree([top]), [], counts, 2, rule) ==
              [NodeLine(top, [], counts, 2, rule), NodeLine(leaf, [dir], counts, 4, rule)]
  {
    var top := Branch(dir, Tree([leaf]));
    assert SortByName([top]) == [top] by { assert multiset(SortByName([top])) == multiset{top}; }
    assert RenderFirst(Tree([top]), 1, [], counts, 2, rule) ==
      [] + [NodeLine(top, [], counts, 2, rule)] + Render(Tree([leaf]), [] + [dir], counts, 4, rule);
    assert [] + [dir] == [dir];
  }

  /** The counters after counting the single path `dir\name`. */
  lemma SinglePathCounts(dir: string, name: string)
    requires Backslash !in dir && Backslash !in name && dir != name
    ensures var p := dir + [Backslash] + name;
            Get0(CountsOf([p]), p) == 1 && Get0(CountsOf([p]), dir) == 1 && Get0(CountsOf([p]), name) == 0
  {
    var p := dir + [Backslash] + name;
    SplitTwo(dir, name);
    CountsOfSpec([p]);
    OccurrencesSingle(p, p);
    OccurrencesSingle(p, dir);
    OccurrencesSingle(p, name);
    assert [dir] <= [dir, name];
    assert !([name] <= [dir, name]) by { assert [dir, name][0] == dir != name; }
  }

  lemma OccurrencesSingle(p: string, q: string)
    ensures Occurrences([p], q) == if SegmentPrefix(q, p) then 1 else 0
  {
    assert [p][..0] == [];
  }

  /** As written (main.py), an entry's count is looked up under its own key
      followed by its children's keys. For a single standard-directory match
      `dir\name` the leaf `name` is shown with count 0, though the one
      discovered path ends there; with the full-prefix key both entries show 1. */
  lemma AsWrittenLeafShowsZero(dir: string, name: string)
    requires Backslash !in dir && Backslash !in name && dir != name
    ensures var p := dir + [Backslash] + name;
            var t := Insert(Tree([]), Split(p, Backslash));
            Render(t, [], CountsOf([p]), 2, ChildNamesKey) == ["  " + dir + " (1)\\", "    " + name + " (0)\\"] &&
            Render(t, [], CountsOf([p]), 2, FullPrefixKey) == ["  " + dir + " (1)\\", "    " + name + " (1)\\"]
  {
    var p := dir + [Backslash] + name;
    var counts := CountsOf([p]);
    var leaf := Branch(name, Tree([]));
    var top := Branch(dir, Tree([leaf]));
    TwoLevelRender(dir, name, counts, ChildNamesKey);
    TwoLevelRender(dir, name, counts, FullPrefixKey);
    SinglePathCounts(dir, name);
    assert Names([leaf]) == [name] && Names([]) == [];
    assert [dir] + [name] == [dir, name] && [name] + [] == [name] && [] + [dir] == [dir];
    assert Join([dir, name], Backslash) == p;
    assert CountKey(top, [], ChildNamesKey) == p;
    assert CountKey(leaf, [dir], ChildNamesKey) == name;
    assert CountKey(top, [], FullPrefixKey) == dir;
    assert CountKey(leaf, [dir], FullPrefixKey) == p;
    assert NatStr(0) == "0" && NatStr(1) == "1";
    assert Spaces(2) == "  " && Spaces(4) == "    ";
    assert NodeLine(top, [], counts, 2, ChildNamesKey) == "  " + dir + " (1)\\";
    assert NodeLine(leaf, [dir], counts, 4, ChildNamesKey) == "    " + name + " (0)\\";
    assert NodeLine(top, [], counts, 2, FullPrefixKey) == "  " + dir + " (1)\\";
    assert NodeLine(leaf, [dir], counts, 4, FullPrefixKey) == "    " + name + " (1)\\";
  }

  lemma {:induction false} OccurrencesPositive(all: seq<string>, q: string, p: string)
    requires p in all && SegmentPrefix(q, p)
    ensures Occurrences(all, q) >= 1
    decreases |all|
  {
    var init := all[..|all| - 1];
    if p != all[|all| - 1] {
      assert all == init + [all[|all| - 1]];
      OccurrencesPositive(init, q, p);
    }
  }

  /** With the full-prefix key, every entry of a resource's tree is shown with
      the number of discovered paths (of all resources) at or below it, which is
      never 0. */
  lemma IntendedCountIsPathsBelow(keys: seq<string>, vals: map<string, PathDetails>, all: seq<string>,
                                  c: seq<string>)
    requires forall k :: k in keys ==> k in vals && k in all
    requires c != [] && HasChain(Grow(keys, vals), c)
    ensures CountKey(NodeAt(Grow(keys, vals), c), c[..|c| - 1], FullPrefixKey) == Join(c, Backslash)
    ensures Get0(CountsOf(all), Join(c, Backslash)) == Occurrences(all, Join(c, Backslash)) >= 1
  {
    FullPrefixKeyOfChain(Grow(keys, vals), c);
    ChainCountPositive(keys, vals, all, c);
  }

  /** The full-prefix key of the entry reached by `c` is `c` joined. */
  lemma FullPrefixKeyOfChain(t: Tree, c: seq<string>)
    requires c != [] && HasChain(t, c)
    ensures CountKey(NodeAt(t, c), c[..|c| - 1], FullPrefixKey) == Join(c, Backslash)
  {
    assert c[..|c| - 1] + [c[|c| - 1]] == c;
  }

  /** A chain of the grown tree is a leading run of a discovered path, so its
      counter is the number of discovered paths below it, and at least one. */
  lemma ChainCountPositive(keys: seq<string>, vals: map<string, PathDetails>, all: seq<string>, c: seq<string>)
    requires forall k :: k in keys ==> k in vals && k in all
    requires c != [] && HasChain(Grow(keys, vals), c)
    ensures Get0(CountsOf(all), Join(c, Backslash)) == Occurrences(all, Join(c, Backslash)) >= 1
  {
    GrowChainsIff(keys, vals);
    var p :| p in keys && !vals[p].inPath && c <= Split(p, Backslash);
    var parts := Split(p, Backslash);
    assert SepFree(c, Backslash) by {
      forall i | 0 <= i < |c| ensures Backslash !in c[i] { assert c[i] == parts[i]; }
    }
    assert SegmentPrefix(Join(c, Backslash), p) by { SplitJoin(c, Backslash); }
    OccurrencesPositive(all, Join(c, Backslash), p);
    CountsOfSpec(all);
  }
}
