/** `analyze_service`: module resolution, per-module scans and the report row of one
    snapshot. */
module Service {
  import opened Wrappers
  import opened Text
  import opened Sorting
  import opened Catalog
  import opened Inputs
  import Endpoints
  import Calls
  import Dependencies

  // ---------------------------------------------------------------- paths

  /** `os.path.join(a, b)` on POSIX: an absolute `b` replaces `a`; otherwise one '/' is put
      between them unless `a` is empty or already ends with '/'. */
  function PathJoin(a: string, b: string): (r: string)
    ensures EndsWith(r, b)
  {
    if StartsWith(b, "/") then b
    else if a == [] || EndsWith(a, "/") then a + b
    else a + "/" + b
  }

  /** `os.path.basename(path)`: the text after the last '/', empty when the path ends
      with '/'. */
  function Basename(path: string): (r: string)
    ensures '/' !in r
    ensures EndsWith(path, r)
    ensures r == path || path[|path| - |r| - 1] == '/'
    decreases |path|
  {
    if path == [] || path[|path| - 1] == '/' then []
    else
      var r := Basename(path[..|path| - 1]);
      assert path[..|path| - 1][|path| - 1 - |r|..] == r;
      r + [path[|path| - 1]]
  }

  // ---------------------------------------------------------------- modules

  /** `get_modules_from_pom` on a parsed POM: the stripped text of every `modules/module`
      element whose text is non-empty, in document order; nothing for a malformed file. */
  function ModuleNames(pom: PomFile): (names: seq<string>) {
    match pom
    case MalformedPom => []
    case Pom(modules, _) => DeclaredModules(modules)
  }

  function DeclaredModules(texts: seq<Option<string>>): (r: seq<string>)
    ensures |r| <= |texts|
    decreases |texts|
  {
    if texts == [] then []
    else
      (if texts[0].Some? && texts[0].value != "" then [Strip(texts[0].value)] else [])
        + DeclaredModules(texts[1..])
  }

  /** The module names of a checkout: none without a root `pom.xml` or when it cannot be
      read or parsed. */
  function RootModules(fs: FileSystem, p: Parsers): (names: seq<string>) {
    match fs.rootPom
    case None => []
    case Some(content) => if content.Unreadable? then [] else ModuleNames(p.parsePom(content))
  }

  /** The paths scanned for a checkout: the repository itself when no module is declared,
      otherwise one path per declared module. */
  function ModulePaths(repo: string, fs: FileSystem, p: Parsers): (paths: seq<string>)
  {
    var names := RootModules(fs, p);
    if names == [] then [repo] else seq(|names|, i requires 0 <= i < |names| => PathJoin(repo, names[i]))
  }

  /** With no declared module, or no readable well-formed root POM, the repository is the
      only path; otherwise there is one path per declared module, in order. */
  lemma ModulePathsSpec(repo: string, fs: FileSystem, p: Parsers)
    ensures fs.rootPom.None? ==> ModulePaths(repo, fs, p) == [repo]
    ensures fs.rootPom.Some? && (fs.rootPom.value.Unreadable? || p.parsePom(fs.rootPom.value).MalformedPom?) ==>
      ModulePaths(repo, fs, p) == [repo]
    ensures RootModules(fs, p) == [] ==> ModulePaths(repo, fs, p) == [repo]
    ensures RootModules(fs, p) != [] ==>
      var names := RootModules(fs, p);
      |ModulePaths(repo, fs, p)| == |names| &&
      forall i :: 0 <= i < |names| ==> ModulePaths(repo, fs, p)[i] == PathJoin(repo, names[i])
  {
  }

  /** A module element counts exactly when it has non-empty text, and then contributes its
      stripped text. */
  lemma {:induction false} DeclaredModulesSpec(texts: seq<Option<string>>, t: string)
    ensures t in DeclaredModules(texts) <==>
      exists i :: 0 <= i < |texts| && texts[i].Some? && texts[i].value != "" && t == Strip(texts[i].value)
    decreases |texts|
  {
    if texts != [] {
      var tail := texts[1..];
      DeclaredModulesSpec(tail, t);
      assert forall i :: 1 <= i < |texts| ==> texts[i] == tail[i - 1];
    }
  }

  /** A single module element contributes its stripped text when it has non-empty text,
      and nothing otherwise. */
  lemma DeclaredModulesSingle(t: Option<string>)
    ensures DeclaredModules([t]) == if t.Some? && t.value != "" then [Strip(t.value)] else []
  {
    assert [t][1..] == [];
  }

  /** The names of consecutive runs of module elements are the concatenation of the runs'
      names: elements keep their document order and repeated names are kept, one entry per
      element. */
  lemma {:induction false} DeclaredModulesAppend(a: seq<Option<string>>, b: seq<Option<string>>)
    ensures DeclaredModules(a + b) == DeclaredModules(a) + DeclaredModules(b)
    decreases |a|
  {
    if a != [] {
      var head := if a[0].Some? && a[0].value != "" then [Strip(a[0].value)] else [];
      calc {
        DeclaredModules(a + b);
        { assert (a + b)[0] == a[0] && (a + b)[1..] == a[1..] + b; }
        head + DeclaredModules(a[1..] + b);
        { DeclaredModulesAppend(a[1..], b); }
        head + (DeclaredModules(a[1..]) + DeclaredModules(b));
        (head + DeclaredModules(a[1..])) + DeclaredModules(b);
      }
    } else {
      assert a + b == b;
    }
  }

  /** Two elements with the same non-empty text give the same name twice. */
  lemma DeclaredModulesKeepsRepeats(m: string)
    requires m != ""
    ensures DeclaredModules([Some(m), Some(m)]) == [Strip(m), Strip(m)]
  {
    DeclaredModulesAppend([Some(m)], [Some(m)]);
    DeclaredModulesSingle(Some(m));
    assert [Some(m), Some(m)] == [Some(m)] + [Some(m)];
  }

  // ---------------------------------------------------------------- per-module results

  function ModuleEndpoints(fs: FileSystem, path: string, p: Parsers): (found: set<Endpoints.Endpoint>) {
    Endpoints.ListingEndpoints(fs.walk(path), EndpointRules, p)
  }

  function ModuleCalls(fs: FileSystem, path: string, p: Parsers): (calls: set<string>) {
    Calls.ListingCalls(fs.walk(path), CallPatterns, p)
  }

  function ModuleDependencies(fs: FileSystem, path: string, p: Parsers): (deps: set<string>) {
    Dependencies.ListingDependencies(fs.walk(path), p)
  }

  /** `total_eps`: the per-module endpoint counts added up. */
  function TotalEndpoints(fs: FileSystem, paths: seq<string>, p: Parsers): (total: nat)
    decreases |paths|
  {
    if paths == [] then 0 else |ModuleEndpoints(fs, paths[0], p)| + TotalEndpoints(fs, paths[1..], p)
  }

  /** `all_eps`: the union of the per-module endpoint display strings. */
  function AllEndpoints(fs: FileSystem, paths: seq<string>, p: Parsers): (shown: set<string>)
    decreases |paths|
  {
    if paths == [] then {}
    else Endpoints.DisplaySet(ModuleEndpoints(fs, paths[0], p)) + AllEndpoints(fs, paths[1..], p)
  }

  /** `all_calls` */
  function AllCalls(fs: FileSystem, paths: seq<string>, p: Parsers): (calls: set<string>)
    decreases |paths|
  {
    if paths == [] then {} else ModuleCalls(fs, paths[0], p) + AllCalls(fs, paths[1..], p)
  }

  /** `all_deps` */
  function AllDependencies(fs: FileSystem, paths: seq<string>, p: Parsers): (deps: set<string>)
    decreases |paths|
  {
    if paths == [] then {} else ModuleDependencies(fs, paths[0], p) + AllDependencies(fs, paths[1..], p)
  }

  // ---------------------------------------------------------------- the row

  /** One data row of the report, field by field. */
  datatype Row = Row(
    service: string,
    day: int,
    endpoints: nat,
    dependencies: nat,
    interServiceCommunications: nat,
    dependencyList: string,
    endpointList: string,
    interServiceCommunicationsList: string)

  /** `'"' + ';'.join(items) + '"'` */
  function QuotedList(items: seq<string>): (field: string) {
    "\"" + Join(items, ";") + "\""
  }

  /** The row `analyze_service` writes for the checkout `fs` of `repo` on day `day`. */
  ghost function ReportRow(repo: string, fs: FileSystem, day: int, p: Parsers): (row: Row) {
    var paths := ModulePaths(repo, fs, p);
    var eps, calls, deps := AllEndpoints(fs, paths, p), AllCalls(fs, paths, p), AllDependencies(fs, paths, p);
    Row(Basename(repo), day, TotalEndpoints(fs, paths, p), |deps|, |calls|,
        QuotedList(SortedSeq(deps)), QuotedList(SortedSeq(eps)), QuotedList(SortedSeq(calls)))
  }

  /** The summed endpoint count is at least the number of distinct display strings, and the
      union of the module display sets holds one string per endpoint of some module. */
  lemma {:induction false} EndpointTotalBound(fs: FileSystem, paths: seq<string>, p: Parsers)
    ensures |AllEndpoints(fs, paths, p)| <= TotalEndpoints(fs, paths, p)
    decreases |paths|
  {
    if paths != [] {
      EndpointTotalBound(fs, paths[1..], p);
      DisplaySetBound(fs, paths[0], p);
      var a := Endpoints.DisplaySet(ModuleEndpoints(fs, paths[0], p));
      var b := AllEndpoints(fs, paths[1..], p);
      assert |a + b| <= |a| + |b| by {
        assert |a + b| == |a| + |b| - |a * b|;
      }
    }
  }

  /** One module's display strings are exactly as many as its endpoints. */
  lemma DisplaySetBound(fs: FileSystem, path: string, p: Parsers)
    ensures |Endpoints.DisplaySet(ModuleEndpoints(fs, path, p))| == |ModuleEndpoints(fs, path, p)|
  {
    var es := ModuleEndpoints(fs, path, p);
    RuleTags();
    forall e | e in es ensures ' ' !in e.httpMethod {
      Endpoints.EndpointTags(fs.walk(path), EndpointRules, p, e);
    }
    Endpoints.DisplaySetSize(es);
  }

  /** The same module listed twice has its endpoints counted twice, while its calls and
      dependencies are counted once. */
  lemma RepeatedModuleCountedTwice(fs: FileSystem, q: string, p: Parsers)
    ensures TotalEndpoints(fs, [q, q], p) == 2 * |ModuleEndpoints(fs, q, p)|
    ensures AllEndpoints(fs, [q, q], p) == Endpoints.DisplaySet(ModuleEndpoints(fs, q, p))
    ensures AllCalls(fs, [q, q], p) == ModuleCalls(fs, q, p)
    ensures AllDependencies(fs, [q, q], p) == ModuleDependencies(fs, q, p)
  {
    var e, c, d := ModuleEndpoints(fs, q, p), ModuleCalls(fs, q, p), ModuleDependencies(fs, q, p);
    assert [q, q][1..] == [q] && [q][1..] == [];
    assert TotalEndpoints(fs, [q], p) == |e|;
    assert AllEndpoints(fs, [q], p) == Endpoints.DisplaySet(e);
    assert AllCalls(fs, [q], p) == c;
    assert AllDependencies(fs, [q], p) == d;
  }

  /** For a single scanned path the row's endpoint count is the number of entries of its
      endpoint list. */
  lemma SingleModuleCount(fs: FileSystem, q: string, p: Parsers)
    ensures TotalEndpoints(fs, [q], p) == |AllEndpoints(fs, [q], p)|
  {
    assert [q][1..] == [];
    DisplaySetBound(fs, q, p);
  }

  /** A list field holds exactly the sorted items: splitting its inner text at ';' gives
      them back when there is at least one item and no item contains ';'. */
  lemma QuotedListRoundTrip(items: set<string>)
    requires items != {}
    requires forall x :: x in items ==> ';' !in x
    ensures var field := QuotedList(SortedSeq(items));
      |field| >= 2 && field[0] == '"' && field[|field| - 1] == '"' &&
      Split(field[1..|field| - 1], ';') == SortedSeq(items)
  {
    var xs := SortedSeq(items);
    var inner := Join(xs, ";");
    var field := QuotedList(xs);
    assert field[1..|field| - 1] == inner;
    assert forall i :: 0 <= i < |xs| ==> xs[i] in items;
    SplitJoin(xs, ';');
  }

  /** Without those two conditions the field does not determine the items: no items give
      the field `""`, whose inner text splits into one empty item, and the single item
      "a;b" gives the same field as the two items "a" and "b". */
  lemma QuotedListAmbiguous()
    ensures QuotedList(SortedSeq({})) == "\"\"" && Split("", ';') == [""]
    ensures QuotedList(SortedSeq({"a;b"})) == QuotedList(SortedSeq({"a", "b"}))
    ensures {"a;b"} != {"a", "b"}
  {
    assert SortedSeq({}) == [];
    var one := SortedSeq({"a;b"});
    assert |one| == 1 && one[0] in one;
    assert one == ["a;b"];
    assert LexLe("a", "b");
    SortedSeqUnique({"a", "b"}, ["a", "b"]);
    assert Join(["a", "b"], ";") == "a;b" by {
      assert ["a", "b"][1..] == ["b"];
    }
    assert "a;b" !in {"a", "b"};
  }

  /** The three scans of one module path, as the loop body of `analyze_service` takes
      them: the endpoint count, and the elements of the endpoint display list, of the call
      list and of the dependency set. */
  method ScanModule(fs: FileSystem, path: string, p: Parsers)
    returns (epCount: nat, callCount: nat, shown: set<string>, called: set<string>, deps: set<string>)
    ensures epCount == |ModuleEndpoints(fs, path, p)|
    ensures shown == Endpoints.DisplaySet(ModuleEndpoints(fs, path, p))
    ensures called == ModuleCalls(fs, path, p)
    ensures deps == ModuleDependencies(fs, path, p)
  {
    var listing := fs.walk(path);
    var eps, calls;
    epCount, eps := Endpoints.CountEndpoints(listing, p);
    callCount, calls := Calls.CountInterServiceCalls(listing, p);
    deps := Dependencies.CountDependencies(listing, p);
    SortedElements(Endpoints.DisplaySet(ModuleEndpoints(fs, path, p)));
    SortedElements(ModuleCalls(fs, path, p));
    shown := set x | x in eps;
    called := set x | x in calls;
  }

  /** The loop of `analyze_service` over the module paths: the endpoint total and the
      three unions. `total_calls` is accumulated as in the source and never used. */
  method ScanModules(fs: FileSystem, paths: seq<string>, p: Parsers)
    returns (totalEps: nat, allEps: set<string>, allCalls: set<string>, allDeps: set<string>)
    ensures totalEps == TotalEndpoints(fs, paths, p)
    ensures allEps == AllEndpoints(fs, paths, p)
    ensures allCalls == AllCalls(fs, paths, p)
    ensures allDeps == AllDependencies(fs, paths, p)
  {
    var totalCalls := 0;
    totalEps, allEps, allCalls, allDeps := 0, {}, {}, {};
    for i := 0 to |paths|
      invariant totalEps + TotalEndpoints(fs, paths[i..], p) == TotalEndpoints(fs, paths, p)
      invariant allEps + AllEndpoints(fs, paths[i..], p) == AllEndpoints(fs, paths, p)
      invariant allCalls + AllCalls(fs, paths[i..], p) == AllCalls(fs, paths, p)
      invariant allDeps + AllDependencies(fs, paths[i..], p) == AllDependencies(fs, paths, p)
    {
      assert paths[i..][1..] == paths[i + 1..];
      var epCount, callCount, shown, called, deps := ScanModule(fs, paths[i], p);
      totalEps := totalEps + epCount;
      totalCalls := totalCalls + callCount;
      allEps := allEps + shown;
      allCalls := allCalls + called;
      allDeps := allDeps + deps;
    }
    assert paths[|paths|..] == [];
  }

  /** `analyze_service` for one checkout: resolves the module paths, scans them, and builds
      the row. */
  method AnalyzeService(repo: string, fs: FileSystem, day: int, p: Parsers) returns (row: Row)
    ensures row == ReportRow(repo, fs, day, p)
  {
    var paths := ModulePaths(repo, fs, p);
    var totalEps, allEps, allCalls, allDeps := ScanModules(fs, paths, p);
    var sortedDeps := SortStrings(allDeps);
    var sortedEps := SortStrings(allEps);
    var sortedCalls := SortStrings(allCalls);
    row := Row(Basename(repo), day, totalEps, |allDeps|, |allCalls|,
               QuotedList(sortedDeps), QuotedList(sortedEps), QuotedList(sortedCalls));
  }
}
