/** `count_dependencies`: the dependency set of a module path, built from the manifest files
    found by a walk of it. */
module Dependencies {
  import opened Text
  import opened Catalog
  import opened Inputs
  import opened Manifests

  /** Whether a content can be read with strict UTF-8 decoding. */
  predicate StrictlyReadable(content: FileContent) {
    content.Readable? && content.utf8
  }

  /** What one file contributes, dispatched on its exact name. Manifests that cannot be
      opened, decoded or parsed contribute nothing; any other name, `setup.py` and
      `composer.json` included, contributes nothing. */
  function FileDependencies(f: File, p: Parsers): (deps: set<string>) {
    if f.name == "" then {}
    else if f.name == "pom.xml" then
      if f.content.Unreadable? then {}
      else
        match p.parsePom(f.content)
        case MalformedPom => {}
        case Pom(_, ds) => PomCoordinates(ds)
    else if f.name == "package.json" then
      if StrictlyReadable(f.content) then PackageJsonNames(p.parsePackageJson(f.content.text)) else {}
    else if f.name == "requirements.txt" then
      if StrictlyReadable(f.content) then RequirementNames(Lines(f.content.text)) else {}
    else if f.name == "build.gradle" then
      if StrictlyReadable(f.content) then GradleCoordinates(f.content.text, p) else {}
    else if f.name == "go.mod" then
      if StrictlyReadable(f.content) then GoRequirements(Lines(f.content.text)) else {}
    else {}
  }

  /** The captures of the `build.gradle` configuration pattern. */
  function GradleCoordinates(text: string, p: Parsers): (coordinates: set<string>) {
    set m | m in p.findall(GradlePattern, text)
  }

  /** A `pom.xml` that parses rebinds the walk's directory variable to the document's root
      element, so the path join for every later file of the same directory raises and
      those files are skipped. */
  predicate RebindsRoot(f: File, p: Parsers) {
    f.name == "pom.xml" && !f.content.Unreadable? && p.parsePom(f.content).Pom?
  }

  /** The files of one directory, in listing order, up to and including the first file
      that rebinds the directory variable. */
  function DirDependencies(files: seq<File>, p: Parsers): (deps: set<string>)
    decreases |files|
  {
    if files == [] then {}
    else FileDependencies(files[0], p) + (if RebindsRoot(files[0], p) then {} else DirDependencies(files[1..], p))
  }

  /** The set `count_dependencies` builds from a walk listing. */
  function ListingDependencies(listing: seq<Dir>, p: Parsers): (deps: set<string>)
    decreases |listing|
  {
    if listing == [] then {}
    else
      (if IsExcludedPath(listing[0].path) then {} else DirDependencies(listing[0].files, p))
        + ListingDependencies(listing[1..], p)
  }

  /** No file of `files` before index `j` rebinds the directory variable. */
  predicate JoinableAt(files: seq<File>, p: Parsers, j: int) {
    0 <= j <= |files| && forall i :: 0 <= i < j ==> !RebindsRoot(files[i], p)
  }

  /** A dependency comes from a directory exactly when some file of it contributes it and
      no earlier file of the directory is a `pom.xml` that parsed. */
  lemma {:induction false} DirDependenciesIff(files: seq<File>, p: Parsers, d: string)
    ensures d in DirDependencies(files, p) <==>
      exists j :: JoinableAt(files, p, j) && j < |files| && d in FileDependencies(files[j], p)
    decreases |files|
  {
    if files != [] {
      var tail := files[1..];
      DirDependenciesIff(tail, p, d);
      if !RebindsRoot(files[0], p) {
        if d in DirDependencies(tail, p) {
          var j :| JoinableAt(tail, p, j) && j < |tail| && d in FileDependencies(tail[j], p);
          assert files[j + 1] == tail[j];
          assert JoinableAt(files, p, j + 1);
        }
        forall j | JoinableAt(files, p, j) && 0 < j < |files| && d in FileDependencies(files[j], p)
          ensures d in DirDependencies(tail, p)
        {
          assert JoinableAt(tail, p, j - 1);
          assert tail[j - 1] == files[j];
        }
      } else {
        forall j | JoinableAt(files, p, j) && j < |files| ensures j == 0 {}
      }
    }
  }

  /** Everything listed after a `pom.xml` that parses is ignored: the directory contributes
      exactly what its files up to that one contribute. */
  lemma {:induction false} RebindingCutsDirectory(files: seq<File>, p: Parsers, j: int)
    requires 0 <= j < |files| && RebindsRoot(files[j], p)
    ensures DirDependencies(files, p) == DirDependencies(files[..j + 1], p)
    decreases j
  {
    if j > 0 {
      RebindingCutsDirectory(files[1..], p, j - 1);
      assert files[1..][..j] == files[..j + 1][1..];
      assert files[1..][j - 1] == files[j];
    } else {
      assert files[..1][1..] == [];
    }
  }

  lemma {:induction false} ListingDependenciesIff(listing: seq<Dir>, p: Parsers, d: string)
    ensures d in ListingDependencies(listing, p) <==>
      exists k :: 0 <= k < |listing| && !IsExcludedPath(listing[k].path) && d in DirDependencies(listing[k].files, p)
    decreases |listing|
  {
    if listing != [] {
      var tail := listing[1..];
      ListingDependenciesIff(tail, p, d);
      assert forall k :: 1 <= k < |listing| ==> listing[k] == tail[k - 1];
    }
  }

  /** The dependency set holds exactly what the files of the walk contribute, where a file
      counts when its directory is not excluded and no earlier file of its directory is a
      parsed `pom.xml`; files under an excluded directory contribute nothing. */
  lemma DependencyOrigin(listing: seq<Dir>, p: Parsers, d: string)
    ensures d in ListingDependencies(listing, p) <==>
      exists k, j :: 0 <= k < |listing| && !IsExcludedPath(listing[k].path)
        && JoinableAt(listing[k].files, p, j) && j < |listing[k].files|
        && d in FileDependencies(listing[k].files[j], p)
  {
    ListingDependenciesIff(listing, p, d);
    forall k | 0 <= k < |listing| {
      DirDependenciesIff(listing[k].files, p, d);
    }
  }

  /** The per-file body of the walk: reads one manifest and reports what it adds and whether
      it rebound the directory variable. */
  method ReadManifest(f: File, p: Parsers) returns (found: set<string>, rebinds: bool)
    ensures found == FileDependencies(f, p)
    ensures rebinds == RebindsRoot(f, p)
  {
    found, rebinds := {}, false;
    if f.name == "pom.xml" {
      if !f.content.Unreadable? {
        var pom := p.parsePom(f.content);
        if pom.Pom? {
          rebinds := true;
          found := ReadPomDependencies(pom.dependencies);
        }
      }
    } else if f.name == "package.json" {
      if StrictlyReadable(f.content) {
        found := PackageJsonNames(p.parsePackageJson(f.content.text));
      }
    } else if f.name == "requirements.txt" {
      if StrictlyReadable(f.content) {
        found := ReadRequirements(f.content.text);
      }
    } else if f.name == "build.gradle" {
      if StrictlyReadable(f.content) {
        var matches := p.findall(GradlePattern, f.content.text);
        found := set m | m in matches;
      }
    } else if f.name == "go.mod" {
      if StrictlyReadable(f.content) {
        found := ReadGoMod(f.content.text);
      }
    }
  }

  /** `count_dependencies(path)` over the listing `os.walk(path)`. */
  method CountDependencies(listing: seq<Dir>, p: Parsers) returns (deps: set<string>)
    ensures deps == ListingDependencies(listing, p)
  {
    ghost var total := ListingDependencies(listing, p);
    deps := {};
    for k := 0 to |listing|
      invariant deps + ListingDependencies(listing[k..], p) == total
    {
      var dir := listing[k];
      assert listing[k..][1..] == listing[k + 1..];
      ghost var laterDirs := ListingDependencies(listing[k + 1..], p);
      if !IsExcludedPath(dir.path) {
        var rootIsElement := false;
        for j := 0 to |dir.files|
          invariant deps + (if rootIsElement then {} else DirDependencies(dir.files[j..], p)) + laterDirs == total
        {
          var file := dir.files[j];
          assert dir.files[j..][1..] == dir.files[j + 1..];
          if file.name != "" && !rootIsElement {
            var found, rebinds := ReadManifest(file, p);
            deps := deps + found;
            rootIsElement := rebinds;
          }
        }
      }
    }
    assert listing[|listing|..] == [];
  }
}
