/** The per-format rules of `count_dependencies`: what one manifest file contributes. */
module Manifests {
  import opened Wrappers
  import opened Text
  import opened Catalog
  import opened Inputs

  // ---------------------------------------------------------------- pom.xml

  /** What one `<dependency>` entry does to the dependency set: nothing, add a coordinate,
      or raise (an element present without text has `.text` None, and calling `strip` on it
      raises), which ends the processing of the whole file. */
  datatype PomOutcome = Skip | Add(coordinate: string) | Abort

  /** The coordinate `group:artifact:version`. */
  function Coordinate(groupId: string, artifactId: string, version: string): (coordinate: string) {
    groupId + ":" + artifactId + ":" + version
  }

  /** The version a coordinate carries when the entry declares none. */
  const InheritedVersion: string := "<inherited>"

  /** The body of the loop over `.//dependencies/dependency`, for one entry. */
  function PomEntry(d: PomDependency): (outcome: PomOutcome) {
    if d.scope.NoText? then Abort
    else if d.scope.Value? && Strip(d.scope.text) in UnwantedScopes then Skip
    else if d.groupId.Absent? || d.artifactId.Absent? then Skip
    else if d.groupId.NoText? || d.artifactId.NoText? || d.version.NoText? then Abort
    else
      Add(Coordinate(Strip(d.groupId.text), Strip(d.artifactId.text),
                     if d.version.Value? then Strip(d.version.text) else InheritedVersion))
  }

  /** The coordinates a parsed POM adds, in document order, up to the first entry that raises. */
  function PomCoordinates(ds: seq<PomDependency>): (coordinates: set<string>)
    decreases |ds|
  {
    if ds == [] then {}
    else
      match PomEntry(ds[0])
      case Skip => PomCoordinates(ds[1..])
      case Add(c) => {c} + PomCoordinates(ds[1..])
      case Abort => {}
  }

  /** An entry whose stripped scope is one of the unwanted scopes is skipped, whatever else
      it declares. */
  lemma UnwantedScopeSkipped(d: PomDependency)
    requires d.scope.Value? && Strip(d.scope.text) in UnwantedScopes
    ensures PomEntry(d) == Skip
  {
  }

  /** Any other declared scope has no effect: the entry is treated as if it had no scope. */
  lemma OtherScopeIgnored(d: PomDependency)
    requires d.scope.Value? && Strip(d.scope.text) !in UnwantedScopes
    ensures PomEntry(d) == PomEntry(d.(scope := Absent))
  {
  }

  /** An entry without groupId or without artifactId is skipped unless its scope raises first. */
  lemma MissingIdSkipped(d: PomDependency)
    requires !d.scope.NoText?
    requires d.groupId.Absent? || d.artifactId.Absent?
    ensures PomEntry(d) == Skip
  {
  }

  /** A complete entry with a wanted scope adds `g:a:v`, or `g:a:<inherited>` without a
      version, from the stripped texts. */
  lemma CoordinateBuilt(d: PomDependency)
    requires d.scope.Absent? || (d.scope.Value? && Strip(d.scope.text) !in UnwantedScopes)
    requires d.groupId.Value? && d.artifactId.Value? && !d.version.NoText?
    ensures d.version.Value? ==>
      PomEntry(d) == Add(Strip(d.groupId.text) + ":" + Strip(d.artifactId.text) + ":" + Strip(d.version.text))
    ensures d.version.Absent? ==>
      PomEntry(d) == Add(Strip(d.groupId.text) + ":" + Strip(d.artifactId.text) + ":<inherited>")
  {
    var g, a := Strip(d.groupId.text), Strip(d.artifactId.text);
    assert g + ":" + a + ":<inherited>" == Coordinate(g, a, InheritedVersion);
  }

  /** Which entries raise: a scope without text, or, once groupId and artifactId are both
      present and the scope is wanted, any of the three without text. */
  lemma AbortCases(d: PomDependency)
    ensures PomEntry(d) == Abort <==>
      d.scope.NoText? ||
      ((d.scope.Absent? || Strip(d.scope.text) !in UnwantedScopes) &&
       !d.groupId.Absent? && !d.artifactId.Absent? &&
       (d.groupId.NoText? || d.artifactId.NoText? || d.version.NoText?))
  {
  }

  /** Coordinates split back into their three parts when no part contains ':'. */
  lemma CoordinateRoundTrip(g: string, a: string, v: string)
    requires ':' !in g && ':' !in a && ':' !in v
    ensures Split(Coordinate(g, a, v), ':') == [g, a, v]
  {
    var xs := [g, a, v];
    assert Join(xs[2..], [':']) == v;
    assert Join(xs[1..], [':']) == a + ":" + v;
    assert Join(xs, [':']) == Coordinate(g, a, v);
    SplitJoin(xs, ':');
  }

  /** No entry of `ds` before index `i` raises. */
  ghost predicate ReachedIn(ds: seq<PomDependency>, i: int) {
    0 <= i <= |ds| && forall j :: 0 <= j < i ==> PomEntry(ds[j]) != Abort
  }

  /** A coordinate is in the POM's set exactly when some entry adds it and no earlier entry
      raises: entries added before a raising entry stay, later ones are never seen. */
  lemma {:induction false} PomCoordinatesIff(ds: seq<PomDependency>, c: string)
    ensures c in PomCoordinates(ds) <==> exists i :: ReachedIn(ds, i) && i < |ds| && PomEntry(ds[i]) == Add(c)
    decreases |ds|
  {
    if ds != [] {
      var tail := ds[1..];
      PomCoordinatesIff(tail, c);
      if PomEntry(ds[0]) != Abort {
        if c in PomCoordinates(tail) {
          var i :| ReachedIn(tail, i) && i < |tail| && PomEntry(tail[i]) == Add(c);
          assert ds[i + 1] == tail[i];
          assert ReachedIn(ds, i + 1);
        }
        forall i | ReachedIn(ds, i) && 0 < i < |ds| && PomEntry(ds[i]) == Add(c)
          ensures c in PomCoordinates(tail)
        {
          assert ReachedIn(tail, i - 1);
          assert tail[i - 1] == ds[i];
        }
      } else {
        forall i | ReachedIn(ds, i) && i < |ds| ensures i == 0 {}
      }
    }
  }

  /** The dependency loop over one parsed POM: stops at the first entry that raises and keeps
      what it added before. */
  method ReadPomDependencies(ds: seq<PomDependency>) returns (found: set<string>)
    ensures found == PomCoordinates(ds)
  {
    found := {};
    var i := 0;
    while i < |ds|
      invariant 0 <= i <= |ds|
      invariant found + PomCoordinates(ds[i..]) == PomCoordinates(ds)
    {
      var d := ds[i];
      assert ds[i..][1..] == ds[i + 1..];
      if d.scope.NoText? {
        assert PomEntry(d) == Abort;
        break;
      }
      if d.scope.Value? && Strip(d.scope.text) in UnwantedScopes {
        assert PomEntry(d) == Skip;
        i := i + 1;
        continue;
      }
      if !d.groupId.Absent? && !d.artifactId.Absent? {
        if d.groupId.NoText? || d.artifactId.NoText? || d.version.NoText? {
          assert PomEntry(d) == Abort;
          break;
        }
        var version := if d.version.Value? then Strip(d.version.text) else InheritedVersion;
        var coordinate := Coordinate(Strip(d.groupId.text), Strip(d.artifactId.text), version);
        assert PomEntry(d) == Add(coordinate);
        found := found + {coordinate};
      } else {
        assert PomEntry(d) == Skip;
      }
      i := i + 1;
    }
    if i == |ds| {
      assert ds[i..] == [];
    }
  }

  // ---------------------------------------------------------------- requirements.txt

  /** The lines of a text file as Python iterates them, line endings dropped. */
  function Lines(text: string): (lines: seq<string>) {
    Split(text, '\n')
  }

  /** One line of `requirements.txt`: nothing for a blank line or one whose raw text starts
      with '#'; otherwise the stripped line up to its first "==". */
  function RequirementName(line: string): (name: Option<string>) {
    if Strip(line) != "" && !StartsWith(line, "#") then Some(BeforeFirst(Strip(line), "==")) else None
  }

  function RequirementNames(lines: seq<string>): (names: set<string>)
    decreases |lines|
  {
    if lines == [] then {}
    else
      (match RequirementName(lines[0]) case Some(n) => {n} case None => {})
        + RequirementNames(lines[1..])
  }

  /** What a line contributes: nothing exactly for blank and '#'-prefixed lines, and
      otherwise a prefix of the stripped line that holds no "==" and stops either at the
      end of the stripped line or just before its first "==". */
  lemma RequirementNameSpec(line: string)
    ensures RequirementName(line).None? <==> Strip(line) == "" || StartsWith(line, "#")
    ensures RequirementName(line).Some? ==>
      var n, s := RequirementName(line).value, Strip(line);
      && StartsWith(s, n)
      && (n == s || StartsWith(s[|n|..], "=="))
      && forall i :: 0 <= i < |n| ==> !StartsWith(s[i..], "==")
  {
  }

  /** A requirement line without "==" contributes the whole stripped line, so a comment
      indented by whitespace is kept, '#' and all. */
  lemma RequirementWithoutPin(line: string)
    requires Strip(line) != "" && !StartsWith(line, "#")
    requires forall i :: 0 <= i < |Strip(line)| ==> !StartsWith(Strip(line)[i..], "==")
    ensures RequirementName(line) == Some(Strip(line))
  {
  }

  lemma {:induction false} RequirementNamesIff(lines: seq<string>, n: string)
    ensures n in RequirementNames(lines) <==> exists i :: 0 <= i < |lines| && RequirementName(lines[i]) == Some(n)
    decreases |lines|
  {
    if lines != [] {
      var tail := lines[1..];
      RequirementNamesIff(tail, n);
      assert forall i :: 1 <= i < |lines| ==> lines[i] == tail[i - 1];
    }
  }

  /** The line loop over a `requirements.txt`. */
  method ReadRequirements(text: string) returns (found: set<string>)
    ensures found == RequirementNames(Lines(text))
  {
    var lines := Lines(text);
    found := {};
    for i := 0 to |lines|
      invariant found + RequirementNames(lines[i..]) == RequirementNames(lines)
    {
      var line := lines[i];
      assert lines[i..][1..] == lines[i + 1..];
      if Strip(line) != "" && !StartsWith(line, "#") {
        found := found + {BeforeFirst(Strip(line), "==")};
      }
    }
    assert lines[|lines|..] == [];
  }

  // ---------------------------------------------------------------- go.mod

  /** One line of `go.mod`: the second whitespace token of a line that starts with "require"
      and has at least two tokens. */
  function GoRequirement(line: string): (required: Option<string>) {
    if StartsWith(line, "require") && |Tokens(line)| > 1 then Some(Tokens(line)[1]) else None
  }

  function GoRequirements(lines: seq<string>): (modules: set<string>)
    decreases |lines|
  {
    if lines == [] then {}
    else
      (match GoRequirement(lines[0]) case Some(m) => {m} case None => {})
        + GoRequirements(lines[1..])
  }

  /** A `require` line's first token is the keyword run itself, and the token it contributes
      is a non-empty run without whitespace. */
  lemma GoRequirementSpec(line: string)
    ensures GoRequirement(line).Some? <==> StartsWith(line, "require") && |Tokens(line)| >= 2
    ensures GoRequirement(line).Some? ==>
      && Tokens(line)[0] == LeadingWord(line)
      && StartsWith(Tokens(line)[0], "require")
      && GoRequirement(line).value != []
      && forall k :: 0 <= k < |GoRequirement(line).value| ==> !IsSpace(GoRequirement(line).value[k])
  {
    if StartsWith(line, "require") && |Tokens(line)| > 1 {
      assert line[0] == 'r';
      TokensHead(line);
      RequireWord(line);
    }
  }

  /** The word a "require" line starts with begins with "require". */
  lemma RequireWord(line: string)
    requires StartsWith(line, "require")
    ensures StartsWith(LeadingWord(line), "require")
  {
    var w := LeadingWord(line);
    var kw := "require";
    forall i | 0 <= i < |kw| ensures !IsSpace(line[i]) {
      assert line[i] == kw[i];
    }
    assert w[..|kw|] == line[..|kw|];
  }

  /** For a line split into words, a "require" line contributes its second word, and
      nothing when it has a single word. */
  lemma GoRequirementOfSplit(line: string, gaps: seq<string>, words: seq<string>)
    requires IsWordSplit(line, gaps, words) && StartsWith(line, "require")
    ensures GoRequirement(line) == if |words| >= 2 then Some(words[1]) else None
  {
    TokensUnique(line, gaps, words);
  }

  /** The keyword is one word, and a single space is one gap. */
  lemma KeywordAndSpace()
    ensures "require" != [] && NoSpace("require") && AllSpace(" ") && AllSpace("")
  {
    assert forall c :: c in "require" ==> !IsSpace(c);
  }

  /** A single-line `require <path> <version>` contributes its module path. */
  lemma GoRequirementPinned(path: string, version: string)
    requires path != [] && NoSpace(path)
    requires version != [] && NoSpace(version)
    ensures GoRequirement("require " + path + " " + version) == Some(path)
  {
    var line := "require " + path + " " + version;
    var gaps, words := ["", " ", " ", ""], ["require", path, version];
    KeywordAndSpace();
    assert forall i :: 0 <= i < |gaps| ==> AllSpace(gaps[i]);
    assert forall i :: 0 <= i < |words| ==> words[i] != [] && NoSpace(words[i]);
    assert Interleave(gaps, words) == line by {
      assert Interleave(gaps[3..], words[3..]) == "";
      assert Interleave(gaps[2..], words[2..]) == " " + version;
      assert Interleave(gaps[1..], words[1..]) == " " + path + " " + version;
    }
    assert line[..7] == "require";
    GoRequirementOfSplit(line, gaps, words);
  }

  /** A line `require <word>` contributes that word, so the opener `require (` of a block
      contributes "(" itself. */
  lemma GoRequirementSingle(word: string)
    requires word != [] && NoSpace(word)
    ensures GoRequirement("require " + word) == Some(word)
  {
    var line := "require " + word;
    var gaps, words := ["", " ", ""], ["require", word];
    KeywordAndSpace();
    assert forall i :: 0 <= i < |gaps| ==> AllSpace(gaps[i]);
    assert forall i :: 0 <= i < |words| ==> words[i] != [] && NoSpace(words[i]);
    assert Interleave(gaps, words) == line by {
      assert Interleave(gaps[2..], words[2..]) == "";
      assert Interleave(gaps[1..], words[1..]) == " " + word;
    }
    assert line[..7] == "require";
    GoRequirementOfSplit(line, gaps, words);
  }

  /** The indented lines inside a `require (` block do not start with "require" and
      contribute nothing. */
  lemma GoRequirementIndented(line: string)
    requires line != [] && IsSpace(line[0])
    ensures GoRequirement(line) == None
  {
    assert !StartsWith(line, "require") by {
      if |line| >= 7 {
        assert line[..7][0] == line[0];
      }
    }
  }

  lemma {:induction false} GoRequirementsIff(lines: seq<string>, m: string)
    ensures m in GoRequirements(lines) <==> exists i :: 0 <= i < |lines| && GoRequirement(lines[i]) == Some(m)
    decreases |lines|
  {
    if lines != [] {
      var tail := lines[1..];
      GoRequirementsIff(tail, m);
      assert forall i :: 1 <= i < |lines| ==> lines[i] == tail[i - 1];
    }
  }

  /** The line loop over a `go.mod`. */
  method ReadGoMod(text: string) returns (found: set<string>)
    ensures found == GoRequirements(Lines(text))
  {
    var lines := Lines(text);
    found := {};
    for i := 0 to |lines|
      invariant found + GoRequirements(lines[i..]) == GoRequirements(lines)
    {
      var line := lines[i];
      assert lines[i..][1..] == lines[i + 1..];
      if StartsWith(line, "require") {
        var parts := Tokens(line);
        if |parts| > 1 {
          found := found + {parts[1]};
        }
      }
    }
    assert lines[|lines|..] == [];
  }

  // ---------------------------------------------------------------- package.json

  /** `data.get("dependencies", {}).keys()`: the keys of a "dependencies" object; nothing
      when the member is missing, and nothing when the document or the member is not an
      object (the lookup raises). */
  function PackageJsonNames(doc: PackageJson): (names: set<string>) {
    match doc
    case JsonObject(Some(DependencyObject(names))) => names
    case _ => {}
  }

  /** Only an object-valued "dependencies" member of an object document contributes, and
      then all of its keys. */
  lemma PackageJsonNamesSpec(doc: PackageJson)
    ensures PackageJsonNames(doc) != {} ==>
      doc.JsonObject? && doc.dependencies.Some? && doc.dependencies.value.DependencyObject?
    ensures doc.JsonObject? && doc.dependencies.Some? && doc.dependencies.value.DependencyObject? ==>
      PackageJsonNames(doc) == doc.dependencies.value.names
  {
  }
}
