/** `count_endpoints`: the distinct (method, path) pairs declared under a module path. */
module Endpoints {
  import opened Text
  import opened Sorting
  import opened Catalog
  import opened Inputs

  /** An inferred route. */
  datatype Endpoint = Endpoint(httpMethod: string, path: string)

  /** `"/" + capture.strip("/")`: exactly one leading slash and no trailing slash, except
      for the root path "/" itself. */
  function NormalizePath(capture: string): (r: string)
    ensures |r| >= 1 && r[0] == '/'
    ensures |r| > 1 ==> r[1] != '/' && r[|r| - 1] != '/'
  {
    StripCharsSpec(capture, {'/'});
    "/" + StripChars(capture, {'/'})
  }

  /** A capture that neither starts nor ends with '/' only gets the leading slash. */
  lemma NormalizePathOfBare(capture: string)
    requires capture == [] || (capture[0] != '/' && capture[|capture| - 1] != '/')
    ensures NormalizePath(capture) == "/" + capture
  {
    StripCharsFixpoint(capture, {'/'});
  }

  /** Normalising a normalised path changes nothing. */
  lemma NormalizePathIdempotent(capture: string)
    ensures NormalizePath(NormalizePath(capture)) == NormalizePath(capture)
  {
    var inner := StripChars(capture, {'/'});
    StripCharsSpec(capture, {'/'});
    StripLeftCons('/', inner, {'/'});
    StripCharsFixpoint(inner, {'/'});
  }

  /** A run of `n` slashes. */
  function Slashes(n: nat): (r: string)
    ensures |r| == n && forall i :: 0 <= i < n ==> r[i] == '/'
  {
    seq(n, _ => '/')
  }

  /** A run of slashes grows at either end. */
  lemma SlashesStep(n: nat)
    ensures Slashes(n + 1) == ['/'] + Slashes(n)
    ensures Slashes(n + 1) == Slashes(n) + ['/']
  {
  }

  lemma {:induction false} StripLeftSlashes(n: nat, x: string)
    requires x == [] || x[0] != '/'
    ensures StripLeft(Slashes(n) + x, {'/'}) == x
    decreases n
  {
    if n == 0 {
      assert Slashes(0) + x == x;
      assert LeadingRun(x, {'/'}) == 0;
    } else {
      var rest := Slashes(n - 1) + x;
      SlashesStep(n - 1);
      assert Slashes(n) + x == ['/'] + rest;
      StripLeftCons('/', rest, {'/'});
      StripLeftSlashes(n - 1, x);
    }
  }

  lemma {:induction false} StripRightSlashes(x: string, n: nat)
    requires x == [] || x[|x| - 1] != '/'
    ensures StripRight(x + Slashes(n), {'/'}) == x
    decreases n
  {
    if n == 0 {
      assert x + Slashes(0) == x;
      assert TrailingRun(x, {'/'}) == 0;
    } else {
      var rest := x + Slashes(n - 1);
      SlashesStep(n - 1);
      assert x + Slashes(n) == rest + ['/'];
      StripRightSnoc(rest, '/', {'/'});
      StripRightSlashes(x, n - 1);
    }
  }

  /** Any number of leading and trailing slashes around a non-empty bare path collapse to
      the one leading slash. */
  lemma NormalizePathCollapses(lead: nat, x: string, trail: nat)
    requires x != [] && x[0] != '/' && x[|x| - 1] != '/'
    ensures NormalizePath(Slashes(lead) + x + Slashes(trail)) == "/" + x
  {
    assert Slashes(lead) + x + Slashes(trail) == Slashes(lead) + (x + Slashes(trail));
    StripLeftSlashes(lead, x + Slashes(trail));
    StripRightSlashes(x, trail);
  }

  /** A capture made only of slashes, or empty, normalises to the root path. */
  lemma NormalizePathOfSlashes(n: nat)
    ensures NormalizePath(Slashes(n)) == "/"
  {
    assert Slashes(n) + [] == Slashes(n);
    StripLeftSlashes(n, []);
  }

  /** "users/", "/users" and "users" all name `/users`. */
  lemma NormalizePathExamples()
    ensures NormalizePath("users/") == "/users"
    ensures NormalizePath("/users") == "/users"
    ensures NormalizePath("users") == "/users"
  {
    var users, slash := "users", Slashes(1);
    assert slash == "/" by {
      assert |slash| == 1 && slash[0] == '/';
    }
    assert Slashes(0) == [];
    assert "users/" == [] + users + slash by {
      NormalizePathCollapses(0, users, 1);
    }
    assert "/users" == slash + users + [] by {
      NormalizePathCollapses(1, users, 0);
    }
    assert "users" == [] + users + [] by {
      NormalizePathCollapses(0, users, 0);
    }
    NormalizePathCollapses(0, users, 1);
    NormalizePathCollapses(1, users, 0);
    NormalizePathCollapses(0, users, 0);
  }

  /** The capture-less marker rule is matched ignoring case, and its whole match becomes a
      path of its own in the case the file spells it: `@DELETE` gives "/@DELETE" and
      `@Delete` gives "/@Delete". */
  lemma MarkerPath(m: string)
    requires |m| == 7 && m[0] == '@'
    requires forall k :: 1 <= k < 7 ==> m[k] == "DELETE"[k - 1] || m[k] == "delete"[k - 1]
    ensures NormalizePath(m) == "/" + m
  {
    assert m[6] == "DELETE"[5] || m[6] == "delete"[5];
    NormalizePathOfBare(m);
  }

  /** The display form `f"{m} {p}"`. */
  function Display(e: Endpoint): (shown: string) {
    e.httpMethod + " " + e.path
  }

  /** The first space of a display string ends its method tag. */
  lemma DisplayFirstSpace(e: Endpoint)
    requires ' ' !in e.httpMethod
    ensures Display(e)[|e.httpMethod|] == ' '
    ensures forall i :: 0 <= i < |e.httpMethod| ==> Display(e)[i] != ' '
  {
    forall i | 0 <= i < |e.httpMethod| ensures Display(e)[i] != ' ' {
      assert Display(e)[i] == e.httpMethod[i];
    }
  }

  /** Different endpoints display differently as long as no method tag contains a space. */
  lemma DisplayInjective(e1: Endpoint, e2: Endpoint)
    requires ' ' !in e1.httpMethod && ' ' !in e2.httpMethod
    requires Display(e1) == Display(e2)
    ensures e1 == e2
  {
    var s := Display(e1);
    var m1, m2 := e1.httpMethod, e2.httpMethod;
    DisplayFirstSpace(e1);
    DisplayFirstSpace(e2);
    assert |m1| == |m2|;
    assert m1 == s[..|m1|] == m2;
    assert e1.path == s[|m1| + 1..] == e2.path;
  }

  function DisplaySet(es: set<Endpoint>): (shown: set<string>) {
    set e | e in es :: Display(e)
  }

  /** The display strings of endpoints with space-free tags are as many as the endpoints. */
  lemma {:induction false} DisplaySetSize(es: set<Endpoint>)
    requires forall e :: e in es ==> ' ' !in e.httpMethod
    ensures |DisplaySet(es)| == |es|
    decreases |es|
  {
    if es != {} {
      var e :| e in es;
      var rest := es - {e};
      DisplaySetSize(rest);
      assert DisplaySet(es) == DisplaySet(rest) + {Display(e)};
      if Display(e) in DisplaySet(rest) {
        var e' :| e' in rest && Display(e') == Display(e);
        DisplayInjective(e, e');
        assert false;
      }
    }
  }

  /** The endpoints one rule's captures give (the innermost loop). */
  function CaptureEndpoints(tag: string, captures: seq<string>): (found: set<Endpoint>)
    decreases |captures|
  {
    if captures == [] then {}
    else {Endpoint(tag, NormalizePath(captures[0]))} + CaptureEndpoints(tag, captures[1..])
  }

  /** The endpoints a sequence of rules finds in one file's text. */
  function RuleEndpoints(rules: seq<EndpointRule>, text: string, p: Parsers): (found: set<Endpoint>)
    decreases |rules|
  {
    if rules == [] then {}
    else
      CaptureEndpoints(rules[0].tag, p.findallIgnoreCase(rules[0].pattern, text))
        + RuleEndpoints(rules[1..], text, p)
  }

  /** A file is scanned when its name has a source extension and it can be opened. */
  predicate ScannedForEndpoints(f: File) {
    EndsWithAny(f.name, EndpointExtensions) && f.content.Readable?
  }

  function FileEndpoints(f: File, rules: seq<EndpointRule>, p: Parsers): (found: set<Endpoint>) {
    if ScannedForEndpoints(f) then RuleEndpoints(rules, f.content.text, p) else {}
  }

  function DirEndpoints(files: seq<File>, rules: seq<EndpointRule>, p: Parsers): (found: set<Endpoint>)
    decreases |files|
  {
    if files == [] then {} else FileEndpoints(files[0], rules, p) + DirEndpoints(files[1..], rules, p)
  }

  /** The set `count_endpoints` builds from a walk listing with the rule table `rules`. */
  function ListingEndpoints(listing: seq<Dir>, rules: seq<EndpointRule>, p: Parsers): (found: set<Endpoint>)
    decreases |listing|
  {
    if listing == [] then {}
    else
      (if IsExcludedPath(listing[0].path) then {} else DirEndpoints(listing[0].files, rules, p))
        + ListingEndpoints(listing[1..], rules, p)
  }

  lemma {:induction false} CaptureEndpointsIff(tag: string, captures: seq<string>, e: Endpoint)
    ensures e in CaptureEndpoints(tag, captures) <==>
      exists m :: 0 <= m < |captures| && e == Endpoint(tag, NormalizePath(captures[m]))
    decreases |captures|
  {
    if captures != [] {
      CaptureEndpointsIff(tag, captures[1..], e);
      if e in CaptureEndpoints(tag, captures[1..]) {
        var m :| 0 <= m < |captures[1..]| && e == Endpoint(tag, NormalizePath(captures[1..][m]));
        assert captures[1..][m] == captures[m + 1];
      }
      forall m | 1 <= m < |captures| && e == Endpoint(tag, NormalizePath(captures[m]))
        ensures e in CaptureEndpoints(tag, captures[1..])
      {
        assert captures[1..][m - 1] == captures[m];
      }
    }
  }

  lemma {:induction false} RuleEndpointsIff(rules: seq<EndpointRule>, text: string, p: Parsers, e: Endpoint)
    ensures e in RuleEndpoints(rules, text, p) <==>
      exists r :: 0 <= r < |rules| && e in CaptureEndpoints(rules[r].tag, p.findallIgnoreCase(rules[r].pattern, text))
    decreases |rules|
  {
    if rules != [] {
      RuleEndpointsIff(rules[1..], text, p, e);
      if e in RuleEndpoints(rules[1..], text, p) {
        var r :| 0 <= r < |rules[1..]| && e in CaptureEndpoints(rules[1..][r].tag, p.findallIgnoreCase(rules[1..][r].pattern, text));
        assert rules[1..][r] == rules[r + 1];
      }
      forall r | 1 <= r < |rules| && e in CaptureEndpoints(rules[r].tag, p.findallIgnoreCase(rules[r].pattern, text))
        ensures e in RuleEndpoints(rules[1..], text, p)
      {
        assert rules[1..][r - 1] == rules[r];
      }
    }
  }

  lemma {:induction false} DirEndpointsIff(files: seq<File>, rules: seq<EndpointRule>, p: Parsers, e: Endpoint)
    ensures e in DirEndpoints(files, rules, p) <==> exists j :: 0 <= j < |files| && e in FileEndpoints(files[j], rules, p)
    decreases |files|
  {
    if files != [] {
      DirEndpointsIff(files[1..], rules, p, e);
      if e in DirEndpoints(files[1..], rules, p) {
        var j :| 0 <= j < |files[1..]| && e in FileEndpoints(files[1..][j], rules, p);
        assert files[1..][j] == files[j + 1];
      }
      forall j | 1 <= j < |files| && e in FileEndpoints(files[j], rules, p)
        ensures e in DirEndpoints(files[1..], rules, p)
      {
        assert files[1..][j - 1] == files[j];
      }
    }
  }

  lemma {:induction false} ListingEndpointsIff(listing: seq<Dir>, rules: seq<EndpointRule>, p: Parsers, e: Endpoint)
    ensures e in ListingEndpoints(listing, rules, p) <==>
      exists k :: 0 <= k < |listing| && !IsExcludedPath(listing[k].path) && e in DirEndpoints(listing[k].files, rules, p)
    decreases |listing|
  {
    if listing != [] {
      ListingEndpointsIff(listing[1..], rules, p, e);
      if e in ListingEndpoints(listing[1..], rules, p) {
        var k :| 0 <= k < |listing[1..]| && !IsExcludedPath(listing[1..][k].path) && e in DirEndpoints(listing[1..][k].files, rules, p);
        assert listing[1..][k] == listing[k + 1];
      }
      forall k | 1 <= k < |listing| && !IsExcludedPath(listing[k].path) && e in DirEndpoints(listing[k].files, rules, p)
        ensures e in ListingEndpoints(listing[1..], rules, p)
      {
        assert listing[1..][k - 1] == listing[k];
      }
    }
  }

  /** `e` is declared in the listing: some capture `c` of some rule in some scanned file of
      some directory outside the excluded trees normalises to `e`. */
  ghost predicate DeclaredIn(listing: seq<Dir>, rules: seq<EndpointRule>, p: Parsers, e: Endpoint) {
    exists k, j, r, c ::
      && 0 <= k < |listing| && !IsExcludedPath(listing[k].path)
      && 0 <= j < |listing[k].files| && ScannedForEndpoints(listing[k].files[j])
      && 0 <= r < |rules|
      && c in p.findallIgnoreCase(rules[r].pattern, listing[k].files[j].content.text)
      && e == Endpoint(rules[r].tag, NormalizePath(c))
  }

  /** The endpoint set holds exactly the declared endpoints: every capture of every rule in
      every scanned file outside the excluded directories, and nothing else. In particular
      files under an excluded directory contribute nothing. */
  lemma EndpointOrigin(listing: seq<Dir>, rules: seq<EndpointRule>, p: Parsers, e: Endpoint)
    ensures e in ListingEndpoints(listing, rules, p) <==> DeclaredIn(listing, rules, p, e)
  {
    if e in ListingEndpoints(listing, rules, p) {
      EndpointOriginSound(listing, rules, p, e);
    }
    if DeclaredIn(listing, rules, p, e) {
      EndpointOriginComplete(listing, rules, p, e);
    }
  }

  lemma EndpointOriginSound(listing: seq<Dir>, rules: seq<EndpointRule>, p: Parsers, e: Endpoint)
    requires e in ListingEndpoints(listing, rules, p)
    ensures DeclaredIn(listing, rules, p, e)
  {
    ListingEndpointsIff(listing, rules, p, e);
    var k :| 0 <= k < |listing| && !IsExcludedPath(listing[k].path) && e in DirEndpoints(listing[k].files, rules, p);
    var files := listing[k].files;
    DirEndpointsIff(files, rules, p, e);
    var j :| 0 <= j < |files| && e in FileEndpoints(files[j], rules, p);
    var text := files[j].content.text;
    RuleEndpointsIff(rules, text, p, e);
    var r :| 0 <= r < |rules| && e in CaptureEndpoints(rules[r].tag, p.findallIgnoreCase(rules[r].pattern, text));
    var captures := p.findallIgnoreCase(rules[r].pattern, text);
    CaptureEndpointsIff(rules[r].tag, captures, e);
    var m :| 0 <= m < |captures| && e == Endpoint(rules[r].tag, NormalizePath(captures[m]));
    assert captures[m] in p.findallIgnoreCase(rules[r].pattern, listing[k].files[j].content.text);
  }

  lemma EndpointOriginComplete(listing: seq<Dir>, rules: seq<EndpointRule>, p: Parsers, e: Endpoint)
    requires DeclaredIn(listing, rules, p, e)
    ensures e in ListingEndpoints(listing, rules, p)
  {
    var k, j, r, c :|
      && 0 <= k < |listing| && !IsExcludedPath(listing[k].path)
      && 0 <= j < |listing[k].files| && ScannedForEndpoints(listing[k].files[j])
      && 0 <= r < |rules|
      && c in p.findallIgnoreCase(rules[r].pattern, listing[k].files[j].content.text)
      && e == Endpoint(rules[r].tag, NormalizePath(c));
    var files := listing[k].files;
    var text := files[j].content.text;
    var captures := p.findallIgnoreCase(rules[r].pattern, text);
    var m :| 0 <= m < |captures| && captures[m] == c;
    CaptureEndpointsIff(rules[r].tag, captures, e);
    RuleEndpointsIff(rules, text, p, e);
    DirEndpointsIff(files, rules, p, e);
    ListingEndpointsIff(listing, rules, p, e);
  }

  /** Every endpoint found carries the tag of one of the rules. */
  lemma EndpointTags(listing: seq<Dir>, rules: seq<EndpointRule>, p: Parsers, e: Endpoint)
    requires e in ListingEndpoints(listing, rules, p)
    ensures exists r :: r in rules && e.httpMethod == r.tag
  {
    EndpointOriginSound(listing, rules, p, e);
    var k, j, r, c :|
      && 0 <= k < |listing| && !IsExcludedPath(listing[k].path)
      && 0 <= j < |listing[k].files| && ScannedForEndpoints(listing[k].files[j])
      && 0 <= r < |rules|
      && c in p.findallIgnoreCase(rules[r].pattern, listing[k].files[j].content.text)
      && e == Endpoint(rules[r].tag, NormalizePath(c));
    assert rules[r] in rules;
  }

  /** The walk of `count_endpoints`: every capture of every rule in every scanned file of
      every directory outside the excluded trees, normalised and added to a set. */
  method CollectEndpoints(listing: seq<Dir>, rules: seq<EndpointRule>, p: Parsers) returns (unique: set<Endpoint>)
    ensures unique == ListingEndpoints(listing, rules, p)
  {
    ghost var total := ListingEndpoints(listing, rules, p);
    unique := {};
    for k := 0 to |listing|
      invariant unique + ListingEndpoints(listing[k..], rules, p) == total
    {
      var dir := listing[k];
      assert listing[k..][1..] == listing[k + 1..];
      ghost var laterDirs := ListingEndpoints(listing[k + 1..], rules, p);
      if !IsExcludedPath(dir.path) {
        for j := 0 to |dir.files|
          invariant unique + DirEndpoints(dir.files[j..], rules, p) + laterDirs == total
        {
          var file := dir.files[j];
          assert dir.files[j..][1..] == dir.files[j + 1..];
          ghost var later := DirEndpoints(dir.files[j + 1..], rules, p) + laterDirs;
          if EndsWithAny(file.name, EndpointExtensions) && file.content.Readable? {
            var content := file.content.text;
            for r := 0 to |rules|
              invariant unique + RuleEndpoints(rules[r..], content, p) + later == total
            {
              var rule := rules[r];
              assert rules[r..][1..] == rules[r + 1..];
              ghost var laterRules := RuleEndpoints(rules[r + 1..], content, p) + later;
              var captures := p.findallIgnoreCase(rule.pattern, content);
              for m := 0 to |captures|
                invariant unique + CaptureEndpoints(rule.tag, captures[m..]) + laterRules == total
              {
                assert captures[m..][1..] == captures[m + 1..];
                unique := unique + {Endpoint(rule.tag, NormalizePath(captures[m]))};
              }
            }
          }
        }
      }
    }
    assert listing[|listing|..] == [];
  }

  /** `count_endpoints(path)` over the listing `os.walk(path)` yields: the number of
      distinct endpoints and their sorted display strings, one per endpoint. */
  method CountEndpoints(listing: seq<Dir>, p: Parsers) returns (count: nat, display: seq<string>)
    ensures count == |ListingEndpoints(listing, EndpointRules, p)|
    ensures display == SortedSeq(DisplaySet(ListingEndpoints(listing, EndpointRules, p)))
    ensures |display| == count && StrictlyIncreasing(display)
  {
    var unique := CollectEndpoints(listing, EndpointRules, p);
    count := |unique|;
    var shown := set e | e in unique :: Display(e);
    display := SortStrings(shown);
    RuleTags();
    forall e | e in unique ensures ' ' !in e.httpMethod {
      EndpointTags(listing, EndpointRules, p, e);
    }
    DisplaySetSize(unique);
  }
}
