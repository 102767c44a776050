/** The analyser's static tables: recognition rules, excluded directory tokens, unwanted
    Maven scopes and the file-name filters. */
module Catalog {
  import opened Text

  /** The regular expressions the analyser uses, by name; `Source` gives each one's text.
      The regular-expression engine is consulted per expression, so the model keys it
      by these names rather than by the texts. */
  datatype Regex =
    | GetMapping | PostMapping | PutMapping | DeleteMapping | RequestMapping | JaxRsPath | JaxRsDelete
    | AppGet | AppPost | AppPut | AppDelete | RouterGet | RouterPost | RouterPut | RouterDelete
    | AxiosCall | FetchCall | RequestsCall | RestTemplateCall | HttpClientCall | WebClientCall
    | GrpcStub | NewBlockingStub | InsecureChannel | GoHttpGet | GoHttpPost
    | CurlInit | FileGetContents | CurlWord | WgetWord | InvokeWebRequest | HttpUrl | ApiPathLiteral
    | GradleDependency

  /** The text of each expression. */
  function Source(r: Regex): (text: string) {
    match r
    case GetMapping => @"@GetMapping\(""([^""]+)""\)"
    case PostMapping => @"@PostMapping\(""([^""]+)""\)"
    case PutMapping => @"@PutMapping\(""([^""]+)""\)"
    case DeleteMapping => @"@DeleteMapping\(""([^""]+)""\)"
    case RequestMapping => @"@RequestMapping\(""([^""]+)""\)"
    case JaxRsPath => @"@Path\(""([^""]+)""\)"
    case JaxRsDelete => @"@DELETE\b"
    case AppGet => @"app\.get\(\s*[""\']([^""\']+)[""\']"
    case AppPost => @"app\.post\(\s*[""\']([^""\']+)[""\']"
    case AppPut => @"app\.put\(\s*[""\']([^""\']+)[""\']"
    case AppDelete => @"app\.delete\(\s*[""\']([^""\']+)[""\']"
    case RouterGet => @"router\.get\(\s*[""\']([^""\']+)[""\']"
    case RouterPost => @"router\.post\(\s*[""\']([^""\']+)[""\']"
    case RouterPut => @"router\.put\(\s*[""\']([^""\']+)[""\']"
    case RouterDelete => @"router\.delete\(\s*[""\']([^""\']+)[""\']"
    case AxiosCall => @"axios\.(get|post|put|delete|request|create)\("
    case FetchCall => @"fetch\("
    case RequestsCall => @"requests\.(get|post|put|delete|head|options)\("
    case RestTemplateCall => @"RestTemplate\.(getForObject|getForEntity|postForObject|postForEntity|exchange)\("
    case HttpClientCall => @"httpClient\.(send|execute)\("
    case WebClientCall => @"WebClient\..*?\.(get|post|put|delete)\("
    case GrpcStub => @"Grpc.*stub"
    case NewBlockingStub => @"\.newBlockingStub\("
    case InsecureChannel => @"insecure_channel\("
    case GoHttpGet => @"http\.Get\("
    case GoHttpPost => @"http\.Post\("
    case CurlInit => @"curl_init\("
    case FileGetContents => @"file_get_contents\("
    case CurlWord => @"\bcurl\b"
    case WgetWord => @"\bwget\b"
    case InvokeWebRequest => @"Invoke-WebRequest"
    case HttpUrl => @"http[s]?://[^\s""\']+"
    case ApiPathLiteral => @"[""\'`](/api/[^""\']+)[""\'`]"
    case GradleDependency => @"(?:implementation|api|compile)\s+[""\']([^""\']+)[""\']"
  }

  /** An endpoint rule: the HTTP method it reports and its regular expression. Every
      rule but the bare `@DELETE\b` marker has exactly one capturing group. */
  datatype EndpointRule = EndpointRule(tag: string, pattern: Regex)

  const EndpointRules: seq<EndpointRule> := [
    EndpointRule("GET", GetMapping),
    EndpointRule("POST", PostMapping),
    EndpointRule("PUT", PutMapping),
    EndpointRule("DELETE", DeleteMapping),
    EndpointRule("ANY", RequestMapping),
    EndpointRule("ANY", JaxRsPath),
    EndpointRule("DELETE", JaxRsDelete),
    EndpointRule("GET", AppGet),
    EndpointRule("POST", AppPost),
    EndpointRule("PUT", AppPut),
    EndpointRule("DELETE", AppDelete),
    EndpointRule("GET", RouterGet),
    EndpointRule("POST", RouterPost),
    EndpointRule("PUT", RouterPut),
    EndpointRule("DELETE", RouterDelete)
  ]

  /** Outbound-call rules; a call site is the whole matched text, whatever groups a rule has. */
  const CallPatterns: seq<Regex> := [
    AxiosCall, FetchCall, RequestsCall, RestTemplateCall, HttpClientCall, WebClientCall,
    GrpcStub, NewBlockingStub, InsecureChannel, GoHttpGet, GoHttpPost,
    CurlInit, FileGetContents, CurlWord, WgetWord, InvokeWebRequest, HttpUrl, ApiPathLiteral
  ]

  /** Coordinates declared in a `build.gradle` with one of these configurations. */
  const GradlePattern: Regex := GradleDependency

  /** Maven scopes whose dependencies are not counted. */
  const UnwantedScopes: set<string> := {"test", "provided", "system", "import"}

  /** A directory whose path contains one of these tokens is not scanned. */
  const ExcludeDirs: seq<string> :=
    ["node_modules", "frontend", "client", "web", "ui", "dist", "build", "__mocks__", "test"]

  /** Declared manifest names. The analyser never consults this list: it dispatches on
      five of these names itself, and `setup.py` and `composer.json` get no parser. */
  const DependencyFiles: seq<string> :=
    ["pom.xml", "package.json", "requirements.txt", "setup.py", "build.gradle", "go.mod", "composer.json"]

  /** Files scanned for endpoint declarations. */
  const EndpointExtensions: seq<string> := [".py", ".js", ".ts", ".java", ".kt", ".php", ".go"]

  /** Files scanned for outbound calls: the endpoint list without PHP and Go. */
  const CallExtensions: seq<string> := [".py", ".js", ".ts", ".java", ".kt"]

  /** The method tags the endpoint rules report. */
  const HttpMethods: set<string> := {"GET", "POST", "PUT", "DELETE", "ANY"}

  /** `is_excluded_path`: a case-sensitive substring test against every excluded token. */
  predicate IsExcludedPath(path: string) {
    exists excl :: excl in ExcludeDirs && Contains(path, excl)
  }

  /** A path is excluded exactly when some excluded token occurs in it at some position. */
  lemma ExcludedIff(path: string)
    ensures IsExcludedPath(path) <==> exists k, i :: 0 <= k < |ExcludeDirs| && OccursAt(path, ExcludeDirs[k], i)
  {
    forall k | 0 <= k < |ExcludeDirs| {
      ContainsIff(path, ExcludeDirs[k]);
    }
    if IsExcludedPath(path) {
      var excl :| excl in ExcludeDirs && Contains(path, excl);
      var k :| 0 <= k < |ExcludeDirs| && ExcludeDirs[k] == excl;
      var i :| OccursAt(path, excl, i);
      assert OccursAt(path, ExcludeDirs[k], i);
    }
  }

  /** A token anywhere in a path excludes it, inside a longer name just as well as as a
      whole path component. */
  lemma TokenAnywhereExcludes(before: string, k: int, after: string)
    requires 0 <= k < |ExcludeDirs|
    ensures IsExcludedPath(before + ExcludeDirs[k] + after)
  {
    var path, token := before + ExcludeDirs[k] + after, ExcludeDirs[k];
    assert path[|before|..|before| + |token|] == token;
    assert OccursAt(path, token, |before|);
    ContainsIff(path, token);
  }

  /** A test source tree is excluded, and so are directories merely named "latest" or
      "guide", which contain the tokens "test" and "ui". */
  lemma ExcludedExamples()
    ensures IsExcludedPath("repo/src/test/java")
    ensures IsExcludedPath("repo/services/guide")
    ensures IsExcludedPath("repo/latest")
  {
    assert ExcludeDirs[8] == "test" && ExcludeDirs[4] == "ui";
    TokenAnywhereExcludes("repo/src/", 8, "/java");
    assert "repo/src/" + "test" + "/java" == "repo/src/test/java";
    TokenAnywhereExcludes("repo/services/g", 4, "de");
    assert "repo/services/g" + "ui" + "de" == "repo/services/guide";
    TokenAnywhereExcludes("repo/la", 8, "");
    assert "repo/la" + "test" + "" == "repo/latest";
  }

  /** Every rule reports one of the five method tags, none of which contains a space. */
  lemma RuleTags()
    ensures forall r :: r in EndpointRules ==> r.tag in HttpMethods
    ensures forall m :: m in HttpMethods ==> ' ' !in m
  {
  }
}
