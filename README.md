# Microservice complexity analysis — a verified model

`microservice_complexity_analysis.py` measures how a service repository's complexity
changes over its history. It samples the history at weekly or monthly intervals. For
each sampled commit it checks the commit out and does the following:

- It finds the service's modules: the modules a root `pom.xml` declares, or the
  repository itself.
- It walks every module. Outside excluded directories (`node_modules`, `test`, `ui`, ...)
  it collects three things:
  - the HTTP **endpoints** declared in source files, as (method, path) pairs with the path
    normalised to `"/" + capture.strip("/")`;
  - the **inter-service call sites**, as trimmed matches of the call patterns;
  - the **dependencies** declared in `pom.xml`, `package.json`, `requirements.txt`,
    `build.gradle` and `go.mod`.
- It writes one report row: the service name, the date, the endpoint total, the number of
  distinct dependencies, the number of distinct call sites, and the three sorted lists.

At the end it checks the commit that was checked out at the start out again.

The model has one module per part of the script:

| module | what it holds |
|---|---|
| `Text` | the Python string operations used: `strip`, `split`, `join`, `in`, `startswith`/`endswith` |
| `Sorting` | `sorted()` on a set of strings |
| `Catalog` | the static tables and `is_excluded_path` |
| `Inputs` | the outside world as values |
| `Endpoints` | `count_endpoints` |
| `Calls` | `count_inter_service_calls` |
| `Manifests` | the per-format manifest rules |
| `Dependencies` | `count_dependencies` |
| `Service` | `get_modules_from_pom` and `analyze_service` |
| `History` | `get_commits` |
| `Walker` | the main program's checkout loop, over a `WorkingTree` class |

Each loop of the script that computes something is a method; the `print` loops of the
per-snapshot summary are left out with the rest of the output. Each loop method is proved
equal to a recursive specification function. A method without a loop (`LookupDate`,
`ReadManifest`, `AnalyzeSnapshot`, `Checkout`) is proved equal to the non-recursive
function that specifies it, or states its new state outright. The properties are proved
about the specification functions as lemmas.

Several outside services are given as values rather than modelled:

- The file system is an `os.walk` listing per path, with file contents.
- The regular-expression engine, the XML parser and the JSON parser are oracle functions.
  The engine is keyed by a `Regex` name, and `Catalog.Source` gives the exact text of each
  expression.
- `git rev-parse --verify` and `git rev-list -1 --before` are two oracles: whether a name
  verifies, and what the lookup prints.
- `git rev-parse HEAD` and `git checkout` are the methods of the `Walker.WorkingTree`
  class, whose head they read and set.
- Dates are day numbers counted from 1970-01-01, and the current day is a parameter.

The model follows what the code does, including where that differs from what one
would expect of such a tool, with one exception:

- **Monthly period (the exception).** The frequency name "monthly" implies a period of
  about 30 days, but the code's period is 30 weeks (210 days). This is recorded under
  Findings. `History.ScheduleAsWritten` models the code's period. The main path
  (`History.Commits`, `History.GetCommits`, `Walker.RunAnalysis`) uses the corrected
  30-day period, `History.PeriodLength`.
- **Malformed `pom.xml`.** One might expect such a manifest to contribute nothing. In the
  code, a `pom.xml` that raises part-way through keeps the coordinates it added before
  the faulty entry, and the model does the same.
- **Files after a `pom.xml`.** A `pom.xml` that parses rebinds the walk's `root` variable.
  Every later file of the same directory is then skipped.
- **Restoring the head.** A careful tool would restore the original head even after a
  failure. The code restores it only on normal completion, so that is all the model
  claims.
- **The `@DELETE` rule.** The capture-less `@DELETE\b` rule gives the path `/` followed by
  the matched text, not a separate marker.

## Model

| member | source | states |
|---|---|---|
| Catalog.ExcludedIff | microservice_complexity_analysis.py:44-48 | a path is excluded exactly when some excluded-directory token occurs in it at some position (case-sensitive substring) |
| Catalog.TokenAnywhereExcludes | microservice_complexity_analysis.py:44-48 | any path containing a token, even inside a longer name, is excluded |
| Catalog.ExcludedExamples | microservice_complexity_analysis.py:44-48 | `repo/src/test/java`, `repo/services/guide` and `repo/latest` are all excluded (the last two through "ui" and "test" inside words) |
| Catalog.RuleTags | microservice_complexity_analysis.py:9-25 | every endpoint rule reports one of GET, POST, PUT, DELETE, ANY, and no tag contains a space |
| Text.ContainsIff | microservice_complexity_analysis.py:48 | the recursive `t in s` holds exactly when `t` occurs in `s` at some index |
| Text.LeadingRunSpec | microservice_complexity_analysis.py:132 | the characters removed on the left by `strip(chars)` are all in the set, and the next one is not |
| Text.TrailingRunSpec | microservice_complexity_analysis.py:132 | the characters removed on the right by `strip(chars)` are all in the set, and the one before them is not |
| Text.StripCharsSpec | microservice_complexity_analysis.py:132 | `s.strip(chars)` is a contiguous piece of `s` that neither starts nor ends with a stripped character, and everything cut off on either side is a stripped character |
| Text.StripCharsFixpoint | microservice_complexity_analysis.py:132 | stripping leaves unchanged a string that does not start or end with a stripped character |
| Text.StripIdempotent | microservice_complexity_analysis.py:148 | `strip()` of a stripped string changes nothing |
| Text.BeforeFirst | microservice_complexity_analysis.py:98 | `s.split(sep)[0]` is a prefix of `s` that contains no occurrence of `sep`, and it ends at the end of `s` or just before the first `sep` |
| Text.Split | microservice_complexity_analysis.py:96 | splitting at a character gives at least one piece, and no piece contains the separator |
| Text.JoinSplit | microservice_complexity_analysis.py:96 | joining the pieces of a split with the separator gives back the original text |
| Text.SplitJoin | microservice_complexity_analysis.py:212-214 | splitting a `;`-join of at least one item, none containing `;`, gives back the items |
| Text.LeadingWord | microservice_complexity_analysis.py:114 | the leading word is the longest whitespace-free prefix |
| Text.Tokens | microservice_complexity_analysis.py:114 | every token of `str.split()` is non-empty and free of whitespace |
| Text.TokensSplit | microservice_complexity_analysis.py:114 | the text is its tokens, in order, separated by non-empty whitespace runs, with whitespace runs (possibly empty) before the first and after the last |
| Text.TokensUnique | microservice_complexity_analysis.py:114 | any such decomposition of a text into whitespace gaps and whitespace-free words has exactly `str.split()`'s tokens as its words, so the tokens are exactly the maximal non-whitespace runs in order |
| Text.TokensHead | microservice_complexity_analysis.py:114 | the first token of a string that starts with a non-space is its leading word |
| Sorting.LexLeTotal | microservice_complexity_analysis.py:135 | Python's string order is total |
| Sorting.LexLeAntisymmetric | microservice_complexity_analysis.py:135 | two strings ordered both ways are equal |
| Sorting.LexLeTransitive | microservice_complexity_analysis.py:135 | the string order is transitive |
| Sorting.MinOf | microservice_complexity_analysis.py:135 | a non-empty set has a least string, which is in the set |
| Sorting.SortedSeq | microservice_complexity_analysis.py:135 | `sorted(s)` has the elements of `s` and nothing else, one entry each, in strictly increasing order |
| Sorting.SortedElements | microservice_complexity_analysis.py:135 | the set of entries of `sorted(s)` is `s` |
| Sorting.SortedSeqUnique | microservice_complexity_analysis.py:135 | any strictly increasing listing of exactly the elements of `s` is `sorted(s)` |
| Sorting.SortStrings | microservice_complexity_analysis.py:135 | the selection loop returns `sorted(s)` |
| Endpoints.NormalizePath | microservice_complexity_analysis.py:132 | a normalised path starts with '/' and, unless it is "/", neither its second nor its last character is '/' |
| Endpoints.NormalizePathOfBare | microservice_complexity_analysis.py:132 | a capture without leading or trailing '/' only gains the leading '/' |
| Endpoints.NormalizePathIdempotent | microservice_complexity_analysis.py:132 | normalising a normalised path changes nothing |
| Endpoints.NormalizePathCollapses | microservice_complexity_analysis.py:132 | any number of leading and trailing slashes around a bare path collapse to one leading slash |
| Endpoints.NormalizePathOfSlashes | microservice_complexity_analysis.py:132 | an empty or all-slash capture becomes the root path "/" |
| Endpoints.NormalizePathExamples | microservice_complexity_analysis.py:132 | "users/", "/users" and "users" all become "/users" |
| Endpoints.MarkerPath | microservice_complexity_analysis.py:131-132 | the capture-less `@DELETE` rule (line 16) is matched ignoring case, and its whole match becomes "/" followed by the match in its own case: `@DELETE` gives "/@DELETE", `@Delete` gives "/@Delete" |
| Endpoints.DisplayFirstSpace | microservice_complexity_analysis.py:135 | in `f"{m} {p}"` the first space ends the method tag |
| Endpoints.DisplayInjective | microservice_complexity_analysis.py:135 | endpoints whose tags contain no space display differently when they differ |
| Endpoints.DisplaySetSize | microservice_complexity_analysis.py:135 | there are as many display strings as endpoints |
| Endpoints.CaptureEndpointsIff | microservice_complexity_analysis.py:131-132 | one rule adds exactly its tag with the normalised path of each capture |
| Endpoints.RuleEndpointsIff | microservice_complexity_analysis.py:130-132 | a file's endpoints are exactly those of some rule |
| Endpoints.DirEndpointsIff | microservice_complexity_analysis.py:126-134 | a directory's endpoints are exactly those of some of its files |
| Endpoints.ListingEndpointsIff | microservice_complexity_analysis.py:123-134 | the walk's endpoints are exactly those of some non-excluded directory |
| Endpoints.EndpointOriginSound | microservice_complexity_analysis.py:121-134 | every endpoint found comes from a capture of a rule in a scanned file of a non-excluded directory |
| Endpoints.EndpointOriginComplete | microservice_complexity_analysis.py:121-134 | every such capture is found |
| Endpoints.EndpointOrigin | microservice_complexity_analysis.py:121-134 | both directions: the endpoint set is exactly the declared endpoints, so excluded directories contribute nothing |
| Endpoints.EndpointTags | microservice_complexity_analysis.py:130-132 | every endpoint carries the tag of some rule |
| Endpoints.CollectEndpoints | microservice_complexity_analysis.py:122-134 | the four nested loops build exactly the set of declared endpoints |
| Endpoints.CountEndpoints | microservice_complexity_analysis.py:121-135 | the count is the number of distinct (method, path) pairs; the display list is sorted, has no duplicates and has exactly that many entries |
| Calls.MatchCallsIff | microservice_complexity_analysis.py:147-148 | one pattern adds exactly the stripped text of each of its matches |
| Calls.PatternCallsIff | microservice_complexity_analysis.py:146-148 | a file's call sites are exactly those of some pattern |
| Calls.DirCallsIff | microservice_complexity_analysis.py:142-150 | a directory's call sites are exactly those of some of its files |
| Calls.ListingCallsIff | microservice_complexity_analysis.py:139-150 | the walk's call sites are exactly those of some non-excluded directory |
| Calls.CallOriginSound | microservice_complexity_analysis.py:137-150 | every call site found is the trimmed text of a match in a scanned file of a non-excluded directory |
| Calls.CallOriginComplete | microservice_complexity_analysis.py:137-150 | every such match is found |
| Calls.CallOrigin | microservice_complexity_analysis.py:137-150 | both directions: the call set is exactly the trimmed matches, so excluded directories contribute nothing |
| Calls.CallsTrimmed | microservice_complexity_analysis.py:148 | no recorded call site starts or ends with whitespace |
| Calls.CollectCalls | microservice_complexity_analysis.py:138-150 | the four nested loops build exactly the set of trimmed matches |
| Calls.CountInterServiceCalls | microservice_complexity_analysis.py:137-151 | the count is the number of distinct call sites, and the list is that set sorted, one entry each |
| Manifests.UnwantedScopeSkipped | microservice_complexity_analysis.py:75-77 | an entry whose stripped scope is test, provided, system or import is skipped |
| Manifests.OtherScopeIgnored | microservice_complexity_analysis.py:75-77 | any other scope has the same effect as no scope |
| Manifests.MissingIdSkipped | microservice_complexity_analysis.py:78-81 | an entry without groupId or artifactId is skipped |
| Manifests.CoordinateBuilt | microservice_complexity_analysis.py:78-83 | a complete wanted entry adds `g:a:v` from the stripped texts, or `g:a:<inherited>` when it has no version |
| Manifests.AbortCases | microservice_complexity_analysis.py:74-85 | an entry raises exactly when its scope has no text, or, once it is wanted and has both ids, when groupId, artifactId or version has no text |
| Manifests.CoordinateRoundTrip | microservice_complexity_analysis.py:82 | a coordinate splits at ':' back into its three parts when no part contains ':' |
| Manifests.PomCoordinatesIff | microservice_complexity_analysis.py:74-85 | a coordinate is added exactly when some entry adds it and no earlier entry raises |
| Manifests.ReadPomDependencies | microservice_complexity_analysis.py:74-85 | the dependency loop stops at the first raising entry and keeps what it added before |
| Manifests.RequirementNameSpec | microservice_complexity_analysis.py:96-98 | a line adds nothing exactly when it is blank or its raw text starts with '#'; otherwise it adds the stripped line up to its first "==" |
| Manifests.RequirementWithoutPin | microservice_complexity_analysis.py:97-98 | a line without "==" adds its whole stripped text, so an indented comment is kept |
| Manifests.RequirementNamesIff | microservice_complexity_analysis.py:94-98 | a name is added exactly when some line adds it |
| Manifests.ReadRequirements | microservice_complexity_analysis.py:94-100 | the line loop adds exactly the names the lines give |
| Manifests.GoRequirementSpec | microservice_complexity_analysis.py:112-116 | a line adds something exactly when it starts with "require" and has two tokens; it adds its second token, a non-empty run without whitespace |
| Manifests.GoRequirementOfSplit | microservice_complexity_analysis.py:112-116 | for a "require" line made of whitespace-separated words, the line adds its second word, and nothing when it has fewer than two |
| Manifests.GoRequirementPinned | microservice_complexity_analysis.py:112-116 | `require <path> <version>` adds `<path>` |
| Manifests.GoRequirementSingle | microservice_complexity_analysis.py:112-116 | `require <word>` adds `<word>`, so a block opener `require (` adds "(" |
| Manifests.GoRequirementIndented | microservice_complexity_analysis.py:112-116 | a line that starts with whitespace, as inside a `require (` block, adds nothing |
| Manifests.RequireWord | microservice_complexity_analysis.py:113 | the first word of a "require" line begins with "require" |
| Manifests.GoRequirementsIff | microservice_complexity_analysis.py:111-116 | a module is added exactly when some line adds it |
| Manifests.ReadGoMod | microservice_complexity_analysis.py:110-118 | the line loop adds exactly the modules the lines give |
| Manifests.PackageJsonNamesSpec | microservice_complexity_analysis.py:88-92 | only an object-valued "dependencies" member of an object document contributes, and then all of its keys |
| Dependencies.DirDependenciesIff | microservice_complexity_analysis.py:63-85 | a directory's dependency comes from some file with no parsed `pom.xml` listed before it in that directory |
| Dependencies.RebindingCutsDirectory | microservice_complexity_analysis.py:66-73 | everything listed after a parsed `pom.xml` in its directory is ignored |
| Dependencies.ListingDependenciesIff | microservice_complexity_analysis.py:60-62 | the walk's dependencies are exactly those of some non-excluded directory |
| Dependencies.DependencyOrigin | microservice_complexity_analysis.py:58-119 | the dependency set is exactly what reachable files of non-excluded directories contribute |
| Dependencies.ReadManifest | microservice_complexity_analysis.py:70-118 | one file's contribution by exact name, and whether it rebinds the directory variable |
| Dependencies.CountDependencies | microservice_complexity_analysis.py:58-119 | the walk builds exactly the dependency set |
| Service.PathJoin | microservice_complexity_analysis.py:179 | the joined path ends with the module name |
| Service.Basename | microservice_complexity_analysis.py:207 | the basename has no '/', ends the path, and is the whole path or follows its last '/' |
| Service.DeclaredModules | microservice_complexity_analysis.py:54 | there are no more module names than module elements |
| Service.DeclaredModulesSpec | microservice_complexity_analysis.py:54 | a module element counts exactly when its text is non-empty, and it contributes the stripped text |
| Service.DeclaredModulesSingle | microservice_complexity_analysis.py:54 | one element contributes its stripped text when the text is non-empty, and nothing otherwise |
| Service.DeclaredModulesAppend | microservice_complexity_analysis.py:54 | the names of two runs of elements are the first run's names followed by the second's, so document order is kept |
| Service.DeclaredModulesKeepsRepeats | microservice_complexity_analysis.py:54 | two elements with the same text give the same name twice; repeats are not removed |
| Service.ModulePathsSpec | microservice_complexity_analysis.py:177-179 | with no root POM, an unreadable or malformed one, or no declared module, the only path is the repository; otherwise there is one joined path per module, in order |
| Service.EndpointTotalBound | microservice_complexity_analysis.py:185-191 | the summed endpoint count is at least the number of distinct endpoint strings |
| Service.DisplaySetBound | microservice_complexity_analysis.py:185-191 | one module contributes as many endpoint strings as it counts |
| Service.RepeatedModuleCountedTwice | microservice_complexity_analysis.py:184-193 | a module listed twice counts its endpoints twice but its calls and dependencies once |
| Service.SingleModuleCount | microservice_complexity_analysis.py:189-191 | with one path, the endpoint count equals the number of listed endpoints |
| Service.QuotedListRoundTrip | microservice_complexity_analysis.py:212-214 | a list field is quote-wrapped; when there is at least one item and no item contains ';', its inner text splits at ';' back into the sorted items |
| Service.QuotedListAmbiguous | microservice_complexity_analysis.py:212-214 | without those conditions the field does not determine the items: no items give `""`, which splits into one empty item, and the item "a;b" gives the same field as the items "a" and "b" |
| Service.ScanModule | microservice_complexity_analysis.py:185-187 | the three scans of a module give its endpoint count, its endpoint strings, its call set and its dependency set |
| Service.ScanModules | microservice_complexity_analysis.py:184-193 | the endpoint total is the sum of the module counts, and the three sets are the unions over the modules |
| Service.AnalyzeService | microservice_complexity_analysis.py:176-215 | the row is the service's basename, the date, the summed endpoint count, the sizes of the dependency and call unions, and the three sorted, quoted lists |
| History.PeriodLength | microservice_complexity_analysis.py:155 | the period length is positive |
| History.Weekday | microservice_complexity_analysis.py:156 | a weekday is between 0 and 6 |
| History.Steps | microservice_complexity_analysis.py:166-167 | `range(n)` gives `n` dates, and none when `n` is not positive |
| History.StepsAt | microservice_complexity_analysis.py:166-167 | the `i`-th date is `start + i * delta` |
| History.StepsIncreasing | microservice_complexity_analysis.py:166-167 | with a positive period the dates increase strictly |
| History.StepsLowerBound | microservice_complexity_analysis.py:166-167 | with a positive period no date is before the start |
| History.ScheduleShape | microservice_complexity_analysis.py:155-167 | there are `periods + 1` dates, one period apart; the last is the anchor and the first is the anchor minus `periods` periods |
| History.WeekdayShift | microservice_complexity_analysis.py:156 | adding whole weeks keeps the weekday |
| History.AnchorIsMonday | microservice_complexity_analysis.py:156 | the weekly anchor is the Monday on or before `now` |
| History.WeeklyDatesAreMondays | microservice_complexity_analysis.py:156-167 | every weekly date is a Monday |
| History.ScheduleIncreasing | microservice_complexity_analysis.py:166-167 | the scheduled dates increase strictly |
| History.FirstVerifyingSpec | microservice_complexity_analysis.py:158-165 | the chosen branch is the first candidate that verifies, and there is none exactly when no candidate verifies |
| History.ResolveSpec | microservice_complexity_analysis.py:166-173 | at most one snapshot per date; a snapshot is kept exactly when its date's lookup yields a non-empty stripped commit |
| History.ResolveIncreasing | microservice_complexity_analysis.py:166-173 | over increasing dates, the snapshot dates increase strictly |
| History.CommitsSpec | microservice_complexity_analysis.py:153-174 | with no verifying branch the result is empty; otherwise it has at most `periods + 1` snapshots in increasing date order, exactly the scheduled dates that resolve |
| History.FindBranch | microservice_complexity_analysis.py:158-165 | the for-else loop returns the first verifying candidate, or none |
| History.LookupDate | microservice_complexity_analysis.py:168-173 | one lookup keeps the stripped output when the command succeeds with non-empty output |
| History.ResolveDates | microservice_complexity_analysis.py:166-173 | the lookup loop resolves exactly the dates `start + i * delta` for `i` in `range(periods + 1)` |
| History.GetCommits | microservice_complexity_analysis.py:153-174 | `get_commits` returns the snapshots of the scheduled dates on the first verifying branch |
| History.MonthlyStepAsWritten | microservice_complexity_analysis.py:155 | as written, a one-period monthly schedule is `[now - 210, now]`; with the intended period it is `[now - 30, now]` |
| History.MonthlyDatesThirtyDaysApart | microservice_complexity_analysis.py:155-167 | with the intended period, monthly dates end at `now` and lie thirty days apart |
| Walker.WorkingTree.constructor | microservice_complexity_analysis.py:226 | the tree starts at its head with no checkouts recorded |
| Walker.WorkingTree.RevParseHead | microservice_complexity_analysis.py:226 | `rev-parse HEAD` returns the commit checked out now |
| Walker.WorkingTree.Checkout | microservice_complexity_analysis.py:233 | a checkout makes the commit the head, records it, and the tree then holds that commit's files |
| Walker.SnapshotRowFields | microservice_complexity_analysis.py:206-208 | a snapshot's row carries the snapshot's date and the repository's basename |
| Walker.ReportRowsOrdered | microservice_complexity_analysis.py:232-234 | the report has at most `periods + 1` rows, in strictly increasing date order, all naming the repository |
| Walker.AnalyzeSnapshot | microservice_complexity_analysis.py:233-234 | checks out the snapshot's commit and returns the row of that checkout |
| Walker.AnalyzeSnapshots | microservice_complexity_analysis.py:232-234 | the rows are the rows of the snapshots, in order; the commits are checked out in order; the head ends at the last snapshot's commit, or stays where it was when there is none |
| Walker.RunAnalysis | microservice_complexity_analysis.py:226-236 | the rows are the report for `get_commits`; the snapshot commits are checked out in order, then the original head once more, and the head ends where it started |

## Left out

- File-system and process I/O are given as inputs. This covers `os.walk`, `open`/`read`,
  `os.path.exists`, and the `git` subprocesses (`rev-parse`, `rev-list`, `checkout`).
- The regular-expression engine is an oracle keyed by expression name. So is
  `ElementTree` parsing, with the namespace-qualified `find`/`findall`. So is `json.load`.
  Case-insensitive matching, lazy `.*?` and `\b` are therefore the oracle's business.
- Reading with `errors='ignore'` and Python's universal-newline translation are folded
  into `Inputs.FileContent`. A strict UTF-8 read that fails part-way through a
  `requirements.txt` or `go.mod`, after some lines were already added, is modelled as
  contributing nothing.
- `datetime.utcnow()`, time of day and `strftime('%Y-%m-%d')` are left out. Dates are
  day numbers, the current day is a parameter, and `rev-list --before` receives the day.
- `print` output, `argparse`, `csv.writer` quoting and the file writes are left out. The
  header row is not modelled. The data rows are the `Service.Row` values in order.
- Failures are not modelled: an exception from `git checkout` or from a write ends the
  run. The model states restoration of the head only for normal completion, which is all
  the code provides.
- `DEPENDENCY_FILES` and `total_calls` are kept as in the code and never used.
  `setup.py` and `composer.json` are never parsed.
- Service.QuotedListRoundTrip: the round trip is stated only for a non-empty list whose
  items contain no ';'. The code can write such items (a `requirements.txt` line
  `pkg; python_version>'3'` without "==", or a call URL holding ';'), and then the field is
  ambiguous, as `Service.QuotedListAmbiguous` shows.
- Service.PathJoin: the contract states only that the result ends with the module name;
  the full POSIX `os.path.join` behaviour is the function's definition.
- Service.ModulePathsSpec: `os.path.exists` is taken to mean that `fs.rootPom` is
  present. A root `pom.xml` that exists but cannot be opened yields no modules, as the
  code's catch-all does.
- History.GetCommits: the monthly period is the intended 30 days, not the code's 30
  weeks (see Findings). `History.ScheduleAsWritten` and `History.MonthlyStepAsWritten`
  model the code's dates.
- History.Commits: uses the same corrected monthly period as `History.GetCommits`.
- Walker.RunAnalysis: a head is a commit, so the model cannot tell a branch name from a
  commit. The code checks out the hash that `rev-parse HEAD` printed, so a repository
  that started on a branch ends on a detached head at the same commit. The model states
  only that the head ends at the same commit.
- History.ResolveDates advances the date by `delta` each round rather than computing
  `start + i * delta`. `History.StepsAt` proves the two give the same dates.

## Findings

| source | as written | input that shows it | evidently intended | confidence | as-written member | corrected member |
|---|---|---|---|---|---|---|
| microservice_complexity_analysis.py:155 | `timedelta(weeks=1 if frequency == "weekly" else 30)` puts the conditional inside `weeks=`, so a monthly period is 30 weeks (210 days) | `--frequency monthly --periods 1` on day `now` looks up `now - 210` and `now` | a monthly period of about 30 days, as the frequency name implies, giving `now - 30` and `now` | high; not executed | History.MonthlyStepAsWritten | History.MonthlyDatesThirtyDaysApart |

The rest of the model uses the corrected period, `History.PeriodLength`.
`History.PeriodLengthAsWritten` and `History.ScheduleAsWritten` keep the code's version.
