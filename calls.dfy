/** `count_inter_service_calls`: the distinct call-site strings found under a module path. */
module Calls {
  import opened Text
  import opened Sorting
  import opened Catalog
  import opened Inputs

  /** The trimmed whole matches of one pattern (the innermost loop). */
  function MatchCalls(matches: seq<string>): (calls: set<string>)
    decreases |matches|
  {
    if matches == [] then {} else {Strip(matches[0])} + MatchCalls(matches[1..])
  }

  /** The call sites a sequence of patterns finds in one file's text. */
  function PatternCalls(patterns: seq<Regex>, text: string, p: Parsers): (calls: set<string>)
    decreases |patterns|
  {
    if patterns == [] then {}
    else MatchCalls(p.matchTexts(patterns[0], text)) + PatternCalls(patterns[1..], text, p)
  }

  /** A file is scanned when its name has one of the five call-scan extensions and it can
      be opened. */
  predicate ScannedForCalls(f: File) {
    EndsWithAny(f.name, CallExtensions) && f.content.Readable?
  }

  function FileCalls(f: File, patterns: seq<Regex>, p: Parsers): (calls: set<string>) {
    if ScannedForCalls(f) then PatternCalls(patterns, f.content.text, p) else {}
  }

  function DirCalls(files: seq<File>, patterns: seq<Regex>, p: Parsers): (calls: set<string>)
    decreases |files|
  {
    if files == [] then {} else FileCalls(files[0], patterns, p) + DirCalls(files[1..], patterns, p)
  }

  /** The set `count_inter_service_calls` builds from a walk listing with the pattern list
      `patterns`. */
  function ListingCalls(listing: seq<Dir>, patterns: seq<Regex>, p: Parsers): (calls: set<string>)
    decreases |listing|
  {
    if listing == [] then {}
    else
      (if IsExcludedPath(listing[0].path) then {} else DirCalls(listing[0].files, patterns, p))
        + ListingCalls(listing[1..], patterns, p)
  }

  lemma {:induction false} MatchCallsIff(matches: seq<string>, c: string)
    ensures c in MatchCalls(matches) <==> exists m :: 0 <= m < |matches| && c == Strip(matches[m])
    decreases |matches|
  {
    if matches != [] {
      var tail := matches[1..];
      MatchCallsIff(tail, c);
      assert MatchCalls(matches) == {Strip(matches[0])} + MatchCalls(tail);
      assert forall m :: 1 <= m < |matches| ==> matches[m] == tail[m - 1];
    }
  }

  lemma {:induction false} PatternCallsIff(patterns: seq<Regex>, text: string, p: Parsers, c: string)
    ensures c in PatternCalls(patterns, text, p) <==>
      exists r :: 0 <= r < |patterns| && c in MatchCalls(p.matchTexts(patterns[r], text))
    decreases |patterns|
  {
    if patterns != [] {
      PatternCallsIff(patterns[1..], text, p, c);
      if c in PatternCalls(patterns[1..], text, p) {
        var r :| 0 <= r < |patterns[1..]| && c in MatchCalls(p.matchTexts(patterns[1..][r], text));
        assert patterns[1..][r] == patterns[r + 1];
      }
      forall r | 1 <= r < |patterns| && c in MatchCalls(p.matchTexts(patterns[r], text))
        ensures c in PatternCalls(patterns[1..], text, p)
      {
        assert patterns[1..][r - 1] == patterns[r];
      }
    }
  }

  lemma {:induction false} DirCallsIff(files: seq<File>, patterns: seq<Regex>, p: Parsers, c: string)
    ensures c in DirCalls(files, patterns, p) <==> exists j :: 0 <= j < |files| && c in FileCalls(files[j], patterns, p)
    decreases |files|
  {
    if files != [] {
      DirCallsIff(files[1..], patterns, p, c);
      if c in DirCalls(files[1..], patterns, p) {
        var j :| 0 <= j < |files[1..]| && c in FileCalls(files[1..][j], patterns, p);
        assert files[1..][j] == files[j + 1];
      }
      forall j | 1 <= j < |files| && c in FileCalls(files[j], patterns, p)
        ensures c in DirCalls(files[1..], patterns, p)
      {
        assert files[1..][j - 1] == files[j];
      }
    }
  }

  lemma {:induction false} ListingCallsIff(listing: seq<Dir>, patterns: seq<Regex>, p: Parsers, c: string)
    ensures c in ListingCalls(listing, patterns, p) <==>
      exists k :: 0 <= k < |listing| && !IsExcludedPath(listing[k].path) && c in DirCalls(listing[k].files, patterns, p)
    decreases |listing|
  {
    if listing != [] {
      ListingCallsIff(listing[1..], patterns, p, c);
      if c in ListingCalls(listing[1..], patterns, p) {
        var k :| 0 <= k < |listing[1..]| && !IsExcludedPath(listing[1..][k].path) && c in DirCalls(listing[1..][k].files, patterns, p);
        assert listing[1..][k] == listing[k + 1];
      }
      forall k | 1 <= k < |listing| && !IsExcludedPath(listing[k].path) && c in DirCalls(listing[k].files, patterns, p)
        ensures c in ListingCalls(listing[1..], patterns, p)
      {
        assert listing[1..][k - 1] == listing[k];
      }
    }
  }

  /** `c` is a call site of the listing: the trimmed text of some match of some pattern in
      some scanned file of some directory outside the excluded trees. */
  ghost predicate CalledIn(listing: seq<Dir>, patterns: seq<Regex>, p: Parsers, c: string) {
    exists k, j, r, m ::
      && 0 <= k < |listing| && !IsExcludedPath(listing[k].path)
      && 0 <= j < |listing[k].files| && ScannedForCalls(listing[k].files[j])
      && 0 <= r < |patterns|
      && m in p.matchTexts(patterns[r], listing[k].files[j].content.text)
      && c == Strip(m)
  }

  lemma CallOriginSound(listing: seq<Dir>, patterns: seq<Regex>, p: Parsers, c: string)
    requires c in ListingCalls(listing, patterns, p)
    ensures CalledIn(listing, patterns, p, c)
  {
    ListingCallsIff(listing, patterns, p, c);
    var k :| 0 <= k < |listing| && !IsExcludedPath(listing[k].path) && c in DirCalls(listing[k].files, patterns, p);
    var files := listing[k].files;
    DirCallsIff(files, patterns, p, c);
    var j :| 0 <= j < |files| && c in FileCalls(files[j], patterns, p);
    var text := files[j].content.text;
    PatternCallsIff(patterns, text, p, c);
    var r :| 0 <= r < |patterns| && c in MatchCalls(p.matchTexts(patterns[r], text));
    var matches := p.matchTexts(patterns[r], text);
    MatchCallsIff(matches, c);
    var m :| 0 <= m < |matches| && c == Strip(matches[m]);
    assert matches[m] in p.matchTexts(patterns[r], listing[k].files[j].content.text);
  }

  lemma CallOriginComplete(listing: seq<Dir>, patterns: seq<Regex>, p: Parsers, c: string)
    requires CalledIn(listing, patterns, p, c)
    ensures c in ListingCalls(listing, patterns, p)
  {
    var k, j, r, m :|
      && 0 <= k < |listing| && !IsExcludedPath(listing[k].path)
      && 0 <= j < |listing[k].files| && ScannedForCalls(listing[k].files[j])
      && 0 <= r < |patterns|
      && m in p.matchTexts(patterns[r], listing[k].files[j].content.text)
      && c == Strip(m);
    var files := listing[k].files;
    var text := files[j].content.text;
    var matches := p.matchTexts(patterns[r], text);
    var i :| 0 <= i < |matches| && matches[i] == m;
    MatchCallsIff(matches, c);
    PatternCallsIff(patterns, text, p, c);
    DirCallsIff(files, patterns, p, c);
    ListingCallsIff(listing, patterns, p, c);
  }

  /** The call set holds exactly the trimmed matches found in the scanned files outside the
      excluded directories; files under an excluded directory contribute nothing. */
  lemma CallOrigin(listing: seq<Dir>, patterns: seq<Regex>, p: Parsers, c: string)
    ensures c in ListingCalls(listing, patterns, p) <==> CalledIn(listing, patterns, p, c)
  {
    if c in ListingCalls(listing, patterns, p) {
      CallOriginSound(listing, patterns, p, c);
    }
    if CalledIn(listing, patterns, p, c) {
      CallOriginComplete(listing, patterns, p, c);
    }
  }

  /** Every recorded call site is already trimmed: no leading or trailing whitespace. */
  lemma CallsTrimmed(listing: seq<Dir>, patterns: seq<Regex>, p: Parsers, c: string)
    requires c in ListingCalls(listing, patterns, p)
    ensures Strip(c) == c
    ensures c == [] || (!IsSpace(c[0]) && !IsSpace(c[|c| - 1]))
  {
    CallOriginSound(listing, patterns, p, c);
    var k, j, r, m :|
      && 0 <= k < |listing| && !IsExcludedPath(listing[k].path)
      && 0 <= j < |listing[k].files| && ScannedForCalls(listing[k].files[j])
      && 0 <= r < |patterns|
      && m in p.matchTexts(patterns[r], listing[k].files[j].content.text)
      && c == Strip(m);
    StripIdempotent(m);
    StripCharsSpec(m, Whitespace);
  }

  /** The walk of `count_inter_service_calls`: every match of every pattern in every scanned
      file of every directory outside the excluded trees, trimmed and added to a set. */
  method CollectCalls(listing: seq<Dir>, patterns: seq<Regex>, p: Parsers) returns (found: set<string>)
    ensures found == ListingCalls(listing, patterns, p)
  {
    ghost var total := ListingCalls(listing, patterns, p);
    found := {};
    for k := 0 to |listing|
      invariant found + ListingCalls(listing[k..], patterns, p) == total
    {
      var dir := listing[k];
      assert listing[k..][1..] == listing[k + 1..];
      ghost var laterDirs := ListingCalls(listing[k + 1..], patterns, p);
      if !IsExcludedPath(dir.path) {
        for j := 0 to |dir.files|
          invariant found + DirCalls(dir.files[j..], patterns, p) + laterDirs == total
        {
          var file := dir.files[j];
          assert dir.files[j..][1..] == dir.files[j + 1..];
          ghost var later := DirCalls(dir.files[j + 1..], patterns, p) + laterDirs;
          if EndsWithAny(file.name, CallExtensions) && file.content.Readable? {
            var content := file.content.text;
            for r := 0 to |patterns|
              invariant found + PatternCalls(patterns[r..], content, p) + later == total
            {
              assert patterns[r..][1..] == patterns[r + 1..];
              ghost var laterPatterns := PatternCalls(patterns[r + 1..], content, p) + later;
              var matches := p.matchTexts(patterns[r], content);
              for m := 0 to |matches|
                invariant found + MatchCalls(matches[m..]) + laterPatterns == total
              {
                assert matches[m..][1..] == matches[m + 1..];
                found := found + {Strip(matches[m])};
              }
            }
          }
        }
      }
    }
    assert listing[|listing|..] == [];
  }

  /** `count_inter_service_calls(path)` over the listing `os.walk(path)`: the number of
      distinct call sites and the call sites in sorted order, one entry per call site. */
  method CountInterServiceCalls(listing: seq<Dir>, p: Parsers) returns (count: nat, calls: seq<string>)
    ensures count == |ListingCalls(listing, CallPatterns, p)|
    ensures calls == SortedSeq(ListingCalls(listing, CallPatterns, p))
    ensures |calls| == count && StrictlyIncreasing(calls)
  {
    var found := CollectCalls(listing, CallPatterns, p);
    count := |found|;
    calls := SortStrings(found);
  }
}
