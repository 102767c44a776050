/** Python string operations the analyser relies on, on `string` (= seq<char>). */
module Text {

  /** The characters for which Python's `str.isspace()` holds; `str.strip()` and
      `str.split()` without arguments use exactly this set. */
  const Whitespace: set<char> := {
    '\t', '\n', '\U{000B}', '\U{000C}', '\r',
    '\U{001C}', '\U{001D}', '\U{001E}', '\U{001F}', ' ',
    '\U{0085}', '\U{00A0}', '\U{1680}',
    '\U{2000}', '\U{2001}', '\U{2002}', '\U{2003}', '\U{2004}', '\U{2005}',
    '\U{2006}', '\U{2007}', '\U{2008}', '\U{2009}', '\U{200A}',
    '\U{2028}', '\U{2029}', '\U{202F}', '\U{205F}', '\U{3000}'
  }

  predicate IsSpace(c: char) { c in Whitespace }

  predicate StartsWith(s: string, prefix: string) {
    |prefix| <= |s| && s[..|prefix|] == prefix
  }

  predicate EndsWith(s: string, suffix: string) {
    |suffix| <= |s| && s[|s| - |suffix|..] == suffix
  }

  /** `s.endswith(tuple(suffixes))` */
  predicate EndsWithAny(s: string, suffixes: seq<string>) {
    exists t :: t in suffixes && EndsWith(s, t)
  }

  /** `t` occurs in `s` starting at index `i`. */
  predicate OccursAt(s: string, t: string, i: int) {
    0 <= i && i + |t| <= |s| && s[i..i + |t|] == t
  }

  /** Python's `t in s` for strings. */
  predicate Contains(s: string, t: string)
    decreases |s|
  {
    StartsWith(s, t) || (s != [] && Contains(s[1..], t))
  }

  /** `Contains` is the substring test: `t` occurs somewhere in `s`. */
  lemma {:induction false} ContainsIff(s: string, t: string)
    ensures Contains(s, t) <==> exists i :: OccursAt(s, t, i)
    decreases |s|
  {
    if StartsWith(s, t) {
      assert OccursAt(s, t, 0);
    } else if s == [] {
      assert !exists i :: OccursAt(s, t, i);
    } else {
      ContainsIff(s[1..], t);
      if Contains(s[1..], t) {
        var i :| OccursAt(s[1..], t, i);
        OccursAtTail(s, t, i + 1);
      } else {
        forall i | 0 < i ensures !OccursAt(s, t, i) {
          OccursAtTail(s, t, i);
        }
      }
    }
  }

  /** An occurrence after the first character is an occurrence in the tail. */
  lemma OccursAtTail(s: string, t: string, i: int)
    requires s != [] && 0 < i
    ensures OccursAt(s, t, i) <==> OccursAt(s[1..], t, i - 1)
  {
    if i + |t| <= |s| {
      assert s[1..][i - 1..i - 1 + |t|] == s[i..i + |t|];
    }
  }

  /** The number of leading characters of `s` that are in `cs`. */
  function LeadingRun(s: string, cs: set<char>): (n: nat)
    ensures n <= |s|
    decreases |s|
  {
    if s != [] && s[0] in cs then 1 + LeadingRun(s[1..], cs) else 0
  }

  /** The number of trailing characters of `s` that are in `cs`. */
  function TrailingRun(s: string, cs: set<char>): (n: nat)
    ensures n <= |s|
    decreases |s|
  {
    if s != [] && s[|s| - 1] in cs then 1 + TrailingRun(s[..|s| - 1], cs) else 0
  }

  /** The leading run is maximal: all of it is in `cs`, and the character after it is not. */
  lemma {:induction false} LeadingRunSpec(s: string, cs: set<char>)
    ensures forall i :: 0 <= i < LeadingRun(s, cs) ==> s[i] in cs
    ensures LeadingRun(s, cs) == |s| || s[LeadingRun(s, cs)] !in cs
    decreases |s|
  {
    if s != [] && s[0] in cs {
      var t := s[1..];
      LeadingRunSpec(t, cs);
      assert forall i :: 1 <= i <= |t| ==> s[i] == t[i - 1];
    }
  }

  /** The trailing run is maximal: all of it is in `cs`, and the character before it is not. */
  lemma {:induction false} TrailingRunSpec(s: string, cs: set<char>)
    ensures forall i :: |s| - TrailingRun(s, cs) <= i < |s| ==> s[i] in cs
    ensures TrailingRun(s, cs) == |s| || s[|s| - TrailingRun(s, cs) - 1] !in cs
    decreases |s|
  {
    if s != [] && s[|s| - 1] in cs {
      var t := s[..|s| - 1];
      TrailingRunSpec(t, cs);
      assert forall i :: 0 <= i < |t| ==> s[i] == t[i];
    }
  }

  /** `s.lstrip(chars)` for the character set `cs`. */
  function StripLeft(s: string, cs: set<char>): (r: string) {
    s[LeadingRun(s, cs)..]
  }

  /** `s.rstrip(chars)` for the character set `cs`. */
  function StripRight(s: string, cs: set<char>): (r: string) {
    s[..|s| - TrailingRun(s, cs)]
  }

  /** `s.strip(chars)`: the longest middle segment of `s` that neither starts nor
      ends with a character of `cs`. */
  function StripChars(s: string, cs: set<char>): (r: string) {
    StripRight(StripLeft(s, cs), cs)
  }

  /** What `StripChars` keeps and removes: it returns the piece of `s` that starts after the
      leading run of `cs` characters, everything cut off on either side is in `cs`, and the
      piece neither starts nor ends with a character of `cs`. */
  lemma StripCharsSpec(s: string, cs: set<char>)
    ensures var r, i := StripChars(s, cs), LeadingRun(s, cs);
      && (r == [] || (r[0] !in cs && r[|r| - 1] !in cs))
      && i + |r| <= |s| && s[i..i + |r|] == r
      && (forall k :: 0 <= k < i ==> s[k] in cs)
      && (forall k :: i + |r| <= k < |s| ==> s[k] in cs)
  {
    var i := LeadingRun(s, cs);
    var j := |s| - TrailingRun(s[i..], cs);
    StripCharsIsSlice(s, cs);
    LeadingRunSpec(s, cs);
    TrailingRunAfter(s, i, cs);
    MiddleSlice(s, i, j, cs);
  }

  /** The strip is the slice between the leading run and the trailing run of the rest. */
  lemma StripCharsIsSlice(s: string, cs: set<char>)
    ensures var i := LeadingRun(s, cs);
      && i <= |s| - TrailingRun(s[i..], cs)
      && StripChars(s, cs) == s[i..|s| - TrailingRun(s[i..], cs)]
  {
    var i := LeadingRun(s, cs);
    var l := s[i..];
    assert l[..|l| - TrailingRun(l, cs)] == s[i..|s| - TrailingRun(l, cs)];
  }

  /** The trailing run of a suffix `s[i..]`, read in `s`'s own positions. */
  lemma TrailingRunAfter(s: string, i: int, cs: set<char>)
    requires 0 <= i <= |s|
    ensures var j := |s| - TrailingRun(s[i..], cs);
      && i <= j
      && (forall k :: j <= k < |s| ==> s[k] in cs)
      && (i == j || s[j - 1] !in cs)
  {
    var l := s[i..];
    var j := |s| - TrailingRun(l, cs);
    TrailingRunSpec(l, cs);
    forall k | j <= k < |s| ensures s[k] in cs {
      assert s[k] == l[k - i];
    }
    if i < j {
      assert s[j - 1] == l[|l| - TrailingRun(l, cs) - 1];
    }
  }

  /** The slice `s[i..j]` between a run of `cs` characters on either side. */
  lemma MiddleSlice(s: string, i: int, j: int, cs: set<char>)
    requires 0 <= i <= j <= |s|
    requires i == j || (s[i] !in cs && s[j - 1] !in cs)
    ensures var r := s[i..j];
      && (r == [] || (r[0] !in cs && r[|r| - 1] !in cs))
      && i + |r| == j && s[i..i + |r|] == r
  {
  }

  /** Stripping leaves alone a string that already starts and ends outside `cs`. */
  lemma StripCharsFixpoint(s: string, cs: set<char>)
    requires s == [] || (s[0] !in cs && s[|s| - 1] !in cs)
    ensures StripChars(s, cs) == s
  {
    assert LeadingRun(s, cs) == 0;
    assert s[0..] == s;
    assert TrailingRun(s, cs) == 0;
  }

  /** Removing one leading character of `cs` does not change the left strip. */
  lemma StripLeftCons(c: char, s: string, cs: set<char>)
    requires c in cs
    ensures StripLeft([c] + s, cs) == StripLeft(s, cs)
  {
    assert ([c] + s)[1..] == s;
    assert LeadingRun([c] + s, cs) == 1 + LeadingRun(s, cs);
  }

  /** Removing one trailing character of `cs` does not change the right strip. */
  lemma StripRightSnoc(s: string, c: char, cs: set<char>)
    requires c in cs
    ensures StripRight(s + [c], cs) == StripRight(s, cs)
  {
    assert (s + [c])[..|s|] == s;
    assert TrailingRun(s + [c], cs) == 1 + TrailingRun(s, cs);
  }

  /** `s.strip()` */
  function Strip(s: string): (r: string)
  {
    StripChars(s, Whitespace)
  }

  /** Stripping twice strips nothing more. */
  lemma StripIdempotent(s: string)
    ensures Strip(Strip(s)) == Strip(s)
  {
    StripCharsSpec(s, Whitespace);
    StripCharsFixpoint(Strip(s), Whitespace);
  }

  /** `s.split(sep)[0]`: the part of `s` before the first occurrence of `sep`, or all of
      `s` when `sep` does not occur. */
  function BeforeFirst(s: string, sep: string): (r: string)
    requires sep != []
    ensures StartsWith(s, r)
    ensures r == s || StartsWith(s[|r|..], sep)
    ensures forall i :: 0 <= i < |r| ==> !StartsWith(s[i..], sep)
    decreases |s|
  {
    if |s| < |sep| then s
    else if StartsWith(s, sep) then ""
    else
      var r' := BeforeFirst(s[1..], sep);
      assert forall i :: 1 <= i <= |r'| ==> s[i..] == s[1..][i - 1..];
      [s[0]] + r'
  }

  /** `s.split(sep)` for a one-character separator: the pieces between separators,
      always at least one piece. */
  function Split(s: string, sep: char): (r: seq<string>)
    ensures |r| >= 1
    ensures forall i :: 0 <= i < |r| ==> sep !in r[i]
    decreases |s|
  {
    if s == [] then [""]
    else
      var rest := Split(s[1..], sep);
      if s[0] == sep then [""] + rest
      else [[s[0]] + rest[0]] + rest[1..]
  }

  /** `sep.join(xs)` */
  function Join(xs: seq<string>, sep: string): (joined: string)
    decreases |xs|
  {
    if |xs| == 0 then ""
    else if |xs| == 1 then xs[0]
    else xs[0] + sep + Join(xs[1..], sep)
  }

  /** Joining the pieces of a split with the separator gives back the string. */
  lemma {:induction false} JoinSplit(s: string, sep: char)
    ensures Join(Split(s, sep), [sep]) == s
    decreases |s|
  {
    if s != [] {
      JoinSplit(s[1..], sep);
      var rest := Split(s[1..], sep);
      if s[0] == sep {
        assert Split(s, sep) == [""] + rest;
      } else if |rest| == 1 {
        assert Split(s, sep) == [[s[0]] + rest[0]];
      } else {
        assert Split(s, sep) == [[s[0]] + rest[0]] + rest[1..];
        assert Join(rest, [sep]) == rest[0] + [sep] + Join(rest[1..], [sep]);
      }
    }
  }

  /** Splitting a join of separator-free pieces gives back the pieces. */
  lemma {:induction false} SplitJoin(xs: seq<string>, sep: char)
    requires |xs| >= 1
    requires forall i :: 0 <= i < |xs| ==> sep !in xs[i]
    ensures Split(Join(xs, [sep]), sep) == xs
    decreases |xs|, |xs[0]|
  {
    if |xs| == 1 {
      SplitPiece(xs[0], sep);
    } else if xs[0] == [] {
      SplitJoin(xs[1..], sep);
      assert Join(xs, [sep]) == [sep] + Join(xs[1..], [sep]);
    } else {
      var ys := [xs[0][1..]] + xs[1..];
      assert forall i :: 0 <= i < |ys| ==> sep !in ys[i] by {
        forall i | 0 <= i < |ys| ensures sep !in ys[i] {
          if i == 0 { assert forall c :: c in xs[0][1..] ==> c in xs[0]; }
        }
      }
      SplitJoin(ys, sep);
      assert Join(xs, [sep]) == [xs[0][0]] + Join(ys, [sep]);
      assert Join(xs, [sep])[1..] == Join(ys, [sep]);
      assert [xs[0][0]] + ys[0] == xs[0];
    }
  }

  lemma {:induction false} SplitPiece(s: string, sep: char)
    requires sep !in s
    ensures Split(s, sep) == [s]
    decreases |s|
  {
    if s != [] {
      assert forall c :: c in s[1..] ==> c in s;
      SplitPiece(s[1..], sep);
      assert [s[0]] + s[1..] == s;
    }
  }

  /** The longest prefix of `s` without whitespace. */
  function LeadingWord(s: string): (w: string)
    ensures StartsWith(s, w)
    ensures forall i :: 0 <= i < |w| ==> !IsSpace(w[i])
    ensures |w| == |s| || IsSpace(s[|w|])
    decreases |s|
  {
    if s == [] || IsSpace(s[0]) then "" else [s[0]] + LeadingWord(s[1..])
  }

  /** `s.split()`: the maximal runs of non-whitespace characters, in order. */
  function Tokens(s: string): (r: seq<string>)
    ensures forall i :: 0 <= i < |r| ==> r[i] != [] && forall k :: 0 <= k < |r[i]| ==> !IsSpace(r[i][k])
    decreases |s|
  {
    if s == [] then []
    else if IsSpace(s[0]) then Tokens(s[1..])
    else
      var w := LeadingWord(s);
      [w] + Tokens(s[|w|..])
  }

  /** The first token of a string that starts with a non-space word is that word. */
  lemma TokensHead(s: string)
    requires s != [] && !IsSpace(s[0])
    ensures Tokens(s) != [] && Tokens(s)[0] == LeadingWord(s)
  {
  }

  /** `gaps[0] + words[0] + gaps[1] + ... + words[n - 1] + gaps[n]` */
  function Interleave(gaps: seq<string>, words: seq<string>): (s: string)
    requires |gaps| == |words| + 1
    decreases |words|
  {
    if words == [] then gaps[0] else gaps[0] + words[0] + Interleave(gaps[1..], words[1..])
  }

  predicate AllSpace(g: string) {
    forall k :: 0 <= k < |g| ==> IsSpace(g[k])
  }

  predicate NoSpace(w: string) {
    forall k :: 0 <= k < |w| ==> !IsSpace(w[k])
  }

  /** `s` consists of the non-empty, whitespace-free `words`, in order, separated by
      non-empty runs of whitespace, with optional whitespace before the first word and
      after the last. */
  predicate IsWordSplit(s: string, gaps: seq<string>, words: seq<string>) {
    && |gaps| == |words| + 1
    && (forall i :: 0 <= i < |gaps| ==> AllSpace(gaps[i]))
    && (forall i :: 0 < i < |words| ==> gaps[i] != [])
    && (forall i :: 0 <= i < |words| ==> words[i] != [] && NoSpace(words[i]))
    && s == Interleave(gaps, words)
  }

  /** One more leading character goes into the first gap. */
  lemma InterleaveCons(c: char, gaps: seq<string>, words: seq<string>)
    requires |gaps| == |words| + 1
    ensures Interleave([[c] + gaps[0]] + gaps[1..], words) == [c] + Interleave(gaps, words)
  {
    var gaps' := [[c] + gaps[0]] + gaps[1..];
    assert gaps'[1..] == gaps[1..];
  }

  /** The first character of an interleaving: that of the first gap, or, when the first
      gap is empty, that of the first word. */
  lemma InterleaveHead(gaps: seq<string>, words: seq<string>)
    requires |gaps| == |words| + 1
    ensures gaps[0] != [] ==> Interleave(gaps, words) != [] && Interleave(gaps, words)[0] == gaps[0][0]
    ensures gaps[0] == [] && words != [] && words[0] != [] ==>
      Interleave(gaps, words) != [] && Interleave(gaps, words)[0] == words[0][0]
  {
  }

  /** The leading word of a word followed by nothing or by whitespace is that word. */
  lemma {:induction false} LeadingWordOf(w: string, t: string)
    requires w != [] && NoSpace(w)
    requires t == [] || IsSpace(t[0])
    ensures LeadingWord(w + t) == w
    decreases |w|
  {
    assert (w + t)[1..] == w[1..] + t;
    if |w| > 1 {
      LeadingWordOf(w[1..], t);
    } else {
      assert w[1..] + t == t;
    }
    assert [w[0]] + w[1..] == w;
  }

  /** A whitespace character before a split joins its first gap. */
  lemma SplitAfterSpace(c: char, s: string, gaps: seq<string>, words: seq<string>)
    requires IsSpace(c) && IsWordSplit(s, gaps, words)
    ensures IsWordSplit([c] + s, [[c] + gaps[0]] + gaps[1..], words)
  {
    var gaps' := [[c] + gaps[0]] + gaps[1..];
    InterleaveCons(c, gaps, words);
    assert forall i :: 0 < i < |gaps'| ==> gaps'[i] == gaps[i];
    assert AllSpace(gaps'[0]) by {
      forall k | 0 <= k < |gaps'[0]| ensures IsSpace(gaps'[0][k]) {
        if k > 0 { assert gaps'[0][k] == gaps[0][k - 1]; }
      }
    }
  }

  /** A word followed by nothing or by whitespace becomes the first word of the split. */
  lemma SplitAfterWord(w: string, t: string, gaps: seq<string>, words: seq<string>)
    requires w != [] && NoSpace(w) && (t == [] || IsSpace(t[0]))
    requires IsWordSplit(t, gaps, words)
    ensures IsWordSplit(w + t, [[]] + gaps, [w] + words)
  {
    var gaps', words' := [[]] + gaps, [w] + words;
    assert gaps'[1..] == gaps && words'[1..] == words;
    assert Interleave(gaps', words') == [] + w + t;
    if words != [] && gaps[0] == [] {
      InterleaveHead(gaps, words);
    }
    assert forall i :: 0 < i < |gaps'| ==> gaps'[i] == gaps[i - 1];
    assert forall i :: 0 < i < |words'| ==> words'[i] == words[i - 1];
  }

  /** A split whose first gap is not empty starts with whitespace; the rest is split too. */
  lemma SplitDropSpace(s: string, gaps: seq<string>, words: seq<string>)
    requires IsWordSplit(s, gaps, words) && gaps[0] != []
    ensures s != [] && IsSpace(s[0])
    ensures IsWordSplit(s[1..], [gaps[0][1..]] + gaps[1..], words)
  {
    var gaps' := [gaps[0][1..]] + gaps[1..];
    assert [gaps[0][0]] + gaps[0][1..] == gaps[0];
    assert [[gaps[0][0]] + gaps'[0]] + gaps'[1..] == gaps;
    InterleaveCons(gaps[0][0], gaps', words);
    assert forall i :: 0 < i < |gaps'| ==> gaps'[i] == gaps[i];
    assert AllSpace(gaps'[0]) by {
      forall k | 0 <= k < |gaps'[0]| ensures IsSpace(gaps'[0][k]) {
        assert gaps'[0][k] == gaps[0][k + 1];
      }
    }
  }

  /** A split whose first gap is empty starts with its first word, followed by nothing or
      by whitespace; the rest is split by the remaining gaps and words. */
  lemma SplitDropWord(s: string, gaps: seq<string>, words: seq<string>)
    requires IsWordSplit(s, gaps, words) && gaps[0] == [] && words != []
    ensures var t := Interleave(gaps[1..], words[1..]);
      && s == words[0] + t
      && (t == [] || IsSpace(t[0]))
      && IsWordSplit(t, gaps[1..], words[1..])
  {
    var t := Interleave(gaps[1..], words[1..]);
    assert s == [] + words[0] + t;
    assert forall i :: 0 < i < |gaps| ==> gaps[1..][i - 1] == gaps[i];
    assert forall i :: 0 < i < |words| ==> words[1..][i - 1] == words[i];
    if |words| > 1 {
      InterleaveHead(gaps[1..], words[1..]);
    } else if t != [] {
      assert IsSpace(gaps[1][0]);
    }
  }

  /** The empty string is split into no words by one empty gap. */
  lemma EmptySplit()
    ensures IsWordSplit([], [[]], [])
  {
    assert Interleave([[]], []) == [];
  }

  /** The whitespace runs around and between the tokens of `s`. */
  ghost function TokenGaps(s: string): (gaps: seq<string>)
    ensures |gaps| == |Tokens(s)| + 1
    decreases |s|
  {
    if s == [] then [[]]
    else if IsSpace(s[0]) then
      var gaps := TokenGaps(s[1..]);
      [[s[0]] + gaps[0]] + gaps[1..]
    else [[]] + TokenGaps(s[|LeadingWord(s)|..])
  }

  /** `s.split()` splits `s` into words: its tokens are the words of a split of `s`. */
  lemma {:induction false} TokensSplit(s: string)
    ensures IsWordSplit(s, TokenGaps(s), Tokens(s))
    decreases |s|
  {
    if s == [] {
      EmptySplit();
    } else if IsSpace(s[0]) {
      var t := s[1..];
      TokensSplit(t);
      SplitAfterSpace(s[0], t, TokenGaps(t), Tokens(t));
      assert [s[0]] + t == s;
    } else {
      var w := LeadingWord(s);
      var t := s[|w|..];
      TokensSplit(t);
      SplitAfterWord(w, t, TokenGaps(t), Tokens(t));
      assert w + t == s;
    }
  }

  /** The words of any split of `s` are its tokens: the split is determined by `s`. */
  lemma {:induction false} TokensUnique(s: string, gaps: seq<string>, words: seq<string>)
    requires IsWordSplit(s, gaps, words)
    ensures Tokens(s) == words
    decreases |s|
  {
    if gaps[0] != [] {
      SplitDropSpace(s, gaps, words);
      TokensUnique(s[1..], [gaps[0][1..]] + gaps[1..], words);
    } else if words != [] {
      SplitDropWord(s, gaps, words);
      var w, t := words[0], Interleave(gaps[1..], words[1..]);
      LeadingWordOf(w, t);
      assert s[|w|..] == t;
      TokensUnique(t, gaps[1..], words[1..]);
    }
  }
}
