/** `get_commits`: the snapshot schedule and the commits it resolves to. Dates are day
    numbers counted from 1970-01-01; the clock's current day `now` is a parameter. */
module History {
  import opened Wrappers
  import opened Text

  datatype Frequency = Weekly | Monthly

  /** The period length as the code computes it, `timedelta(weeks=1 if weekly else 30)`:
      the conditional picks the number of weeks, so a monthly period is thirty weeks. */
  function PeriodLengthAsWritten(f: Frequency): (days: nat) {
    7 * (if f == Weekly then 1 else 30)
  }

  /** The period length the frequency names: a week, or a thirty-day month. */
  function PeriodLength(f: Frequency): (days: nat)
    ensures days > 0
  {
    if f == Weekly then 7 else 30
  }

  /** `datetime.weekday()` of a day number: Monday is 0. Day 0, 1970-01-01, was a Thursday. */
  function Weekday(day: int): (w: int)
    ensures 0 <= w < 7
  {
    (day + 3) % 7
  }

  /** The last scheduled date: `now` floored to the Monday of its week when weekly, `now`
      itself when monthly. */
  function Anchor(f: Frequency, now: int): (day: int) {
    if f == Weekly then now - Weekday(now) else now
  }

  /** `n` dates from `first` on, `delta` apart: `first + i * delta` for `i` in
      `range(n)`, so no dates at all when `n` is not positive. */
  function Steps(first: int, delta: int, n: int): (days: seq<int>)
    ensures |days| == if n < 0 then 0 else n
    decreases n
  {
    if n <= 0 then [] else [first] + Steps(first + delta, delta, n - 1)
  }

  /** The `i`-th step is `first + i * delta`. */
  lemma {:induction false} StepsAt(first: int, delta: int, n: int)
    ensures forall i :: 0 <= i < |Steps(first, delta, n)| ==> Steps(first, delta, n)[i] == first + i * delta
    decreases n
  {
    if n > 0 {
      var days, rest := Steps(first, delta, n), Steps(first + delta, delta, n - 1);
      StepsAt(first + delta, delta, n - 1);
      forall i | 1 <= i < n ensures days[i] == first + i * delta {
        assert days[i] == rest[i - 1];
        assert (first + delta) + (i - 1) * delta == first + i * delta;
      }
    }
  }

  /** With a positive period the steps increase strictly. */
  lemma {:induction false} StepsIncreasing(first: int, delta: int, n: int)
    requires delta > 0
    ensures forall i, j :: 0 <= i < j < |Steps(first, delta, n)| ==> Steps(first, delta, n)[i] < Steps(first, delta, n)[j]
    decreases n
  {
    if n > 0 {
      var days, rest := Steps(first, delta, n), Steps(first + delta, delta, n - 1);
      StepsIncreasing(first + delta, delta, n - 1);
      StepsAt(first + delta, delta, n - 1);
      forall i, j | 0 <= i < j < n ensures days[i] < days[j] {
        assert days[j] == rest[j - 1];
        if i > 0 {
          assert days[i] == rest[i - 1];
        } else {
          assert rest[j - 1] >= first + delta by {
            StepsLowerBound(first + delta, delta, n - 1, j - 1);
          }
        }
      }
    }
  }

  /** With a positive period no step comes before the first. */
  lemma {:induction false} StepsLowerBound(first: int, delta: int, n: int, i: int)
    requires delta > 0 && 0 <= i < n
    ensures Steps(first, delta, n)[i] >= first
    decreases n
  {
    if i > 0 {
      StepsLowerBound(first + delta, delta, n - 1, i - 1);
    }
  }

  /** The dates `get_commits` looks up, with the intended period length: `periods + 1`
      dates ending at the anchor. */
  function Schedule(f: Frequency, now: int, periods: int): (days: seq<int>) {
    var delta := PeriodLength(f);
    Steps(Anchor(f, now) - delta * periods, delta, periods + 1)
  }

  /** The dates the code as written looks up. */
  function ScheduleAsWritten(f: Frequency, now: int, periods: int): (days: seq<int>) {
    var delta := PeriodLengthAsWritten(f);
    Steps(Anchor(f, now) - delta * periods, delta, periods + 1)
  }

  /** The schedule has `periods + 1` dates spaced one period apart, ending at the anchor. */
  lemma ScheduleShape(f: Frequency, now: int, periods: int)
    requires periods >= 0
    ensures var days := Schedule(f, now, periods);
      && |days| == periods + 1
      && days[periods] == Anchor(f, now)
      && days[0] == Anchor(f, now) - PeriodLength(f) * periods
      && (forall i :: 0 <= i < periods ==> days[i + 1] == days[i] + PeriodLength(f))
  {
    var delta := PeriodLength(f);
    StepsAt(Anchor(f, now) - delta * periods, delta, periods + 1);
  }

  /** Adding whole weeks keeps the weekday. */
  lemma WeekdayShift(day: int, weeks: int)
    ensures Weekday(day + 7 * weeks) == Weekday(day)
  {
    var q, r := (day + 3) / 7, (day + 3) % 7;
    assert day + 7 * weeks + 3 == 7 * (q + weeks) + r;
  }

  /** The weekly anchor is the Monday on or before `now`. */
  lemma AnchorIsMonday(now: int)
    ensures Weekday(Anchor(Weekly, now)) == 0
    ensures now - 7 < Anchor(Weekly, now) <= now
  {
    var q, r := (now + 3) / 7, (now + 3) % 7;
    assert now - r + 3 == 7 * q;
  }

  /** Every weekly date is a Monday. */
  lemma WeeklyDatesAreMondays(now: int, periods: int)
    ensures forall i :: 0 <= i < |Schedule(Weekly, now, periods)| ==> Weekday(Schedule(Weekly, now, periods)[i]) == 0
  {
    var days := Schedule(Weekly, now, periods);
    var a := Anchor(Weekly, now);
    AnchorIsMonday(now);
    StepsAt(a - 7 * periods, 7, periods + 1);
    forall i | 0 <= i < |days| ensures Weekday(days[i]) == 0 {
      assert days[i] == a + 7 * (i - periods);
      WeekdayShift(a, i - periods);
    }
  }

  /** Scheduled dates increase strictly. */
  lemma ScheduleIncreasing(f: Frequency, now: int, periods: int)
    ensures forall i, j :: 0 <= i < j < |Schedule(f, now, periods)| ==> Schedule(f, now, periods)[i] < Schedule(f, now, periods)[j]
  {
    var delta := PeriodLength(f);
    assert Schedule(f, now, periods) == Steps(Anchor(f, now) - delta * periods, delta, periods + 1);
    StepsIncreasing(Anchor(f, now) - delta * periods, delta, periods + 1);
  }

  // ---------------------------------------------------------------- git

  /** The repository's history as `git` answers about it: whether `rev-parse --verify`
      succeeds for a name, and the output of `rev-list -1 --before <day> <branch>`, None
      when that command fails. */
  datatype Git = Git(verifies: string -> bool, revList: (string, int) -> Option<string>)

  const BranchCandidates: seq<string> := ["main", "master", "develop"]

  /** The first name of `names` that verifies. */
  function FirstVerifying(names: seq<string>, git: Git): (r: Option<string>)
    decreases |names|
  {
    if names == [] then None
    else if git.verifies(names[0]) then Some(names[0])
    else FirstVerifying(names[1..], git)
  }

  /** The chosen branch is a verifying candidate with no verifying candidate before it;
      there is none exactly when no candidate verifies. */
  lemma {:induction false} FirstVerifyingSpec(names: seq<string>, git: Git)
    ensures FirstVerifying(names, git).None? <==> forall i :: 0 <= i < |names| ==> !git.verifies(names[i])
    ensures FirstVerifying(names, git).Some? ==>
      exists k :: 0 <= k < |names| && names[k] == FirstVerifying(names, git).value && git.verifies(names[k])
        && forall i :: 0 <= i < k ==> !git.verifies(names[i])
    decreases |names|
  {
    if names != [] && !git.verifies(names[0]) {
      var tail := names[1..];
      FirstVerifyingSpec(tail, git);
      assert forall i :: 1 <= i < |names| ==> names[i] == tail[i - 1];
      if FirstVerifying(tail, git).Some? {
        var k :| 0 <= k < |tail| && tail[k] == FirstVerifying(tail, git).value && git.verifies(tail[k])
          && forall i :: 0 <= i < k ==> !git.verifies(tail[i]);
        assert names[k + 1] == tail[k];
      }
    } else if names != [] {
      assert names[0] == FirstVerifying(names, git).value;
    }
  }

  /** A resolved snapshot: a commit id and the date it was looked up for. */
  datatype Snapshot = Snapshot(commit: string, day: int)

  /** The lookup of one date: the stripped output when the command succeeds with a
      non-empty one, nothing otherwise. */
  function Lookup(git: Git, branch: string, day: int): (found: seq<Snapshot>) {
    match git.revList(branch, day)
    case None => []
    case Some(out) => if Strip(out) == "" then [] else [Snapshot(Strip(out), day)]
  }

  /** The lookups of `days` on `branch`, in order. */
  function Resolve(git: Git, branch: string, days: seq<int>): (snapshots: seq<Snapshot>)
    decreases |days|
  {
    if days == [] then [] else Lookup(git, branch, days[0]) + Resolve(git, branch, days[1..])
  }

  /** `Resolve` from index `i` on, unfolded once. */
  lemma ResolveFrom(git: Git, branch: string, days: seq<int>, i: int)
    requires 0 <= i < |days|
    ensures Resolve(git, branch, days[i..]) == Lookup(git, branch, days[i]) + Resolve(git, branch, days[i + 1..])
  {
    assert days[i..][1..] == days[i + 1..];
  }

  /** Whether the lookup of `day` on `branch` yields a commit, and which. */
  predicate ResolvesTo(git: Git, branch: string, day: int, commit: string) {
    git.revList(branch, day).Some? && commit == Strip(git.revList(branch, day).value) && commit != ""
  }

  /** `get_commits(repo, frequency, periods)` on the day `now`. */
  ghost function Commits(git: Git, f: Frequency, now: int, periods: int): (snapshots: seq<Snapshot>) {
    match FirstVerifying(BranchCandidates, git)
    case None => []
    case Some(branch) => Resolve(git, branch, Schedule(f, now, periods))
  }

  /** Resolution keeps an order-preserving selection of the dates: at most one snapshot
      per date, each for a date of `days` whose lookup yields it, and every such date. */
  lemma {:induction false} ResolveSpec(git: Git, branch: string, days: seq<int>)
    ensures |Resolve(git, branch, days)| <= |days|
    ensures forall s :: s in Resolve(git, branch, days) <==>
      exists i :: 0 <= i < |days| && s.day == days[i] && ResolvesTo(git, branch, days[i], s.commit)
    decreases |days|
  {
    if days != [] {
      var tail := days[1..];
      ResolveSpec(git, branch, tail);
      assert forall i :: 1 <= i < |days| ==> days[i] == tail[i - 1];
    }
  }

  /** When the dates increase strictly, so do the dates of the resolved snapshots. */
  lemma {:induction false} ResolveIncreasing(git: Git, branch: string, days: seq<int>)
    requires forall i, j :: 0 <= i < j < |days| ==> days[i] < days[j]
    ensures var r := Resolve(git, branch, days);
      forall i, j :: 0 <= i < j < |r| ==> r[i].day < r[j].day
    decreases |days|
  {
    if days != [] {
      var tail := days[1..];
      ResolveIncreasing(git, branch, tail);
      ResolveSpec(git, branch, tail);
      var rest := Resolve(git, branch, tail);
      forall s | s in rest ensures days[0] < s.day {
        var i :| 0 <= i < |tail| && s.day == tail[i] && ResolvesTo(git, branch, tail[i], s.commit);
        assert tail[i] == days[i + 1];
      }
    }
  }

  /** No candidate branch verifies: no snapshots. Otherwise the first verifying candidate
      is used; there are at most `periods + 1` snapshots, in strictly increasing date
      order, and a scheduled date gives a snapshot exactly when its lookup yields a commit. */
  lemma CommitsSpec(git: Git, f: Frequency, now: int, periods: int)
    ensures FirstVerifying(BranchCandidates, git).None? ==> Commits(git, f, now, periods) == []
    ensures |Commits(git, f, now, periods)| <= if periods < 0 then 0 else periods + 1
    ensures var r := Commits(git, f, now, periods);
      forall i, j :: 0 <= i < j < |r| ==> r[i].day < r[j].day
    ensures FirstVerifying(BranchCandidates, git).Some? ==>
      var branch, days := FirstVerifying(BranchCandidates, git).value, Schedule(f, now, periods);
      forall s :: s in Commits(git, f, now, periods) <==>
        exists i :: 0 <= i < |days| && s.day == days[i] && ResolvesTo(git, branch, days[i], s.commit)
  {
    if FirstVerifying(BranchCandidates, git).Some? {
      var branch, days := FirstVerifying(BranchCandidates, git).value, Schedule(f, now, periods);
      ResolveSpec(git, branch, days);
      ScheduleIncreasing(f, now, periods);
      ResolveIncreasing(git, branch, days);
    }
  }

  /** The branch scan of `get_commits`, its for-else loop: the first candidate that
      verifies, or None. */
  method FindBranch(git: Git) returns (branch: Option<string>)
    ensures branch == FirstVerifying(BranchCandidates, git)
  {
    for b := 0 to |BranchCandidates|
      invariant FirstVerifying(BranchCandidates, git) == FirstVerifying(BranchCandidates[b..], git)
    {
      assert BranchCandidates[b..][1..] == BranchCandidates[b + 1..];
      if git.verifies(BranchCandidates[b]) {
        return Some(BranchCandidates[b]);
      }
    }
    assert BranchCandidates[|BranchCandidates|..] == [];
    return None;
  }

  /** The body of the lookup loop: `rev-list` for one date, kept when it succeeds with a
      non-empty stripped output. */
  method LookupDate(git: Git, branch: string, date: int) returns (found: seq<Snapshot>)
    ensures found == Lookup(git, branch, date)
  {
    found := [];
    var out := git.revList(branch, date);
    if out.Some? {
      var commit := Strip(out.value);
      if commit != "" {
        found := [Snapshot(commit, date)];
      }
    }
  }

  /** The lookup loop of `get_commits`: one `rev-list` for each of the `periods + 1`
      dates `start`, `start + delta`, ...; the date is advanced by `delta` per round,
      which gives the same dates as the source's `start_date + i * delta`. */
  method ResolveDates(git: Git, branch: string, start: int, delta: int, periods: int) returns (commits: seq<Snapshot>)
    ensures commits == Resolve(git, branch, Steps(start, delta, periods + 1))
  {
    commits := [];
    var date := start;
    var i := 0;
    while i < periods + 1
      invariant 0 <= i && (periods >= 0 ==> i <= periods + 1)
      invariant commits + Resolve(git, branch, Steps(date, delta, periods + 1 - i))
        == Resolve(git, branch, Steps(start, delta, periods + 1))
    {
      var found := LookupDate(git, branch, date);
      ghost var rest := Steps(date + delta, delta, periods - i);
      assert Steps(date, delta, periods + 1 - i) == [date] + rest;
      assert ([date] + rest)[1..] == rest;
      assert Resolve(git, branch, [date] + rest) == found + Resolve(git, branch, rest);
      assert (commits + found) + Resolve(git, branch, rest) == commits + (found + Resolve(git, branch, rest));
      commits := commits + found;
      date := date + delta;
      i := i + 1;
    }
  }

  /** `get_commits`: the start date, the branch scan, then one lookup per scheduled date. */
  method GetCommits(git: Git, f: Frequency, now: int, periods: int) returns (commits: seq<Snapshot>)
    ensures commits == Commits(git, f, now, periods)
  {
    var delta := PeriodLength(f);
    var start := (if f == Weekly then now - Weekday(now) else now) - delta * periods;
    var branch := FindBranch(git);
    if branch.None? {
      return [];
    }
    commits := ResolveDates(git, branch.value, start, delta, periods);
  }

  /** As written, a monthly schedule steps thirty weeks at a time: with one period it looks
      210 days back, where the intended schedule looks 30 days back. */
  lemma MonthlyStepAsWritten(now: int)
    ensures ScheduleAsWritten(Monthly, now, 1) == [now - 210, now]
    ensures Schedule(Monthly, now, 1) == [now - 30, now]
  {
    assert Steps(now, 210, 1) == [now] + Steps(now + 210, 210, 0);
    assert Steps(now - 210, 210, 2) == [now - 210] + Steps(now, 210, 1);
    assert Steps(now, 30, 1) == [now] + Steps(now + 30, 30, 0);
    assert Steps(now - 30, 30, 2) == [now - 30] + Steps(now, 30, 1);
  }

  /** With the intended period length a monthly schedule ends at `now`, starts `30 *
      periods` days earlier, and its consecutive dates are thirty days apart. */
  lemma MonthlyDatesThirtyDaysApart(now: int, periods: int)
    requires periods >= 0
    ensures var days := Schedule(Monthly, now, periods);
      && |days| == periods + 1
      && days[0] == now - 30 * periods && days[periods] == now
      && forall i :: 0 <= i < periods ==> days[i + 1] - days[i] == 30
  {
    ScheduleShape(Monthly, now, periods);
  }
}
