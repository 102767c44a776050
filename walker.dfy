/** The script's main program: it remembers the checked-out commit, checks out each
    scheduled snapshot in turn, analyses it, and finally checks the remembered commit out
    again. */
module Walker {
  import opened Inputs
  import opened History
  import Service

  /** The repository's working tree. `contents(c)` is what the tree holds with commit `c`
      checked out; `head` is the commit checked out now; `checkouts` records every
      checkout in order. */
  class WorkingTree {
    const repo: string
    const contents: string -> FileSystem
    var head: string
    ghost var checkouts: seq<string>

    constructor (repo: string, contents: string -> FileSystem, head: string)
      ensures this.repo == repo && this.contents == contents
      ensures this.head == head && checkouts == []
    {
      this.repo := repo;
      this.contents := contents;
      this.head := head;
      checkouts := [];
    }

    /** What the analysis sees of the tree now. */
    function Files(): (fs: FileSystem)
      reads this
    {
      contents(head)
    }

    /** `git rev-parse HEAD`: the commit checked out now; nothing changes. */
    method RevParseHead() returns (commit: string)
      ensures commit == head
    {
      commit := head;
    }

    /** `git checkout -q <commit>` */
    method Checkout(commit: string)
      modifies this
      ensures head == commit && checkouts == old(checkouts) + [commit]
      ensures Files() == contents(commit)
    {
      head := commit;
      checkouts := checkouts + [commit];
    }
  }

  /** The commit ids of `snapshots`, in order. */
  function CommitIds(snapshots: seq<Snapshot>): (ids: seq<string>)
    ensures |ids| == |snapshots|
    ensures forall k :: 0 <= k < |ids| ==> ids[k] == snapshots[k].commit
  {
    seq(|snapshots|, k requires 0 <= k < |snapshots| => snapshots[k].commit)
  }

  /** `rowOf` applied to each snapshot, in order. */
  ghost function MapRows(rowOf: Snapshot -> Service.Row, snapshots: seq<Snapshot>): (rows: seq<Service.Row>)
    ensures |rows| == |snapshots|
  {
    seq(|snapshots|, k requires 0 <= k < |snapshots| => rowOf(snapshots[k]))
  }

  /** The row of one snapshot: `analyze_service` run on its checkout. */
  ghost function SnapshotRow(repo: string, contents: string -> FileSystem, p: Parsers): (rowOf: Snapshot -> Service.Row) {
    (s: Snapshot) => Service.ReportRow(repo, contents(s.commit), s.day, p)
  }

  /** The data rows of the report for `snapshots`. */
  ghost function Report(repo: string, contents: string -> FileSystem, snapshots: seq<Snapshot>, p: Parsers): (rows: seq<Service.Row>) {
    MapRows(SnapshotRow(repo, contents, p), snapshots)
  }

  /** The rows for one more snapshot are the earlier rows and its own row. */
  lemma MapRowsSnoc(rowOf: Snapshot -> Service.Row, snapshots: seq<Snapshot>, k: int)
    requires 0 <= k < |snapshots|
    ensures MapRows(rowOf, snapshots[..k + 1]) == MapRows(rowOf, snapshots[..k]) + [rowOf(snapshots[k])]
  {
  }

  /** The row of a snapshot is dated as the snapshot and names the repository directory. */
  lemma SnapshotRowFields(repo: string, contents: string -> FileSystem, p: Parsers, s: Snapshot)
    ensures SnapshotRow(repo, contents, p)(s).day == s.day
    ensures SnapshotRow(repo, contents, p)(s).service == Service.Basename(repo)
  {
    var row := Service.ReportRow(repo, contents(s.commit), s.day, p);
    assert SnapshotRow(repo, contents, p)(s) == row;
    assert row.day == s.day && row.service == Service.Basename(repo);
  }

  /** Rows made by a row function that keeps the date and the service name. */
  lemma MapRowsFields(rowOf: Snapshot -> Service.Row, snapshots: seq<Snapshot>, name: string)
    requires forall s :: rowOf(s).day == s.day && rowOf(s).service == name
    ensures forall k :: 0 <= k < |snapshots| ==>
      MapRows(rowOf, snapshots)[k].day == snapshots[k].day && MapRows(rowOf, snapshots)[k].service == name
  {
    forall k | 0 <= k < |snapshots|
      ensures MapRows(rowOf, snapshots)[k].day == snapshots[k].day && MapRows(rowOf, snapshots)[k].service == name
    {
      assert MapRows(rowOf, snapshots)[k] == rowOf(snapshots[k]);
    }
  }

  /** The report has at most `periods + 1` rows, in strictly increasing date order, and
      every row names the repository directory. */
  lemma ReportRowsOrdered(repo: string, contents: string -> FileSystem, git: Git, f: Frequency, now: int, periods: int, p: Parsers)
    ensures var rows := Report(repo, contents, Commits(git, f, now, periods), p);
      && |rows| <= (if periods < 0 then 0 else periods + 1)
      && (forall i, j :: 0 <= i < j < |rows| ==> rows[i].day < rows[j].day)
      && (forall i :: 0 <= i < |rows| ==> rows[i].service == Service.Basename(repo))
  {
    var rowOf := SnapshotRow(repo, contents, p);
    CommitsSpec(git, f, now, periods);
    forall s ensures rowOf(s).day == s.day && rowOf(s).service == Service.Basename(repo) {
      SnapshotRowFields(repo, contents, p, s);
    }
    MapRowsFields(rowOf, Commits(git, f, now, periods), Service.Basename(repo));
  }

  /** Appending one snapshot appends its commit id. */
  lemma CommitIdsSnoc(snapshots: seq<Snapshot>, k: int)
    requires 0 <= k < |snapshots|
    ensures CommitIds(snapshots[..k + 1]) == CommitIds(snapshots[..k]) + [snapshots[k].commit]
  {
  }

  /** The head after checking out `snapshots` in order, starting from `start`. */
  function LastHead(start: string, snapshots: seq<Snapshot>): (head: string)
    ensures snapshots == [] ==> head == start
    ensures snapshots != [] ==> head == snapshots[|snapshots| - 1].commit
  {
    if snapshots == [] then start else snapshots[|snapshots| - 1].commit
  }

  /** Checks out one snapshot and analyses the working tree. */
  method AnalyzeSnapshot(tree: WorkingTree, s: Snapshot, p: Parsers) returns (row: Service.Row)
    modifies tree
    ensures tree.head == s.commit && tree.checkouts == old(tree.checkouts) + [s.commit]
    ensures row == SnapshotRow(tree.repo, tree.contents, p)(s)
  {
    tree.Checkout(s.commit);
    row := Service.AnalyzeService(tree.repo, tree.Files(), s.day, p);
  }

  /** The loop of the main program: each snapshot in turn is checked out and analysed. */
  method AnalyzeSnapshots(tree: WorkingTree, snapshots: seq<Snapshot>, p: Parsers) returns (rows: seq<Service.Row>)
    modifies tree
    ensures rows == Report(tree.repo, tree.contents, snapshots, p)
    ensures tree.checkouts == old(tree.checkouts) + CommitIds(snapshots)
    ensures tree.head == LastHead(old(tree.head), snapshots)
  {
    ghost var rowOf := SnapshotRow(tree.repo, tree.contents, p);
    ghost var start := tree.head;
    rows := [];
    for k := 0 to |snapshots|
      invariant tree.checkouts == old(tree.checkouts) + CommitIds(snapshots[..k])
      invariant rows == MapRows(rowOf, snapshots[..k])
      invariant tree.head == LastHead(start, snapshots[..k])
    {
      var row := AnalyzeSnapshot(tree, snapshots[k], p);
      MapRowsSnoc(rowOf, snapshots, k);
      CommitIdsSnoc(snapshots, k);
      rows := rows + [row];
    }
    assert snapshots[..|snapshots|] == snapshots;
  }

  /** The main program on the day `now`: every snapshot is checked out and analysed in
      order, and the commit checked out at the start is checked out again at the end. */
  method RunAnalysis(tree: WorkingTree, git: Git, f: Frequency, now: int, periods: int, p: Parsers)
    returns (rows: seq<Service.Row>)
    modifies tree
    ensures rows == Report(tree.repo, tree.contents, Commits(git, f, now, periods), p)
    ensures tree.head == old(tree.head)
    ensures tree.checkouts == old(tree.checkouts) + CommitIds(Commits(git, f, now, periods)) + [old(tree.head)]
  {
    var originalHead := tree.RevParseHead();
    var snapshots := GetCommits(git, f, now, periods);
    rows := AnalyzeSnapshots(tree, snapshots, p);
    tree.Checkout(originalHead);
  }
}
