/** Which source lines a set of lcov reports names, and which of them it says were executed. */
module CoverageSpots {
  import opened Text
  import opened Coverage

  predicate Bounds(line: LcovLine) {
    line.Source? || line.EndOfRecord?
  }

  /** The record opened at `j` is still open at `i`. */
  predicate InRecord(report: Report, j: nat, i: nat, file: string) {
    j < i <= |report| && report[j] == Source(file) && forall m :: j < m < i ==> !Bounds(report[m])
  }

  ghost predicate RecordOf(report: Report, i: nat, file: string) {
    exists j: nat :: InRecord(report, j, i, file)
  }

  /** A DA line of this file and number, within a record of the file. */
  ghost predicate Names(report: Report, i: nat, file: string, n: int) {
    i < |report| && report[i].Data? && report[i].line == n && RecordOf(report, i, file)
  }

  lemma {:induction false} FileIs(report: Report, i: nat, file: string)
    requires i <= |report|
    ensures FileAfter(report[..i]) == Some(file) <==> RecordOf(report, i, file)
  {
    if i > 0 {
      FileIs(report, i - 1, file);
      assert report[..i][..i - 1] == report[..i - 1];
      RecordNext(report, i - 1, i, file);
    }
  }

  lemma RecordNext(report: Report, i: nat, next: nat, file: string)
    requires i < |report| && next == i + 1
    ensures RecordOf(report, next, file) <==>
            if Bounds(report[i]) then report[i] == Source(file) else RecordOf(report, i, file)
  {
    if RecordOf(report, next, file) {
      var j: nat :| InRecord(report, j, next, file);
      assert j < i ==> InRecord(report, j, i, file);
    }
    if report[i] == Source(file) {
      assert InRecord(report, i, next, file);
    } else if !Bounds(report[i]) && RecordOf(report, i, file) {
      var j: nat :| InRecord(report, j, i, file);
      assert InRecord(report, j, next, file);
    }
  }

  lemma SpotNext(report: Report, k: nat, file: string, n: int)
    requires k < |report|
    ensures var named := report[k].Data? && report[k].line == n && FileAfter(report[..k]) == Some(file);
            && ((file, n) in Found(report[..k + 1]) <==> (file, n) in Found(report[..k]) || named)
            && ((file, n) in Hit(report[..k + 1]) <==> (file, n) in Hit(report[..k]) || (named && report[k].hit))
  {
    assert report[..k + 1][..k] == report[..k];
  }

  lemma {:induction false} FoundUpTo(report: Report, k: nat, file: string, n: int)
    requires k <= |report|
    ensures (file, n) in Found(report[..k]) <==> exists i: nat :: i < k && Names(report, i, file, n)
    ensures (file, n) in Hit(report[..k]) <==> exists i: nat :: i < k && Names(report, i, file, n) && report[i].hit
  {
    if k > 0 {
      FoundUpTo(report, k - 1, file, n);
      FileIs(report, k - 1, file);
      assert report[..k][..k - 1] == report[..k - 1];
      assert Names(report, k - 1, file, n) <==>
             report[k - 1].Data? && report[k - 1].line == n && FileAfter(report[..k - 1]) == Some(file);
      SpotNext(report, k - 1, file, n);
    }
  }

  /** A line is found, or hit, exactly when a DA line in a record of its file says so. */
  lemma FoundIff(report: Report, file: string, n: int)
    ensures (file, n) in Found(report) <==> exists i: nat :: Names(report, i, file, n)
    ensures (file, n) in Hit(report) <==> exists i: nat :: Names(report, i, file, n) && report[i].hit
  {
    FoundUpTo(report, |report|, file, n);
    assert report[..|report|] == report;
  }

  lemma {:induction false} AllFoundMembers(reports: seq<Report>, spot: Spot)
    ensures spot in AllFound(reports) <==> exists r :: r in reports && spot in Found(r)
    ensures spot in AllHit(reports) <==> exists r :: r in reports && spot in Hit(r)
  {
    if reports != [] {
      var front, last := reports[..|reports| - 1], reports[|reports| - 1];
      assert reports == front + [last];
      AllFoundMembers(front, spot);
      Either(front, last, r => spot in Found(r));
      Either(front, last, r => spot in Hit(r));
    }
  }

  lemma Either(front: seq<Report>, last: Report, holds: Report -> bool)
    ensures (exists r :: r in front + [last] && holds(r)) <==> (exists r :: r in front && holds(r)) || holds(last)
  {
    assert forall r :: r in front + [last] <==> r in front || r == last;
  }

  /**
    The merged counts are of lines that some report names, and of lines that some report says were
    executed: a line is hit when any report hit it.
   */
  lemma MergedIff(reports: seq<Report>, file: string, n: int)
    ensures (file, n) in AllFound(reports) <==> exists r: Report, i: nat :: r in reports && Names(r, i, file, n)
    ensures (file, n) in AllHit(reports) <==>
            exists r: Report, i: nat :: r in reports && Names(r, i, file, n) && r[i].hit
  {
    AllFoundMembers(reports, (file, n));
    forall r: Report | r in reports ensures (file, n) in Found(r) <==> exists i: nat :: Names(r, i, file, n) {
      FoundIff(r, file, n);
    }
    forall r: Report | r in reports ensures (file, n) in Hit(r) <==> exists i: nat :: Names(r, i, file, n) && r[i].hit {
      FoundIff(r, file, n);
    }
  }

  // ---- what the shards left ----

  lemma {:induction false} ReportsMembers(shards: seq<ShardData>)
    ensures forall r :: r in Reports(shards) <==> exists s :: s in shards && s.lcov == Some(r)
    ensures forall op :: op in Executed(shards) <==> exists s :: s in shards && s.ops.Some? && op in OpsOf(s.ops.value)
  {
    if shards != [] {
      var front, last := shards[..|shards| - 1], shards[|shards| - 1];
      ReportsMembers(front);
      assert shards == front + [last];
      assert forall s :: s in shards <==> s in front || s == last;
    }
  }
}
