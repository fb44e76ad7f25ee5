/** What the analyzer reads of a plan and what the filter keeps of it, said over the numbers of the lines. */
module PlanBlocks {
  import opened Text
  import opened Selection
  import opened PlanLines

  /** Line `j` lies in the block of the node at line `i`: all lines to it are deeper and open no child. */
  predicate InBlock(lines: seq<Line>, i: nat, j: nat) {
    i < j < |lines| && forall m: nat :: i < m <= j ==> lines[m].indent > lines[i].indent && !lines[m].child
  }

  // ---- the scans ----

  /** `text` is the last Filter before line `end` of the block at `i`, or empty when there is none. */
  ghost predicate LastFilter(lines: seq<Line>, i: nat, end: nat, text: string) {
    || (text == "" && forall j: nat :: InBlock(lines, i, j) && j < end ==> !lines[j].property.Filter?)
    || exists j: nat ::
         && InBlock(lines, i, j) && j < end && lines[j].property == Filter(text)
         && forall m: nat :: j < m < end && InBlock(lines, i, m) ==> !lines[m].property.Filter?
  }

  /** `scan` is the node at line `i` with what its block says before line `end`. */
  ghost predicate SaysBefore(lines: seq<Line>, i: nat, end: nat, scan: Scan) {
    && i < |lines| && scan.node == lines[i]
    && (scan.indexCond <==> exists j: nat :: InBlock(lines, i, j) && j < end && lines[j].property.IndexCond?)
    && LastFilter(lines, i, end, scan.filter)
  }

  ghost predicate Says(lines: seq<Line>, i: nat, scan: Scan) {
    SaysBefore(lines, i, |lines|, scan)
  }

  /** One more line of the block. */
  lemma SaysNext(lines: seq<Line>, i: nat, end: nat, scan: Scan)
    requires SaysBefore(lines, i, end, scan) && InBlock(lines, i, end)
    ensures SaysBefore(lines, i, end + 1, Absorb(scan, lines[end]))
  {
    var more := Absorb(scan, lines[end]);
    assert forall j: nat :: InBlock(lines, i, j) && j < end + 1 ==> j < end || j == end;
    if lines[end].property.Filter? {
      assert LastFilter(lines, i, end + 1, more.filter);
    } else if scan.filter == "" && forall j: nat :: InBlock(lines, i, j) && j < end ==> !lines[j].property.Filter? {
      assert LastFilter(lines, i, end + 1, more.filter);
    } else {
      var j: nat :| InBlock(lines, i, j) && j < end && lines[j].property == Filter(scan.filter)
        && forall m: nat :: j < m < end && InBlock(lines, i, m) ==> !lines[m].property.Filter?;
      assert InBlock(lines, i, j) && j < end + 1;
    }
  }

  lemma {:induction false} BlockFrom(lines: seq<Line>, i: nat, end: nat, scan: Scan)
    requires i < end <= |lines| && SaysBefore(lines, i, end, scan)
    requires forall m: nat :: i < m < end ==> !Ends(lines[i].indent, lines[m])
    ensures Says(lines, i, ReadBlock(scan, lines[end..]))
    decreases |lines| - end
  {
    if end == |lines| {
    } else if Ends(scan.node.indent, lines[end]) {
      assert forall j: nat :: InBlock(lines, i, j) ==> j < end;
    } else {
      SaysNext(lines, i, end, scan);
      assert lines[end..][1..] == lines[end + 1..];
      BlockFrom(lines, i, end + 1, Absorb(scan, lines[end]));
    }
  }

  function ScanLine(lines: seq<Line>): nat -> bool {
    (i: nat) => i < |lines| && (lines[i].seqScan || lines[i].indexScan)
  }

  /** `scans` are the scan lines from line `from` on, in order, each with what its own block says. */
  ghost predicate ScansAt(lines: seq<Line>, from: nat, scans: seq<Scan>) {
    var at := Select(ScanLine(lines), from, |lines|);
    |at| == |scans| && forall k :: 0 <= k < |at| ==> Says(lines, at[k], scans[k])
  }

  lemma {:induction false} ScansFrom(lines: seq<Line>, i: nat)
    requires i <= |lines|
    ensures ScansAt(lines, i, ScansOf(lines[i..]))
    decreases |lines| - i
  {
    if i < |lines| {
      ScansFrom(lines, i + 1);
      assert lines[i..][1..] == lines[i + 1..];
      if lines[i].IsScan() {
        BlockFrom(lines, i, i + 1, Scan(lines[i], "", false));
      }
    }
  }

  /**
    The scans of a plan are its scan lines, in order, each with the last Filter of its own block
    and whether that has an Index Cond.
   */
  lemma ScansAre(lines: seq<Line>)
    ensures ScansAt(lines, 0, ScansOf(lines))
  {
    assert lines[0..] == lines;
    ScansFrom(lines, 0);
  }

  // ---- what is kept of a cut segment ----

  /** The scan at line `s` is the last one before line `k`, and no line between ends its block. */
  ghost predicate Followed(lines: seq<Line>, s: nat, k: nat) {
    && s < k <= |lines| && (lines[s].seqScan || lines[s].indexScan)
    && forall m: nat :: s < m < k ==>
         !lines[m].seqScan && !lines[m].indexScan && lines[m].indent > lines[s].indent && !lines[m].child
  }

  /** Line `k` is a scan, or a property in the block of the last scan before it. */
  ghost predicate Wanted(lines: seq<Line>, k: nat) {
    && k < |lines|
    && (lines[k].seqScan || lines[k].indexScan
        || (lines[k].property != NoProperty && exists s: nat :: Followed(lines, s, k) && InBlock(lines, s, k)))
  }

  /** A scan line is never blank. */
  ghost predicate NoBlankScan(lines: seq<Line>) {
    forall l :: l in lines && l.IsScan() ==> l.indent >= 0
  }

  /** The tracked indent is that of the scan followed, or -1 when none is. */
  ghost predicate Tracked(lines: seq<Line>, k: nat, indent: int) {
    && indent >= -1
    && (indent >= 0 <==> exists s: nat :: Followed(lines, s, k))
    && forall s: nat :: Followed(lines, s, k) ==> indent == lines[s].indent
  }

  lemma TrackNext(lines: seq<Line>, k: nat, next: nat, indent: int)
    requires k < |lines| && next == k + 1 && Tracked(lines, k, indent) && (lines[k].IsScan() ==> lines[k].indent >= 0)
    ensures Tracked(lines, next, Track(indent, lines[k]))
  {
    forall s: nat | Followed(lines, s, next) && s < k ensures Followed(lines, s, k) {
    }
    if lines[k].IsScan() {
      assert Followed(lines, k, next);
    } else if indent >= 0 && !Ends(indent, lines[k]) {
      var s: nat :| Followed(lines, s, k);
      assert Followed(lines, s, next);
    }
  }

  lemma {:induction false} TrackIs(lines: seq<Line>, k: nat)
    requires k <= |lines| && NoBlankScan(lines)
    ensures Tracked(lines, k, TrackAll(-1, lines[..k]))
  {
    if k > 0 {
      var line, before := lines[k - 1], TrackAll(-1, lines[..k - 1]);
      TrackIs(lines, k - 1);
      assert lines[..k] == lines[..k - 1] + [line];
      TrackAllAppend(-1, lines[..k - 1], [line]);
      TrackOne(before, line);
      TrackNext(lines, k - 1, k, before);
    }
  }

  lemma TrackOne(indent: int, line: Line)
    ensures TrackAll(indent, [line]) == Track(indent, line)
  {
    assert [line][1..] == [];
  }

  lemma KeepsIff(lines: seq<Line>, k: nat)
    requires k < |lines| && NoBlankScan(lines)
    ensures Keeps(TrackAll(-1, lines[..k]), lines[k]) <==> Wanted(lines, k)
  {
    TrackIs(lines, k);
    forall s: nat | Followed(lines, s, k) ensures InBlock(lines, s, k) <==> !Ends(lines[s].indent, lines[k]) {
    }
  }

  ghost function WantedLine(lines: seq<Line>): nat -> bool {
    (k: nat) => Wanted(lines, k)
  }

  /** `kept` are the lines from number `from` on that are wanted, in order. */
  ghost predicate WantedAt(lines: seq<Line>, from: nat, kept: seq<Line>) {
    var at := Select(WantedLine(lines), from, |lines|);
    |at| == |kept| && forall i :: 0 <= i < |at| ==> kept[i] == lines[at[i]]
  }

  /** What is kept from line `from` on. */
  function KeptFrom(lines: seq<Line>, from: nat): seq<Line>
    requires from <= |lines|
  {
    Kept(TrackAll(-1, lines[..from]), lines[from..])
  }

  lemma KeptStep(lines: seq<Line>, from: nat)
    requires from < |lines| && NoBlankScan(lines)
    ensures KeptFrom(lines, from) ==
            (if Wanted(lines, from) then [lines[from]] else []) + KeptFrom(lines, from + 1)
  {
    var line, indent := lines[from], TrackAll(-1, lines[..from]);
    assert lines[..from + 1] == lines[..from] + [line] && lines[from..][1..] == lines[from + 1..];
    TrackAllAppend(-1, lines[..from], [line]);
    TrackOne(indent, line);
    KeepsIff(lines, from);
  }

  lemma WantedNext(lines: seq<Line>, i: nat, more: seq<Line>)
    requires i < |lines| && WantedAt(lines, i + 1, more)
    ensures WantedAt(lines, i, (if Wanted(lines, i) then [lines[i]] else []) + more)
  {
  }

  /**
    Of what follows the first lines of a plan exactly the scans are kept, and the properties of
    the last scan before them, wherever in the plan that scan stands.
   */
  lemma {:induction false} KeptAre(lines: seq<Line>, from: nat)
    requires from <= |lines| && NoBlankScan(lines)
    ensures WantedAt(lines, from, KeptFrom(lines, from))
    decreases |lines| - from
  {
    if from < |lines| {
      KeptAre(lines, from + 1);
      KeptStep(lines, from);
      WantedNext(lines, from, KeptFrom(lines, from + 1));
    }
  }
}
