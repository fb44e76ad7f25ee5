/** Which plans the stream filter keeps, decided line by line and stated over the whole plan. */
module KeepDecision {
  import opened PlanLines

  /** The filter's scan flags while it reads a plan. */
  datatype Flags = Flags(
    hasSeq: bool,
    fullIndex: bool,
    inIndex: bool,
    nodeIndent: int,
    indexCond: bool,
    indexFilter: bool)

  const START := Flags(false, false, false, 0, false, false)

  function EndIndexNode(f: Flags): Flags {
    f.(fullIndex := f.fullIndex || (f.inIndex && !f.indexCond && f.indexFilter), inIndex := false)
  }

  function InBlock(f: Flags, line: Line): Flags {
    if !f.inIndex then f
    else if Ends(f.nodeIndent, line) then EndIndexNode(f)
    else match line.property
      case IndexCond => f.(indexCond := true)
      case Filter(_) => f.(indexFilter := true)
      case NoProperty => f
  }

  function Step(f: Flags, line: Line): Flags {
    var g := InBlock(f.(hasSeq := f.hasSeq || line.seqScan), line);
    if line.indexScan then g.(inIndex := true, nodeIndent := line.indent, indexCond := false, indexFilter := false)
    else g
  }

  function Read(f: Flags, lines: seq<Line>): Flags
    decreases lines
  {
    if lines == [] then f else Read(Step(f, lines[0]), lines[1..])
  }

  lemma {:induction false} ReadAppend(f: Flags, a: seq<Line>, b: seq<Line>)
    ensures Read(f, a + b) == Read(Read(f, a), b)
    decreases a
  {
    if a == [] {
      assert a + b == b;
    } else {
      assert (a + b)[0] == a[0] && (a + b)[1..] == a[1..] + b;
      ReadAppend(Step(f, a[0]), a[1..], b);
    }
  }

  predicate Decides(f: Flags) {
    EndIndexNode(f).hasSeq || EndIndexNode(f).fullIndex
  }

  /** The streaming decision over a plan's lines. */
  predicate KeepsPlan(lines: seq<Line>) {
    Decides(Read(START, lines))
  }

  // ---- the same decision, stated over the whole plan ----

  /** How many lines follow in the block of an index scan at `indent`, up to its end or another index scan. */
  function BlockLength(indent: int, lines: seq<Line>): (n: nat)
    ensures n <= |lines|
  {
    if lines == [] || Ends(indent, lines[0]) || lines[0].indexScan then 0 else 1 + BlockLength(indent, lines[1..])
  }

  ghost predicate HasFilter(lines: seq<Line>) {
    exists k :: 0 <= k < |lines| && lines[k].property.Filter?
  }

  ghost predicate HasIndexCond(lines: seq<Line>) {
    exists k :: 0 <= k < |lines| && lines[k].property == IndexCond
  }

  /** The block continued by `rest` was closed, not taken over by another index scan, and reads a whole index. */
  ghost predicate WalksWhole(indent: int, filter: bool, cond: bool, rest: seq<Line>) {
    var n := BlockLength(indent, rest);
    && (n < |rest| ==> Ends(indent, rest[n]))
    && (filter || HasFilter(rest[..n]))
    && !cond
    && !HasIndexCond(rest[..n])
  }

  /** Line `i` is an index scan whose block has a Filter and no Index Cond. */
  ghost predicate FullWalk(lines: seq<Line>, i: nat)
    requires i < |lines|
  {
    lines[i].indexScan && WalksWhole(lines[i].indent, false, false, lines[i + 1..])
  }

  ghost predicate HasFullScan(lines: seq<Line>) {
    exists i :: 0 <= i < |lines| && (lines[i].seqScan || FullWalk(lines, i))
  }

  lemma WalksWholeCons(indent: int, filter: bool, cond: bool, rest: seq<Line>)
    requires rest != [] && !Ends(indent, rest[0])
    ensures rest[0].indexScan ==> !WalksWhole(indent, filter, cond, rest)
    ensures !rest[0].indexScan ==>
              (WalksWhole(indent, filter, cond, rest) <==>
               WalksWhole(indent, filter || rest[0].property.Filter?, cond || rest[0].property == IndexCond, rest[1..]))
  {
    if !rest[0].indexScan {
      var n := BlockLength(indent, rest);
      var block, more := rest[..n], rest[1..][..n - 1];
      assert block == [rest[0]] + more;
      assert HasFilter(block) <==> rest[0].property.Filter? || HasFilter(more) by {
        if HasFilter(more) {
          var k :| 0 <= k < |more| && more[k].property.Filter?;
          assert block[k + 1].property.Filter?;
        }
      }
      assert HasIndexCond(block) <==> rest[0].property == IndexCond || HasIndexCond(more) by {
        if HasIndexCond(more) {
          var k :| 0 <= k < |more| && more[k].property == IndexCond;
          assert block[k + 1].property == IndexCond;
        }
      }
    }
  }

  /** What the flags still decide once `lines` have been read. */
  lemma {:induction false} DecidesMeaning(f: Flags, lines: seq<Line>)
    ensures Decides(Read(f, lines)) <==>
            f.hasSeq || f.fullIndex || HasFullScan(lines) ||
            (f.inIndex && WalksWhole(f.nodeIndent, f.indexFilter, f.indexCond, lines))
    decreases lines
  {
    if lines != [] {
      DecidesMeaning(Step(f, lines[0]), lines[1..]);
      if f.inIndex && !Ends(f.nodeIndent, lines[0]) {
        WalksWholeCons(f.nodeIndent, f.indexFilter, f.indexCond, lines);
      }
    }
  }

  /** A plan is kept exactly when it scans a relation without an index condition. */
  lemma KeepsExactlyFullScans(lines: seq<Line>)
    ensures KeepsPlan(lines) <==> HasFullScan(lines)
  {
    DecidesMeaning(START, lines);
  }

  // ---- every finding is in a kept plan ----

  /** A scan the analyzer could report: it filters and no Index Cond limits it. */
  predicate Reportable(scan: Scan) {
    scan.filter != "" && !scan.indexCond
  }

  lemma {:induction false} ReportableWalks(scan: Scan, lines: seq<Line>)
    requires Placed(true, lines) && Reportable(ReadBlock(scan, lines))
    ensures WalksWhole(scan.node.indent, scan.filter != "", scan.indexCond, lines)
    decreases lines
  {
    if lines != [] && !Ends(scan.node.indent, lines[0]) {
      var next := Absorb(scan, lines[0]);
      ReportableWalks(next, lines[1..]);
      WalksWholeCons(scan.node.indent, scan.filter != "", scan.indexCond, lines);
      assert lines[1..][..BlockLength(scan.node.indent, lines[1..])] == lines[1..BlockLength(scan.node.indent, lines)];
    }
  }

  /** The streaming decision never drops a plan in which the analyzer would report a scan. */
  lemma {:induction false} ReportableKept(later: bool, lines: seq<Line>)
    requires Placed(later, lines)
    requires exists s :: s in ScansOf(lines) && Reportable(s)
    ensures HasFullScan(lines)
    decreases lines
  {
    var s :| s in ScansOf(lines) && Reportable(s);
    if s in ScansOf(lines[1..]) {
      ReportableKept(later || lines[0].IsScan(), lines[1..]);
    } else if !lines[0].seqScan {
      ReportableWalks(Scan(lines[0], "", false), lines[1..]);
    }
  }
}
