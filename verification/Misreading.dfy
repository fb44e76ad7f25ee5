/** Kept plans of which the analyzer reports a scan that the whole plan does not show. */
module Misreading {
  import opened Text
  import opened PlanLines
  import opened KeepDecision
  import opened LogEntries
  import opened Truncation
  import opened Analyzer

  /** Lines that say nothing of a scan. */
  predicate Quiet(lines: seq<Line>) {
    forall l :: l in lines ==> !l.IsScan() && l.property == NoProperty && !IsMark(l)
  }

  /** A Seq Scan without a Filter, and another node, a child, that has one. */
  predicate Neighbours(scan: Line, node: Line, filter: Line) {
    && scan.seqScan && scan.indent >= 0 && !IsMark(scan)
    && !node.IsScan() && node.child && !IsMark(node)
    && !filter.IsScan() && !filter.child && filter.indent > scan.indent && !IsMark(filter)
    && filter.property.Filter? && filter.property.text != ""
  }

  function Plan(tag: Line, first: seq<Line>, scan: Line, node: Line, filter: Line, rest: seq<Line>): seq<Line> {
    [tag] + first + [scan, node] + ([filter] + rest)
  }

  lemma {:induction false} QuietScans(a: seq<Line>, b: seq<Line>)
    requires Quiet(a)
    ensures ScansOf(a + b) == ScansOf(b) && (Placed(false, b) ==> Placed(false, a + b))
    ensures TrackAll(-1, a) == -1
  {
    if a == [] {
      assert a + b == b;
    } else {
      assert a[0] in a && (a + b)[0] == a[0] && (a + b)[1..] == a[1..] + b;
      QuietScans(a[1..], b);
    }
  }

  lemma {:induction false} QuietPlaced(later: bool, a: seq<Line>)
    requires Quiet(a)
    ensures Placed(later, a) && ScansOf(a) == []
  {
    if a != [] {
      assert a[0] in a;
      QuietPlaced(later, a[1..]);
    }
  }

  lemma {:induction false} QuietBlock(scan: Scan, lines: seq<Line>)
    requires Quiet(lines)
    ensures ReadBlock(scan, lines) == scan
    decreases lines
  {
    if lines != [] {
      assert lines[0] in lines;
      QuietBlock(scan, lines[1..]);
    }
  }

  /** The whole plan shows the scan without a filter. */
  lemma WholeScans(scan: Line, node: Line, filter: Line, rest: seq<Line>)
    requires Neighbours(scan, node, filter) && Quiet(rest)
    ensures ScansOf([scan, node] + ([filter] + rest)) == [Scan(scan, "", false)]
    ensures Placed(false, [scan, node] + ([filter] + rest))
  {
    var all := [scan, node] + ([filter] + rest);
    var after := [node] + ([filter] + rest);
    assert all[0] == scan && all[1..] == after && after[0] == node && after[1..] == [filter] + rest;
    var last := [filter] + rest;
    assert last[0] == filter && last[1..] == rest;
    QuietPlaced(true, rest);
    assert ScansOf(after) == ScansOf(last) == ScansOf(rest) == [];
    assert ReadBlock(Scan(scan, "", false), after) == Scan(scan, "", false);
    assert Placed(true, after) && Placed(true, last);
  }

  /** Without the line between them, the filter reads as the scan's. */
  lemma CutScans(scan: Line, node: Line, filter: Line, rest: seq<Line>)
    requires Neighbours(scan, node, filter) && Quiet(rest)
    ensures ScansOf([scan] + ([filter] + rest)) == [Scan(scan, filter.property.text, false)]
    ensures Kept(-1, [scan, node]) == [scan]
  {
    var all := [scan] + ([filter] + rest);
    assert all[0] == scan && all[1..] == [filter] + rest;
    assert ([filter] + rest)[0] == filter && ([filter] + rest)[1..] == rest;
    QuietPlaced(true, rest);
    QuietBlock(Scan(scan, filter.property.text, false), rest);
    assert ReadBlock(Scan(scan, "", false), [filter] + rest) == ReadBlock(Absorb(Scan(scan, "", false), filter), rest);
    assert ScansOf([filter] + rest) == ScansOf(rest) == [];
    var both, second := [scan, node], [node];
    assert both[1..] == second && second[1..] == [];
    assert Kept(scan.indent, second) == [] + Kept(-1, []);
    assert Kept(-1, both) == [scan] + Kept(scan.indent, second);
  }

  lemma ShortPlan(tag: Line, first: seq<Line>, scan: Line, node: Line, filter: Line, rest: seq<Line>)
    ensures var entry, head, tail := Plan(tag, first, scan, node, filter, rest), |first| + 1, |rest| + 1;
            && |entry| == head + tail + 2
            && Shortened(entry, head, tail) == Around([tag] + first, Mark(2), [scan, node], [filter] + rest)
  {
    var entry, head := Plan(tag, first, scan, node, filter, rest), |first| + 1;
    assert entry[..head] == [tag] + first && entry[head..head + 2] == [scan, node] &&
           entry[head + 2..] == [filter] + rest;
  }

  lemma ShortBody(tag: Line, first: seq<Line>, scan: Line, node: Line, filter: Line, rest: seq<Line>)
    requires !tag.IsScan() && Quiet(first) && Quiet(rest) && Neighbours(scan, node, filter)
    ensures var short := Around([tag] + first, Mark(2), [scan, node], [filter] + rest);
            && short[0] == tag
            && Unmarked(Body(short)) == first + ([scan] + ([filter] + rest))
  {
    var middle, last := [scan, node], [filter] + rest;
    AroundBody([tag] + first, Mark(2), middle, last);
    assert Body([tag] + first) == first;
    QuietScans(first, []);
    CutScans(scan, node, filter, rest);
    assert [scan] + last == [scan] + ([filter] + rest);
    assert Clean(first) && Clean([scan] + last);
    MarkIsMark(2);
    UnmarkedAround(first, Mark(2), [scan] + last);
  }

  lemma MarkIsMark(n: nat)
    ensures IsMark(Mark(n))
  {
  }

  lemma JudgedOne(reader: Reader, op: string, query: string, scan: Scan)
    ensures Judged(reader, op, query, [scan]) ==
            match reader.judge(op, query, scan) case None => [] case Some(finding) => [finding]
  {
    assert [scan][1..] == [];
  }

  lemma PlanBody(tag: Line, first: seq<Line>, scan: Line, node: Line, filter: Line, rest: seq<Line>)
    ensures Body(Plan(tag, first, scan, node, filter, rest)) == first + ([scan, node] + ([filter] + rest))
  {
  }

  lemma PlanKept(tag: Line, first: seq<Line>, scan: Line, node: Line, filter: Line, rest: seq<Line>)
    requires !tag.IsScan() && Quiet(first) && Quiet(rest) && Neighbours(scan, node, filter)
    ensures var entry := Plan(tag, first, scan, node, filter, rest);
            && Printed(entry) && KeepsPlan(Body(entry)) && ScansOf(Body(entry)) == [Scan(scan, "", false)]
  {
    var tailing := [scan, node] + ([filter] + rest);
    PlanBody(tag, first, scan, node, filter, rest);
    WholeScans(scan, node, filter, rest);
    QuietScans(first, tailing);
    var body := first + tailing;
    assert body[|first|] == scan;
    KeepsExactlyFullScans(body);
    assert Clean(body);
  }

  /**
    For every size of head and tail, as long as the head holds the statement: a plan that is kept,
    and of which there is nothing to report, but which is reported once it is cut. Its scan is the
    last line kept of what is cut, and the tail starts with the Filter of a node that is not.
   */
  lemma StrayMisreads(
    reader: Reader, tag: Line, first: seq<Line>, scan: Line, node: Line, filter: Line, rest: seq<Line>,
    head: nat, tail: nat)
    requires Sound(reader) && reader.holder(tag).Some? && !tag.IsScan()
    requires Quiet(first) && Quiet(rest) && Neighbours(scan, node, filter)
    requires head == |first| + 1 && tail == |rest| + 1 && Statement([tag] + first) != ""
    requires var op, query := reader.holder(tag).value, Statement([tag] + first);
             reader.judge(op, query, Scan(scan, filter.property.text, false)).Some?
    ensures var entry := Plan(tag, first, scan, node, filter, rest);
            && Printed(entry) && KeepsPlan(Body(entry)) && |entry| > head + tail
            && FindingsOf(reader, entry) == []
            && FindingsOf(reader, Shortened(entry, head, tail)) != []
  {
    var entry := Plan(tag, first, scan, node, filter, rest);
    var op, query := reader.holder(tag).value, Statement([tag] + first);
    PlanKept(tag, first, scan, node, filter, rest);
    CleanUnmarked(Body(entry));
    JudgedOne(reader, op, Statement(entry), Scan(scan, "", false));
    ShortPlan(tag, first, scan, node, filter, rest);
    ShortBody(tag, first, scan, node, filter, rest);
    ShortFindings(reader, tag, first, scan, node, filter, rest);
  }

  lemma ShortFindings(
    reader: Reader, tag: Line, first: seq<Line>, scan: Line, node: Line, filter: Line, rest: seq<Line>)
    requires reader.holder(tag).Some? && !tag.IsScan() && Statement([tag] + first) != ""
    requires Quiet(first) && Quiet(rest) && Neighbours(scan, node, filter)
    requires var op, query := reader.holder(tag).value, Statement([tag] + first);
             reader.judge(op, query, Scan(scan, filter.property.text, false)).Some?
    ensures FindingsOf(reader, Around([tag] + first, Mark(2), [scan, node], [filter] + rest)) != []
  {
    var kept := Kept(TrackAll(-1, [tag] + first), [scan, node]);
    var short := Around([tag] + first, Mark(2), [scan, node], [filter] + rest);
    ShortBody(tag, first, scan, node, filter, rest);
    StatementEarly([tag] + first, [Mark(2)] + (kept + ([filter] + rest)));
    QuietScans(first, [scan] + ([filter] + rest));
    CutScans(scan, node, filter, rest);
    JudgedOne(reader, reader.holder(tag).value, Statement(short), Scan(scan, filter.property.text, false));
  }
}
