/** The stream filter of the query index gate: one pass, bounded memory per entry. */
module SeqScanFilters {
  import opened PlanLines
  import opened KeepDecision
  import opened LogEntries
  import opened Rings
  import M = FilterState

  class SeqScanFilter {
    const headMax: nat
    const tailMax: nat
    var seen: set<seq<Line>>
    var emitted: seq<seq<Line>>
    var keep: bool
    var head: seq<Line>
    var tail: seq<Line>
    var middle: seq<Line>
    var middleScanIndent: int
    var count: nat
    var hasSeq: bool
    var fullIndex: bool
    var inIndex: bool
    var nodeIndent: int
    var indexCond: bool
    var indexFilter: bool

    ghost function FlagsNow(): Flags
      reads this`hasSeq, this`fullIndex, this`inIndex, this`nodeIndent, this`indexCond, this`indexFilter
    {
      Flags(hasSeq, fullIndex, inIndex, nodeIndent, indexCond, indexFilter)
    }

    ghost function WindowNow(): M.Window
      reads this`head, this`tail, this`middle, this`middleScanIndent, this`count
    {
      M.Window(head, tail, middle, middleScanIndent, count)
    }

    ghost function State(): M.State
      reads this
    {
      M.State(seen, emitted, keep, WindowNow(), FlagsNow())
    }

    ghost predicate Valid()
      reads this`head, this`tail, this`middle, this`middleScanIndent, this`count
    {
      M.Shape(WindowNow(), headMax, tailMax)
    }

    constructor (headMax: nat, tailMax: nat)
      requires headMax > 0 && tailMax > 0
      ensures Valid() && State() == M.FRESH
      ensures this.headMax == headMax && this.tailMax == tailMax
    {
      this.headMax, this.tailMax := headMax, tailMax;
      seen, emitted, keep := {}, [], false;
      head, tail, middle, middleScanIndent, count := [], [], [], -1, 0;
      hasSeq, fullIndex, inIndex, nodeIndent, indexCond, indexFilter := false, false, false, 0, false, false;
    }

    /** Follow the scan block `line` belongs to; true for a scan or a property of the current one. */
    method TrackScanBlock(line: Line) returns (keeps: bool)
      modifies this`middleScanIndent
      ensures keeps == Keeps(old(middleScanIndent), line)
      ensures middleScanIndent == Track(old(middleScanIndent), line)
    {
      if line.IsScan() {
        middleScanIndent := line.indent;
        return true;
      }
      if middleScanIndent < 0 {
        return false;
      }
      if line.indent <= middleScanIndent || line.child {
        middleScanIndent := -1;
        return false;
      }
      return line.property != NoProperty;
    }

    /** A line leaves the ring: keep it when the analyzer needs it to judge a scan. */
    method Evict(line: Line)
      modifies this`middleScanIndent, this`middle
      ensures WindowNow() == M.Evict(old(WindowNow()), line)
    {
      var keeps := TrackScanBlock(line);
      if keeps {
        middle := middle + [line];
      }
    }

    method Push(line: Line)
      requires Valid()
      modifies this`head, this`tail, this`middle, this`middleScanIndent, this`count
      ensures Valid() && WindowNow() == M.Push(old(WindowNow()), headMax, tailMax, line)
    {
      if count < headMax {
        head := head + [line];
        var _ := TrackScanBlock(line);
      } else {
        var slot := (count - headMax) % tailMax;
        SlotIsMod(count - headMax, tailMax);
        if count - headMax >= tailMax {
          Evict(tail[slot]);
          tail := tail[slot := line];
        } else {
          tail := tail + [line];
        }
      }
      count := count + 1;
    }

    method OrderedTail() returns (lines: seq<Line>)
      requires Valid()
      ensures lines == Ordered(tail, count - |head|, tailMax)
    {
      if count <= headMax {
        return [];
      }
      var n := count - headMax;
      if n <= tailMax {
        return tail[..n];
      }
      var start := n % tailMax;
      SlotIsMod(n, tailMax);
      return tail[start..] + tail[..start];
    }

    method EndIndexNode()
      modifies this`fullIndex, this`inIndex
      ensures FlagsNow() == KeepDecision.EndIndexNode(old(FlagsNow()))
    {
      if inIndex && !indexCond && indexFilter {
        fullIndex := true;
      }
      inIndex := false;
    }

    /** The entry being read as it is written. */
    method EntryText() returns (entry: seq<Line>)
      requires Valid()
      ensures entry == M.EntryText(WindowNow(), headMax, tailMax)
    {
      var dropped := if count > headMax + tailMax then count - headMax - tailMax else 0;
      var mark := if dropped > 0 then [Mark(dropped)] else [];
      var last := OrderedTail();
      return head + mark + middle + last;
    }

    /** Emit an entry unless an identical one was emitted before. */
    method Emit(entry: seq<Line>)
      modifies this`seen, this`emitted
      ensures State() == M.Emit(old(State()), entry)
    {
      if entry !in seen {
        seen := seen + {entry};
        emitted := emitted + [entry];
      }
    }

    /** Forget the entry being read. */
    method Reset()
      requires headMax > 0 && tailMax > 0
      modifies this`keep, this`head, this`tail, this`middle, this`middleScanIndent, this`count, this`hasSeq,
               this`fullIndex
      ensures Valid() && WindowNow() == M.EMPTY && !keep
      ensures FlagsNow() == old(FlagsNow()).(hasSeq := false, fullIndex := false)
    {
      keep, head, tail, middle, middleScanIndent, count := false, [], [], [], -1, 0;
      hasSeq, fullIndex := false, false;
    }

    /** The entry that is open ends here: it is written if it has a full scan and was not written before. */
    method Flush()
      requires Valid()
      modifies this
      ensures Valid() && State() == M.Flush(old(State()), headMax, tailMax)
    {
      EndIndexNode();
      if keep && (hasSeq || fullIndex) {
        var entry := EntryText();
        Emit(entry);
      }
      Reset();
    }

    /** Feed one line of the log. */
    method Line(raw: Raw)
      requires Valid()
      modifies this
      ensures State() == M.Next(old(State()), headMax, tailMax, raw)
      ensures Valid()
    {
      match raw
      case OtherTag =>
        Flush();
      case Tag(line) =>
        Flush();
        keep := true;
        Push(line);
      case Dropped =>
      case Plan(line) =>
        if keep {
          Push(line);
          ReadFlags(line);
        }
    }

    /** The scan flags after one more line of the entry. */
    method ReadFlags(line: Line)
      modifies this`hasSeq, this`fullIndex, this`inIndex, this`nodeIndent, this`indexCond, this`indexFilter
      ensures FlagsNow() == Step(old(FlagsNow()), line)
    {
      if line.seqScan {
        hasSeq := true;
      }
      if inIndex {
        if line.indent <= nodeIndent || line.child {
          EndIndexNode();
        } else if line.property == IndexCond {
          indexCond := true;
        } else if line.property.Filter? {
          indexFilter := true;
        }
      }
      if line.indexScan {
        inIndex, nodeIndent, indexCond, indexFilter := true, line.indent, false, false;
      }
    }
  }

  /** The whole log, from the first line to the closing flush. */
  method Filter(log: seq<Raw>, headMax: nat, tailMax: nat) returns (emitted: seq<seq<Line>>)
    requires headMax > 0 && tailMax > 0
    ensures emitted == Emitted(Closed(log + [OtherTag]), headMax, tailMax)
  {
    var filter := new SeqScanFilter(headMax, tailMax);
    for i := 0 to |log|
      invariant fresh(filter) && filter.Valid()
      invariant filter.headMax == headMax && filter.tailMax == tailMax
      invariant filter.State() == M.Run(log[..i], headMax, tailMax)
    {
      assert log[..i + 1][..i] == log[..i];
      filter.Line(log[i]);
    }
    assert log[..|log|] == log;
    M.RunReads(log, headMax, tailMax);
    M.FlushReads(M.Run(log, headMax, tailMax), headMax, tailMax, log);
    filter.Flush();
    emitted := filter.emitted;
  }
}
