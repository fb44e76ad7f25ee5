/** The plan lines that the stream filter keeps and the analyzer reads. */
module PlanLines {
  import opened Text

  /** What a line says about the scan node above it. */
  datatype Property = NoProperty | Filter(text: string) | IndexCond

  /**
    One line of a plan, with the answers of the patterns both programs match against it.
    `indent` is -1 for a blank line; `statement` is the trimmed text after "Query Text:". A line
    is its text, so equal texts mean equal lines.
   */
  datatype Line = Line(
    text: string,
    indent: int,
    child: bool,
    seqScan: bool,
    indexScan: bool,
    property: Property,
    statement: Option<string>)
  {
    predicate IsScan() {
      seqScan || indexScan
    }
  }

  /** A line that closes the block of a node printed at `indent`. */
  predicate Ends(indent: int, line: Line) {
    line.indent <= indent || line.child
  }

  // ---- what the analyzer reads ----

  /** A scan node with the last Filter of its block and whether the block has an Index Cond. */
  datatype Scan = Scan(node: Line, filter: string, indexCond: bool)

  function Absorb(scan: Scan, line: Line): Scan {
    match line.property
    case NoProperty => scan
    case Filter(text) => scan.(filter := text)
    case IndexCond => scan.(indexCond := true)
  }

  /** The scan after the analyzer's inner loop walked its block in `lines`. */
  function ReadBlock(scan: Scan, lines: seq<Line>): Scan
    decreases lines
  {
    if lines == [] || Ends(scan.node.indent, lines[0]) then scan
    else ReadBlock(Absorb(scan, lines[0]), lines[1..])
  }

  /** Every scan of a plan, in order, before the analyzer judges it. */
  function ScansOf(lines: seq<Line>): seq<Scan> {
    if lines == [] then []
    else if lines[0].IsScan() then [ReadBlock(Scan(lines[0], "", false), lines[1..])] + ScansOf(lines[1..])
    else ScansOf(lines[1..])
  }

  /**
    Only the first scan of a plan can be its root: a scan that follows another (`later`) is
    printed as a child. No scan is a blank line.
   */
  predicate Placed(later: bool, lines: seq<Line>)
    decreases lines
  {
    lines == [] ||
    (&& (lines[0].IsScan() ==> lines[0].indent >= 0 && (later ==> lines[0].child))
     && Placed(later || lines[0].IsScan(), lines[1..]))
  }

  lemma {:induction false} PlacedAppend(later: bool, a: seq<Line>, b: seq<Line>)
    ensures Placed(later, a + b) <==> Placed(later, a) && Placed(later || ScansOf(a) != [], b)
    decreases a
  {
    if a == [] {
      assert a + b == b;
    } else {
      assert (a + b)[0] == a[0] && (a + b)[1..] == a[1..] + b;
      PlacedAppend(later || a[0].IsScan(), a[1..], b);
    }
  }

  // ---- what the stream filter keeps of a cut segment ----

  /** The indent of the scan block being followed after `line`; -1 when none is. */
  function Track(indent: int, line: Line): int {
    if line.IsScan() then line.indent
    else if indent < 0 then indent
    else if Ends(indent, line) then -1
    else indent
  }

  /** Whether `line` is a scan, or a property of the scan being followed. */
  predicate Keeps(indent: int, line: Line) {
    line.IsScan() || (indent >= 0 && !Ends(indent, line) && line.property != NoProperty)
  }

  function TrackAll(indent: int, lines: seq<Line>): int
    decreases lines
  {
    if lines == [] then indent else TrackAll(Track(indent, lines[0]), lines[1..])
  }

  function Kept(indent: int, lines: seq<Line>): seq<Line>
    decreases lines
  {
    if lines == [] then []
    else (if Keeps(indent, lines[0]) then [lines[0]] else []) + Kept(Track(indent, lines[0]), lines[1..])
  }

  lemma {:induction false} TrackAllAppend(indent: int, a: seq<Line>, b: seq<Line>)
    ensures TrackAll(indent, a + b) == TrackAll(TrackAll(indent, a), b)
    decreases a
  {
    if a == [] {
      assert a + b == b;
    } else {
      assert (a + b)[1..] == a[1..] + b;
      TrackAllAppend(Track(indent, a[0]), a[1..], b);
    }
  }

  lemma {:induction false} KeptAppend(indent: int, a: seq<Line>, b: seq<Line>)
    ensures Kept(indent, a + b) == Kept(indent, a) + Kept(TrackAll(indent, a), b)
    decreases a
  {
    if a == [] {
      assert a + b == b;
    } else {
      assert (a + b)[1..] == a[1..] + b;
      KeptAppend(Track(indent, a[0]), a[1..], b);
    }
  }
}
