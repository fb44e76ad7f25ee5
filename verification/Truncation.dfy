/**
  Cutting the middle of a plan does not change what the analyzer reads from it, and exactly
  when it could.
 */
module Truncation {
  import opened Text
  import opened PlanLines

  /** What remains of `head + middle + tail` once the middle is cut. */
  function Cut(head: seq<Line>, middle: seq<Line>, tail: seq<Line>): seq<Line> {
    head + Kept(TrackAll(-1, head), middle) + tail
  }

  /**
    The scan block still open at the end of what is kept before the tail; -1 when none is. The
    whole plan may have closed that block with a line that was cut.
   */
  function OpenInCut(head: seq<Line>, middle: seq<Line>): int {
    TrackAll(-1, head + Kept(TrackAll(-1, head), middle))
  }

  /** Whether the rest of a block at `indent`, starting with `lines`, holds a property. */
  predicate HasProperty(indent: int, lines: seq<Line>) {
    lines != [] && !Ends(indent, lines[0]) && (lines[0].property != NoProperty || HasProperty(indent, lines[1..]))
  }

  /**
    The tail starts inside a node whose own line was cut: a scan is open in what is kept that
    the whole plan had closed, and the tail's first lines are properties of the lost node.
   */
  predicate Stray(head: seq<Line>, middle: seq<Line>, tail: seq<Line>) {
    && OpenInCut(head, middle) != TrackAll(-1, head + middle)
    && HasProperty(OpenInCut(head, middle), tail)
  }

  // ---- the last scan of a prefix is the only one a suffix can reach ----

  predicate StaysOpen(indent: int, lines: seq<Line>) {
    lines == [] || (!Ends(indent, lines[0]) && StaysOpen(indent, lines[1..]))
  }

  lemma {:induction false} ReadBlockAppend(scan: Scan, a: seq<Line>, b: seq<Line>)
    ensures ReadBlock(scan, a + b) ==
            if StaysOpen(scan.node.indent, a) then ReadBlock(ReadBlock(scan, a), b) else ReadBlock(scan, a)
    decreases a
  {
    if a == [] {
      assert a + b == b;
    } else if !Ends(scan.node.indent, a[0]) {
      assert (a + b)[1..] == a[1..] + b;
      ReadBlockAppend(Absorb(scan, a[0]), a[1..], b);
    }
  }

  lemma {:induction false} TrackOpen(indent: int, lines: seq<Line>)
    requires indent >= 0 && Placed(true, lines) && ScansOf(lines) == []
    ensures TrackAll(indent, lines) == if StaysOpen(indent, lines) then indent else -1
    decreases lines
  {
    if lines != [] {
      if Ends(indent, lines[0]) {
        TrackClosed(lines[1..]);
      } else {
        TrackOpen(indent, lines[1..]);
      }
    }
  }

  lemma {:induction false} TrackClosed(lines: seq<Line>)
    requires ScansOf(lines) == []
    ensures TrackAll(-1, lines) == -1
  {
    if lines != [] {
      TrackClosed(lines[1..]);
    }
  }

  lemma {:induction false} TrackForgets(a: int, b: int, lines: seq<Line>)
    requires ScansOf(lines) != []
    ensures TrackAll(a, lines) == TrackAll(b, lines)
    decreases lines
  {
    if !lines[0].IsScan() {
      TrackForgets(Track(a, lines[0]), Track(b, lines[0]), lines[1..]);
    }
  }

  lemma {:induction false} ScanStops(indent: int, lines: seq<Line>)
    requires Placed(true, lines) && ScansOf(lines) != []
    ensures !StaysOpen(indent, lines)
  {
    if !lines[0].IsScan() {
      ScanStops(indent, lines[1..]);
    }
  }

  /** `scans` after its last one, still open at `open`, has read on into `tail`. */
  function ReadOn(scans: seq<Scan>, open: int, tail: seq<Line>): seq<Scan> {
    if open < 0 || scans == [] then scans
    else scans[..|scans| - 1] + [ReadBlock(scans[|scans| - 1], tail)]
  }

  lemma {:induction false} ScansAppend(later: bool, a: seq<Line>, tail: seq<Line>)
    requires Placed(later, a)
    ensures ScansOf(a + tail) == ReadOn(ScansOf(a), TrackAll(-1, a), tail) + ScansOf(tail)
    decreases a
  {
    if a == [] {
      assert a + tail == tail;
    } else {
      assert (a + tail)[0] == a[0] && (a + tail)[1..] == a[1..] + tail;
      ScansAppend(later || a[0].IsScan(), a[1..], tail);
      if a[0].IsScan() {
        FirstReads(a[0], a[1..], tail);
      }
    }
  }

  /** A first scan reads on into the tail when it is the open one; otherwise a later one does. */
  lemma FirstReads(node: Line, rest: seq<Line>, tail: seq<Line>)
    requires node.IsScan() && node.indent >= 0 && Placed(true, rest)
    ensures var scan := Scan(node, "", false);
            [ReadBlock(scan, rest + tail)] + ReadOn(ScansOf(rest), TrackAll(-1, rest), tail) ==
            ReadOn([ReadBlock(scan, rest)] + ScansOf(rest), TrackAll(node.indent, rest), tail)
  {
    ReadBlockAppend(Scan(node, "", false), rest, tail);
    if ScansOf(rest) == [] {
      TrackOpen(node.indent, rest);
    } else {
      ScanStops(node.indent, rest);
      TrackForgets(-1, node.indent, rest);
    }
  }

  // ---- cutting loses no scan and no property of one ----

  lemma {:induction false} KeptStartsWithScan(lines: seq<Line>)
    ensures Kept(-1, lines) == [] || Kept(-1, lines)[0].IsScan()
    ensures Kept(-1, lines) != [] && Placed(true, lines) ==> Kept(-1, lines)[0].child
  {
    if lines != [] && !lines[0].IsScan() {
      KeptStartsWithScan(lines[1..]);
    }
  }

  lemma {:induction false} KeptBlock(scan: Scan, lines: seq<Line>)
    requires scan.node.indent >= 0 && Placed(true, lines)
    ensures ReadBlock(scan, Kept(scan.node.indent, lines)) == ReadBlock(scan, lines)
    decreases lines
  {
    if lines != [] {
      if Ends(scan.node.indent, lines[0]) {
        KeptStartsWithScan(lines[1..]);
      } else {
        KeptBlock(Absorb(scan, lines[0]), lines[1..]);
        assert Absorb(scan, lines[0]).node == scan.node;
        if lines[0].property == NoProperty {
          assert Kept(scan.node.indent, lines) == Kept(scan.node.indent, lines[1..]);
        } else {
          assert Kept(scan.node.indent, lines) == [lines[0]] + Kept(scan.node.indent, lines[1..]);
          assert Kept(scan.node.indent, lines)[1..] == Kept(scan.node.indent, lines[1..]);
        }
      }
    }
  }

  lemma {:induction false} KeptScans(indent: int, lines: seq<Line>, later: bool)
    requires Placed(later, lines)
    ensures ScansOf(Kept(indent, lines)) == ScansOf(lines)
    decreases lines
  {
    if lines != [] {
      var next := Kept(Track(indent, lines[0]), lines[1..]);
      KeptScans(Track(indent, lines[0]), lines[1..], later || lines[0].IsScan());
      if Keeps(indent, lines[0]) {
        assert Kept(indent, lines) == [lines[0]] + next;
        assert Kept(indent, lines)[1..] == next;
      } else {
        assert Kept(indent, lines) == next;
      }
      if lines[0].IsScan() {
        KeptBlock(Scan(lines[0], "", false), lines[1..]);
      }
    }
  }

  lemma {:induction false} HeadBlock(scan: Scan, head: seq<Line>, middle: seq<Line>)
    requires scan.node.indent >= 0 && Placed(true, head) && Placed(true, middle)
    ensures ReadBlock(scan, head + Kept(TrackAll(scan.node.indent, head), middle)) == ReadBlock(scan, head + middle)
  {
    var kept := Kept(TrackAll(scan.node.indent, head), middle);
    ReadBlockAppend(scan, head, middle);
    ReadBlockAppend(scan, head, kept);
    if StaysOpen(scan.node.indent, head) {
      if ScansOf(head) != [] {
        ScanStops(scan.node.indent, head);
      }
      TrackOpen(scan.node.indent, head);
      NodeKept(scan, head);
      KeptBlock(ReadBlock(scan, head), middle);
    }
  }

  lemma {:induction false} NodeKept(scan: Scan, lines: seq<Line>)
    ensures ReadBlock(scan, lines).node == scan.node
    decreases lines
  {
    if lines != [] && !Ends(scan.node.indent, lines[0]) {
      NodeKept(Absorb(scan, lines[0]), lines[1..]);
    }
  }

  /** The head and what is kept of the middle show exactly the scans of the two in full. */
  lemma {:induction false} CutScans(indent: int, head: seq<Line>, middle: seq<Line>, later: bool)
    requires Placed(later, head) && Placed(later || ScansOf(head) != [], middle)
    ensures ScansOf(head + Kept(TrackAll(indent, head), middle)) == ScansOf(head + middle)
    decreases head
  {
    var kept := Kept(TrackAll(indent, head), middle);
    if head == [] {
      assert head + middle == middle && head + kept == kept;
      KeptScans(indent, middle, later);
    } else {
      assert (head + middle)[1..] == head[1..] + middle && (head + kept)[1..] == head[1..] + kept;
      CutScans(Track(indent, head[0]), head[1..], middle, later || head[0].IsScan());
      if head[0].IsScan() {
        HeadBlock(Scan(head[0], "", false), head[1..], middle);
      }
    }
  }

  lemma {:induction false} KeptPlaced(indent: int, lines: seq<Line>, later: bool)
    requires Placed(later, lines)
    ensures Placed(later, Kept(indent, lines))
    decreases lines
  {
    if lines != [] {
      var next := Kept(Track(indent, lines[0]), lines[1..]);
      KeptPlaced(Track(indent, lines[0]), lines[1..], later || lines[0].IsScan());
      if Keeps(indent, lines[0]) {
        assert Kept(indent, lines) == [lines[0]] + next;
        assert Kept(indent, lines)[1..] == next;
      } else {
        assert Kept(indent, lines) == next;
      }
    }
  }

  // ---- the theorem, exactly ----

  lemma {:induction false} KeptTrack(indent: int, lines: seq<Line>, open: int, later: bool)
    requires Placed(later, lines) && indent >= -1
    requires indent == open || (indent == -1 && open >= 0)
    ensures var cut, whole := TrackAll(open, Kept(indent, lines)), TrackAll(indent, lines);
            cut == whole || (whole == -1 && cut >= 0)
    decreases lines
  {
    if lines != [] {
      var line, next := lines[0], Track(indent, lines[0]);
      var rest := Kept(next, lines[1..]);
      if Keeps(indent, line) {
        assert Kept(indent, lines) == [line] + rest;
        assert Kept(indent, lines)[1..] == rest;
        KeptTrack(next, lines[1..], next, later || line.IsScan());
      } else {
        assert Kept(indent, lines) == rest;
        KeptTrack(next, lines[1..], open, later);
      }
    }
  }

  lemma {:induction false} TrackRange(indent: int, lines: seq<Line>, later: bool)
    requires Placed(later, lines) && indent >= -1
    ensures TrackAll(indent, lines) >= -1
    decreases lines
  {
    if lines != [] {
      TrackRange(Track(indent, lines[0]), lines[1..], later || lines[0].IsScan());
    }
  }

  /** The cut and the whole plan agree on the block open before the tail, or only the cut has one open. */
  lemma OpenDiffers(head: seq<Line>, middle: seq<Line>)
    requires Placed(false, head + middle)
    ensures OpenInCut(head, middle) == TrackAll(-1, head + middle) ||
            (TrackAll(-1, head + middle) == -1 && OpenInCut(head, middle) >= 0)
  {
    var open := TrackAll(-1, head);
    PlacedAppend(false, head, middle);
    TrackAllAppend(-1, head, middle);
    TrackAllAppend(-1, head, Kept(open, middle));
    TrackRange(-1, head, false);
    KeptTrack(open, middle, open, ScansOf(head) != []);
  }

  /** What the analyzer reads of the whole plan and of the cut one, in terms of the lines before the tail. */
  lemma BothRead(head: seq<Line>, middle: seq<Line>, tail: seq<Line>)
    requires Placed(false, head + middle + tail)
    ensures ScansOf(head + middle + tail) ==
            ReadOn(ScansOf(head + middle), TrackAll(-1, head + middle), tail) + ScansOf(tail)
    ensures ScansOf(Cut(head, middle, tail)) ==
            ReadOn(ScansOf(head + middle), OpenInCut(head, middle), tail) + ScansOf(tail)
  {
    var rest := Kept(TrackAll(-1, head), middle);
    var later := ScansOf(head) != [];
    PlacedAppend(false, head + middle, tail);
    PlacedAppend(false, head, middle);
    KeptPlaced(TrackAll(-1, head), middle, later);
    PlacedAppend(false, head, rest);
    CutScans(-1, head, middle, false);
    ScansAppend(false, head + middle, tail);
    ScansAppend(false, head + rest, tail);
  }

  lemma ReadOnDecides(before: seq<Scan>, whole: int, open: int, tail: seq<Line>, after: seq<Scan>)
    requires open == whole || (whole == -1 && open >= 0)
    ensures ReadOn(before, open, tail) + after == ReadOn(before, whole, tail) + after <==>
            open == whole || before == [] || ReadBlock(before[|before| - 1], tail) == before[|before| - 1]
  {
    if open != whole && before != [] {
      var read := ReadOn(before, open, tail);
      assert (read + after)[|before| - 1] == ReadBlock(before[|before| - 1], tail);
      assert (before + after)[|before| - 1] == before[|before| - 1];
    }
  }

  /**
    Exactly when the analyzer reads the same scans from the cut plan as from the whole one: the
    two agree on the block open before the tail, or the last scan would read nothing new there.
   */
  lemma CutInvisibleIff(head: seq<Line>, middle: seq<Line>, tail: seq<Line>)
    requires Placed(false, head + middle + tail)
    ensures ScansOf(Cut(head, middle, tail)) == ScansOf(head + middle + tail) <==>
            var before := ScansOf(head + middle);
            OpenInCut(head, middle) == TrackAll(-1, head + middle) ||
            before == [] || ReadBlock(before[|before| - 1], tail) == before[|before| - 1]
  {
    BothRead(head, middle, tail);
    PlacedAppend(false, head + middle, tail);
    OpenDiffers(head, middle);
    ReadOnDecides(ScansOf(head + middle), TrackAll(-1, head + middle), OpenInCut(head, middle), tail, ScansOf(tail));
  }

  lemma {:induction false} NothingToRead(scan: Scan, lines: seq<Line>)
    requires !HasProperty(scan.node.indent, lines)
    ensures ReadBlock(scan, lines) == scan
  {
    if lines != [] && !Ends(scan.node.indent, lines[0]) {
      NothingToRead(scan, lines[1..]);
    }
  }

  lemma {:induction false} OpenNode(later: bool, lines: seq<Line>, open: int)
    requires Placed(later, lines) && TrackAll(open, lines) >= 0 && ScansOf(lines) != []
    ensures var scans := ScansOf(lines); scans[|scans| - 1].node.indent == TrackAll(open, lines)
    decreases lines
  {
    var rest := lines[1..];
    if ScansOf(rest) == [] {
      TrackOpen(lines[0].indent, rest);
      NodeKept(Scan(lines[0], "", false), rest);
    } else {
      OpenNode(later || lines[0].IsScan(), rest, Track(open, lines[0]));
    }
  }

  /** Cutting the middle is invisible to the analyzer unless the tail starts inside a lost node. */
  lemma CutInvisible(head: seq<Line>, middle: seq<Line>, tail: seq<Line>)
    requires Placed(false, head + middle + tail) && !Stray(head, middle, tail)
    ensures ScansOf(Cut(head, middle, tail)) == ScansOf(head + middle + tail)
  {
    CutInvisibleIff(head, middle, tail);
    var before := ScansOf(head + middle);
    if OpenInCut(head, middle) != TrackAll(-1, head + middle) && before != [] {
      var rest := Kept(TrackAll(-1, head), middle);
      PlacedAppend(false, head + middle, tail);
      PlacedAppend(false, head, middle);
      KeptPlaced(TrackAll(-1, head), middle, ScansOf(head) != []);
      PlacedAppend(false, head, rest);
      CutScans(-1, head, middle, false);
      OpenDiffers(head, middle);
      OpenNode(false, head + rest, -1);
      NothingToRead(before[|before| - 1], tail);
    }
  }
}
