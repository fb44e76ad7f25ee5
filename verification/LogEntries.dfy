/** The server log as entries, and what the stream filter writes for each. */
module LogEntries {
  import opened Text
  import opened PlanLines
  import opened PlanBlocks
  import opened KeepDecision
  import opened Truncation

  /** A log line as the filter reads it: costs and durations already removed. */
  datatype Raw =
    | Tag(line: Line)   // opens the entry of a Database Adapter transaction
    | OtherTag          // any other "@@" line, and the end of the input
    | Dropped           // an output list, a buffer count, ...
    | Plan(line: Line)

  /** The entry being read after `log`, tag line first. */
  function Open(log: seq<Raw>): (entry: Option<seq<Line>>)
    ensures entry.Some? ==> entry.value != []
  {
    if log == [] then None
    else match log[|log| - 1]
      case Tag(line) => Some([line])
      case OtherTag => None
      case Dropped => Open(log[..|log| - 1])
      case Plan(line) =>
        match Open(log[..|log| - 1])
        case None => None
        case Some(entry) => Some(entry + [line])
  }

  /** The entries `log` has closed, in order. */
  function Closed(log: seq<Raw>): (entries: seq<seq<Line>>)
  {
    if log == [] then []
    else
      var before, last := log[..|log| - 1], log[|log| - 1];
      if (last.Tag? || last.OtherTag?) && Open(before).Some? then Closed(before) + [Open(before).value]
      else Closed(before)
  }

  lemma LogAppend(log: seq<Raw>, raw: Raw)
    ensures Open(log + [raw]) ==
            match raw
            case Tag(line) => Some([line])
            case OtherTag => None
            case Dropped => Open(log)
            case Plan(line) => if Open(log).Some? then Some(Open(log).value + [line]) else None
    ensures Closed(log + [raw]) ==
            if (raw.Tag? || raw.OtherTag?) && Open(log).Some? then Closed(log) + [Open(log).value] else Closed(log)
  {
    assert (log + [raw])[..|log|] == log;
  }

  /** The lines of an entry after its tag. */
  function Body(entry: seq<Line>): seq<Line> {
    if entry == [] then [] else entry[1..]
  }

  const TRUNCATED_MARK := "\t@@TRUNCATED"

  function Mark(dropped: nat): Line {
    Line(TRUNCATED_MARK + " " + Decimal(dropped) + " lines dropped", 1, false, false, false, NoProperty, None)
  }

  /** How many lines of an entry of `count` lines leave the kept tail. */
  function Evicted(count: nat, head: nat, tail: nat): nat {
    if count > head + tail then count - head - tail else 0
  }

  /** `mark` in the place of the lines cut from between `first` and `last`. */
  function Around(first: seq<Line>, mark: Line, middle: seq<Line>, last: seq<Line>): seq<Line> {
    first + ([mark] + (Kept(TrackAll(-1, first), middle) + last))
  }

  /** The entry as written: whole when it fits, otherwise marked and with its middle cut. */
  function Shortened(entry: seq<Line>, head: nat, tail: nat): seq<Line> {
    var dropped := Evicted(|entry|, head, tail);
    if dropped == 0 then entry
    else Around(entry[..head], Mark(dropped), entry[head..head + dropped], entry[head + dropped..])
  }

  /**
    What is written of an entry that does not fit: its first lines, the mark with the number of
    lines cut, of those the wanted ones in order, and its last lines.
   */
  lemma CutEntry(entry: seq<Line>, head: nat, tail: nat) returns (kept: seq<Line>)
    requires |entry| > head + tail && NoBlankScan(entry)
    ensures var out := |entry| - tail;
            && Shortened(entry, head, tail) == entry[..head] + ([Mark(out - head)] + (kept + entry[out..]))
            && Mark(out - head).text == "\t@@TRUNCATED" + " " + Decimal(out - head) + " lines dropped"
            && WantedAt(entry[..out], head, kept)
  {
    var out := |entry| - tail;
    var lines := entry[..out];
    assert lines[..head] == entry[..head] && lines[head..] == entry[head..out];
    assert forall l :: l in lines ==> l in entry;
    kept := KeptFrom(lines, head);
    KeptAre(lines, head);
  }

  function AddNew(entries: seq<seq<Line>>, entry: seq<Line>): seq<seq<Line>> {
    if entry in entries then entries else entries + [entry]
  }

  /** What the filter writes for `entries`: each kept one, shortened, unless it was written before. */
  function Emitted(entries: seq<seq<Line>>, head: nat, tail: nat): seq<seq<Line>> {
    if entries == [] then []
    else EmitNext(Emitted(entries[..|entries| - 1], head, tail), entries[|entries| - 1], head, tail)
  }

  function EmitNext(written: seq<seq<Line>>, entry: seq<Line>, head: nat, tail: nat): seq<seq<Line>> {
    if KeepsPlan(Body(entry)) then AddNew(written, Shortened(entry, head, tail)) else written
  }

  /** Entry `i` is kept, and is the first kept one of its form. */
  ghost predicate FirstOfForm(entries: seq<seq<Line>>, i: nat, form: seq<Line>, head: nat, tail: nat) {
    && i < |entries| && KeepsPlan(Body(entries[i])) && Shortened(entries[i], head, tail) == form
    && forall j :: 0 <= j < i && KeepsPlan(Body(entries[j])) ==> Shortened(entries[j], head, tail) != form
  }

  ghost predicate FirstsInOrder(entries: seq<seq<Line>>, at: seq<nat>, written: seq<seq<Line>>, head: nat, tail: nat) {
    && |at| == |written|
    && (forall k :: 0 <= k < |at| ==> FirstOfForm(entries, at[k], written[k], head, tail))
    && (forall k, m :: 0 <= k < m < |at| ==> at[k] < at[m])
  }

  ghost predicate AllWritten(entries: seq<seq<Line>>, written: seq<seq<Line>>, head: nat, tail: nat) {
    forall j :: 0 <= j < |entries| && KeepsPlan(Body(entries[j])) ==> Shortened(entries[j], head, tail) in written
  }

  /** The written entries are the forms of the kept ones, each once, in the order of their first occurrence. */
  lemma {:induction false} EmittedFirsts(entries: seq<seq<Line>>, head: nat, tail: nat) returns (at: seq<nat>)
    ensures FirstsInOrder(entries, at, Emitted(entries, head, tail), head, tail)
    ensures AllWritten(entries, Emitted(entries, head, tail), head, tail)
  {
    at := [];
    if entries != [] {
      var n := |entries| - 1;
      var before, entry := entries[..n], entries[n];
      at := EmittedFirsts(before, head, tail);
      var written := Emitted(before, head, tail);
      assert entries == before + [entry];
      var form := Shortened(entry, head, tail);
      if KeepsPlan(Body(entry)) && form !in written {
        forall k | 0 <= k < |at| ensures at[k] < n {
          assert FirstOfForm(before, at[k], written[k], head, tail);
        }
        at := at + [n];
      }
      forall j | 0 <= j < |entries| && KeepsPlan(Body(entries[j]))
        ensures Shortened(entries[j], head, tail) in Emitted(entries, head, tail)
      {
        assert j < n ==> entries[j] == before[j];
      }
    }
  }

  /** So no two written entries are the same. */
  lemma EmittedDistinct(entries: seq<seq<Line>>, head: nat, tail: nat)
    ensures var written := Emitted(entries, head, tail);
            forall k, m :: 0 <= k < m < |written| ==> written[k] != written[m]
  {
    var at := EmittedFirsts(entries, head, tail);
    var written := Emitted(entries, head, tail);
    forall k, m | 0 <= k < m < |written| ensures written[k] != written[m] {
      assert FirstOfForm(entries, at[k], written[k], head, tail) && FirstOfForm(entries, at[m], written[m], head, tail);
    }
  }
}
