/** Where the entries of a log begin and end. */
module LogSegments {
  import opened Text
  import opened Selection
  import opened PlanLines
  import opened LogEntries

  /** A tag line, or the end of the input: it closes the entry before it. */
  predicate Closes(raw: Raw) {
    raw.Tag? || raw.OtherTag?
  }

  /** The tag at `p` opens an entry that nothing closes before place `q`. */
  predicate OpenFrom(log: seq<Raw>, p: nat, q: nat) {
    p < q <= |log| && log[p].Tag? && forall m :: p < m < q ==> !Closes(log[m])
  }

  function PlanAt(log: seq<Raw>): nat -> bool {
    (m: nat) => m < |log| && log[m].Plan?
  }

  /** `entry` is the tag at `p` and the plan lines between it and place `q`, in order. */
  ghost predicate Segment(log: seq<Raw>, p: nat, q: nat, entry: seq<Line>) {
    && OpenFrom(log, p, q)
    && var at := Select(PlanAt(log), p + 1, q);
       && |entry| == |at| + 1 && entry[0] == log[p].line
       && forall k :: 0 <= k < |at| ==> entry[k + 1] == log[at[k]].line
  }

  lemma SegmentFirst(log: seq<Raw>, p: nat)
    requires p < |log| && log[p].Tag?
    ensures Segment(log, p, p + 1, [log[p].line])
  {
  }

  lemma SegmentNext(log: seq<Raw>, p: nat, q: nat, entry: seq<Line>)
    requires q < |log| && Segment(log, p, q, entry) && !Closes(log[q])
    ensures Segment(log, p, q + 1, entry + if log[q].Plan? then [log[q].line] else [])
  {
    SelectLast(PlanAt(log), p + 1, q);
  }

  /** The entry being read is the segment that is open. */
  lemma {:induction false} OpenIs(log: seq<Raw>, q: nat) returns (p: nat)
    requires q <= |log|
    ensures match Open(log[..q])
            case None => forall r: nat :: !OpenFrom(log, r, q)
            case Some(entry) => Segment(log, p, q, entry)
  {
    p := 0;
    if q > 0 {
      var before, raw := log[..q - 1], log[q - 1];
      assert log[..q] == before + [raw];
      LogAppend(before, raw);
      p := OpenIs(log, q - 1);
      if raw.Tag? {
        p := q - 1;
        SegmentFirst(log, p);
      } else if raw.OtherTag? {
        assert forall r: nat :: OpenFrom(log, r, q) ==> r < q - 1;
      } else {
        match Open(before)
        case None => assert forall r: nat :: OpenFrom(log, r, q) ==> OpenFrom(log, r, q - 1);
        case Some(entry) => SegmentNext(log, p, q - 1, entry);
      }
    }
  }

  /** Place `q` closes an entry. */
  ghost predicate ClosesEntry(log: seq<Raw>, q: nat) {
    q < |log| && Closes(log[q]) && exists p: nat :: OpenFrom(log, p, q)
  }

  ghost function Closers(log: seq<Raw>): nat -> bool {
    (q: nat) => ClosesEntry(log, q)
  }

  ghost predicate SegmentTo(log: seq<Raw>, q: nat, entry: seq<Line>) {
    exists p: nat :: Segment(log, p, q, entry)
  }

  /** `entries` are the segments closed before place `end`, in order. */
  ghost predicate SegmentsAt(log: seq<Raw>, end: nat, entries: seq<seq<Line>>) {
    var at := Select(Closers(log), 0, end);
    |at| == |entries| && forall k :: 0 <= k < |at| ==> SegmentTo(log, at[k], entries[k])
  }

  lemma SegmentsNext(log: seq<Raw>, q: nat, entries: seq<seq<Line>>, p: nat, entry: seq<Line>)
    requires q < |log| && SegmentsAt(log, q, entries) && Closes(log[q]) && Segment(log, p, q, entry)
    ensures SegmentsAt(log, q + 1, entries + [entry])
  {
    assert ClosesEntry(log, q);
    SelectLast(Closers(log), 0, q);
    assert Closers(log)(q) && SegmentTo(log, q, entry);
  }

  lemma SegmentsSame(log: seq<Raw>, q: nat, entries: seq<seq<Line>>)
    requires q < |log| && SegmentsAt(log, q, entries) && !ClosesEntry(log, q)
    ensures SegmentsAt(log, q + 1, entries)
  {
    SelectLast(Closers(log), 0, q);
    assert !Closers(log)(q);
  }

  lemma {:induction false} ClosedUpTo(log: seq<Raw>, q: nat)
    requires q <= |log|
    ensures SegmentsAt(log, q, Closed(log[..q]))
  {
    if q > 0 {
      var before, raw := log[..q - 1], log[q - 1];
      ClosedUpTo(log, q - 1);
      assert log[..q] == before + [raw];
      LogAppend(before, raw);
      var p := OpenIs(log, q - 1);
      if Closes(raw) && Open(before).Some? {
        SegmentsNext(log, q - 1, Closed(before), p, Open(before).value);
      } else {
        SegmentsSame(log, q - 1, Closed(before));
      }
    }
  }

  /**
    The entries of a log: one for each tag that is followed by another or by the end, with the
    plan lines up to there.
   */
  lemma ClosedAre(log: seq<Raw>)
    ensures SegmentsAt(log, |log|, Closed(log))
  {
    ClosedUpTo(log, |log|);
    assert log[..|log|] == log;
  }
}
