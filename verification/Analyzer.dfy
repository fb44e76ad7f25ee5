/** The analyzer over the entries of a log, and why filtering the log first changes nothing. */
module Analyzer {
  import opened Text
  import opened PlanLines
  import opened KeepDecision
  import opened LogEntries
  import opened Truncation

  datatype Finding = Finding(op: string, relation: string, filter: string, fk: bool, indexWalk: bool, sample: string)
  {
    /** What makes two findings one: everything but the sample statement. */
    function Key(): (string, string, string, bool, bool) {
      (op, relation, filter, fk, indexWalk)
    }
  }

  /** The parts of the analyzer that read text: the tag's holder, and the judgement of one scan. */
  datatype Reader = Reader(holder: Line -> Option<string>, judge: (string, string, Scan) -> Option<Finding>)

  /** A scan with an Index Cond or no filter is never reported. */
  ghost predicate Sound(reader: Reader) {
    forall op, query, scan :: reader.judge(op, query, scan).Some? ==> Reportable(scan)
  }

  // ---- the statement of an entry ----

  /** The first line with text after a "Query Text:" line that ends there. */
  function FirstText(lines: seq<Line>): string {
    if lines == [] then ""
    else if Trim(lines[0].text) != "" then Trim(lines[0].text)
    else FirstText(lines[1..])
  }

  function Statement(lines: seq<Line>): string {
    if lines == [] then ""
    else match lines[0].statement
      case None => Statement(lines[1..])
      case Some(text) => if text != "" then text else FirstText(lines[1..])
  }

  lemma {:induction false} FirstTextEarly(a: seq<Line>, b: seq<Line>)
    requires FirstText(a) != ""
    ensures FirstText(a + b) == FirstText(a)
  {
    assert (a + b)[0] == a[0] && (a + b)[1..] == a[1..] + b;
    if Trim(a[0].text) == "" {
      FirstTextEarly(a[1..], b);
    }
  }

  lemma {:induction false} StatementEarly(a: seq<Line>, b: seq<Line>)
    requires Statement(a) != ""
    ensures Statement(a + b) == Statement(a)
  {
    assert (a + b)[0] == a[0] && (a + b)[1..] == a[1..] + b;
    match a[0].statement
    case None => StatementEarly(a[1..], b);
    case Some(text) =>
      if text == "" {
        FirstTextEarly(a[1..], b);
      }
  }

  // ---- the findings of an entry ----

  predicate IsMark(line: Line) {
    TRUNCATED_MARK <= line.text
  }

  function Unmarked(lines: seq<Line>): seq<Line> {
    if lines == [] then []
    else (if IsMark(lines[0]) then [] else [lines[0]]) + Unmarked(lines[1..])
  }

  function Judged(reader: Reader, op: string, query: string, scans: seq<Scan>): seq<Finding> {
    if scans == [] then []
    else
      var rest := Judged(reader, op, query, scans[1..]);
      match reader.judge(op, query, scans[0])
      case None => rest
      case Some(finding) => [finding] + rest
  }

  const TRUNCATED_PLAN := "(truncated plan)"
  const ADVICE := "raise TAIL"

  /** What a finding shows of its statement. */
  function Sample(query: string): string {
    if |query| > 200 then query[..200] else query
  }

  function LostScan(op: string, query: string): Finding {
    Finding(op, TRUNCATED_PLAN, ADVICE, false, false, Sample(query))
  }

  /** What the analyzer reports of one entry; a truncated one without any scan left fails closed. */
  function FindingsOf(reader: Reader, entry: seq<Line>): seq<Finding> {
    if entry == [] || reader.holder(entry[0]).None? then []
    else
      var op, query, lines := reader.holder(entry[0]).value, Statement(entry), Unmarked(Body(entry));
      Judged(reader, op, query, ScansOf(lines)) +
      (if |lines| != |Body(entry)| && ScansOf(lines) == [] then [LostScan(op, query)] else [])
  }

  lemma {:induction false} UnmarkedAppend(a: seq<Line>, b: seq<Line>)
    ensures Unmarked(a + b) == Unmarked(a) + Unmarked(b)
  {
    if a == [] {
      assert a + b == b;
    } else {
      assert (a + b)[0] == a[0] && (a + b)[1..] == a[1..] + b;
      UnmarkedAppend(a[1..], b);
    }
  }

  ghost predicate Clean(lines: seq<Line>) {
    forall l :: l in lines ==> !IsMark(l)
  }

  lemma {:induction false} CleanUnmarked(lines: seq<Line>)
    requires Clean(lines)
    ensures Unmarked(lines) == lines
  {
    if lines != [] {
      assert lines[0] in lines;
      CleanUnmarked(lines[1..]);
    }
  }

  lemma {:induction false} KeptWithin(indent: int, lines: seq<Line>)
    ensures forall l :: l in Kept(indent, lines) ==> l in lines
    decreases lines
  {
    if lines != [] {
      KeptWithin(Track(indent, lines[0]), lines[1..]);
    }
  }

  /** A plan as Postgres prints it: one root scan at most, its tag no scan, no line like the cut's mark. */
  ghost predicate Printed(entry: seq<Line>) {
    && entry != []
    && !entry[0].IsScan()
    && Placed(false, Body(entry))
    && Clean(Body(entry))
  }

  /** The statement starts in the head, and the tail does not start inside a node whose own line is cut. */
  predicate CleanCut(first: seq<Line>, middle: seq<Line>, last: seq<Line>) {
    Statement(first) != "" && !Stray(Body(first), middle, last)
  }

  ghost predicate WellFormed(entry: seq<Line>, head: nat, tail: nat) {
    && head > 0
    && Printed(entry)
    && (|entry| > head + tail ==> CleanCut(entry[..head], entry[head..|entry| - tail], entry[|entry| - tail..]))
  }

  /** The mark is not part of the plan, so the analyzer reads the cut plan on both sides of it. */
  lemma UnmarkedAround(before: seq<Line>, mark: Line, after: seq<Line>)
    requires IsMark(mark) && Clean(before) && Clean(after)
    ensures Unmarked(before + ([mark] + after)) == before + after
  {
    UnmarkedAppend(before, [mark] + after);
    MarkUnmarked(mark, after);
    CleanUnmarked(before);
    CleanUnmarked(after);
  }

  lemma MarkUnmarked(mark: Line, after: seq<Line>)
    requires IsMark(mark)
    ensures Unmarked([mark] + after) == Unmarked(after)
  {
    assert ([mark] + after)[1..] == after;
  }

  lemma AroundBody(first: seq<Line>, mark: Line, middle: seq<Line>, last: seq<Line>)
    requires first != [] && !first[0].IsScan()
    ensures Body(Around(first, mark, middle, last)) ==
            Body(first) + ([mark] + (Kept(TrackAll(-1, Body(first)), middle) + last))
  {
    assert first == [first[0]] + Body(first);
  }

  lemma CutStatement(first: seq<Line>, a: seq<Line>, b: seq<Line>)
    requires Statement(first) != ""
    ensures Statement(first + a) == Statement(first + b)
  {
    StatementEarly(first, a);
    StatementEarly(first, b);
  }

  lemma UnmarkedCut(body: seq<Line>, mark: Line, middle: seq<Line>, last: seq<Line>)
    requires IsMark(mark) && Clean(body) && Clean(middle) && Clean(last)
    ensures Unmarked(body + ([mark] + (Kept(TrackAll(-1, body), middle) + last))) == Cut(body, middle, last)
  {
    KeptWithin(TrackAll(-1, body), middle);
    UnmarkedBeside(body, mark, Kept(TrackAll(-1, body), middle), last);
  }

  lemma UnmarkedBeside(body: seq<Line>, mark: Line, kept: seq<Line>, last: seq<Line>)
    requires IsMark(mark) && Clean(body) && Clean(kept) && Clean(last)
    ensures Unmarked(body + ([mark] + (kept + last))) == body + kept + last
  {
    var after := kept + last;
    assert Clean(after);
    UnmarkedAround(body, mark, after);
  }

  /** A cut entry shows the analyzer the scans of the whole one. */
  lemma AroundShowsScans(first: seq<Line>, mark: Line, middle: seq<Line>, last: seq<Line>)
    requires first != [] && !first[0].IsScan() && IsMark(mark)
    requires Clean(Body(first) + middle + last)
    requires Placed(false, Body(first) + middle + last) && !Stray(Body(first), middle, last)
    ensures ScansOf(Unmarked(Body(Around(first, mark, middle, last)))) == ScansOf(Body(first) + middle + last)
  {
    AroundBody(first, mark, middle, last);
    UnmarkedCut(Body(first), mark, middle, last);
    CutInvisible(Body(first), middle, last);
  }

  lemma BodyParts(first: seq<Line>, middle: seq<Line>, last: seq<Line>)
    requires first != []
    ensures Body(first + (middle + last)) == Body(first) + middle + last
  {
  }

  /** The analyzer reads the same tag, statement and scans from `short` as from the unmarked `entry`. */
  ghost predicate ShowsAll(entry: seq<Line>, short: seq<Line>) {
    && entry != [] && short != [] && short[0] == entry[0]
    && Statement(short) == Statement(entry)
    && ScansOf(Unmarked(Body(short))) == ScansOf(Body(entry))
  }

  lemma AroundShowsAll(first: seq<Line>, mark: Line, middle: seq<Line>, last: seq<Line>)
    requires first != [] && IsMark(mark) && CleanCut(first, middle, last)
    requires Printed(first + (middle + last))
    ensures ShowsAll(first + (middle + last), Around(first, mark, middle, last))
  {
    BodyParts(first, middle, last);
    AroundShowsScans(first, mark, middle, last);
    CutStatement(first, [mark] + (Kept(TrackAll(-1, first), middle) + last), middle + last);
  }

  lemma EntryParts(entry: seq<Line>, head: nat, out: nat)
    requires head <= out <= |entry|
    ensures entry[..head] + (entry[head..out] + entry[out..]) == entry
  {
  }

  lemma ShortenedShowsAll(entry: seq<Line>, head: nat, tail: nat)
    requires WellFormed(entry, head, tail) && |entry| > head + tail
    ensures ShowsAll(entry, Shortened(entry, head, tail))
  {
    var out := |entry| - tail;
    EntryParts(entry, head, out);
    var first, middle, last := entry[..head], entry[head..out], entry[out..];
    assert Shortened(entry, head, tail) == Around(first, Mark(out - head), middle, last);
    AroundShowsAll(first, Mark(out - head), middle, last);
  }

  lemma {:induction false} JudgedReportable(reader: Reader, op: string, query: string, scans: seq<Scan>)
    requires Sound(reader) && Judged(reader, op, query, scans) != []
    ensures exists s :: s in scans && Reportable(s)
  {
    if reader.judge(op, query, scans[0]).Some? {
      assert scans[0] in scans;
    } else {
      JudgedReportable(reader, op, query, scans[1..]);
    }
  }

  lemma FindingsKept(reader: Reader, entry: seq<Line>)
    requires Sound(reader) && Placed(false, Body(entry)) && Clean(Body(entry))
    requires FindingsOf(reader, entry) != []
    ensures KeepsPlan(Body(entry))
  {
    var op, query := reader.holder(entry[0]).value, Statement(entry);
    CleanUnmarked(Body(entry));
    JudgedReportable(reader, op, query, ScansOf(Body(entry)));
    ReportableKept(false, Body(entry));
    KeepsExactlyFullScans(Body(entry));
  }

  lemma {:induction false} ScanFound(lines: seq<Line>)
    requires HasFullScan(lines)
    ensures ScansOf(lines) != []
  {
    if !lines[0].IsScan() {
      ScanFound(lines[1..]);
    }
  }

  /** Whatever is written of a kept entry, the analyzer reports of it what it reports of the whole entry. */
  lemma WrittenFindings(reader: Reader, entry: seq<Line>, head: nat, tail: nat)
    requires WellFormed(entry, head, tail) && KeepsPlan(Body(entry))
    ensures FindingsOf(reader, Shortened(entry, head, tail)) == FindingsOf(reader, entry)
  {
    if |entry| > head + tail {
      ShortenedShowsAll(entry, head, tail);
      CleanUnmarked(Body(entry));
      KeepsExactlyFullScans(Body(entry));
      ScanFound(Body(entry));
    }
  }

  // ---- the findings of a run ----

  function AllFindings(reader: Reader, entries: seq<seq<Line>>): seq<Finding> {
    if entries == [] then []
    else AllFindings(reader, entries[..|entries| - 1]) + FindingsOf(reader, entries[|entries| - 1])
  }

  ghost predicate Seen(findings: seq<Finding>, f: Finding) {
    exists g :: g in findings && g.Key() == f.Key()
  }

  /** The first finding of each key, in order. */
  ghost function Distinct(findings: seq<Finding>): seq<Finding> {
    if findings == [] then []
    else
      var before, last := Distinct(findings[..|findings| - 1]), findings[|findings| - 1];
      if Seen(before, last) then before else before + [last]
  }

  lemma {:induction false} DistinctSees(findings: seq<Finding>, f: Finding)
    ensures Seen(Distinct(findings), f) <==> Seen(findings, f)
  {
    if findings != [] {
      var before, last := findings[..|findings| - 1], findings[|findings| - 1];
      DistinctSees(before, f);
      DistinctSees(before, last);
      assert findings == before + [last];
    }
  }

  lemma {:induction false} DistinctAppend(a: seq<Finding>, b: seq<Finding>, more: seq<Finding>)
    requires Distinct(a) == Distinct(b)
    ensures Distinct(a + more) == Distinct(b + more)
  {
    if more == [] {
      assert a + more == a && b + more == b;
    } else {
      var before, last := more[..|more| - 1], more[|more| - 1];
      DistinctAppend(a, b, before);
      assert (a + more)[..|a + more| - 1] == a + before && (b + more)[..|b + more| - 1] == b + before;
    }
  }

  lemma {:induction false} DistinctRepeats(a: seq<Finding>, more: seq<Finding>)
    requires forall f :: f in more ==> f in a
    ensures Distinct(a + more) == Distinct(a)
  {
    if more == [] {
      assert a + more == a;
    } else {
      var before, last := more[..|more| - 1], more[|more| - 1];
      DistinctRepeats(a, before);
      assert (a + more)[..|a + more| - 1] == a + before;
      DistinctSees(a, last);
      assert last in more && last in a;
      assert Seen(a, last);
    }
  }

  lemma {:induction false} AllFindingsHas(reader: Reader, entries: seq<seq<Line>>, entry: seq<Line>)
    requires entry in entries
    ensures forall f :: f in FindingsOf(reader, entry) ==> f in AllFindings(reader, entries)
  {
    var before, last := entries[..|entries| - 1], entries[|entries| - 1];
    if entry != last {
      assert entry in before;
      AllFindingsHas(reader, before, entry);
    }
  }

  /**
    The gate sees everything: over every log of well-formed entries, the distinct findings of the
    filtered log are those of the whole log, with the same samples and in the same order.
   */
  lemma {:induction false} FilteringIsInvisible(reader: Reader, entries: seq<seq<Line>>, head: nat, tail: nat)
    requires Sound(reader)
    requires forall e :: e in entries ==> WellFormed(e, head, tail)
    ensures Distinct(AllFindings(reader, Emitted(entries, head, tail))) == Distinct(AllFindings(reader, entries))
  {
    if entries != [] {
      var before, last := entries[..|entries| - 1], entries[|entries| - 1];
      FilteringIsInvisible(reader, before, head, tail);
      var written, all := Emitted(before, head, tail), AllFindings(reader, before);
      var short := Shortened(last, head, tail);
      assert last in entries;
      if !KeepsPlan(Body(last)) {
        if FindingsOf(reader, last) != [] {
          FindingsKept(reader, last);
        }
        assert all + [] == all;
      } else {
        WrittenFindings(reader, last, head, tail);
        DistinctAppend(AllFindings(reader, written), all, FindingsOf(reader, last));
        if short in written {
          AllFindingsHas(reader, written, short);
          DistinctRepeats(AllFindings(reader, written), FindingsOf(reader, last));
        } else {
          assert (written + [short])[..|written|] == written;
        }
      }
    }
  }
}
