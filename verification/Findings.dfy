/** Which findings the gate has: every scan that is judged, in order, and the first of each key. */
module Findings {
  import opened Text
  import opened PlanLines
  import opened Selection
  import opened LogEntries
  import opened Truncation
  import opened Analyzer

  // ---- the statement ----

  /** `text` is the first line from `from` on that is not blank, trimmed; empty when there is none. */
  ghost predicate FirstWritten(lines: seq<Line>, from: nat, text: string) {
    || (text == "" && forall j :: from <= j < |lines| ==> Trim(lines[j].text) == "")
    || exists j ::
         && from <= j < |lines| && text == Trim(lines[j].text) != ""
         && forall m :: from <= m < j ==> Trim(lines[m].text) == ""
  }

  lemma {:induction false} FirstTextIs(lines: seq<Line>, from: nat)
    requires from <= |lines|
    ensures FirstWritten(lines, from, FirstText(lines[from..]))
    decreases |lines| - from
  {
    if from < |lines| && Trim(lines[from].text) == "" {
      FirstTextIs(lines, from + 1);
      assert lines[from..][1..] == lines[from + 1..];
    }
  }

  /** Line `i` is the first that says "Query Text:". */
  predicate FirstQuery(lines: seq<Line>, i: nat) {
    i < |lines| && lines[i].statement.Some? && forall m :: 0 <= m < i ==> lines[m].statement.None?
  }

  lemma {:induction false} StatementFrom(lines: seq<Line>, from: nat)
    requires from <= |lines| && forall m :: 0 <= m < from ==> lines[m].statement.None?
    ensures (forall i: nat :: !FirstQuery(lines, i)) ==> Statement(lines[from..]) == ""
    ensures forall i: nat :: FirstQuery(lines, i) ==>
              if lines[i].statement.value != "" then Statement(lines[from..]) == lines[i].statement.value
              else FirstWritten(lines, i + 1, Statement(lines[from..]))
    decreases |lines| - from
  {
    if from < |lines| {
      assert lines[from..][1..] == lines[from + 1..];
      if lines[from].statement.Some? {
        assert FirstQuery(lines, from);
        assert forall i: nat :: FirstQuery(lines, i) ==> i == from;
        FirstTextIs(lines, from + 1);
      } else {
        StatementFrom(lines, from + 1);
      }
    }
  }

  /**
    The statement of an entry is what its first "Query Text:" line says, or, where that says
    nothing, the first written line below.
   */
  lemma StatementIs(lines: seq<Line>)
    ensures (forall i: nat :: !FirstQuery(lines, i)) ==> Statement(lines) == ""
    ensures forall i: nat :: FirstQuery(lines, i) ==>
              if lines[i].statement.value != "" then Statement(lines) == lines[i].statement.value
              else FirstWritten(lines, i + 1, Statement(lines))
  {
    assert lines[0..] == lines;
    StatementFrom(lines, 0);
  }

  // ---- of one entry ----

  function Reported(reader: Reader, op: string, query: string, scans: seq<Scan>): nat -> bool {
    (i: nat) => i < |scans| && reader.judge(op, query, scans[i]).Some?
  }

  /** `found` are what the judged scans from number `from` on are judged to be, in order. */
  ghost predicate JudgedAt(
    reader: Reader, op: string, query: string, scans: seq<Scan>, from: nat, found: seq<Finding>)
  {
    var at := Select(Reported(reader, op, query, scans), from, |scans|);
    |at| == |found| && forall k :: 0 <= k < |at| ==> reader.judge(op, query, scans[at[k]]) == Some(found[k])
  }

  lemma {:induction false} JudgedFrom(reader: Reader, op: string, query: string, scans: seq<Scan>, i: nat)
    requires i <= |scans|
    ensures JudgedAt(reader, op, query, scans, i, Judged(reader, op, query, scans[i..]))
    decreases |scans| - i
  {
    if i < |scans| {
      JudgedFrom(reader, op, query, scans, i + 1);
      assert scans[i..][1..] == scans[i + 1..];
    }
  }

  /** The lines that are no mark of a cut. */
  function PlanLine(lines: seq<Line>): nat -> bool {
    (i: nat) => i < |lines| && !(TRUNCATED_MARK <= lines[i].text)
  }

  ghost predicate UnmarkedAt(lines: seq<Line>, from: nat, unmarked: seq<Line>) {
    var at := Select(PlanLine(lines), from, |lines|);
    |at| == |unmarked| && forall k :: 0 <= k < |at| ==> unmarked[k] == lines[at[k]]
  }

  lemma {:induction false} UnmarkedFrom(lines: seq<Line>, i: nat)
    requires i <= |lines|
    ensures UnmarkedAt(lines, i, Unmarked(lines[i..]))
    decreases |lines| - i
  {
    if i < |lines| {
      UnmarkedFrom(lines, i + 1);
      assert lines[i..][1..] == lines[i + 1..];
    }
  }

  /** The analyzer reads exactly the lines that are no mark of a cut, in order. */
  lemma UnmarkedAre(lines: seq<Line>)
    ensures UnmarkedAt(lines, 0, Unmarked(lines))
  {
    assert lines[0..] == lines;
    UnmarkedFrom(lines, 0);
  }

  ghost predicate Marked(lines: seq<Line>) {
    exists l :: l in lines && TRUNCATED_MARK <= l.text
  }

  lemma {:induction false} MarkedIff(lines: seq<Line>)
    ensures |Unmarked(lines)| <= |lines|
    ensures |Unmarked(lines)| == |lines| <==> !Marked(lines)
  {
    if lines != [] {
      MarkedIff(lines[1..]);
      assert lines == [lines[0]] + lines[1..];
      assert forall l :: l in lines <==> l == lines[0] || l in lines[1..];
    }
  }

  /** The entry is truncated, and no scan of it is left. */
  ghost predicate Lost(entry: seq<Line>) {
    Marked(Body(entry)) && ScansOf(Unmarked(Body(entry))) == []
  }

  /**
    The findings of an entry: one for every scan that is judged to be one, in the order of the
    scans, and the failing one exactly when the cut left no scan.
   */
  lemma FindingsAre(reader: Reader, entry: seq<Line>)
    requires entry != [] && reader.holder(entry[0]).Some?
    ensures var op, query := reader.holder(entry[0]).value, Statement(entry);
            if Lost(entry) then FindingsOf(reader, entry) == [LostScan(op, query)]
            else JudgedAt(reader, op, query, ScansOf(Unmarked(Body(entry))), 0, FindingsOf(reader, entry))
  {
    var op, query, scans := reader.holder(entry[0]).value, Statement(entry), ScansOf(Unmarked(Body(entry)));
    MarkedIff(Body(entry));
    JudgedFrom(reader, op, query, scans, 0);
    assert scans[0..] == scans;
    var judged := Judged(reader, op, query, scans);
    assert judged + [] == judged;
  }

  /** A scan of the entry is judged to be this finding. */
  ghost predicate JudgedSo(reader: Reader, entry: seq<Line>, f: Finding) {
    && entry != [] && reader.holder(entry[0]).Some?
    && exists s :: s in ScansOf(Unmarked(Body(entry))) &&
                   reader.judge(reader.holder(entry[0]).value, Statement(entry), s) == Some(f)
  }

  lemma FoundIff(reader: Reader, entry: seq<Line>, f: Finding)
    ensures f in FindingsOf(reader, entry) <==>
            || JudgedSo(reader, entry, f)
            || (entry != [] && reader.holder(entry[0]).Some? && Lost(entry)
                && f == LostScan(reader.holder(entry[0]).value, Statement(entry)))
  {
    if entry != [] && reader.holder(entry[0]).Some? {
      var op, query, scans := reader.holder(entry[0]).value, Statement(entry), ScansOf(Unmarked(Body(entry)));
      FindingsAre(reader, entry);
      var found := FindingsOf(reader, entry);
      if !Lost(entry) {
        InJudged(reader, op, query, scans, found, f);
      }
    }
  }

  lemma InJudged(reader: Reader, op: string, query: string, scans: seq<Scan>, found: seq<Finding>, f: Finding)
    requires JudgedAt(reader, op, query, scans, 0, found)
    ensures f in found <==> exists s :: s in scans && reader.judge(op, query, s) == Some(f)
  {
    var wanted := Reported(reader, op, query, scans);
    var at := Select(wanted, 0, |scans|);
    Selected(wanted, 0, |scans|);
    if f in found {
      var k :| 0 <= k < |found| && found[k] == f;
      assert scans[at[k]] in scans;
    }
    if s :| s in scans && reader.judge(op, query, s) == Some(f) {
      var i: nat :| i < |scans| && scans[i] == s;
      assert i in at;
      var k :| 0 <= k < |at| && at[k] == i;
      assert found[k] in found;
    }
  }

  // ---- of a log ----

  /** All that is read, item after item. */
  function Gathered<T>(read: T -> seq<Finding>, items: seq<T>): seq<Finding> {
    if items == [] then [] else Gathered(read, items[..|items| - 1]) + read(items[|items| - 1])
  }

  lemma {:induction false} AllGathered(reader: Reader, entries: seq<seq<Line>>)
    ensures AllFindings(reader, entries) == Gathered(e => FindingsOf(reader, e), entries)
  {
    if entries != [] {
      AllGathered(reader, entries[..|entries| - 1]);
    }
  }

  lemma {:induction false} GatheredAppend<T>(read: T -> seq<Finding>, a: seq<T>, b: seq<T>)
    ensures Gathered(read, a + b) == Gathered(read, a) + Gathered(read, b)
  {
    if b == [] {
      assert a + b == a;
    } else {
      var n := |b| - 1;
      assert (a + b)[..|a| + n] == a + b[..n] && (a + b)[|a| + n] == b[n];
      GatheredAppend(read, a, b[..n]);
    }
  }

  /** The findings of a log are those of its entries, one entry after the other. */
  lemma AllFindingsAre(reader: Reader, before: seq<seq<Line>>, entry: seq<Line>, after: seq<seq<Line>>)
    ensures AllFindings(reader, before + [entry] + after) ==
            AllFindings(reader, before) + FindingsOf(reader, entry) + AllFindings(reader, after)
  {
    AllGathered(reader, before + [entry] + after);
    AllGathered(reader, before);
    AllGathered(reader, after);
    GatheredAround(e => FindingsOf(reader, e), before, entry, after);
  }

  lemma GatheredAround<T>(read: T -> seq<Finding>, before: seq<T>, item: T, after: seq<T>)
    ensures Gathered(read, before + [item] + after) == Gathered(read, before) + read(item) + Gathered(read, after)
  {
    GatheredAppend(read, before + [item], after);
    assert (before + [item])[..|before|] == before;
  }

  lemma {:induction false} GatheredHas<T>(read: T -> seq<Finding>, items: seq<T>, f: Finding)
    ensures f in Gathered(read, items) <==> exists i :: 0 <= i < |items| && f in read(items[i])
  {
    if items != [] {
      var n := |items| - 1;
      GatheredHas(read, items[..n], f);
      assert forall i :: 0 <= i < n ==> items[..n][i] == items[i];
    }
  }

  lemma AllFoundIff(reader: Reader, entries: seq<seq<Line>>, f: Finding)
    ensures f in AllFindings(reader, entries) <==> exists i :: 0 <= i < |entries| && f in FindingsOf(reader, entries[i])
  {
    AllGathered(reader, entries);
    GatheredHas(e => FindingsOf(reader, e), entries, f);
  }

  // ---- the distinct ones ----

  function FirstOfKey(findings: seq<Finding>): nat -> bool {
    (i: nat) => i < |findings| && forall j :: 0 <= j < i ==> findings[j].Key() != findings[i].Key()
  }

  ghost predicate FirstsAt(findings: seq<Finding>, end: nat, distinct: seq<Finding>)
    requires end <= |findings|
  {
    var at := Select(FirstOfKey(findings), 0, end);
    |at| == |distinct| && forall k :: 0 <= k < |at| ==> distinct[k] == findings[at[k]]
  }

  lemma FirstIff(findings: seq<Finding>, n: nat)
    requires n < |findings|
    ensures FirstOfKey(findings)(n) <==> !Seen(findings[..n], findings[n])
  {
    var before := findings[..n];
    if Seen(before, findings[n]) {
      var g :| g in before && g.Key() == findings[n].Key();
      var j :| 0 <= j < n && before[j] == g;
      assert findings[j].Key() == findings[n].Key();
    } else {
      assert forall j :: 0 <= j < n ==> findings[j] == before[j] && before[j] in before;
    }
  }

  lemma {:induction false} DistinctUpTo(findings: seq<Finding>, n: nat)
    requires n <= |findings|
    ensures FirstsAt(findings, n, Distinct(findings[..n]))
  {
    if n > 0 {
      DistinctUpTo(findings, n - 1);
      assert findings[..n][..n - 1] == findings[..n - 1];
      DistinctSees(findings[..n - 1], findings[n - 1]);
      FirstIff(findings, n - 1);
      SelectLast(FirstOfKey(findings), 0, n - 1);
    }
  }

  /** The distinct findings are the first ones of every key, in order. */
  lemma DistinctFirsts(findings: seq<Finding>)
    ensures FirstsAt(findings, |findings|, Distinct(findings))
  {
    DistinctUpTo(findings, |findings|);
    assert findings[..|findings|] == findings;
  }

  // ---- what the gate reports ----

  /** Some entry of the log has a scan that is judged to be a finding with this key. */
  ghost predicate ScanReported(reader: Reader, entries: seq<seq<Line>>, f: Finding) {
    exists e, g: Finding :: e in entries && g.Key() == f.Key() && JudgedSo(reader, e, g)
  }

  /**
    From the filtered log exactly those keys are reported that some scan of the server log is
    judged to be: none is missed, and none comes from the cut.
   */
  lemma ReportedIff(reader: Reader, entries: seq<seq<Line>>, head: nat, tail: nat, f: Finding)
    requires Sound(reader)
    requires forall e :: e in entries ==> WellFormed(e, head, tail)
    ensures Seen(Distinct(AllFindings(reader, Emitted(entries, head, tail))), f) <==>
            ScanReported(reader, entries, f)
  {
    FilteringIsInvisible(reader, entries, head, tail);
    DistinctSees(AllFindings(reader, entries), f);
    if Seen(AllFindings(reader, entries), f) {
      var g :| g in AllFindings(reader, entries) && g.Key() == f.Key();
      AllFoundIff(reader, entries, g);
      var i :| 0 <= i < |entries| && g in FindingsOf(reader, entries[i]);
      assert entries[i] in entries;
      FoundIff(reader, entries[i], g);
    }
    if ScanReported(reader, entries, f) {
      var e, g: Finding :| e in entries && g.Key() == f.Key() && JudgedSo(reader, e, g);
      FoundIff(reader, e, g);
      var i :| 0 <= i < |entries| && entries[i] == e;
      AllFoundIff(reader, entries, g);
    }
  }
}
