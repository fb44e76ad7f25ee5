/** The whole query-index gate, from the server's log to the findings read from the text the filter writes. */
module GateLog {
  import opened Text
  import opened PlanLines
  import opened LogEntries
  import opened LogText
  import opened KeepDecision
  import opened Analyzer
  import opened Findings
  import K = FilterKey
  import F = FilterText
  import T = KeyTerms
  import G = LogSegments
  import S = SeqScanFilters

  // ---- the judgement of a scan ----

  /** What the gate reads of a scan's line and knows of the catalogs. */
  datatype Tables = Tables(
    relation: Line -> string,
    system: string -> bool,
    rules: Line -> K.Rules,
    policies: string -> seq<seq<F.Sym>>,
    indexed: (string, seq<F.Sym>) -> bool,
    foreignKey: string -> bool)

  function Symbols(text: string): seq<F.Sym> {
    seq(|text|, i requires 0 <= i < |text| => F.Ch(text[i]))
  }

  function Shown(key: seq<F.Sym>): string {
    seq(|key|, i requires 0 <= i < |key| => if key[i].Ch? then key[i].c else '?')
  }

  /** The filter of a scan, normalised, its relation's policies dropped. */
  function KeyOf(t: Tables, scan: Scan): seq<F.Sym> {
    var rules := t.rules(scan.node);
    K.Normalised(rules, Symbols(scan.filter), K.PolicyTermsOf(rules, t.policies(t.relation(scan.node))))
  }

  function Judge(t: Tables, op: string, query: string, scan: Scan): Option<Finding> {
    var relation, key := t.relation(scan.node), KeyOf(t, scan);
    if scan.indexCond || t.system(relation) || key == [] then None
    else if !scan.node.seqScan && t.indexed(relation, key) then None
    else Some(Finding(op, relation, Shown(key), t.foreignKey(query), !scan.node.seqScan, Sample(query)))
  }

  /** The gate's reader: the holder in a tag, and this judgement. */
  function GateReader(t: Tables): Reader {
    Reader((line: Line) => HolderOf(line.text), (op, query, scan) => Judge(t, op, query, scan))
  }

  lemma NoFilterNoKey(t: Tables, scan: Scan)
    ensures scan.filter == "" ==> KeyOf(t, scan) == []
  {
    assert F.Trimmed([]) == [];
    assert scan.filter == "" ==> Symbols(scan.filter) == [];
  }

  /** It reports no scan without a filter or with an Index Cond. */
  lemma GateSound(t: Tables)
    ensures Sound(GateReader(t))
  {
    forall op, query, scan | GateReader(t).judge(op, query, scan).Some? ensures Reportable(scan) {
      NoFilterNoKey(t, scan);
    }
  }

  /** A text is read as the characters it is shown as. */
  lemma ShownSymbols(text: string)
    ensures Shown(Symbols(text)) == text && F.Trimmed(Symbols(text)) == Symbols(Trim(text))
  {
    var a, b := TrimIs(text);
    var c, d := F.TrimmedIs(Symbols(text));
    assert forall i :: 0 <= i < |text| ==> (F.IsBlank(Symbols(text)[i]) <==> IsSpace(text[i]));
  }

  /** Some term of the filter is the statement's own and more than a liveness test. */
  predicate OwnFilter(t: Tables, scan: Scan) {
    var rules, raw := t.rules(scan.node), Symbols(scan.filter);
    var policy := K.PolicyTermsOf(rules, t.policies(t.relation(scan.node)));
    && Trim(scan.filter) != ""
    && exists term :: term in K.ExactTerms(rules, raw) && T.Own(rules, policy, term) &&
                      !rules.live(F.Unwrap(K.Generalised(rules, term)))
  }

  /**
    A scan is reported exactly when it has no Index Cond, is of no system relation, has a filter of
    the statement's own, and is no index walk that another index could have spared.
   */
  lemma JudgeIff(t: Tables, op: string, query: string, scan: Scan)
    ensures Judge(t, op, query, scan).Some? <==>
            && !scan.indexCond
            && !t.system(t.relation(scan.node))
            && OwnFilter(t, scan)
            && (scan.node.seqScan || !t.indexed(t.relation(scan.node), KeyOf(t, scan)))
  {
    var rules, raw := t.rules(scan.node), Symbols(scan.filter);
    ShownSymbols(scan.filter);
    assert Symbols(Trim(scan.filter)) == [] <==> Trim(scan.filter) == "";
    var _ := T.KeyOf(rules, raw, K.PolicyTermsOf(rules, t.policies(t.relation(scan.node))));
  }

  /** What is reported of it: holder, relation and key, and up to 200 characters of the statement. */
  lemma JudgeSays(t: Tables, op: string, query: string, scan: Scan)
    requires Judge(t, op, query, scan).Some?
    ensures var f := Judge(t, op, query, scan).value;
            && f.op == op && f.relation == t.relation(scan.node) && f.filter == Shown(KeyOf(t, scan))
            && f.fk == t.foreignKey(query) && f.indexWalk == !scan.node.seqScan
            && f.sample <= query && |f.sample| <= 200 && (|f.sample| < 200 ==> f.sample == query)
  {
  }

  // ---- entries as text ----

  function Texts(entry: seq<Line>): seq<string> {
    seq(|entry|, i requires 0 <= i < |entry| => entry[i].text)
  }

  function AllTexts(entries: seq<seq<Line>>): seq<seq<string>> {
    seq(|entries|, i requires 0 <= i < |entries| => Texts(entries[i]))
  }

  /** What "Query Text:" lines say. */
  function StatementIn(text: string): Option<string> {
    if StartsAt(TrimStart(text), QUERY_TEXT, 0) then Some(Trim(TrimStart(text)[|QUERY_TEXT|..])) else None
  }

  /** The line is what its text says. */
  predicate Faithful(classify: string -> Line, line: Line) {
    classify(line.text) == line && line.statement == StatementIn(line.text)
  }

  predicate AllFaithful(classify: string -> Line, lines: seq<Line>) {
    forall l :: l in lines ==> Faithful(classify, l)
  }

  function Classified(classify: string -> Line, lines: seq<string>): seq<Line> {
    seq(|lines|, i requires 0 <= i < |lines| => classify(lines[i]))
  }

  /** What the analyzer reports of an entry parsed from text. */
  function ReadEntry(reader: Reader, classify: string -> Line, e: Entry): seq<Finding> {
    var body := Classified(classify, e.lines);
    var lines := Unmarked(body);
    Judged(reader, e.holder, e.query, ScansOf(lines)) +
    (if |lines| != |body| && ScansOf(lines) == [] then [LostScan(e.holder, e.query)] else [])
  }

  /** What the analyzer reports of the written log. */
  function ReadLog(reader: Reader, classify: string -> Line, text: string): seq<Finding> {
    Gathered(e => ReadEntry(reader, classify, e), ParsePlanLog(text))
  }

  lemma {:induction false} FirstTextRead(lines: seq<Line>)
    ensures LogText.FirstText(Texts(lines)) == Analyzer.FirstText(lines)
  {
    if lines != [] {
      assert Texts(lines)[1..] == Texts(lines[1..]);
      FirstTextRead(lines[1..]);
    }
  }

  lemma {:induction false} StatementRead(classify: string -> Line, lines: seq<Line>)
    requires AllFaithful(classify, lines)
    ensures QueryOf(Texts(lines)) == Statement(lines)
  {
    if lines != [] {
      assert Faithful(classify, lines[0]) && forall l :: l in lines[1..] ==> l in lines;
      assert Texts(lines)[1..] == Texts(lines[1..]);
      FirstTextRead(lines[1..]);
      StatementRead(classify, lines[1..]);
    }
  }

  lemma BodyRead(classify: string -> Line, entry: seq<Line>)
    requires entry != [] && AllFaithful(classify, entry)
    ensures Classified(classify, Texts(entry)[1..]) == Body(entry)
  {
    forall i | 0 <= i < |entry| - 1 ensures classify(Texts(entry)[1..][i]) == Body(entry)[i] {
      assert Faithful(classify, entry[i + 1]);
    }
  }

  /** The parsed text of an entry is judged as the entry is. */
  lemma EntryRead(t: Tables, classify: string -> Line, entry: seq<Line>)
    requires Writable(Texts(entry)) && AllFaithful(classify, entry)
    ensures ReadEntry(GateReader(t), classify, LogText.Shown(Texts(entry))) == FindingsOf(GateReader(t), entry)
  {
    StatementRead(classify, entry);
    BodyRead(classify, entry);
    assert Texts(entry)[0] == entry[0].text;
  }

  lemma {:induction false} ShownAt(entries: seq<seq<string>>)
    ensures |ShownAll(entries)| == |entries|
    ensures forall i :: 0 <= i < |entries| ==> ShownAll(entries)[i] == LogText.Shown(entries[i])
  {
    if entries != [] {
      ShownAt(entries[1..]);
    }
  }

  lemma {:induction false} GatheredAlike<A, B>(f: A -> seq<Finding>, g: B -> seq<Finding>, a: seq<A>, b: seq<B>)
    requires |a| == |b| && forall i :: 0 <= i < |a| ==> f(a[i]) == g(b[i])
    ensures Gathered(f, a) == Gathered(g, b)
  {
    if a != [] {
      GatheredAlike(f, g, a[..|a| - 1], b[..|b| - 1]);
    }
  }

  /** An entry that can be written and read back. */
  ghost predicate Recorded(classify: string -> Line, entry: seq<Line>) {
    Writable(Texts(entry)) && AllFaithful(classify, entry)
  }

  lemma EntriesRead(t: Tables, classify: string -> Line, entries: seq<seq<Line>>)
    requires forall e :: e in entries ==> Recorded(classify, e)
    ensures var reader := GateReader(t);
            Gathered(e => ReadEntry(reader, classify, e), ShownAll(AllTexts(entries))) ==
            Gathered(e => FindingsOf(reader, e), entries)
  {
    var reader := GateReader(t);
    ShownAt(AllTexts(entries));
    forall i | 0 <= i < |entries|
      ensures ReadEntry(reader, classify, ShownAll(AllTexts(entries))[i]) == FindingsOf(reader, entries[i])
    {
      assert Recorded(classify, entries[i]);
      EntryRead(t, classify, entries[i]);
    }
    GatheredAlike(
      e => ReadEntry(reader, classify, e), e => FindingsOf(reader, e), ShownAll(AllTexts(entries)), entries);
  }

  /** The findings read from the text of a log are those of its entries. */
  lemma LogRead(t: Tables, classify: string -> Line, entries: seq<seq<Line>>)
    requires forall e :: e in entries ==> Recorded(classify, e)
    ensures ReadLog(GateReader(t), classify, Written(AllTexts(entries))) == AllFindings(GateReader(t), entries)
  {
    forall e | e in AllTexts(entries) ensures Writable(e) {
      var i :| 0 <= i < |entries| && AllTexts(entries)[i] == e;
      assert Recorded(classify, entries[i]);
    }
    ParseWritten(AllTexts(entries));
    EntriesRead(t, classify, entries);
    AllGathered(GateReader(t), entries);
  }

  // ---- what the filter writes can be read back ----

  /** Lines of a log: one line each, none like an end line, and each what its text says. */
  ghost predicate Legible(classify: string -> Line, lines: seq<Line>) {
    forall l :: l in lines ==> NoNewline(l.text) && !(END <= l.text) && Faithful(classify, l)
  }

  /** An entry as the log has it: a tag, then lines of the plan. */
  ghost predicate Logged(classify: string -> Line, entry: seq<Line>) {
    && entry != [] && HolderOf(entry[0].text).Some? && NoNewline(entry[0].text) && Faithful(classify, entry[0])
    && Legible(classify, entry[1..])
  }

  lemma LoggedRecorded(classify: string -> Line, entry: seq<Line>)
    requires Logged(classify, entry)
    ensures Recorded(classify, entry)
  {
    forall l | l in entry ensures NoNewline(l.text) && Faithful(classify, l) {
      if l != entry[0] {
        assert l in entry[1..];
      }
    }
    forall i | 0 < i < |entry| ensures !(END <= Texts(entry)[i]) {
      assert entry[i] == entry[1..][i - 1];
    }
  }

  /** The mark of a cut is read as itself. */
  ghost predicate MarksRead(classify: string -> Line) {
    forall n: nat :: Faithful(classify, Mark(n))
  }

  lemma MarkLegible(classify: string -> Line, n: nat)
    requires MarksRead(classify)
    ensures Legible(classify, [Mark(n)])
  {
    NumberUnbroken(n);
    assert Mark(n).text[0] == '\t' != END[0];
  }

  lemma {:induction false} NumberUnbroken(n: nat)
    ensures '\n' !in Decimal(n)
  {
    if n >= 10 {
      NumberUnbroken(n / 10);
    }
  }

  lemma LegibleBoth(classify: string -> Line, a: seq<Line>, b: seq<Line>)
    requires Legible(classify, a) && Legible(classify, b)
    ensures Legible(classify, a + b)
  {
  }

  lemma LegibleWithin(classify: string -> Line, a: seq<Line>, b: seq<Line>)
    requires Legible(classify, b) && forall l :: l in a ==> l in b
    ensures Legible(classify, a)
  {
  }

  lemma ShortLogged(classify: string -> Line, entry: seq<Line>, head: nat, tail: nat)
    requires Logged(classify, entry) && MarksRead(classify) && head > 0
    ensures Logged(classify, Shortened(entry, head, tail))
  {
    var dropped := Evicted(|entry|, head, tail);
    if dropped > 0 {
      MarkLegible(classify, dropped);
      AroundLogged(classify, entry, head, head + dropped, Mark(dropped));
      var short := Around(entry[..head], Mark(dropped), entry[head..head + dropped], entry[head + dropped..]);
      assert short == Shortened(entry, head, tail);
    }
  }

  lemma AroundLogged(classify: string -> Line, entry: seq<Line>, head: nat, out: nat, mark: Line)
    requires Logged(classify, entry) && 0 < head <= out <= |entry| && Legible(classify, [mark])
    ensures Logged(classify, Around(entry[..head], mark, entry[head..out], entry[out..]))
  {
    var first, middle, last := entry[..head], entry[head..out], entry[out..];
    var kept := Kept(TrackAll(-1, first), middle);
    KeptWithin(TrackAll(-1, first), middle);
    SliceWithin(entry, 1, head);
    SliceWithin(entry, head, out);
    SliceWithin(entry, out, |entry|);
    LegibleWithin(classify, first[1..], entry[1..]);
    LegibleWithin(classify, kept, entry[1..]);
    LegibleWithin(classify, last, entry[1..]);
    LegibleBoth(classify, kept, last);
    LegibleBoth(classify, [mark], kept + last);
    LegibleBoth(classify, first[1..], [mark] + (kept + last));
    TailOfAround(first, [mark] + (kept + last));
  }

  lemma SliceWithin(entry: seq<Line>, a: nat, b: nat)
    requires 1 <= a <= b <= |entry|
    ensures forall l :: l in entry[a..b] ==> l in entry[1..]
    ensures entry[..b][1..] == entry[1..b]
  {
    forall l | l in entry[a..b] ensures l in entry[1..] {
      var i :| 0 <= i < b - a && entry[a..b][i] == l;
      assert entry[1..][a - 1 + i] == l;
    }
  }

  lemma TailOfAround(first: seq<Line>, more: seq<Line>)
    requires first != []
    ensures (first + more)[0] == first[0] && (first + more)[1..] == first[1..] + more
  {
  }

  lemma {:induction false} EmittedLogged(classify: string -> Line, entries: seq<seq<Line>>, head: nat, tail: nat)
    requires (forall e :: e in entries ==> Logged(classify, e)) && MarksRead(classify) && head > 0
    ensures forall e :: e in Emitted(entries, head, tail) ==> Recorded(classify, e)
  {
    if entries != [] {
      var before, last := entries[..|entries| - 1], entries[|entries| - 1];
      assert last in entries && forall e :: e in before ==> e in entries;
      EmittedLogged(classify, before, head, tail);
      ShortLogged(classify, last, head, tail);
      LoggedRecorded(classify, Shortened(last, head, tail));
    }
  }

  // ---- the whole gate ----

  /** The log's lines, as the filter takes them. */
  function Raws(take: string -> Raw, lines: seq<string>): seq<Raw> {
    seq(|lines|, i requires 0 <= i < |lines| => take(lines[i]))
  }

  /** The entries of a server log. */
  function EntriesOf(take: string -> Raw, text: string): seq<seq<Line>> {
    Closed(Raws(take, LinesOf(text)) + [OtherTag])
  }

  /** They are the segments of its lines, the end of the text closing the last one. */
  lemma EntriesAre(take: string -> Raw, text: string) returns (log: seq<Raw>)
    ensures |log| == |LinesOf(text)| + 1 && log[|LinesOf(text)|] == OtherTag
    ensures forall i :: 0 <= i < |LinesOf(text)| ==> log[i] == take(LinesOf(text)[i])
    ensures G.SegmentsAt(log, |log|, EntriesOf(take, text))
  {
    log := Raws(take, LinesOf(text)) + [OtherTag];
    G.ClosedAre(log);
  }

  /** The filter's program: it reads its input in chunks and writes the kept plans. */
  method WriteLog(chunks: seq<string>, take: string -> Raw, head: nat, tail: nat) returns (text: string)
    requires head > 0 && tail > 0
    ensures text == Written(AllTexts(Emitted(EntriesOf(take, Concat(chunks)), head, tail)))
  {
    var lines := FeedChunks(chunks);
    var emitted := S.Filter(Raws(take, lines), head, tail);
    text := Written(AllTexts(emitted));
  }

  /**
    From end to end: for every server log whose entries are well-formed, however it is chunked, the
    distinct findings read from the text the filter writes are those of the log's own entries.
   */
  lemma GateSeesEverything(
    t: Tables, classify: string -> Line, take: string -> Raw, text: string, head: nat, tail: nat)
    requires head > 0 && MarksRead(classify)
    requires forall e :: e in EntriesOf(take, text) ==> Logged(classify, e) && WellFormed(e, head, tail)
    ensures var reader, entries := GateReader(t), EntriesOf(take, text);
            Distinct(ReadLog(reader, classify, Written(AllTexts(Emitted(entries, head, tail))))) ==
            Distinct(AllFindings(reader, entries))
  {
    var entries := EntriesOf(take, text);
    GateSound(t);
    FilteringIsInvisible(GateReader(t), entries, head, tail);
    EmittedLogged(classify, entries, head, tail);
    LogRead(t, classify, Emitted(entries, head, tail));
  }

  /** So exactly those keys are reported from the written text that some scan of the log is judged to be. */
  lemma GateReportsIff(
    t: Tables, classify: string -> Line, take: string -> Raw, text: string, head: nat, tail: nat, f: Finding)
    requires head > 0 && MarksRead(classify)
    requires forall e :: e in EntriesOf(take, text) ==> Logged(classify, e) && WellFormed(e, head, tail)
    ensures var reader, entries := GateReader(t), EntriesOf(take, text);
            Seen(Distinct(ReadLog(reader, classify, Written(AllTexts(Emitted(entries, head, tail))))), f) <==>
            ScanReported(reader, entries, f)
  {
    var entries := EntriesOf(take, text);
    GateSound(t);
    EmittedLogged(classify, entries, head, tail);
    LogRead(t, classify, Emitted(entries, head, tail));
    ReportedIff(GateReader(t), entries, head, tail, f);
  }
}
