/** Uniting the coverage data of the shards, as one run would have measured it. */
module Coverage {
  import opened Text
  import opened Sharding

  // ---- lcov reports ----

  /** A line of an lcov report; `Data` is `DA:<line>,<hits>`, hit when the count is positive. */
  datatype LcovLine = Source(file: string) | EndOfRecord | Data(line: int, hit: bool) | Other

  type Report = seq<LcovLine>
  type Spot = (string, int)

  /** The file whose record a report is in after `lines`. */
  function FileAfter(lines: Report): Option<string> {
    if lines == [] then None
    else match lines[|lines| - 1]
      case Source(file) => Some(file)
      case EndOfRecord => None
      case Data(_, _) => FileAfter(lines[..|lines| - 1])
      case Other => FileAfter(lines[..|lines| - 1])
  }

  /** The instrumented source lines a report names. */
  function Found(lines: Report): set<Spot> {
    if lines == [] then {}
    else
      var before, last := lines[..|lines| - 1], lines[|lines| - 1];
      Found(before) + if last.Data? && FileAfter(before).Some? then {(FileAfter(before).value, last.line)} else {}
  }

  /** The source lines a report says were executed. */
  function Hit(lines: Report): set<Spot> {
    if lines == [] then {}
    else
      var before, last := lines[..|lines| - 1], lines[|lines| - 1];
      Hit(before) +
      if last.Data? && last.hit && FileAfter(before).Some? then {(FileAfter(before).value, last.line)} else {}
  }

  function AllFound(reports: seq<Report>): set<Spot> {
    if reports == [] then {} else AllFound(reports[..|reports| - 1]) + Found(reports[|reports| - 1])
  }

  function AllHit(reports: seq<Report>): set<Spot> {
    if reports == [] then {} else AllHit(reports[..|reports| - 1]) + Hit(reports[|reports| - 1])
  }

  // ---- the maps the merge fills ----

  type LineMap = map<string, map<int, bool>>

  function Spots(lines: LineMap): set<Spot> {
    set file, n | file in lines && n in lines[file] :: (file, n)
  }

  function HitSpots(lines: LineMap): set<Spot> {
    set file, n | file in lines && n in lines[file] && lines[file][n] :: (file, n)
  }

  /** One `DA` line of `file` goes into the map: a line stays hit once any report hit it. */
  function Record(lines: LineMap, file: string, n: int, hit: bool): LineMap {
    var byLine := if file in lines then lines[file] else map[];
    var was := n in byLine && byLine[n];
    lines[file := byLine[n := was || hit]]
  }

  lemma RecordSpots(lines: LineMap, file: string, n: int, hit: bool)
    ensures Spots(Record(lines, file, n, hit)) == Spots(lines) + {(file, n)}
    ensures HitSpots(Record(lines, file, n, hit)) == HitSpots(lines) + if hit then {(file, n)} else {}
  {
    var next := Record(lines, file, n, hit);
    forall f, k ensures (f, k) in Spots(next) <==> (f, k) in Spots(lines) || (f, k) == (file, n) {}
    forall f, k ensures (f, k) in HitSpots(next) <==> (f, k) in HitSpots(lines) || (hit && (f, k) == (file, n)) {}
  }

  method MergeReport(lines: LineMap, report: Report) returns (next: LineMap)
    ensures Spots(next) == Spots(lines) + Found(report)
    ensures HitSpots(next) == HitSpots(lines) + Hit(report)
  {
    next := lines;
    var file: Option<string> := None;
    for i := 0 to |report|
      invariant file == FileAfter(report[..i])
      invariant Spots(next) == Spots(lines) + Found(report[..i])
      invariant HitSpots(next) == HitSpots(lines) + Hit(report[..i])
    {
      assert report[..i + 1][..i] == report[..i];
      match report[i] {
        case Source(name) => file := Some(name);
        case EndOfRecord => file := None;
        case Data(n, hit) =>
          if file.Some? {
            RecordSpots(next, file.value, n, hit);
            next := Record(next, file.value, n, hit);
          }
        case Other =>
      }
    }
    assert report[..|report|] == report;
  }

  /** Some element of a set: the order in which a map is walked does not matter here. */
  method Pick<T(==)>(s: set<T>) returns (x: T)
    requires s != {}
    ensures x in s
  {
    x :| x in s;
  }

  lemma Member<T>(s: set<T>) returns (x: T)
    requires s != {}
    ensures x in s
  {
    x :| x in s;
  }

  /** The entries of one file, counted. */
  lemma FileSpots(file: string, numbers: set<int>)
    ensures |set n | n in numbers :: (file, n)| == |numbers|
    decreases numbers
  {
    var spots := set n | n in numbers :: (file, n);
    if numbers != {} {
      var n := Member(numbers);
      FileSpots(file, numbers - {n});
      assert spots == (set m | m in numbers - {n} :: (file, m)) + {(file, n)};
    }
  }

  datatype LcovResult = LcovResult(linesFound: nat, linesHit: nat)

  method HitLines(byLine: map<int, bool>) returns (hits: nat)
    ensures hits == |set n | n in byLine && byLine[n]|
  {
    hits := 0;
    var rest := byLine.Keys;
    while rest != {}
      invariant rest <= byLine.Keys
      invariant hits == |set n | n in byLine.Keys - rest && byLine[n]|
      decreases rest
    {
      var n := Pick(rest);
      ghost var before := set m | m in byLine.Keys - rest && byLine[m];
      rest := rest - {n};
      assert (set m | m in byLine.Keys - rest && byLine[m]) == before + if byLine[n] then {n} else {};
      if byLine[n] {
        hits := hits + 1;
      }
    }
    assert (set n | n in byLine.Keys - rest && byLine[n]) == (set n | n in byLine && byLine[n]);
  }

  /** The parts of a map for a set of its files. */
  function Part(lines: LineMap, files: set<string>): LineMap {
    map file | file in files && file in lines :: lines[file]
  }

  lemma PartGrows(lines: LineMap, files: set<string>, file: string)
    requires file in lines && file !in files
    ensures |Spots(Part(lines, files + {file}))| == |Spots(Part(lines, files))| + |lines[file]|
  {
    var numbers := lines[file].Keys;
    FileSpots(file, numbers);
    var own, before := set n | n in numbers :: (file, n), Spots(Part(lines, files));
    forall f, k ensures (f, k) in Spots(Part(lines, files + {file})) <==> (f, k) in before + own {}
    assert Spots(Part(lines, files + {file})) == before + own;
  }

  lemma HitPartGrows(lines: LineMap, files: set<string>, file: string)
    requires file in lines && file !in files
    ensures |HitSpots(Part(lines, files + {file}))| ==
            |HitSpots(Part(lines, files))| + |set n | n in lines[file] && lines[file][n]|
  {
    var hits := set n | n in lines[file] && lines[file][n];
    FileSpots(file, hits);
    var own, before := set n | n in hits :: (file, n), HitSpots(Part(lines, files));
    forall f, k ensures (f, k) in HitSpots(Part(lines, files + {file})) <==> (f, k) in before + own {}
    assert HitSpots(Part(lines, files + {file})) == before + own;
  }

  method CountLines(lines: LineMap) returns (r: LcovResult)
    ensures r == LcovResult(|Spots(lines)|, |HitSpots(lines)|)
  {
    var found, hit := 0, 0;
    var done: set<string> := {};
    assert Spots(Part(lines, {})) == {} && HitSpots(Part(lines, {})) == {};
    while done != lines.Keys
      invariant done <= lines.Keys
      invariant found == |Spots(Part(lines, done))| && hit == |HitSpots(Part(lines, done))|
      decreases lines.Keys - done
    {
      var file := Pick(lines.Keys - done);
      PartGrows(lines, done, file);
      HitPartGrows(lines, done, file);
      var hits := HitLines(lines[file]);
      found, hit := found + |lines[file]|, hit + hits;
      done := done + {file};
    }
    assert Part(lines, done) == lines;
    r := LcovResult(found, hit);
  }

  /** The pooled coverage of several reports; None where the script throws, when there is no line data. */
  method MergeLcov(reports: seq<Report>) returns (r: Option<LcovResult>)
    ensures r == if AllFound(reports) == {} then None else Some(LcovResult(|AllFound(reports)|, |AllHit(reports)|))
  {
    var lines: LineMap := map[];
    for i := 0 to |reports|
      invariant Spots(lines) == AllFound(reports[..i]) && HitSpots(lines) == AllHit(reports[..i])
    {
      assert reports[..i + 1][..i] == reports[..i];
      lines := MergeReport(lines, reports[i]);
    }
    assert reports[..|reports|] == reports;
    var counts := CountLines(lines);
    r := if counts.linesFound == 0 then None else Some(counts);
  }

  // ---- operations ----

  function OpsOf(names: seq<string>): set<string> {
    set n | n in names && Trim(n) != "" :: Trim(n)
  }

  method LoadOps(lines: seq<string>) returns (ops: set<string>)
    ensures ops == OpsOf(lines)
    ensures forall op :: op in ops <==> op != "" && exists line :: line in lines && Trim(line) == op
  {
    ops := {};
    for i := 0 to |lines|
      invariant ops == OpsOf(lines[..i])
    {
      assert lines[..i + 1] == lines[..i] + [lines[i]];
      var name := Trim(lines[i]);
      if name != "" {
        ops := ops + {name};
      }
    }
    assert lines[..|lines|] == lines;
  }

  // ---- the merge of the shards ----

  /** What one shard left behind; a tier it did not run left nothing. */
  datatype ShardData = ShardData(lcov: Option<Report>, ops: Option<seq<string>>)

  datatype Merged = Merged(lines: LcovResult, executed: set<string>)

  ghost predicate Complete(shards: seq<ShardData>) {
    shards != [] && forall s :: s in shards ==> s.lcov.Some? && s.ops.Some?
  }

  function Reports(shards: seq<ShardData>): seq<Report> {
    if shards == [] then []
    else
      var last := shards[|shards| - 1];
      Reports(shards[..|shards| - 1]) + if last.lcov.Some? then [last.lcov.value] else []
  }

  function Executed(shards: seq<ShardData>): set<string> {
    if shards == [] then {}
    else
      var last := shards[|shards| - 1];
      Executed(shards[..|shards| - 1]) + if last.ops.Some? then OpsOf(last.ops.value) else {}
  }

  /** Every shard left its data, and some of it is line data. */
  ghost predicate Accepted(shards: seq<ShardData>) {
    Complete(shards) && AllFound(Reports(shards)) != {}
  }

  /** None where the gate refuses: no shard, a shard without its data, or no line data at all. */
  method GateMerged(shards: seq<ShardData>) returns (r: Option<Merged>)
    ensures r.Some? <==> Accepted(shards)
    ensures r.Some? ==>
              r.value ==
              Merged(LcovResult(|AllFound(Reports(shards))|, |AllHit(Reports(shards))|), Executed(shards))
  {
    if shards == [] {
      return None;
    }
    var reports: seq<Report> := [];
    var executed: set<string> := {};
    for i := 0 to |shards|
      invariant forall s :: s in shards[..i] ==> s.lcov.Some? && s.ops.Some?
      invariant reports == Reports(shards[..i]) && executed == Executed(shards[..i])
    {
      assert shards[..i + 1][..i] == shards[..i];
      if shards[i].lcov.None? || shards[i].ops.None? {
        assert shards[i] in shards;
        return None;
      }
      reports := reports + [shards[i].lcov.value];
      var ops := LoadOps(shards[i].ops.value);
      executed := executed + ops;
    }
    assert shards[..|shards|] == shards;
    var lines := MergeLcov(reports);
    r := match lines case None => None case Some(counts) => Some(Merged(counts, executed));
  }
}
