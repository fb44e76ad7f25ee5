/** The analyzer's loops: the scans of a plan, the findings of a run, and the verdict on them. */
module GateVerdict {
  import opened Text
  import opened Selection
  import opened PlanLines
  import opened Analyzer

  method ReadScans(lines: seq<Line>) returns (out: seq<Scan>)
    ensures out == ScansOf(lines)
  {
    out := [];
    for i := 0 to |lines|
      invariant out + ScansOf(lines[i..]) == ScansOf(lines)
    {
      assert lines[i..][1..] == lines[i + 1..];
      if lines[i].IsScan() {
        ghost var start := Scan(lines[i], "", false);
        var filter, indexCond, j := "", false, i + 1;
        while j < |lines|
          invariant i < j <= |lines|
          invariant ReadBlock(Scan(lines[i], filter, indexCond), lines[j..]) == ReadBlock(start, lines[i + 1..])
        {
          assert lines[j..][1..] == lines[j + 1..];
          if lines[j].indent <= lines[i].indent || lines[j].child {
            break;
          }
          match lines[j].property {
            case NoProperty =>
            case Filter(text) => filter := text;
            case IndexCond => indexCond := true;
          }
          j := j + 1;
        }
        out := out + [Scan(lines[i], filter, indexCond)];
      }
    }
  }

  function Keys(found: seq<Finding>): set<(string, string, string, bool, bool)> {
    set f | f in found :: f.Key()
  }

  lemma KeysSeen(found: seq<Finding>, f: Finding)
    ensures f.Key() in Keys(found) <==> Seen(found, f)
    ensures Keys(found + [f]) == Keys(found) + {f.Key()}
  {
    assert forall g :: g in found + [f] <==> g in found || g == f;
  }

  /** Keep the first finding of each key: `before` are all findings seen so far. */
  method AddFindings(found: seq<Finding>, findings: seq<Finding>, ghost before: seq<Finding>)
    returns (next: seq<Finding>)
    requires found == Distinct(before)
    ensures next == Distinct(before + findings)
  {
    var keys := Keys(found);
    next := found;
    assert before + findings[..0] == before;
    for j := 0 to |findings|
      invariant next == Distinct(before + findings[..j]) && keys == Keys(next)
    {
      ghost var sofar := before + findings[..j];
      assert before + findings[..j + 1] == sofar + [findings[j]];
      KeysSeen(next, findings[j]);
      if findings[j].Key() !in keys {
        keys := keys + {findings[j].Key()};
        next := next + [findings[j]];
      }
    }
    assert findings[..|findings|] == findings;
  }

  method DistinctFindings(reader: Reader, entries: seq<seq<Line>>) returns (found: seq<Finding>)
    ensures found == Distinct(AllFindings(reader, entries))
  {
    found := [];
    for i := 0 to |entries|
      invariant found == Distinct(AllFindings(reader, entries[..i]))
    {
      assert entries[..i + 1][..i] == entries[..i];
      found := AddFindings(found, FindingsOf(reader, entries[i]), AllFindings(reader, entries[..i]));
    }
    assert entries[..|entries|] == entries;
  }

  // ---- the verdict ----

  datatype Gate<!Rule(!new)> = Gate(covers: (Rule, Finding) -> bool, plugin: string -> bool)

  /** Whether a finding can fail the gate: core foreign keys and index walks cannot. */
  predicate Gated<Rule(!new)>(gate: Gate<Rule>, f: Finding) {
    !(f.fk && !gate.plugin(f.relation)) && !f.indexWalk
  }

  /** The rule `find` returns for a finding; |rules| when none covers it. */
  function FirstRule<Rule(!new)>(gate: Gate<Rule>, rules: seq<Rule>, f: Finding): (i: nat)
    ensures i <= |rules|
    ensures i < |rules| ==> gate.covers(rules[i], f)
    ensures forall k :: 0 <= k < i ==> !gate.covers(rules[k], f)
  {
    if rules == [] || gate.covers(rules[0], f) then 0 else 1 + FirstRule(gate, rules[1..], f)
  }

  /** Whether rule `i` is the one a gated finding is explained by. */
  ghost predicate Used<Rule(!new)>(gate: Gate<Rule>, rules: seq<Rule>, findings: seq<Finding>, i: nat) {
    i < |rules| && exists f :: f in findings && Gated(gate, f) && FirstRule(gate, rules, f) == i
  }

  /** Rule `i` is the first that covers the finding, which is no core foreign key and no index walk. */
  predicate FirstToExplain<Rule(!new)>(gate: Gate<Rule>, rules: seq<Rule>, f: Finding, i: nat) {
    && i < |rules| && !f.indexWalk && (f.fk ==> gate.plugin(f.relation))
    && gate.covers(rules[i], f) && forall k :: 0 <= k < i ==> !gate.covers(rules[k], f)
  }

  lemma UsedIff<Rule(!new)>(gate: Gate<Rule>, rules: seq<Rule>, findings: seq<Finding>, i: nat)
    requires i < |rules|
    ensures Used(gate, rules, findings, i) <==> exists f :: f in findings && FirstToExplain(gate, rules, f, i)
  {
    assert forall f :: Gated(gate, f) && FirstRule(gate, rules, f) == i <==> FirstToExplain(gate, rules, f, i);
  }

  datatype Fate = CoreForeignKey | IndexWalk | Explained | Violation

  predicate Meets<Rule(!new)>(gate: Gate<Rule>, rules: seq<Rule>, f: Finding, fate: Fate) {
    match fate
    case CoreForeignKey => f.fk && !gate.plugin(f.relation)
    case IndexWalk => f.indexWalk && (f.fk ==> gate.plugin(f.relation))
    case Explained => Gated(gate, f) && exists k :: 0 <= k < |rules| && gate.covers(rules[k], f)
    case Violation => Gated(gate, f) && forall k :: 0 <= k < |rules| ==> !gate.covers(rules[k], f)
  }

  /** In turn: core foreign keys, index walks, what some rule is the first to explain, and the rest. */
  lemma FatesAre<Rule(!new)>(gate: Gate<Rule>, rules: seq<Rule>, f: Finding)
    ensures var core := f.fk && !gate.plugin(f.relation);
            var explained := exists i: nat :: FirstToExplain(gate, rules, f, i);
            && (Meets(gate, rules, f, CoreForeignKey) <==> core)
            && (Meets(gate, rules, f, IndexWalk) <==> !core && f.indexWalk)
            && (Meets(gate, rules, f, Explained) <==> explained)
            && (Meets(gate, rules, f, Violation) <==> !core && !f.indexWalk && !explained)
  {
    var i := FirstRule(gate, rules, f);
    assert i < |rules| && Gated(gate, f) ==> FirstToExplain(gate, rules, f, i);
  }

  /** The findings that meet one fate, in order. */
  function Meeting<Rule(!new)>(gate: Gate<Rule>, rules: seq<Rule>, findings: seq<Finding>, fate: Fate): seq<Finding> {
    if findings == [] then []
    else
      var k := |findings| - 1;
      Meeting(gate, rules, findings[..k], fate) + if Meets(gate, rules, findings[k], fate) then [findings[k]] else []
  }

  lemma MeetingNext<Rule(!new)>(gate: Gate<Rule>, rules: seq<Rule>, findings: seq<Finding>, k: nat, fate: Fate)
    requires k < |findings|
    ensures Meeting(gate, rules, findings[..k + 1], fate) ==
            Meeting(gate, rules, findings[..k], fate) +
            if Meets(gate, rules, findings[k], fate) then [findings[k]] else []
  {
    assert findings[..k + 1][..k] == findings[..k];
  }

  ghost function Meeters<Rule(!new)>(gate: Gate<Rule>, rules: seq<Rule>, findings: seq<Finding>, fate: Fate)
    : nat -> bool
  {
    (i: nat) => i < |findings| && Meets(gate, rules, findings[i], fate)
  }

  ghost predicate MeetersAt<Rule(!new)>(
    gate: Gate<Rule>, rules: seq<Rule>, findings: seq<Finding>, fate: Fate, k: nat, some: seq<Finding>)
    requires k <= |findings|
  {
    var at := Select(Meeters(gate, rules, findings, fate), 0, k);
    |at| == |some| && forall i :: 0 <= i < |at| ==> some[i] == findings[at[i]]
  }

  /** Under a heading are the findings that meet its fate, each where it stands among all. */
  lemma {:induction false} MeetingAre<Rule(!new)>(
    gate: Gate<Rule>, rules: seq<Rule>, findings: seq<Finding>, fate: Fate, k: nat)
    requires k <= |findings|
    ensures MeetersAt(gate, rules, findings, fate, k, Meeting(gate, rules, findings[..k], fate))
  {
    if k > 0 {
      MeetingAre(gate, rules, findings, fate, k - 1);
      MeetingNext(gate, rules, findings, k - 1, fate);
      SelectLast(Meeters(gate, rules, findings, fate), 0, k - 1);
    }
  }

  /** Every finding meets exactly one fate. */
  lemma {:induction false} OneFateEach<Rule(!new)>(gate: Gate<Rule>, rules: seq<Rule>, findings: seq<Finding>)
    ensures |findings| == |Meeting(gate, rules, findings, CoreForeignKey)| + |Meeting(gate, rules, findings, IndexWalk)|
                          + |Meeting(gate, rules, findings, Explained)| + |Meeting(gate, rules, findings, Violation)|
  {
    if findings != [] {
      OneFateEach(gate, rules, findings[..|findings| - 1]);
    }
  }

  /** The gate sorts the findings by fate, and reports every rule that is the first to explain none. */
  method Evaluate<Rule(!new)>(gate: Gate<Rule>, findings: seq<Finding>, rules: seq<Rule>)
    returns (violations: seq<Finding>, advisory: seq<Finding>, allowed: nat, coveredByFkLint: nat, stale: seq<nat>)
    ensures violations == Meeting(gate, rules, findings, Violation)
    ensures advisory == Meeting(gate, rules, findings, IndexWalk)
    ensures allowed == |Meeting(gate, rules, findings, Explained)|
    ensures coveredByFkLint == |Meeting(gate, rules, findings, CoreForeignKey)|
    ensures forall i :: i in stale <==>
              0 <= i < |rules| && forall f :: f in findings ==> !FirstToExplain(gate, rules, f, i)
    ensures forall a, b :: 0 <= a < b < |stale| ==> stale[a] < stale[b]
  {
    var used: set<nat> := {};
    violations, advisory, allowed, coveredByFkLint := [], [], 0, 0;
    for i := 0 to |findings|
      invariant violations == Meeting(gate, rules, findings[..i], Violation)
      invariant advisory == Meeting(gate, rules, findings[..i], IndexWalk)
      invariant allowed == |Meeting(gate, rules, findings[..i], Explained)|
      invariant coveredByFkLint == |Meeting(gate, rules, findings[..i], CoreForeignKey)|
      invariant forall k: nat :: k in used <==> Used(gate, rules, findings[..i], k)
    {
      var f := findings[i];
      MeetingNext(gate, rules, findings, i, Violation);
      MeetingNext(gate, rules, findings, i, IndexWalk);
      MeetingNext(gate, rules, findings, i, Explained);
      MeetingNext(gate, rules, findings, i, CoreForeignKey);
      if f.fk && !gate.plugin(f.relation) {
        coveredByFkLint := coveredByFkLint + 1;
        continue;
      }
      if f.indexWalk {
        advisory := advisory + [f];
        continue;
      }
      var rule := FirstRule(gate, rules, f);
      if rule < |rules| {
        used := used + {rule};
        allowed := allowed + 1;
        continue;
      }
      violations := violations + [f];
    }
    assert findings[..|findings|] == findings;
    stale := Unused(|rules|, used);
    forall i: nat | i < |rules|
      ensures i in used <==> exists f :: f in findings && FirstToExplain(gate, rules, f, i)
    {
      UsedIff(gate, rules, findings, i);
    }
  }

  /** The numbers below `n` that are not used, in order. */
  method Unused(n: nat, used: set<nat>) returns (stale: seq<nat>)
    ensures forall i :: i in stale <==> 0 <= i < n && i !in used
    ensures forall a, b :: 0 <= a < b < |stale| ==> stale[a] < stale[b]
  {
    stale := [];
    for k := 0 to n
      invariant forall i :: i in stale <==> 0 <= i < k && i !in used
      invariant forall a, b :: 0 <= a < b < |stale| ==> stale[a] < stale[b]
    {
      if k !in used {
        assert forall a :: 0 <= a < |stale| ==> stale[a] in stale;
        stale := stale + [k];
      }
    }
  }
}
