/** The order in which upgraded and fresh installs apply migrations. */
module MigrationOrder {
  import opened Text
  import opened Sorting
  import opened Selection

  predicate EndsWith(f: string, suffix: string) {
    |f| >= |suffix| && f[|f| - |suffix|..] == suffix
  }

  /** `NNNN_name.sql`, but for the 9999 catch-all, which is no schema step. */
  predicate Numbered(f: string) {
    && |f| >= 10
    && (forall i :: 0 <= i < 4 ==> IsDigit(f[i]))
    && f[4] == '_'
    && EndsWith(f, ".sql")
    && !("9999_" <= f)
  }

  lemma CatchAllIff(f: string)
    requires |f| >= 5
    ensures "9999_" <= f <==> f[..4] == "9999" && f[4] == '_'
  {
    assert f[..5] == f[..4] + [f[4]];
    assert f[..5][..4] == f[..4] && "9999_"[..4] == "9999";
  }

  /** Four digits, not 9999, then an underscore, a name and ".sql". */
  lemma NumberedIff(f: string)
    ensures Numbered(f) <==>
            exists digits: string, name: string ::
              && f == digits + "_" + name + ".sql" && name != ""
              && |digits| == 4 && digits != "9999" && forall i :: 0 <= i < 4 ==> IsDigit(digits[i])
  {
    if Numbered(f) {
      var digits, name := f[..4], f[5..|f| - 4];
      assert f[|f| - 4..] == ".sql" && f == f[..4] + [f[4]] + f[5..|f| - 4] + f[|f| - 4..];
      CatchAllIff(f);
      assert f == digits + "_" + name + ".sql";
    }
    forall digits: string, name: string | f == digits + "_" + name + ".sql" && name != ""
        && |digits| == 4 && digits != "9999" && forall i :: 0 <= i < 4 ==> IsDigit(digits[i])
      ensures Numbered(f)
    {
      assert f[..4] == digits && f[4] == '_' && f[|f| - 4..] == ".sql";
      CatchAllIff(f);
    }
  }

  function OnlyNumbered(files: seq<string>): seq<string> {
    if files == [] then []
    else OnlyNumbered(files[..|files| - 1]) + if Numbered(files[|files| - 1]) then [files[|files| - 1]] else []
  }

  predicate Below(f: string, head: string) {
    f != head && StringLeq(f, head)
  }

  /** The newest numbered migration of a release. */
  function HeadOf(shipped: seq<string>): Option<string> {
    var sorted := Sort(OnlyNumbered(shipped), StringLeq);
    if sorted == [] then None else Some(sorted[|sorted| - 1])
  }

  function BelowHead(files: seq<string>, head: string): seq<string> {
    if files == [] then []
    else BelowHead(files[..|files| - 1], head) + if Below(files[|files| - 1], head) then [files[|files| - 1]] else []
  }

  /** The added migrations of one database that sort below one the release already shipped. */
  function OutOfOrder(shipped: seq<string>, added: seq<string>): seq<string> {
    match HeadOf(shipped)
    case None => []
    case Some(head) => BelowHead(OnlyNumbered(added), head)
  }

  /** A file reported, with the newest numbered migration its database shipped. */
  datatype Misplaced = Misplaced(database: string, file: string, head: string)

  function InDatabase(db: string, files: seq<string>, head: string): seq<Misplaced> {
    seq(|files|, i requires 0 <= i < |files| => Misplaced(db, files[i], head))
  }

  function ReportOf(db: string, shipped: seq<string>, added: seq<string>): seq<Misplaced> {
    match HeadOf(shipped)
    case None => []
    case Some(head) => InDatabase(db, OutOfOrder(shipped, added), head)
  }

  /** The report over several databases, in their order. */
  function Report(databases: seq<string>, shipped: map<string, seq<string>>, added: map<string, seq<string>>)
    : seq<Misplaced>
  {
    if databases == [] then []
    else
      var db := databases[|databases| - 1];
      Report(databases[..|databases| - 1], shipped, added) + ReportFor(db, shipped, added)
  }

  method MisplacedIn(db: string, files: seq<string>, head: string) returns (out: seq<Misplaced>)
    ensures out == InDatabase(db, BelowHead(files, head), head)
  {
    out := [];
    for k := 0 to |files|
      invariant out == InDatabase(db, BelowHead(files[..k], head), head)
    {
      assert files[..k + 1][..k] == files[..k];
      if Below(files[k], head) {
        out := out + [Misplaced(db, files[k], head)];
      }
    }
    assert files[..|files|] == files;
  }

  method OutOfOrderMigrations(
    databases: seq<string>, shipped: map<string, seq<string>>, added: map<string, seq<string>>)
    returns (out: seq<Misplaced>)
    requires forall db :: db in databases ==> db in added
    ensures out == Report(databases, shipped, added)
  {
    out := [];
    for i := 0 to |databases|
      invariant out == Report(databases[..i], shipped, added)
    {
      var db := databases[i];
      assert databases[..i + 1][..i] == databases[..i];
      var head := if db in shipped then HeadOf(shipped[db]) else None;
      if head.None? {
        continue;
      }
      var misplaced := MisplacedIn(db, OnlyNumbered(added[db]), head.value);
      out := out + misplaced;
    }
    assert databases[..|databases|] == databases;
  }

  // ---- the check is exact ----

  lemma {:induction false} BelowHeadEmpty(files: seq<string>, head: string)
    ensures BelowHead(files, head) == [] <==> forall f :: f in files ==> !Below(f, head)
  {
    if files != [] {
      BelowHeadEmpty(files[..|files| - 1], head);
      assert files == files[..|files| - 1] + [files[|files| - 1]];
    }
  }

  /** Every numbered file of `a` sorts no later than every one of `b`. */
  ghost predicate AllBefore(a: seq<string>, b: seq<string>) {
    forall x, y :: x in a && y in b ==> StringLeq(x, y)
  }

  lemma SortMembers(s: seq<string>)
    ensures forall x :: x in s <==> x in Sort(s, StringLeq)
  {
    SortMultiset(s, StringLeq);
    assert forall x :: x in s <==> x in multiset(s);
    assert forall x :: x in Sort(s, StringLeq) <==> x in multiset(Sort(s, StringLeq));
  }

  lemma OutOfOrderEmpty(shipped: seq<string>, added: seq<string>)
    ensures OutOfOrder(shipped, added) == [] <==> AllBefore(OnlyNumbered(shipped), OnlyNumbered(added))
  {
    StringOrder();
    var s := OnlyNumbered(shipped);
    SortMembers(s);
    SortSorted(s, StringLeq);
    var sorted := Sort(s, StringLeq);
    if sorted == [] {
      assert forall x :: x !in s;
    } else {
      var head := sorted[|sorted| - 1];
      BelowHeadEmpty(OnlyNumbered(added), head);
      assert head in sorted && head in s;
      forall x | x in s ensures StringLeq(x, head) {
        var i :| 0 <= i < |sorted| && sorted[i] == x;
      }
      assert forall y :: !Below(y, head) <==> StringLeq(head, y);
    }
  }

  lemma SortParts(a: seq<string>, b: seq<string>)
    ensures Sort(a + b, StringLeq) == Sort(a, StringLeq) + Sort(b, StringLeq) <==> AllBefore(a, b)
  {
    StringOrder();
    var x, y := Sort(a, StringLeq), Sort(b, StringLeq);
    SortMembers(a);
    SortMembers(b);
    SortMultiset(a, StringLeq);
    SortMultiset(b, StringLeq);
    SortSorted(a, StringLeq);
    SortSorted(b, StringLeq);
    if AllBefore(a, b) {
      assert multiset(x + y) == multiset(a + b);
      SortedBoth(x, y);
      SortOf(a + b, x + y, StringLeq);
    }
    if Sort(a + b, StringLeq) == x + y {
      SortSorted(a + b, StringLeq);
      PartsBefore(x, y);
    }
  }

  lemma SortedBoth(x: seq<string>, y: seq<string>)
    requires Sorted(x, StringLeq) && Sorted(y, StringLeq) && AllBefore(x, y)
    ensures Sorted(x + y, StringLeq)
  {
    forall i, j | 0 <= i < j < |x + y| ensures StringLeq((x + y)[i], (x + y)[j]) {
      if i < |x| <= j {
        assert x[i] in x && y[j - |x|] in y;
      }
    }
  }

  lemma PartsBefore(x: seq<string>, y: seq<string>)
    requires Sorted(x + y, StringLeq)
    ensures AllBefore(x, y)
  {
    forall p, q | p in x && q in y ensures StringLeq(p, q) {
      var i :| 0 <= i < |x| && x[i] == p;
      var j :| 0 <= j < |y| && y[j] == q;
      assert (x + y)[i] == p && (x + y)[|x| + j] == q;
    }
  }

  lemma {:induction false} NumberedAppend(a: seq<string>, b: seq<string>)
    ensures OnlyNumbered(a + b) == OnlyNumbered(a) + OnlyNumbered(b)
  {
    if b == [] {
      assert a + b == a;
    } else {
      assert (a + b)[..|a + b| - 1] == a + b[..|b| - 1];
      NumberedAppend(a, b[..|b| - 1]);
    }
  }

  /** What a fresh install of `files` applies, in order. */
  function Fresh(files: seq<string>): seq<string> {
    Sort(OnlyNumbered(files), StringLeq)
  }

  /** Nothing is reported exactly when an upgrade applies the migrations in a fresh install's order. */
  lemma ReportExact(shipped: seq<string>, added: seq<string>)
    ensures OutOfOrder(shipped, added) == [] <==> Fresh(shipped + added) == Fresh(shipped) + Fresh(added)
  {
    OutOfOrderEmpty(shipped, added);
    NumberedAppend(shipped, added);
    SortParts(OnlyNumbered(shipped), OnlyNumbered(added));
  }

  // ---- what is reported ----

  /** `head` is the newest numbered file shipped. */
  predicate NewestNumbered(shipped: seq<string>, head: string) {
    && head in shipped && Numbered(head)
    && forall x :: x in shipped && Numbered(x) ==> StringLeq(x, head)
  }

  lemma HeadIs(shipped: seq<string>)
    ensures match HeadOf(shipped)
            case None => forall x :: x in shipped ==> !Numbered(x)
            case Some(head) => NewestNumbered(shipped, head)
  {
    StringOrder();
    var s := OnlyNumbered(shipped);
    var sorted := Sort(s, StringLeq);
    NumberedMembers(shipped);
    SortMembers(s);
    SortSorted(s, StringLeq);
    if sorted == [] {
      assert forall x :: x !in s;
    } else {
      var head := sorted[|sorted| - 1];
      assert head in sorted;
      forall x | x in s ensures StringLeq(x, head) {
        var i :| 0 <= i < |sorted| && sorted[i] == x;
      }
    }
  }

  /** The added files that are numbered and sort below `head`. */
  function Misfits(added: seq<string>, head: string): nat -> bool {
    (i: nat) => i < |added| && Numbered(added[i]) && added[i] != head && StringLeq(added[i], head)
  }

  ghost predicate MisfitsAt(added: seq<string>, head: string, k: nat, files: seq<string>)
    requires k <= |added|
  {
    var at := Select(Misfits(added, head), 0, k);
    |at| == |files| && forall i :: 0 <= i < |at| ==> files[i] == added[at[i]]
  }

  lemma BelowNext(files: seq<string>, f: string, head: string)
    ensures BelowHead(files + [f], head) == BelowHead(files, head) + if Below(f, head) then [f] else []
    ensures BelowHead(files + [], head) == BelowHead(files, head)
  {
    assert (files + [f])[..|files|] == files && files + [] == files;
  }

  lemma MisfitsNext(added: seq<string>, head: string, k: nat, files: seq<string>)
    requires k < |added| && MisfitsAt(added, head, k, files)
    ensures MisfitsAt(added, head, k + 1, files + if Misfits(added, head)(k) then [added[k]] else [])
  {
    SelectLast(Misfits(added, head), 0, k);
  }

  lemma BelowStep(added: seq<string>, head: string, k: nat)
    requires k < |added|
    ensures BelowHead(OnlyNumbered(added[..k + 1]), head) ==
            BelowHead(OnlyNumbered(added[..k]), head) + if Misfits(added, head)(k) then [added[k]] else []
  {
    assert added[..k + 1][..k] == added[..k];
    BelowNext(OnlyNumbered(added[..k]), added[k], head);
  }

  lemma {:induction false} BelowHeadAre(added: seq<string>, head: string, k: nat)
    requires k <= |added|
    ensures MisfitsAt(added, head, k, BelowHead(OnlyNumbered(added[..k]), head))
  {
    if k > 0 {
      BelowHeadAre(added, head, k - 1);
      BelowStep(added, head, k - 1);
      MisfitsNext(added, head, k - 1, BelowHead(OnlyNumbered(added[..k - 1]), head));
    }
  }

  /** For a database: every misplaced file that was added, in order, each with the newest one shipped. */
  lemma ReportIs(db: string, shipped: seq<string>, added: seq<string>) returns (files: seq<string>)
    ensures match HeadOf(shipped)
            case None => ReportOf(db, shipped, added) == []
            case Some(head) =>
              && NewestNumbered(shipped, head)
              && ReportOf(db, shipped, added) == InDatabase(db, files, head)
              && MisfitsAt(added, head, |added|, files)
  {
    HeadIs(shipped);
    files := OutOfOrder(shipped, added);
    if HeadOf(shipped).Some? {
      BelowHeadAre(added, HeadOf(shipped).value, |added|);
      assert added[..|added|] == added;
    }
  }

  /** What is reported for one database; one that neither tree has is passed over. */
  function ReportFor(db: string, shipped: map<string, seq<string>>, added: map<string, seq<string>>): seq<Misplaced> {
    if db in shipped && db in added then ReportOf(db, shipped[db], added[db]) else []
  }

  /** The report goes database by database, in their order, and is empty for none. */
  lemma ReportNext(
    a: seq<string>, db: string, shipped: map<string, seq<string>>, added: map<string, seq<string>>)
    ensures Report([], shipped, added) == []
    ensures Report(a + [db], shipped, added) == Report(a, shipped, added) + ReportFor(db, shipped, added)
  {
    assert (a + [db])[..|a|] == a;
  }

  // ---- over a chain of releases ----

  /** The migrations of the first `k` releases of a chain; release `i` added `adds[i]`. */
  function Tree(adds: seq<seq<string>>, k: nat): seq<string>
    requires k <= |adds|
  {
    if k == 0 then [] else Tree(adds, k - 1) + adds[k - 1]
  }

  /** What releases `a` to `b` added. */
  function Between(adds: seq<seq<string>>, a: nat, b: nat): seq<string>
    requires a <= b <= |adds|
  {
    if a == b then [] else Between(adds, a, b - 1) + adds[b - 1]
  }

  predicate StepInOrder(adds: seq<seq<string>>, k: nat)
    requires k < |adds|
  {
    OutOfOrder(Tree(adds, k), adds[k]) == []
  }

  ghost predicate ChainInOrder(adds: seq<seq<string>>) {
    forall k :: 0 <= k < |adds| ==> StepInOrder(adds, k)
  }

  lemma {:induction false} TreeBetween(adds: seq<seq<string>>, a: nat, b: nat)
    requires a <= b <= |adds|
    ensures Tree(adds, b) == Tree(adds, a) + Between(adds, a, b)
  {
    if a < b {
      TreeBetween(adds, a, b - 1);
    }
  }

  lemma {:induction false} NumberedMembers(files: seq<string>)
    ensures forall x :: x in OnlyNumbered(files) <==> x in files && Numbered(x)
  {
    if files != [] {
      NumberedMembers(files[..|files| - 1]);
      assert files == files[..|files| - 1] + [files[|files| - 1]];
    }
  }

  /** Of the numbered files, no one of `b` sorts below one of `a`. */
  ghost predicate NumberedBefore(a: seq<string>, b: seq<string>) {
    forall x, y :: x in a && y in b && Numbered(x) && Numbered(y) ==> StringLeq(x, y)
  }

  lemma NothingReportedIff(shipped: seq<string>, added: seq<string>)
    ensures OutOfOrder(shipped, added) == [] <==> NumberedBefore(shipped, added)
  {
    OutOfOrderEmpty(shipped, added);
    NumberedMembers(shipped);
    NumberedMembers(added);
  }

  lemma ChainStep(adds: seq<seq<string>>, k: nat)
    requires k < |adds| && ChainInOrder(adds)
    ensures NumberedBefore(Tree(adds, k), adds[k])
  {
    assert StepInOrder(adds, k);
    NothingReportedIff(Tree(adds, k), adds[k]);
  }

  lemma {:induction false} BetweenBehind(adds: seq<seq<string>>, a: nat, b: nat)
    requires a <= b <= |adds| && ChainInOrder(adds)
    ensures NumberedBefore(Tree(adds, a), Between(adds, a, b))
    decreases b
  {
    if a < b {
      BetweenBehind(adds, a, b - 1);
      TreeBetween(adds, a, b - 1);
      ChainStep(adds, b - 1);
    }
  }

  /** An upgrade over any number of releases of a checked chain is itself in order. */
  lemma BetweenAfter(adds: seq<seq<string>>, a: nat, b: nat)
    requires a <= b <= |adds| && ChainInOrder(adds)
    ensures OutOfOrder(Tree(adds, a), Between(adds, a, b)) == []
  {
    BetweenBehind(adds, a, b);
    NothingReportedIff(Tree(adds, a), Between(adds, a, b));
  }

  /** The releases an install stops at, ending at the newest. */
  predicate Stops(stops: seq<nat>, n: nat) {
    && (forall i :: 0 <= i < |stops| ==> stops[i] <= n)
    && (forall i, j :: 0 <= i < j < |stops| ==> stops[i] < stops[j])
  }

  function LastStop(stops: seq<nat>): nat {
    if stops == [] then 0 else stops[|stops| - 1]
  }

  /** What an install applies that stops at each of `stops`: at each, the new migrations, sorted. */
  function Applied(adds: seq<seq<string>>, stops: seq<nat>): seq<string>
    requires Stops(stops, |adds|)
  {
    if stops == [] then []
    else
      var before := stops[..|stops| - 1];
      Applied(adds, before) + Fresh(Between(adds, LastStop(before), LastStop(stops)))
  }

  /** In a checked chain, every install applies the migrations in a fresh install's order. */
  lemma {:induction false} EveryInstallInOrder(adds: seq<seq<string>>, stops: seq<nat>)
    requires ChainInOrder(adds) && Stops(stops, |adds|)
    ensures Applied(adds, stops) == Fresh(Tree(adds, LastStop(stops)))
  {
    if stops != [] {
      var before := stops[..|stops| - 1];
      EveryInstallInOrder(adds, before);
      BetweenAfter(adds, LastStop(before), LastStop(stops));
      TreeBetween(adds, LastStop(before), LastStop(stops));
      ReportExact(Tree(adds, LastStop(before)), Between(adds, LastStop(before), LastStop(stops)));
    }
  }
}
