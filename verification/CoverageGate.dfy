/** Running the tests in shards and merging measures what one run would. */
module CoverageGate {
  import opened Text
  import opened Sorting
  import opened ShardBound
  import opened Sharding
  import opened Coverage

  /** What each test file contributes, whichever files run beside it. */
  datatype Contribution = Contribution(found: string -> set<Spot>, hit: string -> set<Spot>, ops: string -> set<string>)

  /** The contributions of `names` together. */
  function Gathered<T>(names: seq<string>, of: string -> set<T>): set<T> {
    set n, x | n in names && x in of(n) :: x
  }

  lemma GatheredSame<T>(a: seq<string>, b: seq<string>, of: string -> set<T>)
    requires multiset(a) == multiset(b)
    ensures Gathered(a, of) == Gathered(b, of)
  {
    assert forall n :: n in a <==> n in multiset(a);
    assert forall n :: n in b <==> n in multiset(b);
    assert forall n :: n in a <==> n in b;
  }

  /** A tier run over its share leaves its data; an empty share is not run and leaves none. */
  ghost predicate RanUnit(data: ShardData, share: seq<string>, c: Contribution) {
    if share == [] then data.lcov.None?
    else
      && data.lcov.Some?
      && Found(data.lcov.value) == Gathered(share, c.found)
      && Hit(data.lcov.value) == Gathered(share, c.hit)
  }

  ghost predicate RanIntegration(data: ShardData, share: seq<string>, c: Contribution) {
    if share == [] then data.ops.None? else data.ops.Some? && OpsOf(data.ops.value) == Gathered(share, c.ops)
  }

  /**
    The directories found: `merged[i]` is what shard `present[i]` of `count` left after it ran its
    share of both tiers. Nothing says that every shard of the run is among them.
   */
  ghost predicate RanSome(
    merged: seq<ShardData>, present: seq<nat>, count: nat, unit: seq<File>, integration: seq<File>, c: Contribution)
  {
    && |merged| == |present| && count > 0 && (forall i :: 0 <= i < |present| ==> present[i] < count)
    && forall i :: 0 <= i < |merged| ==>
                     && RanUnit(merged[i], ShardOf(unit, present[i], count), c)
                     && RanIntegration(merged[i], ShardOf(integration, present[i], count), c)
  }

  /** Every shard of a run of `n`. */
  function Every(n: nat): (present: seq<nat>)
    ensures |present| == n && forall i :: 0 <= i < n ==> present[i] == i
  {
    seq(n, i requires 0 <= i < n => i)
  }

  /** Every shard of the run left its directory. */
  ghost predicate Ran(shards: seq<ShardData>, unit: seq<File>, integration: seq<File>, c: Contribution) {
    RanSome(shards, Every(|shards|), |shards|, unit, integration, c)
  }

  /** The shares of the shards found. */
  function SharesOf(files: seq<File>, present: seq<nat>, count: nat): (parts: seq<seq<string>>)
    requires count > 0
    ensures |parts| == |present|
  {
    seq(|present|, i requires 0 <= i < |present| => ShardOf(files, present[i], count))
  }

  lemma ReportsOne(shards: seq<ShardData>)
    requires shards != [] && shards[|shards| - 1].lcov.Some?
    ensures var before, last := shards[..|shards| - 1], shards[|shards| - 1].lcov.value;
            && AllFound(Reports(shards)) == AllFound(Reports(before)) + Found(last)
            && AllHit(Reports(shards)) == AllHit(Reports(before)) + Hit(last)
  {
    var before, last := shards[..|shards| - 1], shards[|shards| - 1].lcov.value;
    assert Reports(shards) == Reports(before) + [last];
    assert (Reports(before) + [last])[..|Reports(before)|] == Reports(before);
  }

  lemma {:induction false} UnitMerged(shards: seq<ShardData>, parts: seq<seq<string>>, c: Contribution)
    requires |parts| == |shards|
    requires forall s :: 0 <= s < |shards| ==> RanUnit(shards[s], parts[s], c) && shards[s].lcov.Some?
    ensures AllFound(Reports(shards)) == Gathered(Flat(parts), c.found)
    ensures AllHit(Reports(shards)) == Gathered(Flat(parts), c.hit)
  {
    if shards != [] {
      var k := |shards| - 1;
      UnitMerged(shards[..k], parts[..k], c);
      assert RanUnit(shards[k], parts[k], c);
      ReportsOne(shards);
    }
  }

  lemma {:induction false} IntegrationMerged(shards: seq<ShardData>, parts: seq<seq<string>>, c: Contribution)
    requires |parts| == |shards|
    requires forall s :: 0 <= s < |shards| ==> RanIntegration(shards[s], parts[s], c) && shards[s].ops.Some?
    ensures Executed(shards) == Gathered(Flat(parts), c.ops)
  {
    if shards != [] {
      var k := |shards| - 1;
      IntegrationMerged(shards[..k], parts[..k], c);
      assert RanIntegration(shards[k], parts[k], c);
    }
  }

  /** No shard found was left without a file of a tier. */
  predicate NoneEmptyOf(present: seq<nat>, count: nat, unit: seq<File>, integration: seq<File>)
    requires count > 0
  {
    forall i :: 0 <= i < |present| ==>
                  ShardOf(unit, present[i], count) != [] && ShardOf(integration, present[i], count) != []
  }

  lemma CompleteIff(
    merged: seq<ShardData>, present: seq<nat>, count: nat, unit: seq<File>, integration: seq<File>, c: Contribution)
    requires RanSome(merged, present, count, unit, integration, c)
    ensures Complete(merged) <==> merged != [] && NoneEmptyOf(present, count, unit, integration)
  {
    forall i | 0 <= i < |merged|
      ensures merged[i].lcov.Some? && merged[i].ops.Some? <==>
              ShardOf(unit, present[i], count) != [] && ShardOf(integration, present[i], count) != []
    {
      assert RanUnit(merged[i], ShardOf(unit, present[i], count), c);
    }
  }

  /** What the merge measures is what the shards found contribute, and no more. */
  lemma MergeMeasures(
    merged: seq<ShardData>, present: seq<nat>, count: nat, unit: seq<File>, integration: seq<File>, c: Contribution)
    requires RanSome(merged, present, count, unit, integration, c) && Complete(merged)
    ensures AllFound(Reports(merged)) == Gathered(Flat(SharesOf(unit, present, count)), c.found)
    ensures AllHit(Reports(merged)) == Gathered(Flat(SharesOf(unit, present, count)), c.hit)
    ensures Executed(merged) == Gathered(Flat(SharesOf(integration, present, count)), c.ops)
  {
    UnitMerged(merged, SharesOf(unit, present, count), c);
    IntegrationMerged(merged, SharesOf(integration, present, count), c);
  }

  /**
    The merge is accepted exactly when some shard was found, none of those found was left without
    a file of a tier, and some unit test file of theirs has line data.
   */
  lemma AcceptedIff(
    merged: seq<ShardData>, present: seq<nat>, count: nat, unit: seq<File>, integration: seq<File>, c: Contribution)
    requires RanSome(merged, present, count, unit, integration, c)
    ensures Accepted(merged) <==>
            && merged != [] && NoneEmptyOf(present, count, unit, integration)
            && exists n :: n in Flat(SharesOf(unit, present, count)) && c.found(n) != {}
  {
    CompleteIff(merged, present, count, unit, integration, c);
    if Complete(merged) {
      MergeMeasures(merged, present, count, unit, integration, c);
      GatheredSome(Flat(SharesOf(unit, present, count)), c.found);
    }
  }

  lemma GatheredSome<T>(names: seq<string>, of: string -> set<T>)
    ensures Gathered(names, of) != {} <==> exists n :: n in names && of(n) != {}
  {
    if Gathered(names, of) != {} {
      var x :| x in Gathered(names, of);
      var n :| n in names && x in of(n);
    }
    if exists n :: n in names && of(n) != {} {
      var n :| n in names && of(n) != {};
      var x :| x in of(n);
      assert x in Gathered(names, of);
    }
  }

  // ---- every shard is found ----

  lemma EveryShare(files: seq<File>, count: nat)
    requires count > 0
    ensures SharesOf(files, Every(count), count) == ShardList(files, count)
  {
  }

  /**
    Sharding is invisible to the gate: whenever the merge has every shard's data, the lines found,
    the lines hit and the operations are those of all the files, whatever the number of shards.
   */
  lemma ShardingInvisible(shards: seq<ShardData>, unit: seq<File>, integration: seq<File>, c: Contribution)
    requires Ran(shards, unit, integration, c) && Complete(shards)
    ensures AllFound(Reports(shards)) == Gathered(Names(unit), c.found)
    ensures AllHit(Reports(shards)) == Gathered(Names(unit), c.hit)
    ensures Executed(shards) == Gathered(Names(integration), c.ops)
  {
    var count := |shards|;
    MergeMeasures(shards, Every(count), count, unit, integration, c);
    EveryShare(unit, count);
    EveryShare(integration, count);
    ShardsPartition(unit, count);
    ShardsPartition(integration, count);
    GatheredSame(AllShards(unit, count), Names(unit), c.found);
    GatheredSame(AllShards(unit, count), Names(unit), c.hit);
    GatheredSame(AllShards(integration, count), Names(integration), c.ops);
  }

  lemma EveryFile(files: seq<File>, count: nat, n: string)
    requires count > 0
    ensures n in Names(files) <==> n in Flat(ShardList(files, count))
  {
    ShardsPartition(files, count);
    assert n in Names(files) <==> n in multiset(Names(files));
    assert n in AllShards(files, count) <==> n in multiset(AllShards(files, count));
  }

  /** With positive sizes, at least as many files of each tier as shards, and some line data, it never refuses. */
  lemma NeverRefuses(shards: seq<ShardData>, unit: seq<File>, integration: seq<File>, c: Contribution)
    requires Ran(shards, unit, integration, c)
    requires |shards| <= |unit| && forall f :: f in unit ==> f.size > 0
    requires |shards| <= |integration| && forall f :: f in integration ==> f.size > 0
    requires exists n :: n in Names(unit) && c.found(n) != {}
    ensures Accepted(shards)
  {
    var count := |shards|;
    NoneEmptyWith(Every(count), count, unit, integration);
    var n :| n in Names(unit) && c.found(n) != {};
    EveryFile(unit, count, n);
    EveryShare(unit, count);
    AcceptedIff(shards, Every(count), count, unit, integration, c);
  }

  lemma NoneEmptyWith(present: seq<nat>, count: nat, unit: seq<File>, integration: seq<File>)
    requires count > 0 && forall i :: 0 <= i < |present| ==> present[i] < count
    requires count <= |unit| && forall f :: f in unit ==> f.size > 0
    requires count <= |integration| && forall f :: f in integration ==> f.size > 0
    ensures NoneEmptyOf(present, count, unit, integration)
  {
    forall i | 0 <= i < |present|
      ensures ShardOf(unit, present[i], count) != [] && ShardOf(integration, present[i], count) != []
    {
      NoShardEmpty(unit, present[i], count);
      NoShardEmpty(integration, present[i], count);
    }
  }

  // ---- a shard is missing ----

  /** All that the files of the shards that are missing contribute, the others contribute too. */
  ghost predicate MadeUpFor<T>(files: seq<File>, present: seq<nat>, count: nat, of: string -> set<T>)
    requires count > 0
  {
    forall s, n :: 0 <= s < count && s !in present && n in ShardOf(files, s, count) ==>
                     of(n) <= Gathered(Flat(SharesOf(files, present, count)), of)
  }

  lemma {:induction false} FlatMembers(parts: seq<seq<string>>, n: string)
    ensures n in Flat(parts) <==> exists s :: 0 <= s < |parts| && n in parts[s]
  {
    if parts != [] {
      var k := |parts| - 1;
      FlatMembers(parts[..k], n);
      if n in Flat(parts[..k]) {
        var s :| 0 <= s < k && n in parts[..k][s];
        assert n in parts[s];
      }
      if exists s :: 0 <= s < |parts| && n in parts[s] {
        var s :| 0 <= s < |parts| && n in parts[s];
        assert s < k ==> n in parts[..k][s];
      }
    }
  }

  /** A file is in the share of some shard of the run; it is among the files found when that shard is. */
  lemma FileShard(files: seq<File>, present: seq<nat>, count: nat, n: string)
    requires count > 0 && forall i :: 0 <= i < |present| ==> present[i] < count
    ensures n in Names(files) <==> exists s :: 0 <= s < count && n in ShardOf(files, s, count)
    ensures n in Flat(SharesOf(files, present, count)) <==> exists s :: s in present && n in ShardOf(files, s, count)
  {
    EveryFile(files, count, n);
    FlatMembers(ShardList(files, count), n);
    FlatMembers(SharesOf(files, present, count), n);
    if n in Names(files) {
      var s :| 0 <= s < count && n in ShardList(files, count)[s];
      assert n in ShardOf(files, s, count);
    }
    if exists s :: 0 <= s < count && n in ShardOf(files, s, count) {
      var s :| 0 <= s < count && n in ShardOf(files, s, count);
      assert n in ShardList(files, count)[s];
    }
    if n in Flat(SharesOf(files, present, count)) {
      var i :| 0 <= i < |present| && n in SharesOf(files, present, count)[i];
      assert present[i] in present && n in ShardOf(files, present[i], count);
    }
    if exists s :: s in present && n in ShardOf(files, s, count) {
      var s :| s in present && n in ShardOf(files, s, count);
      var i :| 0 <= i < |present| && present[i] == s;
      assert n in SharesOf(files, present, count)[i];
    }
  }

  lemma MadeUpIff<T>(files: seq<File>, present: seq<nat>, count: nat, of: string -> set<T>)
    requires count > 0 && forall i :: 0 <= i < |present| ==> present[i] < count
    ensures Gathered(Flat(SharesOf(files, present, count)), of) <= Gathered(Names(files), of)
    ensures Gathered(Flat(SharesOf(files, present, count)), of) == Gathered(Names(files), of) <==>
            MadeUpFor(files, present, count, of)
  {
    var some, all := Gathered(Flat(SharesOf(files, present, count)), of), Gathered(Names(files), of);
    forall x | x in some ensures x in all {
      var n :| n in Flat(SharesOf(files, present, count)) && x in of(n);
      FileShard(files, present, count, n);
    }
    if some == all {
      forall s, n | 0 <= s < count && s !in present && n in ShardOf(files, s, count) ensures of(n) <= some {
        FileShard(files, present, count, n);
      }
    }
    if MadeUpFor(files, present, count, of) {
      forall x | x in all ensures x in some {
        var n :| n in Names(files) && x in of(n);
        FileShard(files, present, count, n);
        var s :| 0 <= s < count && n in ShardOf(files, s, count);
        assert s in present ==> n in Flat(SharesOf(files, present, count));
      }
    }
  }

  /**
    The gate never learns how many shards there should be. A merge it accepts measures what one
    run would exactly when the files of the shards that left no directory contribute nothing that
    the others do not.
   */
  lemma MissingShardsIff(
    merged: seq<ShardData>, present: seq<nat>, count: nat, unit: seq<File>, integration: seq<File>, c: Contribution)
    requires RanSome(merged, present, count, unit, integration, c) && Complete(merged)
    ensures AllFound(Reports(merged)) == Gathered(Names(unit), c.found) <==> MadeUpFor(unit, present, count, c.found)
    ensures AllHit(Reports(merged)) == Gathered(Names(unit), c.hit) <==> MadeUpFor(unit, present, count, c.hit)
    ensures Executed(merged) == Gathered(Names(integration), c.ops) <==> MadeUpFor(integration, present, count, c.ops)
  {
    MergeMeasures(merged, present, count, unit, integration, c);
    MadeUpIff(unit, present, count, c.found);
    MadeUpIff(unit, present, count, c.hit);
    MadeUpIff(integration, present, count, c.ops);
  }

  /**
    So a missing shard does read as less coverage: with enough files of positive size, and some
    line data among the shards found, the merge without it is accepted, and short of a line that
    only a file of that shard covers.
   */
  lemma MissingShardAccepted(
    merged: seq<ShardData>, present: seq<nat>, count: nat, unit: seq<File>, integration: seq<File>, c: Contribution,
    missing: nat, lost: string, line: Spot)
    requires RanSome(merged, present, count, unit, integration, c) && merged != []
    requires count <= |unit| && forall f :: f in unit ==> f.size > 0
    requires count <= |integration| && forall f :: f in integration ==> f.size > 0
    requires exists n :: n in Flat(SharesOf(unit, present, count)) && c.found(n) != {}
    requires missing < count && missing !in present && lost in ShardOf(unit, missing, count) && line in c.found(lost)
    requires line !in Gathered(Flat(SharesOf(unit, present, count)), c.found)
    ensures Accepted(merged)
    ensures AllFound(Reports(merged)) < Gathered(Names(unit), c.found)
    ensures line in Gathered(Names(unit), c.found) && line !in AllFound(Reports(merged))
  {
    NoneEmptyWith(present, count, unit, integration);
    AcceptedIff(merged, present, count, unit, integration, c);
    MergeMeasures(merged, present, count, unit, integration, c);
    MadeUpIff(unit, present, count, c.found);
    FileShard(unit, present, count, lost);
  }
}
